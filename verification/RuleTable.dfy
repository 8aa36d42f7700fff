/**
  What the parser makes of a syntax tree: a table of symbol ids and rules. Groups and repetitions
  become rules with generated names; everything is appended, nothing that was there is touched.
  */
module RuleTable {
  import opened GrammarElements
  import opened Repetition
  import opened GrammarSyntax

  // ---------------------------------------------------------------------------------------
  // Names
  // ---------------------------------------------------------------------------------------

  /** The name of a generated rule. User-defined names hold no underscore. */
  function GeneratedName(base: Name, n: nat): Name {
    base + [UNDERSCORE] + Decimal(n)
  }

  /** The number in a generated name can be read off. */
  lemma GeneratedNameNumber(base: Name, n: nat, base': Name, n': nat)
    requires UNDERSCORE !in base && UNDERSCORE !in base' && GeneratedName(base, n) == GeneratedName(base', n')
    ensures base == base' && n == n'
  {
    var name := GeneratedName(base, n);
    DecimalRoundTrip(n);
    DecimalRoundTrip(n');
    assert name[|base|] == UNDERSCORE && name[|base'|] == UNDERSCORE;
    assert forall i :: 0 <= i < |base| ==> name[i] == base[i];
    assert forall i :: 0 <= i < |base'| ==> name[i] == base'[i];
    assert |base| == |base'|;
    assert name[|base| + 1..] == Decimal(n) && name[|base'| + 1..] == Decimal(n');
    assert name[..|base|] == base && name[..|base'|] == base';
  }

  lemma GeneratedHasUnderscore(base: Name, n: nat)
    ensures UNDERSCORE in GeneratedName(base, n)
  {
    assert GeneratedName(base, n)[|base|] == UNDERSCORE;
  }

  /** What stands in front of the first underscore. */
  function BaseOf(name: Name): (base: Name)
    ensures UNDERSCORE !in base
  {
    if name == [] || name[0] == UNDERSCORE then [] else [name[0]] + BaseOf(name[1..])
  }

  lemma {:induction false} BaseOfGenerated(base: Name, rest: Name)
    requires UNDERSCORE !in base
    ensures BaseOf(base + [UNDERSCORE] + rest) == base
    decreases |base|
  {
    if base != [] {
      BaseOfGenerated(base[1..], rest);
      assert (base + [UNDERSCORE] + rest)[1..] == base[1..] + [UNDERSCORE] + rest;
    }
  }

  /** A name is the user's, without an underscore, or it was generated together with its id. */
  ghost predicate NameFits(name: Name, id: nat) {
    UNDERSCORE in name ==> name == GeneratedName(BaseOf(name), id)
  }

  // ---------------------------------------------------------------------------------------
  // Tables
  // ---------------------------------------------------------------------------------------

  datatype Table = Table(ids: map<Name, nat>, rules: Rules)

  /** A rule that is still being built: no END yet, classes in order, references to known symbols. */
  ghost predicate BufferOk(rule: seq<Element>, n: nat) {
    (forall i :: 0 <= i < |rule| ==> !rule[i].kind.END?) && WellNested(rule) && RefsBelow(rule, n)
  }

  ghost predicate TableOk(rules: Rules, n: nat) {
    && |rules| <= n
    && forall q :: 0 <= q < |rules| ==> (rules[q] == [] || WellShaped(rules[q])) && RefsBelow(rules[q], n)
  }

  ghost predicate HasName(ids: map<Name, nat>, id: nat) {
    exists s :: s in ids && ids[s] == id
  }

  /** The ids are 0, 1, 2, ..., each of exactly one name. */
  ghost predicate Bijective(ids: map<Name, nat>) {
    && (forall s :: s in ids ==> ids[s] < |ids|)
    && (forall s, t :: s in ids && t in ids && ids[s] == ids[t] ==> s == t)
    && (forall id: nat :: id < |ids| ==> HasName(ids, id))
  }

  ghost predicate NamesFit(ids: map<Name, nat>) {
    forall s :: s in ids ==> NameFits(s, ids[s])
  }

  ghost predicate Sound(t: Table) {
    Bijective(t.ids) && NamesFit(t.ids) && TableOk(t.rules, |t.ids|)
  }

  /** Names keep their ids, and the rules of the ids that were given out are as they were. */
  ghost predicate Grown(t: Table, t': Table) {
    && |t.ids| <= |t'.ids|
    && (forall s :: s in t.ids ==> s in t'.ids && t'.ids[s] == t.ids[s])
    && AgreeBelow(t.rules, t'.rules, |t.ids|)
  }

  lemma GrownTransitive(t1: Table, t2: Table, t3: Table)
    requires Grown(t1, t2) && Grown(t2, t3)
    ensures Grown(t1, t3)
  {
    forall q: nat | q < |t1.ids|
      ensures RuleAt(t1.rules, q) == RuleAt(t3.rules, q)
    {
      assert RuleAt(t1.rules, q) == RuleAt(t2.rules, q);
    }
  }

  lemma SizeExtended(ids: map<Name, nat>, name: Name, id: nat)
    requires name !in ids
    ensures |ids[name := id]| == |ids| + 1
  {
    assert ids[name := id].Keys == ids.Keys + {name};
  }

  lemma BijectiveExtended(ids: map<Name, nat>, name: Name)
    requires Bijective(ids) && name !in ids
    ensures |ids[name := |ids|]| == |ids| + 1 && Bijective(ids[name := |ids|])
  {
    var n := |ids|;
    var ids' := ids[name := n];
    SizeExtended(ids, name, n);
    forall id: nat | id < n + 1
      ensures HasName(ids', id)
    {
      if id < n {
        assert HasName(ids, id);
        var s :| s in ids && ids[s] == id;
        assert s in ids' && ids'[s] == id;
      } else {
        assert name in ids' && ids'[name] == id;
      }
    }
  }

  // ---------------------------------------------------------------------------------------
  // The steps of the parser
  // ---------------------------------------------------------------------------------------

  /** A name of the text gets the next id, unless it is known. */
  function Lookup(t: Table, name: Name): (r: Table)
    ensures name in r.ids
  {
    if name in t.ids then t else t.(ids := t.ids[name := |t.ids|])
  }

  function Generate(t: Table, base: Name): Table {
    t.(ids := t.ids[GeneratedName(base, |t.ids|) := |t.ids|])
  }

  /** The rule replaces what the id had before. */
  function Define(t: Table, id: nat, rule: Rule): (r: Table)
    ensures RuleAt(r.rules, id) == rule && r.ids == t.ids
    ensures forall q: nat :: q != id ==> RuleAt(r.rules, q) == RuleAt(t.rules, q)
  {
    var padded := if |t.rules| <= id then t.rules + seq(id + 1 - |t.rules|, _ => []) else t.rules;
    t.(rules := padded[id := rule])
  }

  lemma LookupSound(t: Table, name: Name)
    requires Sound(t) && UNDERSCORE !in name
    ensures Sound(Lookup(t, name)) && Grown(t, Lookup(t, name)) && Lookup(t, name).ids[name] < |Lookup(t, name).ids|
  {
    if name !in t.ids {
      BijectiveExtended(t.ids, name);
    }
  }

  lemma GenerateSound(t: Table, base: Name)
    requires Sound(t) && UNDERSCORE !in base
    ensures Sound(Generate(t, base)) && Grown(t, Generate(t, base)) && |Generate(t, base).ids| == |t.ids| + 1
    ensures GeneratedName(base, |t.ids|) !in t.ids
  {
    var name := GeneratedName(base, |t.ids|);
    GeneratedHasUnderscore(base, |t.ids|);
    if name in t.ids {
      GeneratedNameNumber(base, |t.ids|, BaseOf(name), t.ids[name]);
    }
    BijectiveExtended(t.ids, name);
    BaseOfGenerated(base, Decimal(|t.ids|));
  }

  lemma DefineSound(t: Table, id: nat, rule: Rule)
    requires Sound(t) && id < |t.ids| && WellShaped(rule) && RefsBelow(rule, |t.ids|)
    ensures Sound(Define(t, id, rule))
  {
    var t' := Define(t, id, rule);
    forall q | 0 <= q < |t'.rules|
      ensures (t'.rules[q] == [] || WellShaped(t'.rules[q])) && RefsBelow(t'.rules[q], |t.ids|)
    {
      assert t'.rules[q] == RuleAt(t'.rules, q);
      if q != id {
        assert t'.rules[q] == RuleAt(t.rules, q);
      }
    }
  }

  // ---------------------------------------------------------------------------------------
  // Shapes
  // ---------------------------------------------------------------------------------------

  lemma AppendNested(a: seq<Element>, b: seq<Element>)
    requires WellNested(a) && WellNested(b)
    ensures WellNested(a + b)
  {
    var c := a + b;
    forall i | 0 <= i < |c|
      ensures FollowsWell(c, i)
    {
      if i < |a| {
        assert FollowsWell(a, i);
      } else {
        assert FollowsWell(b, i - |a|);
      }
    }
  }

  lemma JoinBody(a: seq<Element>, b: seq<Element>, n: nat)
    requires IsBody(a, n) && IsBody(b, n)
    ensures IsBody(a + b, n)
  {
    AppendNested(a, b);
  }

  lemma JoinOk(a: seq<Element>, b: seq<Element>, n: nat)
    requires BufferOk(a, n) && BufferOk(b, n)
    ensures BufferOk(a + b, n)
  {
    AppendNested(a, b);
  }

  /** Copies of a symbol are as well formed as the symbol. */
  lemma {:induction false} CopiesOk(s: seq<Element>, k: nat, n: nat)
    requires IsBody(s, n)
    ensures IsBody(Copies(s, k), n)
    decreases k
  {
    if k > 0 {
      CopiesOk(s, k - 1, n);
      JoinBody(s, Copies(s, k - 1), n);
    }
  }

  lemma RewrittenOk(s: seq<Element>, min: nat, first: nat, count: nat, n: nat)
    requires IsBody(s, n) && first + count <= n
    ensures IsBody(Rewritten(s, min, first, count), n)
  {
    CopiesOk(s, min, n);
    var rest := if count == 0 then [] else [Element(RULE_REF, first + (count - 1))];
    JoinBody(Copies(s, min), rest, n);
  }

  /** A rule is closed by its END. */
  lemma CloseRule(rule: seq<Element>, n: nat)
    requires BufferOk(rule, n)
    ensures WellShaped(rule + [Element(END, 0)]) && RefsBelow(rule + [Element(END, 0)], n)
  {
    AppendNested(rule, [Element(END, 0)]);
  }

  /** Alternates are separated by an ALT. */
  lemma SeparateOk(front: seq<Element>, els: seq<Element>, n: nat)
    requires BufferOk(front, n) && IsBody(els, n)
    ensures BufferOk(front + [Element(ALT, 0)], n) && BufferOk(front + [Element(ALT, 0)] + els, n)
  {
    JoinOk(front, [Element(ALT, 0)], n);
    JoinOk(front + [Element(ALT, 0)], els, n);
  }

  /** The rules that a repetition generates are well formed. */
  lemma RecRuleOk(s: seq<Element>, next: seq<nat>, n: nat)
    requires IsBody(s, n) && s != [] && (next != [] ==> next[0] < n)
    ensures WellShaped(RecRule(s, next)) && RefsBelow(RecRule(s, next), n)
  {
    var refs: seq<Element> := if next == [] then [] else [Element(RULE_REF, next[0])];
    JoinBody(s, refs, n);
    JoinOk(s + refs, [Element(ALT, 0)], n);
    CloseRule(s + refs + [Element(ALT, 0)], n);
    assert RecRule(s, next) == s + refs + [Element(ALT, 0)] + [Element(END, 0)];
  }

  // ---------------------------------------------------------------------------------------
  // Repetitions
  // ---------------------------------------------------------------------------------------

  /** The number of rules that a repetition counts as. */
  function TotalRules(min: nat, max: Bound): (n: nat)
    ensures n >= 1
  {
    if max.Max? && max.value > 0 then max.value else if min > 0 then min else 1
  }

  /** The number of rules that a repetition generates. */
  function GeneratedCount(min: nat, max: Bound): nat
    requires max.Max? ==> min <= max.value
  {
    if max.NoMax? then 1 else max.value - min
  }

  /** There is a symbol to repeat, and it does not count as too many rules. */
  predicate CanRepeat(els: seq<Element>, n: nat, min: nat, max: Bound) {
    els != [] && (max.Max? ==> min <= max.value) && n * TotalRules(min, max) <= MAX_REPETITION_THRESHOLD
  }

  /** The table with the first `i` generated rules of a repetition. */
  function Chain(t: Table, base: Name, s: seq<Element>, max: Bound, i: nat): Table {
    if i == 0 then t
    else
      var t' := Chain(t, base, s, max, i - 1);
      Define(Generate(t', base), |t'.ids|, RecRule(s, NextOf(|t.ids|, i - 1, max)))
  }

  /** A new name with its rule. */
  lemma AddedSound(t: Table, base: Name, rule: Rule)
    requires Sound(t) && UNDERSCORE !in base && WellShaped(rule) && RefsBelow(rule, |t.ids| + 1)
    ensures var t' := Define(Generate(t, base), |t.ids|, rule);
      Sound(t') && Grown(t, t') && |t'.ids| == |t.ids| + 1 && RuleAt(t'.rules, |t.ids|) == rule
  {
    GenerateSound(t, base);
    DefineSound(Generate(t, base), |t.ids|, rule);
  }

  /** Rules that were generated are still there in a table that has grown. */
  lemma GeneratedKept(t: Table, t': Table, s: seq<Element>, first: nat, j: nat, max: Bound)
    requires Grown(t, t') && first + j < |t.ids| && GeneratedAt(t.rules, s, first, j, max)
    ensures GeneratedAt(t'.rules, s, first, j, max)
  {
    assert RuleAt(t'.rules, first + j) == RuleAt(t.rules, first + j);
    assert RecRule(s, NextOf(first, j, max)) != [];
  }

  ghost predicate AllGenerated(t: Table, s: seq<Element>, first: nat, i: nat, max: Bound) {
    forall j: nat :: j < i ==> GeneratedAt(t.rules, s, first, j, max)
  }

  lemma AllGeneratedNext(t: Table, t': Table, s: seq<Element>, first: nat, i: nat, max: Bound)
    requires Grown(t, t') && first + i == |t.ids| && AllGenerated(t, s, first, i, max)
    requires RuleAt(t'.rules, first + i) == RecRule(s, NextOf(first, i, max))
    ensures AllGenerated(t', s, first, i + 1, max)
  {
    forall j: nat | j < i + 1
      ensures GeneratedAt(t'.rules, s, first, j, max)
    {
      if j < i {
        GeneratedKept(t, t', s, first, j, max);
      } else {
        assert RecRule(s, NextOf(first, j, max)) != [];
      }
    }
  }

  /** The table behind `i` generated rules. */
  ghost predicate ChainOk(t: Table, t': Table, s: seq<Element>, max: Bound, i: nat) {
    Sound(t') && Grown(t, t') && |t'.ids| == |t.ids| + i && AllGenerated(t', s, |t.ids|, i, max)
  }

  lemma ChainStep(t: Table, base: Name, s: seq<Element>, max: Bound, i: nat, t': Table, t'': Table)
    requires UNDERSCORE !in base && IsBody(s, |t.ids|) && s != [] && ChainOk(t, t', s, max, i)
    requires t'' == Define(Generate(t', base), |t'.ids|, RecRule(s, NextOf(|t.ids|, i, max)))
    ensures ChainOk(t, t'', s, max, i + 1)
  {
    var rule := RecRule(s, NextOf(|t.ids|, i, max));
    assert WellShaped(rule) && RefsBelow(rule, |t'.ids| + 1) by {
      RecRuleOk(s, NextOf(|t.ids|, i, max), |t'.ids| + 1);
    }
    AddedSound(t', base, rule);
    GrownTransitive(t, t', t'');
    AllGeneratedNext(t', t'', s, |t.ids|, i, max);
  }

  lemma {:induction false} ChainSound(t: Table, base: Name, s: seq<Element>, max: Bound, i: nat)
    requires Sound(t) && UNDERSCORE !in base && IsBody(s, |t.ids|) && s != []
    ensures ChainOk(t, Chain(t, base, s, max, i), s, max, i)
    decreases i
  {
    if i > 0 {
      ChainSound(t, base, s, max, i - 1);
      ChainStep(t, base, s, max, i - 1, Chain(t, base, s, max, i - 1), Chain(t, base, s, max, i));
    }
  }

  // ---------------------------------------------------------------------------------------
  // Trees
  // ---------------------------------------------------------------------------------------

  /** The table afterwards, the elements, and the number of rules that the last item counts as. */
  datatype Output = Output(table: Table, els: seq<Element>, count: nat) | Rejected

  /** A repetition of a symbol that was compiled before. */
  function Repeated(t: Table, base: Name, els: seq<Element>, n: nat, min: nat, max: Bound): Output {
    if !CanRepeat(els, n, min, max) then Rejected
    else
      var count := GeneratedCount(min, max);
      Output(Chain(t, base, els, max, count), Rewritten(els, min, |t.ids|, count), n * TotalRules(min, max))
  }

  function CompileItem(t: Table, base: Name, item: Item): Output
    decreases item, 0
  {
    match item
    case Terminal(els) => Output(t, els, 1)
    case Named(name) => Output(Lookup(t, name), [Element(RULE_REF, Lookup(t, name).ids[name])], 1)
    case Group(alternates) => CompileGroup(t, base, alternates)
    case Repeat(inner, min, max) =>
      var o := CompileItem(t, base, inner);
      if o.Rejected? then Rejected else Repeated(o.table, base, o.els, o.count, min, max)
  }

  /** A group becomes a rule; it counts as the symbols that were new in it. */
  function CompileGroup(t: Table, base: Name, alternates: Alternates): Output
    decreases alternates, 1
  {
    Grouped(t, CompileAlternates(Generate(t, base), base, alternates))
  }

  function Grouped(t: Table, o: Output): Output {
    if o.Rejected? then Rejected
    else
      var n := |o.table.ids| - |t.ids|;
      Output(Define(o.table, |t.ids|, o.els + [Element(END, 0)]), [Element(RULE_REF, |t.ids|)], if n < 1 then 1 else n)
  }

  function CompileSequence(t: Table, base: Name, s: Sequence): Output
    decreases s, 0
  {
    match s
    case Nothing => Output(t, [], 1)
    case Then(front, item) =>
      var o := CompileSequence(t, base, front);
      if o.Rejected? then Rejected else Behind(o.els, CompileItem(o.table, base, item))
  }

  function Behind(els: seq<Element>, o: Output): Output {
    if o.Rejected? then Rejected else o.(els := els + o.els)
  }

  function CompileAlternates(t: Table, base: Name, a: Alternates): Output
    decreases a, 0
  {
    match a
    case One(s) => CompileSequence(t, base, s)
    case Or(front, s) =>
      var o := CompileAlternates(t, base, front);
      if o.Rejected? then Rejected else Behind(o.els + [Element(ALT, 0)], CompileSequence(o.table, base, s))
  }

  datatype Final = Final(table: Table) | Failed

  function CompileRule(t: Table, d: Definition): Final {
    var t1 := Lookup(t, d.name);
    var o := CompileAlternates(t1, d.name, d.alternates);
    if o.Rejected? then Failed else Final(Define(o.table, t1.ids[d.name], o.els + [Element(END, 0)]))
  }

  function CompileRules(t: Table, ds: seq<Definition>): Final {
    if ds == [] then Final(t)
    else
      var f := CompileRules(t, ds[..|ds| - 1]);
      if f.Failed? then Failed else CompileRule(f.table, ds[|ds| - 1])
  }

  /** Rules below `q` are defined and refer only to rules that are defined. */
  predicate DefinedBelow(rules: Rules, q: nat) {
    forall r :: 0 <= r < q && r < |rules| ==> rules[r] != [] && RefsDefinedUpTo(rules, rules[r], |rules[r]|)
  }

  predicate RefsDefinedUpTo(rules: Rules, rule: Rule, n: nat) {
    forall i :: 0 <= i < n && i < |rule| && rule[i].kind.RULE_REF? ==>
      rule[i].value < |rules| && rules[rule[i].value] != []
  }

  /** Every rule, and every rule that is referred to, has a definition. */
  predicate IsDefined(rules: Rules) {
    DefinedBelow(rules, |rules|)
  }

  // ---------------------------------------------------------------------------------------
  // What compiling keeps
  // ---------------------------------------------------------------------------------------

  /** The table stays sound and only grows, and the elements are those of a part of an alternate. */
  ghost predicate ItemOk(t: Table, o: Output) {
    o.Output? ==> Sound(o.table) && Grown(t, o.table) && IsBody(o.els, |o.table.ids|) && o.count >= 1
  }

  ghost predicate AlternatesOk(t: Table, o: Output) {
    o.Output? ==> Sound(o.table) && Grown(t, o.table) && BufferOk(o.els, |o.table.ids|)
  }

  lemma RepeatedOk(t0: Table, t: Table, base: Name, els: seq<Element>, n: nat, min: nat, max: Bound)
    requires UNDERSCORE !in base && ItemOk(t0, Output(t, els, n))
    ensures ItemOk(t0, Repeated(t, base, els, n, min, max))
  {
    if CanRepeat(els, n, min, max) {
      var count := GeneratedCount(min, max);
      ChainSound(t, base, els, max, count);
      GrownTransitive(t0, t, Chain(t, base, els, max, count));
      RewrittenOk(els, min, |t.ids|, count, |t.ids| + count);
      ProductPositive(n, TotalRules(min, max));
    }
  }

  lemma ProductPositive(a: nat, b: nat)
    requires a >= 1 && b >= 1
    ensures a * b >= 1
  {
  }

  lemma CompileNameOk(t: Table, base: Name, name: Name)
    requires Sound(t) && UNDERSCORE !in name
    ensures ItemOk(t, CompileItem(t, base, Named(name)))
  {
    LookupSound(t, name);
  }

  lemma {:induction false} CompileItemOk(t: Table, base: Name, item: Item)
    requires Sound(t) && UNDERSCORE !in base && ItemFits(item)
    ensures ItemOk(t, CompileItem(t, base, item))
    decreases item, 0
  {
    match item
    case Terminal(els) =>
    case Named(name) =>
      CompileNameOk(t, base, name);
    case Group(alternates) =>
      CompileGroupOk(t, base, alternates);
    case Repeat(inner, min, max) =>
      CompileItemOk(t, base, inner);
      var o := CompileItem(t, base, inner);
      if o.Output? {
        RepeatedOk(t, o.table, base, o.els, o.count, min, max);
      }
  }

  lemma {:induction false} CompileGroupOk(t: Table, base: Name, alternates: Alternates)
    requires Sound(t) && UNDERSCORE !in base && AlternatesFit(alternates)
    ensures ItemOk(t, CompileGroup(t, base, alternates))
    decreases alternates, 1
  {
    var t1 := Generate(t, base);
    GenerateSound(t, base);
    CompileAlternatesOk(t1, base, alternates);
    GroupedOk(t, t1, CompileAlternates(t1, base, alternates));
  }

  lemma GroupedOk(t: Table, t1: Table, o: Output)
    requires Grown(t, t1) && |t.ids| < |t1.ids| && AlternatesOk(t1, o)
    ensures ItemOk(t, Grouped(t, o))
  {
    if o.Output? {
      GrownTransitive(t, t1, o.table);
      DefineGrown(t, o.table, |t.ids|, o.els + [Element(END, 0)]);
      assert Sound(Define(o.table, |t.ids|, o.els + [Element(END, 0)])) by {
        CloseRule(o.els, |o.table.ids|);
        DefineSound(o.table, |t.ids|, o.els + [Element(END, 0)]);
      }
    }
  }

  lemma DefineGrown(t: Table, t': Table, id: nat, rule: Rule)
    requires Grown(t, t') && |t.ids| <= id
    ensures Grown(t, Define(t', id, rule))
  {
    forall q: nat | q < |t.ids|
      ensures RuleAt(t.rules, q) == RuleAt(Define(t', id, rule).rules, q)
    {
      assert RuleAt(t.rules, q) == RuleAt(t'.rules, q);
    }
  }

  lemma {:induction false} CompileSequenceOk(t: Table, base: Name, s: Sequence)
    requires Sound(t) && UNDERSCORE !in base && SequenceFits(s)
    ensures ItemOk(t, CompileSequence(t, base, s))
    decreases s, 0
  {
    if s.Then? {
      CompileSequenceOk(t, base, s.front);
      var o := CompileSequence(t, base, s.front);
      if o.Output? {
        CompileItemOk(o.table, base, s.item);
        BehindOk(t, o, CompileItem(o.table, base, s.item));
      }
    }
  }

  lemma BehindOk(t: Table, o: Output, o': Output)
    requires o.Output? && ItemOk(t, o) && ItemOk(o.table, o')
    ensures ItemOk(t, Behind(o.els, o'))
  {
    if o'.Output? {
      GrownTransitive(t, o.table, o'.table);
      JoinBody(o.els, o'.els, |o'.table.ids|);
    }
  }

  lemma {:induction false} CompileAlternatesOk(t: Table, base: Name, a: Alternates)
    requires Sound(t) && UNDERSCORE !in base && AlternatesFit(a)
    ensures AlternatesOk(t, CompileAlternates(t, base, a))
    decreases a, 0
  {
    match a
    case One(s) =>
      CompileSequenceOk(t, base, s);
    case Or(front, s) =>
      CompileAlternatesOk(t, base, front);
      var o := CompileAlternates(t, base, front);
      if o.Output? {
        CompileSequenceOk(o.table, base, s);
        SeparatedOk(t, o, CompileSequence(o.table, base, s));
      }
  }

  lemma SeparatedOk(t: Table, o: Output, o': Output)
    requires o.Output? && AlternatesOk(t, o) && ItemOk(o.table, o')
    ensures AlternatesOk(t, Behind(o.els + [Element(ALT, 0)], o'))
  {
    if o'.Output? {
      GrownTransitive(t, o.table, o'.table);
      SeparateOk(o.els, o'.els, |o'.table.ids|);
    }
  }

  /** A definition keeps the ids and all rules except its own. */
  lemma CompileRuleOk(t: Table, d: Definition)
    requires Sound(t) && DefinitionFits(d) && CompileRule(t, d).Final?
    ensures Sound(CompileRule(t, d).table)
  {
    var t1 := Lookup(t, d.name);
    LookupSound(t, d.name);
    CompileAlternatesOk(t1, d.name, d.alternates);
    var o := CompileAlternates(t1, d.name, d.alternates);
    CloseRule(o.els, |o.table.ids|);
    DefineSound(o.table, t1.ids[d.name], o.els + [Element(END, 0)]);
  }

  lemma {:induction false} CompileRulesOk(t: Table, ds: seq<Definition>)
    requires Sound(t) && DefinitionsFit(ds) && CompileRules(t, ds).Final?
    ensures Sound(CompileRules(t, ds).table)
    decreases |ds|
  {
    if ds != [] {
      var front := ds[..|ds| - 1];
      CompileRulesOk(t, front);
      CompileRuleOk(CompileRules(t, front).table, ds[|ds| - 1]);
    }
  }

  // ---------------------------------------------------------------------------------------
  // How much can be repeated
  // ---------------------------------------------------------------------------------------

  /** `r` is the largest of `n`, `n` times the minimum, and `n` times the maximum. */
  predicate IsLargest(r: nat, n: nat, min: nat, max: Bound) {
    && n <= r && n * min <= r && (max.Max? ==> n * max.value <= r)
    && (r == n || r == n * min || (max.Max? && r == n * max.value))
  }

  /** Neither by itself nor by the minimum or the maximum it counts as more than 2000. */
  predicate WithinLimit(n: nat, min: nat, max: Bound) {
    n <= 2000 && n * min <= 2000 && (max.Max? ==> n * max.value <= 2000)
  }

  lemma TotalIsLargest(n: nat, min: nat, max: Bound)
    requires max.Max? ==> min <= max.value
    ensures IsLargest(n * TotalRules(min, max), n, min, max)
  {
    ProductOrder(n, 1, TotalRules(min, max));
    ProductOrder(n, min, TotalRules(min, max));
    if max.Max? {
      ProductOrder(n, max.value, TotalRules(min, max));
    }
  }

  /**
    A repetition is refused exactly if its item is, if there is nothing to repeat, if the bounds are the wrong
    way round, or if the item counts as more than 2000 by itself, by the minimum or by the maximum.
    */
  lemma RepeatCompilesIff(t: Table, base: Name, inner: Item, min: nat, max: Bound)
    ensures var o, r := CompileItem(t, base, inner), CompileItem(t, base, Repeat(inner, min, max));
      && (r.Output? <==>
            o.Output? && o.els != [] && (max.Max? ==> min <= max.value) && WithinLimit(o.count, min, max))
      && (r.Output? ==> IsLargest(r.count, o.count, min, max))
  {
    var o := CompileItem(t, base, inner);
    if o.Output? && (max.Max? ==> min <= max.value) {
      TotalIsLargest(o.count, min, max);
    }
  }

  /** A group counts as the symbols that are new with it, everything else as one. */
  lemma ItemCounts(t: Table, base: Name, item: Item)
    requires Sound(t) && UNDERSCORE !in base && ItemFits(item) && CompileItem(t, base, item).Output? && !item.Repeat?
    ensures CompileItem(t, base, item).count ==
      if item.Group? then |CompileItem(t, base, item).table.ids| - |t.ids| else 1
  {
    if item.Group? {
      CompileItemOk(t, base, item);
      GenerateSound(t, base);
      CompileAlternatesOk(Generate(t, base), base, item.alternates);
    }
  }
}
