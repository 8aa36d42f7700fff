/**
  The table means what the text says: in the table that the parser leaves behind, the rule of a name
  derives exactly the words of its definition, with groups, stacked repetitions and whatever
  was generated for them and for later rules.
  */
module GrammarMeaning {
  import opened GrammarElements
  import opened Language
  import opened Repetition
  import opened GrammarSyntax
  import opened RuleTable

  // ---------------------------------------------------------------------------------------
  // What a syntax tree says
  // ---------------------------------------------------------------------------------------

  ghost predicate InItem(t: Table, item: Item, w: Word)
    decreases item, 0
  {
    match item
    case Terminal(els) => w in LanguageOf([], els)
    case Named(name) => name in t.ids && InRule(t.rules, t.ids[name], w)
    case Group(alternates) => InAlternates(t, alternates, w)
    case Repeat(inner, min, max) => InPowers(MeaningOf(t, inner), min, max, w)
  }

  /** The words that the item means. */
  ghost function MeaningOf(t: Table, item: Item): iset<Word>
    decreases item, 1
  {
    iset v: Word | InItem(t, item, v)
  }

  ghost predicate InSequence(t: Table, s: Sequence, w: Word)
    decreases s, 1
  {
    if s.Nothing? then w == [] else exists k: nat :: SequenceCut(t, s, w, k)
  }

  /** The last item takes the code points from `k` on. */
  ghost predicate SequenceCut(t: Table, s: Sequence, w: Word, k: nat)
    requires s.Then?
    decreases s, 0
  {
    k <= |w| && InSequence(t, s.front, w[..k]) && InItem(t, s.item, w[k..])
  }

  ghost predicate InAlternates(t: Table, a: Alternates, w: Word)
    decreases a, 0
  {
    InSequence(t, a.sequence, w) || (a.Or? && InAlternates(t, a.front, w))
  }

  // ---------------------------------------------------------------------------------------
  // The body of a rule
  // ---------------------------------------------------------------------------------------

  predicate BodyStart(els: seq<Element>, a: nat) {
    a <= |els| && (a == 0 || els[a - 1].kind.ALT?)
  }

  ghost predicate BodyDerives(rules: Rules, els: seq<Element>, w: Word, a: nat, n: nat) {
    BodyStart(els, a) && Derives(rules, els, a, w, n)
  }

  /** `w` derives from one of the alternates of a rule that is still without its END. */
  ghost predicate InBody(rules: Rules, els: seq<Element>, w: Word) {
    exists a: nat, n: nat :: BodyDerives(rules, els, w, a, n)
  }

  /** What stands behind the end of an alternate does not matter. */
  lemma {:induction false} DerivesUpTo(rules: Rules, a: seq<Element>, e: Element, b: seq<Element>, i: nat, w: Word,
                                       n: nat)
    requires i <= |a| && IsEndOfSequence(e)
    ensures Derives(rules, a + ([e] + b), i, w, n) <==> Derives(rules, a, i, w, n)
    decreases |a| - i
  {
    var c := a + ([e] + b);
    if i == |a| {
      assert c[i] == e;
    } else if IsEndOfSequence(a[i]) {
    } else if a[i].kind.RULE_REF? {
      if Derives(rules, c, i, w, n) {
        var k, m := DerivesRefSplit(rules, c, i, w, n);
        DerivesUpTo(rules, a, e, b, i + 1, w[k..], n - m);
        DerivesRefJoin(rules, a, i, w, k, m, n - m);
      }
      if Derives(rules, a, i, w, n) {
        var k, m := DerivesRefSplit(rules, a, i, w, n);
        DerivesUpTo(rules, a, e, b, i + 1, w[k..], n - m);
        DerivesRefJoin(rules, c, i, w, k, m, n - m);
      }
    } else if IsClassStart(a[i]) && w != [] {
      SymbolEndInPrefix(a, [e] + b, i);
      ClassInPrefix(a, [e] + b, i, w[0]);
      DerivesUpTo(rules, a, e, b, SymbolEnd(a, i), w[1..], n);
    }
  }

  /** The END closes the rule and changes nothing. */
  lemma RuleIsBody(rules: Rules, q: nat, els: seq<Element>, w: Word)
    requires RuleAt(rules, q) == els + [Element(END, 0)]
    ensures InRule(rules, q, w) <==> InBody(rules, els, w)
  {
    var end := Element(END, 0);
    assert els + [end] == els + ([end] + []);
    if InRule(rules, q, w) {
      var n: nat :| RuleDerives(rules, q, w, n);
      var a := RuleDerivesAlternate(rules, q, w, n);
      DerivesUpTo(rules, els, end, [], a, w, n - 1);
      assert BodyDerives(rules, els, w, a, n - 1);
    }
    if InBody(rules, els, w) {
      var a: nat, n: nat :| BodyDerives(rules, els, w, a, n);
      DerivesUpTo(rules, els, end, [], a, w, n);
      RuleDerivesBy(rules, q, w, n, a);
    }
  }

  /** A single alternate. */
  lemma SingleBody(rules: Rules, els: seq<Element>, w: Word)
    requires IsSymbols(els)
    ensures InBody(rules, els, w) <==> w in LanguageOf(rules, els)
  {
    if InBody(rules, els, w) {
      var a: nat, n: nat :| BodyDerives(rules, els, w, a, n);
      assert a == 0;
    }
    if w in LanguageOf(rules, els) {
      var n: nat :| Derives(rules, els, 0, w, n);
      assert BodyDerives(rules, els, w, 0, n);
    }
  }

  /** One alternate more. */
  lemma BodyOr(rules: Rules, front: seq<Element>, els: seq<Element>, w: Word)
    requires IsSymbols(els)
    ensures InBody(rules, front + [Element(ALT, 0)] + els, w) <==>
      InBody(rules, front, w) || w in LanguageOf(rules, els)
  {
    var alt := Element(ALT, 0);
    var c := front + [alt] + els;
    assert c == front + ([alt] + els) && c == (front + [alt]) + els;
    if InBody(rules, c, w) {
      var a: nat, n: nat :| BodyDerives(rules, c, w, a, n);
      if a <= |front| {
        DerivesUpTo(rules, front, alt, els, a, w, n);
        assert BodyDerives(rules, front, w, a, n);
      } else {
        assert a == |front| + 1;
        DerivesSuffix(rules, front + [alt], els, 0, w, n);
      }
    }
    if InBody(rules, front, w) {
      var a: nat, n: nat :| BodyDerives(rules, front, w, a, n);
      DerivesUpTo(rules, front, alt, els, a, w, n);
      assert BodyDerives(rules, c, w, a, n);
    }
    if w in LanguageOf(rules, els) {
      var n: nat :| Derives(rules, els, 0, w, n);
      DerivesSuffix(rules, front + [alt], els, 0, w, n);
      assert BodyDerives(rules, c, w, |front| + 1, n);
    }
  }

  // ---------------------------------------------------------------------------------------
  // Tables in which the generated rules are still there
  // ---------------------------------------------------------------------------------------

  ghost predicate NamedBy(t: Table, q: nat, name: Name) {
    name in t.ids && t.ids[name] == q && UNDERSCORE in name
  }

  ghost predicate IsGenerated(t: Table, q: nat) {
    exists name :: NamedBy(t, q, name)
  }

  /** `final` knows the names of `t`, and the rules that were generated from `lo` on are as in `t`. */
  ghost predicate Survives(t: Table, final: Table, lo: nat) {
    && (forall s :: s in t.ids ==> s in final.ids && final.ids[s] == t.ids[s])
    && (forall q: nat :: lo <= q && IsGenerated(t, q) ==> RuleAt(final.rules, q) == RuleAt(t.rules, q))
  }

  lemma SurvivesEarlier(t: Table, t': Table, final: Table, lo: nat)
    requires Sound(t) && Grown(t, t') && Survives(t', final, lo)
    ensures Survives(t, final, lo)
  {
    forall q: nat | lo <= q && IsGenerated(t, q)
      ensures RuleAt(final.rules, q) == RuleAt(t.rules, q)
    {
      var name :| NamedBy(t, q, name);
      assert NamedBy(t', q, name);
      assert RuleAt(t'.rules, q) == RuleAt(t.rules, q);
    }
  }

  lemma SurvivesFrom(t: Table, final: Table, lo: nat, lo': nat)
    requires Survives(t, final, lo) && lo <= lo'
    ensures Survives(t, final, lo')
  {
  }

  /** The id of a generated name. */
  lemma GeneratedIs(t: Table, base: Name)
    ensures NamedBy(Generate(t, base), |t.ids|, GeneratedName(base, |t.ids|))
    ensures IsGenerated(Generate(t, base), |t.ids|)
  {
    GeneratedHasUnderscore(base, |t.ids|);
    assert NamedBy(Generate(t, base), |t.ids|, GeneratedName(base, |t.ids|));
  }

  /** A new name: its id is generated, and so are those that were. */
  lemma AddedGenerated(t: Table, base: Name, t': Table, q: nat)
    requires GeneratedName(base, |t.ids|) !in t.ids && t'.ids == Generate(t, base).ids
    requires q == |t.ids| || IsGenerated(t, q)
    ensures IsGenerated(t', q)
  {
    if q == |t.ids| {
      GeneratedIs(t, base);
      assert NamedBy(t', q, GeneratedName(base, q));
    } else {
      var name :| NamedBy(t, q, name);
      assert NamedBy(t', q, name);
    }
  }

  /** The rule number `i` of a repetition gets a new name. */
  ghost predicate FreshAt(t: Table, base: Name, s: seq<Element>, max: Bound, i: nat) {
    var t' := Chain(t, base, s, max, i);
    && GeneratedName(base, |t'.ids|) !in t'.ids && |t'.ids| == |t.ids| + i
    && Chain(t, base, s, max, i + 1).ids == Generate(t', base).ids
  }

  lemma ChainFresh(t: Table, base: Name, s: seq<Element>, max: Bound, i: nat)
    requires Sound(t) && UNDERSCORE !in base && IsBody(s, |t.ids|) && s != []
    ensures FreshAt(t, base, s, max, i)
  {
    ChainSound(t, base, s, max, i);
    GenerateSound(Chain(t, base, s, max, i), base);
  }

  lemma {:induction false} ChainGenerated(t: Table, base: Name, s: seq<Element>, max: Bound, i: nat, j: nat)
    requires j < i && forall k: nat :: k < i ==> FreshAt(t, base, s, max, k)
    ensures IsGenerated(Chain(t, base, s, max, i), |t.ids| + j)
    decreases i
  {
    assert FreshAt(t, base, s, max, i - 1);
    if j < i - 1 {
      ChainGenerated(t, base, s, max, i - 1, j);
    }
    AddedGenerated(Chain(t, base, s, max, i - 1), base, Chain(t, base, s, max, i), |t.ids| + j);
  }

  /** The rules of a repetition are in every table in which they survive. */
  lemma ChainSurvives(t: Table, base: Name, s: seq<Element>, max: Bound, count: nat, final: Table)
    requires Sound(t) && UNDERSCORE !in base && IsBody(s, |t.ids|) && s != [] && (max.NoMax? ==> count == 1)
    requires Survives(Chain(t, base, s, max, count), final, |t.ids|)
    ensures Generated(final.rules, s, |t.ids|, count, max)
  {
    var t' := Chain(t, base, s, max, count);
    ChainSound(t, base, s, max, count);
    forall k: nat
      ensures FreshAt(t, base, s, max, k)
    {
      ChainFresh(t, base, s, max, k);
    }
    forall j: nat | j < count
      ensures GeneratedAt(final.rules, s, |t.ids|, j, max)
    {
      ChainGenerated(t, base, s, max, count, j);
      assert GeneratedAt(t'.rules, s, |t.ids|, j, max);
      assert RuleAt(final.rules, |t.ids| + j) == RuleAt(t'.rules, |t.ids| + j);
      assert RecRule(s, NextOf(|t.ids|, j, max)) != [];
    }
  }

  // ---------------------------------------------------------------------------------------
  // Items, sequences and alternates
  // ---------------------------------------------------------------------------------------

  /** Without references the table does not matter. */
  lemma TerminalAnywhere(rules: Rules, els: seq<Element>, w: Word)
    requires RefsBelow(els, 0)
    ensures w in LanguageOf(rules, els) <==> w in LanguageOf([], els)
  {
    if w in LanguageOf(rules, els) {
      var n: nat :| Derives(rules, els, 0, w, n);
      LanguageKept(rules, [], 0, els, 0, w, n);
    }
    if w in LanguageOf([], els) {
      var n: nat :| Derives([], els, 0, w, n);
      LanguageKept([], rules, 0, els, 0, w, n);
    }
  }

  lemma RefLanguage(rules: Rules, q: nat, w: Word)
    ensures w in LanguageOf(rules, [Element(RULE_REF, q)]) <==> InRule(rules, q, w)
  {
    if w in LanguageOf(rules, [Element(RULE_REF, q)]) {
      var n: nat :| Derives(rules, [Element(RULE_REF, q)], 0, w, n);
      SingleRef(rules, q, w, n);
    }
    if InRule(rules, q, w) {
      var n: nat :| RuleDerives(rules, q, w, n);
      SingleRef(rules, q, w, n);
    }
  }

  ghost predicate ItemMeant(final: Table, item: Item, els: seq<Element>) {
    forall w: Word :: w in LanguageOf(final.rules, els) <==> InItem(final, item, w)
  }

  ghost predicate SequenceMeant(final: Table, s: Sequence, els: seq<Element>) {
    forall w: Word :: w in LanguageOf(final.rules, els) <==> InSequence(final, s, w)
  }

  ghost predicate AlternatesMeant(final: Table, a: Alternates, els: seq<Element>) {
    forall w: Word :: InBody(final.rules, els, w) <==> InAlternates(final, a, w)
  }

  lemma RepeatMeaning(t: Table, base: Name, inner: Item, els: seq<Element>, n: nat, min: nat, max: Bound, final: Table)
    requires Sound(t) && UNDERSCORE !in base && IsBody(els, |t.ids|) && CanRepeat(els, n, min, max)
    requires Survives(Repeated(t, base, els, n, min, max).table, final, |t.ids|) && ItemMeant(final, inner, els)
    ensures ItemMeant(final, Repeat(inner, min, max), Repeated(t, base, els, n, min, max).els)
  {
    var count := GeneratedCount(min, max);
    ChainSurvives(t, base, els, max, count, final);
    assert LanguageOf(final.rules, els) == MeaningOf(final, inner);
    forall w: Word
      ensures w in LanguageOf(final.rules, Rewritten(els, min, |t.ids|, count)) <==>
        InItem(final, Repeat(inner, min, max), w)
    {
      RewrittenMeaning(final.rules, els, min, max, |t.ids|, count, w);
    }
  }

  lemma GroupMeaning(t: Table, t1: Table, o: Output, alternates: Alternates, final: Table)
    requires o.Output? && IsGenerated(o.table, |t.ids|) && AlternatesMeant(final, alternates, o.els)
    requires Survives(Grouped(t, o).table, final, |t.ids|)
    ensures ItemMeant(final, Group(alternates), Grouped(t, o).els)
  {
    var q := |t.ids|;
    var name :| NamedBy(o.table, q, name);
    assert NamedBy(Grouped(t, o).table, q, name);
    assert RuleAt(final.rules, q) == o.els + [Element(END, 0)];
    forall w: Word
      ensures w in LanguageOf(final.rules, [Element(RULE_REF, q)]) <==> InItem(final, Group(alternates), w)
    {
      RefLanguage(final.rules, q, w);
      RuleIsBody(final.rules, q, o.els, w);
    }
  }

  lemma SequenceSplit(t: Table, s: Sequence, w: Word) returns (k: nat)
    requires s.Then? && InSequence(t, s, w)
    ensures k <= |w| && InSequence(t, s.front, w[..k]) && InItem(t, s.item, w[k..])
  {
    k :| SequenceCut(t, s, w, k);
  }

  lemma ThenMeaning(final: Table, s: Sequence, els: seq<Element>, els': seq<Element>)
    requires s.Then? && SequenceMeant(final, s.front, els) && ItemMeant(final, s.item, els')
    requires IsSymbols(els) && IsSymbols(els')
    ensures SequenceMeant(final, s, els + els')
  {
    forall w: Word
      ensures w in LanguageOf(final.rules, els + els') <==> InSequence(final, s, w)
    {
      if w in LanguageOf(final.rules, els + els') {
        var k := LanguageSplit(final.rules, els, els', w);
        assert SequenceCut(final, s, w, k);
      }
      if InSequence(final, s, w) {
        var k := SequenceSplit(final, s, w);
        LanguageJoin(final.rules, els, els', w, k);
      }
    }
  }

  /** In every table in which its rules survive, the elements of an item derive what the item says. */
  lemma {:induction false} ItemMeaning(t: Table, base: Name, item: Item, final: Table)
    requires Sound(t) && UNDERSCORE !in base && ItemFits(item) && CompileItem(t, base, item).Output?
    requires Survives(CompileItem(t, base, item).table, final, |t.ids|)
    ensures ItemMeant(final, item, CompileItem(t, base, item).els)
    decreases item, 0
  {
    match item
    case Terminal(els) =>
      forall w: Word
        ensures w in LanguageOf(final.rules, els) <==> InItem(final, item, w)
      {
        TerminalAnywhere(final.rules, els, w);
      }
    case Named(name) =>
      forall w: Word
        ensures w in LanguageOf(final.rules, CompileItem(t, base, item).els) <==> InItem(final, item, w)
      {
        RefLanguage(final.rules, Lookup(t, name).ids[name], w);
      }
    case Group(alternates) =>
      GroupHolds(t, base, alternates, final);
    case Repeat(inner, min, max) =>
      RepeatHolds(t, base, inner, min, max, final);
  }

  lemma {:induction false} RepeatHolds(t: Table, base: Name, inner: Item, min: nat, max: Bound, final: Table)
    requires Sound(t) && UNDERSCORE !in base && ItemFits(inner) && CompileItem(t, base, Repeat(inner, min, max)).Output?
    requires Survives(CompileItem(t, base, Repeat(inner, min, max)).table, final, |t.ids|)
    ensures ItemMeant(final, Repeat(inner, min, max), CompileItem(t, base, Repeat(inner, min, max)).els)
    decreases inner, 1
  {
    var o := CompileItem(t, base, inner);
    CompileItemOk(t, base, inner);
    RepeatSurvives(t, base, o, min, max, final);
    ItemMeaning(t, base, inner, final);
    RepeatMeaning(o.table, base, inner, o.els, o.count, min, max, final);
  }

  /** What survives behind the repetition survives behind its symbol. */
  lemma RepeatSurvives(t: Table, base: Name, o: Output, min: nat, max: Bound, final: Table)
    requires o.Output? && ItemOk(t, o) && UNDERSCORE !in base && CanRepeat(o.els, o.count, min, max)
    requires Survives(Repeated(o.table, base, o.els, o.count, min, max).table, final, |t.ids|)
    ensures Survives(o.table, final, |t.ids|)
    ensures Survives(Repeated(o.table, base, o.els, o.count, min, max).table, final, |o.table.ids|)
  {
    var t' := Chain(o.table, base, o.els, max, GeneratedCount(min, max));
    ChainSound(o.table, base, o.els, max, GeneratedCount(min, max));
    SurvivesEarlier(o.table, t', final, |t.ids|);
    SurvivesFrom(t', final, |t.ids|, |o.table.ids|);
  }

  lemma {:induction false} GroupHolds(t: Table, base: Name, alternates: Alternates, final: Table)
    requires Sound(t) && UNDERSCORE !in base && AlternatesFit(alternates) && CompileGroup(t, base, alternates).Output?
    requires Survives(CompileGroup(t, base, alternates).table, final, |t.ids|)
    ensures ItemMeant(final, Group(alternates), CompileGroup(t, base, alternates).els)
    decreases alternates, 1
  {
    var t1 := Generate(t, base);
    GenerateSound(t, base);
    var o := CompileAlternates(t1, base, alternates);
    CompileAlternatesOk(t1, base, alternates);
    GroupSurvives(t, base, o, final);
    AlternatesMeaning(t1, base, alternates, final);
    GroupMeaning(t, t1, o, alternates, final);
  }

  lemma GroupSurvives(t: Table, base: Name, o: Output, final: Table)
    requires o.Output? && Grown(Generate(t, base), o.table)
    requires Survives(Grouped(t, o).table, final, |t.ids|)
    ensures IsGenerated(o.table, |t.ids|) && Survives(o.table, final, |t.ids| + 1)
  {
    GeneratedIs(t, base);
    assert NamedBy(o.table, |t.ids|, GeneratedName(base, |t.ids|));
    var t' := Grouped(t, o).table;
    forall q: nat | |t.ids| + 1 <= q && IsGenerated(o.table, q)
      ensures RuleAt(final.rules, q) == RuleAt(o.table.rules, q)
    {
      var name :| NamedBy(o.table, q, name);
      assert NamedBy(t', q, name);
    }
  }

  lemma {:induction false} SequenceMeaning(t: Table, base: Name, s: Sequence, final: Table)
    requires Sound(t) && UNDERSCORE !in base && SequenceFits(s) && CompileSequence(t, base, s).Output?
    requires Survives(CompileSequence(t, base, s).table, final, |t.ids|)
    ensures SequenceMeant(final, s, CompileSequence(t, base, s).els)
    decreases s, 0
  {
    if s.Nothing? {
      forall w: Word
        ensures w in LanguageOf(final.rules, []) <==> w == []
      {
        assert Derives(final.rules, [], 0, w, 0) <==> w == [];
      }
    } else {
      var o := CompileSequence(t, base, s.front);
      CompileSequenceOk(t, base, s.front);
      var o' := CompileItem(o.table, base, s.item);
      CompileItemOk(o.table, base, s.item);
      SurvivesEarlier(o.table, o'.table, final, |t.ids|);
      SurvivesFrom(o'.table, final, |t.ids|, |o.table.ids|);
      SequenceMeaning(t, base, s.front, final);
      ItemMeaning(o.table, base, s.item, final);
      ThenMeaning(final, s, o.els, o'.els);
    }
  }

  lemma {:induction false} AlternatesMeaning(t: Table, base: Name, a: Alternates, final: Table)
    requires Sound(t) && UNDERSCORE !in base && AlternatesFit(a) && CompileAlternates(t, base, a).Output?
    requires Survives(CompileAlternates(t, base, a).table, final, |t.ids|)
    ensures AlternatesMeant(final, a, CompileAlternates(t, base, a).els)
    decreases a, 0
  {
    if a.One? {
      CompileSequenceOk(t, base, a.sequence);
      SequenceMeaning(t, base, a.sequence, final);
      var els := CompileSequence(t, base, a.sequence).els;
      forall w: Word
        ensures InBody(final.rules, els, w) <==> InAlternates(final, a, w)
      {
        SingleBody(final.rules, els, w);
      }
    } else {
      var o := CompileAlternates(t, base, a.front);
      CompileAlternatesOk(t, base, a.front);
      var o' := CompileSequence(o.table, base, a.sequence);
      CompileSequenceOk(o.table, base, a.sequence);
      SurvivesEarlier(o.table, o'.table, final, |t.ids|);
      SurvivesFrom(o'.table, final, |t.ids|, |o.table.ids|);
      AlternatesMeaning(t, base, a.front, final);
      SequenceMeaning(o.table, base, a.sequence, final);
      forall w: Word
        ensures InBody(final.rules, o.els + [Element(ALT, 0)] + o'.els, w) <==> InAlternates(final, a, w)
      {
        BodyOr(final.rules, o.els, o'.els, w);
      }
    }
  }

  // ---------------------------------------------------------------------------------------
  // Whole grammars
  // ---------------------------------------------------------------------------------------

  /** Later definitions keep all names, all generated rules and the rule `id`. */
  ghost predicate Keeps(t: Table, t': Table, id: nat) {
    Survives(t, t', 0) && RuleAt(t'.rules, id) == RuleAt(t.rules, id)
  }

  lemma KeepsTransitive(t1: Table, t2: Table, t3: Table, id: nat)
    requires Keeps(t1, t2, id) && Keeps(t2, t3, id)
    ensures Keeps(t1, t3, id)
  {
    forall q: nat | IsGenerated(t1, q)
      ensures RuleAt(t3.rules, q) == RuleAt(t1.rules, q)
    {
      var name :| NamedBy(t1, q, name);
      assert NamedBy(t2, q, name);
    }
  }

  /** A definition leaves the other definitions and all generated rules alone. */
  lemma RuleKeeps(t: Table, d: Definition, name: Name)
    requires Sound(t) && DefinitionFits(d) && CompileRule(t, d).Final?
    requires name in t.ids && name != d.name
    ensures Keeps(t, CompileRule(t, d).table, t.ids[name])
  {
    var t1 := Lookup(t, d.name);
    LookupSound(t, d.name);
    CompileAlternatesOk(t1, d.name, d.alternates);
    var o := CompileAlternates(t1, d.name, d.alternates);
    GrownTransitive(t, t1, o.table);
    DefineKeeps(t, o.table, t1.ids[d.name], d.name, o.els + [Element(END, 0)]);
    assert t1.ids[d.name] != t.ids[name];
    assert RuleAt(t.rules, t.ids[name]) == RuleAt(o.table.rules, t.ids[name]);
  }

  lemma DefineKeeps(t: Table, t': Table, id: nat, name: Name, rule: Rule)
    requires Sound(t) && Sound(t') && Grown(t, t') && name in t'.ids && t'.ids[name] == id && UNDERSCORE !in name
    ensures Survives(t, Define(t', id, rule), 0)
  {
    forall q: nat | IsGenerated(t, q)
      ensures RuleAt(Define(t', id, rule).rules, q) == RuleAt(t.rules, q)
    {
      var name' :| NamedBy(t, q, name');
      assert t'.ids[name'] == q && q != id;
      assert RuleAt(t.rules, q) == RuleAt(t'.rules, q);
    }
  }

  ghost predicate DefinedLast(ds: seq<Definition>, i: nat) {
    i < |ds| && forall j :: i < j < |ds| ==> ds[j].name != ds[i].name
  }

  /** The table behind a definition, with the definition's output. */
  lemma RuleDefined(t: Table, d: Definition) returns (t1: Table, o: Output, t': Table)
    requires Sound(t) && DefinitionFits(d) && CompileRule(t, d).Final?
    ensures t1 == Lookup(t, d.name) && o == CompileAlternates(t1, d.name, d.alternates) && o.Output?
    ensures t' == CompileRule(t, d).table == Define(o.table, t1.ids[d.name], o.els + [Element(END, 0)])
    ensures Sound(t1) && Sound(t') && Grown(t1, o.table) && Sound(o.table)
  {
    t1 := Lookup(t, d.name);
    LookupSound(t, d.name);
    o := CompileAlternates(t1, d.name, d.alternates);
    CompileAlternatesOk(t1, d.name, d.alternates);
    t' := CompileRule(t, d).table;
    CompileRuleOk(t, d);
  }

  /** From its definition on, a rule that is not defined again stays. */
  lemma {:induction false} LastDefinitionStays(t0: Table, ds: seq<Definition>, i: nat)
    requires Sound(t0) && DefinitionsFit(ds) && CompileRules(t0, ds).Final? && DefinedLast(ds, i)
    ensures CompileRules(t0, ds[..i + 1]).Final? && ds[i].name in CompileRules(t0, ds[..i + 1]).table.ids
    ensures Keeps(CompileRules(t0, ds[..i + 1]).table, CompileRules(t0, ds).table,
                  CompileRules(t0, ds[..i + 1]).table.ids[ds[i].name])
    decreases |ds|
  {
    var front := ds[..|ds| - 1];
    CompileRulesOk(t0, front);
    var t := CompileRules(t0, front).table;
    if i == |ds| - 1 {
      assert ds[..i + 1] == ds;
      var t1, o, t' := RuleDefined(t, ds[i]);
    } else {
      assert front[..i + 1] == ds[..i + 1];
      LastDefinitionStays(t0, front, i);
      var ti := CompileRules(t0, ds[..i + 1]).table;
      RuleKeeps(t, ds[|ds| - 1], ds[i].name);
      KeepsTransitive(ti, t, CompileRules(t0, ds).table, ti.ids[ds[i].name]);
    }
  }

  /** What survives behind the rule survives behind its alternates. */
  lemma DefinedSurvives(t': Table, o: Table, id: nat, name: Name, rule: Rule, final: Table)
    requires Sound(o) && name in o.ids && o.ids[name] == id && UNDERSCORE !in name
    requires t' == Define(o, id, rule) && Survives(t', final, 0)
    ensures Survives(o, final, 0)
  {
    forall q: nat | IsGenerated(o, q)
      ensures RuleAt(final.rules, q) == RuleAt(o.rules, q)
    {
      var name' :| NamedBy(o, q, name');
      assert NamedBy(t', q, name');
      assert q != id;
    }
  }

  /** The rule of the last definition of a name, and what it was compiled from. */
  lemma RuleOfDefinition(t0: Table, ds: seq<Definition>, i: nat) returns (t1: Table, o: Output)
    requires Sound(t0) && DefinitionsFit(ds) && CompileRules(t0, ds).Final? && DefinedLast(ds, i)
    ensures Sound(t1) && o == CompileAlternates(t1, ds[i].name, ds[i].alternates) && o.Output?
    ensures var final := CompileRules(t0, ds).table;
      && Survives(o.table, final, |t1.ids|) && ds[i].name in final.ids
      && RuleAt(final.rules, final.ids[ds[i].name]) == o.els + [Element(END, 0)]
  {
    var final := CompileRules(t0, ds).table;
    var front := ds[..i];
    LastDefinitionStays(t0, ds, i);
    assert ds[..i + 1][..i] == front && ds[..i + 1][i] == ds[i];
    CompileRulesOk(t0, front);
    var t';
    t1, o, t' := RuleDefined(CompileRules(t0, front).table, ds[i]);
    DefinedSurvives(t', o.table, t1.ids[ds[i].name], ds[i].name, o.els + [Element(END, 0)], final);
  }

  /**
    The table that a grammar compiles to means what the text says. The rule of every name derives
    exactly the words of the last definition of that name; references stand for the rules of the
    same table, groups for their alternates, and repetitions, also of repetitions, for powers.
    */
  lemma TableMeansText(t0: Table, ds: seq<Definition>, i: nat, w: Word)
    requires Sound(t0) && DefinitionsFit(ds) && CompileRules(t0, ds).Final? && DefinedLast(ds, i)
    ensures var final := CompileRules(t0, ds).table;
      ds[i].name in final.ids && (InRule(final.rules, final.ids[ds[i].name], w) <==>
        InAlternates(final, ds[i].alternates, w))
  {
    var final := CompileRules(t0, ds).table;
    var t1, o := RuleOfDefinition(t0, ds, i);
    AlternatesMeaning(t1, ds[i].name, ds[i].alternates, final);
    RuleIsBody(final.rules, final.ids[ds[i].name], o.els, w);
  }
}
