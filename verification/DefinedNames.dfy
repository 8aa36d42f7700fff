/**
  Which names of a grammar have rules. A name that the text only mentions can still get an id, and
  when its mention is repeated at most 0 times, nothing notices that it has no rule.
  */
module DefinedNames {
  import opened GrammarElements
  import opened Repetition
  import opened GrammarSyntax
  import Notation
  import opened GrammarShow
  import opened WriteTrees
  import opened RuleTable
  import opened GrammarMeaning

  // ---------------------------------------------------------------------------------------
  // Only generated rules are added
  // ---------------------------------------------------------------------------------------

  ghost predicate SameOrGenerated(t: Table, t': Table, q: nat) {
    RuleAt(t'.rules, q) == RuleAt(t.rules, q) || IsGenerated(t', q)
  }

  /** Names keep their ids, and what was changed or added are rules of generated names. */
  ghost predicate Adds(t: Table, t': Table) {
    && (forall s :: s in t.ids ==> s in t'.ids && t'.ids[s] == t.ids[s])
    && forall q: nat :: SameOrGenerated(t, t', q)
  }

  lemma GeneratedKeeps(t: Table, t': Table, q: nat)
    requires (forall s :: s in t.ids ==> s in t'.ids && t'.ids[s] == t.ids[s]) && IsGenerated(t, q)
    ensures IsGenerated(t', q)
  {
    var name :| NamedBy(t, q, name);
    assert NamedBy(t', q, name);
  }

  lemma AddsTransitive(t1: Table, t2: Table, t3: Table)
    requires Adds(t1, t2) && Adds(t2, t3)
    ensures Adds(t1, t3)
  {
    forall q: nat
      ensures SameOrGenerated(t1, t3, q)
    {
      assert SameOrGenerated(t1, t2, q) && SameOrGenerated(t2, t3, q);
      if IsGenerated(t2, q) {
        GeneratedKeeps(t2, t3, q);
      }
    }
  }

  lemma LookupAdds(t: Table, name: Name)
    ensures Adds(t, Lookup(t, name))
  {
  }

  /** A new name with its rule. */
  lemma AddedAdds(t: Table, base: Name, rule: Rule)
    requires Sound(t) && UNDERSCORE !in base
    ensures Adds(t, Define(Generate(t, base), |t.ids|, rule))
  {
    var t' := Define(Generate(t, base), |t.ids|, rule);
    assert GeneratedName(base, |t.ids|) !in t.ids by {
      GenerateSound(t, base);
    }
    AddedGenerated(t, base, t', |t.ids|);
  }

  lemma {:induction false} ChainAdds(t: Table, base: Name, s: seq<Element>, max: Bound, i: nat)
    requires Sound(t) && UNDERSCORE !in base && IsBody(s, |t.ids|) && s != []
    ensures Adds(t, Chain(t, base, s, max, i))
    decreases i
  {
    if i > 0 {
      var t' := Chain(t, base, s, max, i - 1);
      ChainAdds(t, base, s, max, i - 1);
      assert Sound(t') by {
        ChainSound(t, base, s, max, i - 1);
      }
      AddedAdds(t', base, RecRule(s, NextOf(|t.ids|, i - 1, max)));
      AddsTransitive(t, t', Chain(t, base, s, max, i));
    }
  }

  ghost predicate OutputAdds(t: Table, o: Output) {
    o.Output? ==> Adds(t, o.table)
  }

  lemma RepeatedAdds(t0: Table, o: Output, base: Name, min: nat, max: Bound)
    requires UNDERSCORE !in base && o.Output? && ItemOk(t0, o) && Adds(t0, o.table)
    ensures OutputAdds(t0, Repeated(o.table, base, o.els, o.count, min, max))
  {
    if CanRepeat(o.els, o.count, min, max) {
      var count := GeneratedCount(min, max);
      ChainAdds(o.table, base, o.els, max, count);
      AddsTransitive(t0, o.table, Chain(o.table, base, o.els, max, count));
    }
  }

  lemma GroupedAdds(t: Table, base: Name, o: Output)
    requires Sound(t) && UNDERSCORE !in base && OutputAdds(Generate(t, base), o)
    ensures OutputAdds(t, Grouped(t, o))
  {
    if o.Output? {
      var t', name := Grouped(t, o).table, GeneratedName(base, |t.ids|);
      GenerateSound(t, base);
      GeneratedIs(t, base);
      assert NamedBy(t', |t.ids|, name);
      forall q: nat
        ensures SameOrGenerated(t, t', q)
      {
        assert SameOrGenerated(Generate(t, base), o.table, q);
        if IsGenerated(o.table, q) {
          GeneratedKeeps(o.table, t', q);
        }
      }
    }
  }

  lemma {:induction false} ItemAdds(t: Table, base: Name, item: Item)
    requires Sound(t) && UNDERSCORE !in base && ItemFits(item)
    ensures OutputAdds(t, CompileItem(t, base, item))
    decreases item, 0
  {
    match item
    case Terminal(_) =>
    case Named(name) =>
      LookupAdds(t, name);
    case Group(alternates) =>
      GenerateSound(t, base);
      AlternatesAdd(Generate(t, base), base, alternates);
      GroupedAdds(t, base, CompileAlternates(Generate(t, base), base, alternates));
    case Repeat(inner, min, max) =>
      ItemAdds(t, base, inner);
      CompileItemOk(t, base, inner);
      var o := CompileItem(t, base, inner);
      if o.Output? {
        RepeatedAdds(t, o, base, min, max);
      }
  }

  lemma {:induction false} SequenceAdds(t: Table, base: Name, s: Sequence)
    requires Sound(t) && UNDERSCORE !in base && SequenceFits(s)
    ensures OutputAdds(t, CompileSequence(t, base, s))
    decreases s, 0
  {
    if s.Then? {
      SequenceAdds(t, base, s.front);
      CompileSequenceOk(t, base, s.front);
      var o := CompileSequence(t, base, s.front);
      if o.Output? {
        ItemAdds(o.table, base, s.item);
        BehindAdds(t, o, o.els, CompileItem(o.table, base, s.item));
      }
    }
  }

  lemma BehindAdds(t: Table, o: Output, els: seq<Element>, o': Output)
    requires o.Output? && Adds(t, o.table) && OutputAdds(o.table, o')
    ensures OutputAdds(t, Behind(els, o'))
  {
    if o'.Output? {
      AddsTransitive(t, o.table, o'.table);
    }
  }

  lemma {:induction false} AlternatesAdd(t: Table, base: Name, a: Alternates)
    requires Sound(t) && UNDERSCORE !in base && AlternatesFit(a)
    ensures OutputAdds(t, CompileAlternates(t, base, a))
    decreases a, 0
  {
    match a
    case One(s) =>
      SequenceAdds(t, base, s);
    case Or(front, s) =>
      AlternatesAdd(t, base, front);
      CompileAlternatesOk(t, base, front);
      var o := CompileAlternates(t, base, front);
      if o.Output? {
        SequenceAdds(o.table, base, s);
        BehindAdds(t, o, o.els + [Element(ALT, 0)], CompileSequence(o.table, base, s));
      }
  }

  // ---------------------------------------------------------------------------------------
  // Defined names
  // ---------------------------------------------------------------------------------------

  ghost predicate Defines(ds: seq<Definition>, name: Name) {
    exists i :: 0 <= i < |ds| && ds[i].name == name
  }

  /** The name has an id, and its rule is not empty. */
  ghost predicate HasRule(t: Table, name: Name) {
    name in t.ids && RuleAt(t.rules, t.ids[name]) != []
  }

  /** A definition gives its name a rule, and no other name gets or loses one. */
  lemma RuleDefines(t: Table, d: Definition, name: Name)
    requires Sound(t) && DefinitionFits(d) && CompileRule(t, d).Final? && UNDERSCORE !in name
    ensures HasRule(CompileRule(t, d).table, name) <==> HasRule(t, name) || name == d.name
  {
    var t1, o, t' := RuleDefined(t, d);
    AlternatesAdd(t1, d.name, d.alternates);
    LookupAdds(t, d.name);
    AddsTransitive(t, t1, o.table);
    if name in t'.ids && name != d.name {
      var q := t'.ids[name];
      assert !IsGenerated(o.table, q) by {
        UserIsNotGenerated(o.table, name);
      }
      assert SameOrGenerated(t, o.table, q) && q != t1.ids[d.name];
      if name !in t.ids {
        NewNameNoRule(t, o.table, name);
      }
    }
  }

  lemma UserIsNotGenerated(t: Table, name: Name)
    requires Sound(t) && name in t.ids && UNDERSCORE !in name
    ensures !IsGenerated(t, t.ids[name])
  {
  }

  /** The id of a name that is new is behind the old ids, and so behind the old rules. */
  lemma NewNameNoRule(t: Table, t': Table, name: Name)
    requires Sound(t) && Sound(t') && Adds(t, t') && name in t'.ids && name !in t.ids
    ensures RuleAt(t.rules, t'.ids[name]) == []
  {
    var q0 := t'.ids[name];
    assert q0 < |t.ids| ==> HasName(t.ids, q0);
    forall q: nat | HasName(t.ids, q)
      ensures q0 != q
    {
      var other :| other in t.ids && t.ids[other] == q;
      assert other != name && t'.ids[other] == q;
    }
  }

  lemma {:induction false} RulesDefine(ds: seq<Definition>, name: Name)
    requires DefinitionsFit(ds) && CompileRules(Table(map[], []), ds).Final? && UNDERSCORE !in name
    ensures HasRule(CompileRules(Table(map[], []), ds).table, name) <==> Defines(ds, name)
    decreases |ds|
  {
    if ds != [] {
      var front, d := ds[..|ds| - 1], ds[|ds| - 1];
      RulesDefine(front, name);
      CompileRulesOk(Table(map[], []), front);
      RuleDefines(CompileRules(Table(map[], []), front).table, d, name);
      DefinesFront(ds, name);
    }
  }

  lemma DefinesFront(ds: seq<Definition>, name: Name)
    requires ds != []
    ensures Defines(ds, name) <==> Defines(ds[..|ds| - 1], name) || ds[|ds| - 1].name == name
  {
  }

  /**
    In the table of a grammar that is accepted, the id of a name is that of a rule if and only if the text
    defines the name. So exactly the other names must not be taken for the start rule.
    */
  lemma StartIsRuleIff(ds: seq<Definition>, name: Name)
    requires DefinitionsFit(ds) && CompileRules(Table(map[], []), ds).Final?
    requires IsDefined(CompileRules(Table(map[], []), ds).table.rules)
    requires name in CompileRules(Table(map[], []), ds).table.ids && UNDERSCORE !in name
    ensures var final := CompileRules(Table(map[], []), ds).table;
      final.ids[name] < |final.rules| <==> Defines(ds, name)
  {
    RulesDefine(ds, name);
  }

  // ---------------------------------------------------------------------------------------
  // A name without a rule
  // ---------------------------------------------------------------------------------------

  /** r ::= "a" f{0,0} */
  function Mentions(): seq<Definition> {
    [Definition([114], One(Then(Then(Nothing, Terminal([Element(CHAR, 97)])), Repeat(Named([102]), 0, Max(0)))))]
  }

  lemma MentionsReads(vocab: Vocab)
    ensures Notation.AllShow(WriteGrammar(Mentions()), vocab) && DefinitionsFit(Mentions())
    ensures ReadGrammar(Notation.TextOfGrammar(WriteGrammar(Mentions()), vocab), vocab) == Read(Mentions(), [])
  {
    var a := Mentions()[0].alternates;
    var s := Then(Nothing, Terminal([Element(CHAR, 97)]));
    assert Notation.NameShows([102]) && Notation.NameShows([114]);
    assert SequenceExists(s) && ItemExists(Repeat(Named([102]), 0, Max(0)));
    assert AlternatesExist(a);
    EveryGrammarIsWritten(Mentions(), vocab);
    var w := WriteGrammar(Mentions());
    TreesFit(w, vocab);
    GrammarRoundTrip([], w, [], vocab);
    assert [] + (Notation.TextOfGrammar(w, vocab) + []) == Notation.TextOfGrammar(w, vocab);
  }

  lemma MentionsCompiles()
    ensures CompileRules(Table(map[], []), Mentions())
      == Final(Table(map[[114] := 0, [102] := 1], [[Element(CHAR, 97), Element(END, 0)]]))
  {
    var d := Mentions()[0];
    var t0 := Table(map[], []);
    var t1 := Lookup(t0, [114]);
    assert t1 == Table(map[[114] := 0], []);
    var t2 := Lookup(t1, [102]);
    assert t2 == Table(map[[114] := 0, [102] := 1], []);
    var o1 := CompileSequence(t1, [114], Then(Nothing, Terminal([Element(CHAR, 97)])));
    assert o1 == Output(t1, [Element(CHAR, 97)], 1);
    var o2 := CompileItem(t1, [114], Repeat(Named([102]), 0, Max(0)));
    assert CompileItem(t1, [114], Named([102])) == Output(t2, [Element(RULE_REF, 1)], 1);
    assert o2 == Output(t2, [], 1);
    assert CompileAlternates(t1, [114], d.alternates) == Output(t2, [Element(CHAR, 97)], 1);
    assert [Element(CHAR, 97)] + [Element(END, 0)] == [Element(CHAR, 97), Element(END, 0)];
    assert CompileRule(t0, d) == Final(Define(t2, 0, [Element(CHAR, 97), Element(END, 0)]));
    assert Mentions()[..0] == [];
  }

  lemma OneRuleDefined()
    ensures IsDefined([[Element(CHAR, 97), Element(END, 0)]])
  {
  }

  /** The grammar is accepted, `f` has an id, and the table has no rule there. */
  lemma MentionedWithoutRule(vocab: Vocab)
    ensures Notation.AllShow(WriteGrammar(Mentions()), vocab)
    ensures var r := ReadGrammar(Notation.TextOfGrammar(WriteGrammar(Mentions()), vocab), vocab);
      && r.Read? && CompileRules(Table(map[], []), r.value).Final?
      && var final := CompileRules(Table(map[], []), r.value).table;
        IsDefined(final.rules) && [102] in final.ids && final.ids[[102]] >= |final.rules|
  {
    MentionsReads(vocab);
    MentionsCompiles();
    OneRuleDefined();
  }
}
