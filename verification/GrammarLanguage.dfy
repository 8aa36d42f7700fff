/**
  The language of a grammar text, defined on its syntax trees alone, by how deep names are unfolded.
  The rules of the table that the parser leaves behind have exactly these languages.
  */
module GrammarLanguage {
  import opened GrammarElements
  import opened Language
  import opened Repetition
  import opened GrammarSyntax
  import opened RuleTable
  import opened GrammarMeaning
  import opened DefinedNames

  // ---------------------------------------------------------------------------------------
  // Derivation on syntax trees
  // ---------------------------------------------------------------------------------------

  /** `w` derives from the item, with names unfolded at most `n` deep. */
  ghost predicate ItemDerives(ds: seq<Definition>, item: Item, w: Word, n: nat)
    decreases n, 1, item, 0
  {
    match item
    case Terminal(els) => w in LanguageOf([], els)
    case Named(name) => NameDerives(ds, name, w, n)
    case Group(alternates) => AlternatesDerive(ds, alternates, w, n)
    case Repeat(inner, min, max) => InPowers(ItemLanguage(ds, inner, n), min, max, w)
  }

  /** The words that derive from the item. */
  ghost function ItemLanguage(ds: seq<Definition>, item: Item, n: nat): iset<Word>
    decreases n, 1, item, 1
  {
    iset v: Word | ItemDerives(ds, item, v, n)
  }

  ghost predicate SequenceDerives(ds: seq<Definition>, s: Sequence, w: Word, n: nat)
    decreases n, 1, s, 1
  {
    if s.Nothing? then w == [] else exists k: nat :: SequenceSplits(ds, s, w, n, k)
  }

  ghost predicate SequenceSplits(ds: seq<Definition>, s: Sequence, w: Word, n: nat, k: nat)
    requires s.Then?
    decreases n, 1, s, 0
  {
    k <= |w| && SequenceDerives(ds, s.front, w[..k], n) && ItemDerives(ds, s.item, w[k..], n)
  }

  ghost predicate AlternatesDerive(ds: seq<Definition>, a: Alternates, w: Word, n: nat)
    decreases n, 1, a, 0
  {
    SequenceDerives(ds, a.sequence, w, n) || (a.Or? && AlternatesDerive(ds, a.front, w, n))
  }

  /** `w` derives from the last definition of the name. */
  ghost predicate NameDerives(ds: seq<Definition>, name: Name, w: Word, n: nat)
    decreases n, 0, 1
  {
    n > 0 && exists i: nat :: DefinitionDerives(ds, name, w, n, i)
  }

  ghost predicate DefinitionDerives(ds: seq<Definition>, name: Name, w: Word, n: nat, i: nat)
    requires n > 0
    decreases n, 0, 0
  {
    DefinedLast(ds, i) && ds[i].name == name && AlternatesDerive(ds, ds[i].alternates, w, n - 1)
  }

  /** The language of a name. */
  ghost predicate InText(ds: seq<Definition>, name: Name, w: Word) {
    exists n: nat :: NameDerives(ds, name, w, n)
  }

  lemma SequenceSplit(ds: seq<Definition>, s: Sequence, w: Word, n: nat) returns (k: nat)
    requires s.Then? && SequenceDerives(ds, s, w, n)
    ensures k <= |w| && SequenceDerives(ds, s.front, w[..k], n) && ItemDerives(ds, s.item, w[k..], n)
  {
    k :| SequenceSplits(ds, s, w, n, k);
  }

  lemma SequenceJoin(ds: seq<Definition>, s: Sequence, w: Word, n: nat, k: nat)
    requires s.Then? && k <= |w| && SequenceDerives(ds, s.front, w[..k], n) && ItemDerives(ds, s.item, w[k..], n)
    ensures SequenceDerives(ds, s, w, n)
  {
    assert SequenceSplits(ds, s, w, n, k);
  }

  // ---------------------------------------------------------------------------------------
  // Deeper unfolding derives no less
  // ---------------------------------------------------------------------------------------

  lemma {:induction false} ItemMonotone(ds: seq<Definition>, item: Item, w: Word, n: nat, n': nat)
    requires n <= n' && ItemDerives(ds, item, w, n)
    ensures ItemDerives(ds, item, w, n')
    decreases n, 1, item, 0
  {
    match item
    case Terminal(_) =>
    case Named(name) =>
      NameMonotone(ds, name, w, n, n');
    case Group(alternates) =>
      AlternatesMonotone(ds, alternates, w, n, n');
    case Repeat(inner, min, max) =>
      forall v: Word | v in ItemLanguage(ds, inner, n)
        ensures v in ItemLanguage(ds, inner, n')
      {
        ItemMonotone(ds, inner, v, n, n');
      }
      PowersWider(ItemLanguage(ds, inner, n), ItemLanguage(ds, inner, n'), min, max, w);
  }

  lemma {:induction false} SequenceMonotone(ds: seq<Definition>, s: Sequence, w: Word, n: nat, n': nat)
    requires n <= n' && SequenceDerives(ds, s, w, n)
    ensures SequenceDerives(ds, s, w, n')
    decreases n, 1, s, 0
  {
    if s.Then? {
      var k := SequenceSplit(ds, s, w, n);
      SequenceMonotone(ds, s.front, w[..k], n, n');
      ItemMonotone(ds, s.item, w[k..], n, n');
      SequenceJoin(ds, s, w, n', k);
    }
  }

  lemma {:induction false} AlternatesMonotone(ds: seq<Definition>, a: Alternates, w: Word, n: nat, n': nat)
    requires n <= n' && AlternatesDerive(ds, a, w, n)
    ensures AlternatesDerive(ds, a, w, n')
    decreases n, 1, a, 0
  {
    if SequenceDerives(ds, a.sequence, w, n) {
      SequenceMonotone(ds, a.sequence, w, n, n');
    } else {
      AlternatesMonotone(ds, a.front, w, n, n');
    }
  }

  lemma {:induction false} NameMonotone(ds: seq<Definition>, name: Name, w: Word, n: nat, n': nat)
    requires n <= n' && NameDerives(ds, name, w, n)
    ensures NameDerives(ds, name, w, n')
    decreases n, 0
  {
    var i: nat :| DefinitionDerives(ds, name, w, n, i);
    AlternatesMonotone(ds, ds[i].alternates, w, n - 1, n' - 1);
    assert DefinitionDerives(ds, name, w, n', i);
  }

  // ---------------------------------------------------------------------------------------
  // What the text says, the table derives
  // ---------------------------------------------------------------------------------------

  /** The table of a grammar. */
  ghost predicate IsTableOf(final: Table, ds: seq<Definition>) {
    DefinitionsFit(ds) && CompileRules(Table(map[], []), ds) == Final(final)
  }

  lemma {:induction false} ItemIntoTable(final: Table, ds: seq<Definition>, item: Item, w: Word, n: nat)
    requires IsTableOf(final, ds) && ItemDerives(ds, item, w, n)
    ensures InItem(final, item, w)
    decreases n, 1, item, 0
  {
    match item
    case Terminal(_) =>
    case Named(name) =>
      NameIntoTable(final, ds, name, w, n);
    case Group(alternates) =>
      AlternatesIntoTable(final, ds, alternates, w, n);
    case Repeat(inner, min, max) =>
      forall v: Word | v in ItemLanguage(ds, inner, n)
        ensures v in MeaningOf(final, inner)
      {
        ItemIntoTable(final, ds, inner, v, n);
      }
      PowersWider(ItemLanguage(ds, inner, n), MeaningOf(final, inner), min, max, w);
  }

  lemma {:induction false} SequenceIntoTable(final: Table, ds: seq<Definition>, s: Sequence, w: Word, n: nat)
    requires IsTableOf(final, ds) && SequenceDerives(ds, s, w, n)
    ensures InSequence(final, s, w)
    decreases n, 1, s, 0
  {
    if s.Then? {
      var k := SequenceSplit(ds, s, w, n);
      SequenceIntoTable(final, ds, s.front, w[..k], n);
      ItemIntoTable(final, ds, s.item, w[k..], n);
      assert SequenceCut(final, s, w, k);
    }
  }

  lemma {:induction false} AlternatesIntoTable(final: Table, ds: seq<Definition>, a: Alternates, w: Word, n: nat)
    requires IsTableOf(final, ds) && AlternatesDerive(ds, a, w, n)
    ensures InAlternates(final, a, w)
    decreases n, 1, a, 0
  {
    if SequenceDerives(ds, a.sequence, w, n) {
      SequenceIntoTable(final, ds, a.sequence, w, n);
    } else {
      AlternatesIntoTable(final, ds, a.front, w, n);
    }
  }

  lemma {:induction false} NameIntoTable(final: Table, ds: seq<Definition>, name: Name, w: Word, n: nat)
    requires IsTableOf(final, ds) && NameDerives(ds, name, w, n)
    ensures name in final.ids && InRule(final.rules, final.ids[name], w)
    decreases n, 0
  {
    var i: nat :| DefinitionDerives(ds, name, w, n, i);
    AlternatesIntoTable(final, ds, ds[i].alternates, w, n - 1);
    TableMeansText(Table(map[], []), ds, i, w);
  }

  // ---------------------------------------------------------------------------------------
  // What the table derives, the text says
  // ---------------------------------------------------------------------------------------

  /** What the rule of a name derives within `m` applications, the name derives unfolded `m` deep. */
  ghost predicate NameAgrees(final: Table, ds: seq<Definition>, name: Name, w: Word, m: nat) {
    UNDERSCORE !in name && name in final.ids && RuleDerives(final.rules, final.ids[name], w, m) ==>
      NameDerives(ds, name, w, m)
  }

  ghost predicate NamesAgree(final: Table, ds: seq<Definition>, n: nat) {
    forall name: Name, w: Word, m: nat :: m <= n ==> NameAgrees(final, ds, name, w, m)
  }

  lemma {:induction false} ItemFromTable(t: Table, base: Name, item: Item, final: Table, ds: seq<Definition>, w: Word,
                                         n: nat)
    requires Sound(t) && UNDERSCORE !in base && ItemFits(item) && CompileItem(t, base, item).Output?
    requires Survives(CompileItem(t, base, item).table, final, |t.ids|) && NamesAgree(final, ds, n)
    requires Derives(final.rules, CompileItem(t, base, item).els, 0, w, n)
    ensures ItemDerives(ds, item, w, n)
    decreases item, 0
  {
    match item
    case Terminal(els) =>
      LanguageKept(final.rules, [], 0, els, 0, w, n);
    case Named(name) =>
      SingleRef(final.rules, final.ids[name], w, n);
      assert NameAgrees(final, ds, name, w, n);
    case Group(alternates) =>
      GroupFromTable(t, base, alternates, final, ds, w, n);
    case Repeat(inner, min, max) =>
      RepeatFromTable(t, base, inner, min, max, final, ds, w, n);
  }

  lemma {:induction false} RepeatFromTable(t: Table, base: Name, inner: Item, min: nat, max: Bound, final: Table,
                                           ds: seq<Definition>, w: Word, n: nat)
    requires Sound(t) && UNDERSCORE !in base && ItemFits(inner) && CompileItem(t, base, Repeat(inner, min, max)).Output?
    requires Survives(CompileItem(t, base, Repeat(inner, min, max)).table, final, |t.ids|) && NamesAgree(final, ds, n)
    requires Derives(final.rules, CompileItem(t, base, Repeat(inner, min, max)).els, 0, w, n)
    ensures ItemDerives(ds, Repeat(inner, min, max), w, n)
    decreases inner, 1
  {
    var o := CompileItem(t, base, inner);
    CompileItemOk(t, base, inner);
    RepeatSurvives(t, base, o, min, max, final);
    forall v: Word | Derives(final.rules, o.els, 0, v, n)
      ensures ItemDerives(ds, inner, v, n)
    {
      ItemFromTable(t, base, inner, final, ds, v, n);
    }
    var count := GeneratedCount(min, max);
    ChainSurvives(o.table, base, o.els, max, count, final);
    RewrittenSound(final.rules, o.els, min, max, |o.table.ids|, count, w, n);
    PowersWider(Bounded(final.rules, o.els, n), ItemLanguage(ds, inner, n), min, max, w);
  }

  lemma {:induction false} GroupFromTable(t: Table, base: Name, alternates: Alternates, final: Table,
                                          ds: seq<Definition>, w: Word, n: nat)
    requires Sound(t) && UNDERSCORE !in base && AlternatesFit(alternates) && CompileGroup(t, base, alternates).Output?
    requires Survives(CompileGroup(t, base, alternates).table, final, |t.ids|) && NamesAgree(final, ds, n)
    requires Derives(final.rules, CompileGroup(t, base, alternates).els, 0, w, n)
    ensures AlternatesDerive(ds, alternates, w, n)
    decreases alternates, 1
  {
    var t1 := Generate(t, base);
    var o := CompileAlternates(t1, base, alternates);
    GroupParts(t, base, alternates, final);
    SingleRef(final.rules, |t.ids|, w, n);
    var a := BodyOfRule(final.rules, |t.ids|, o.els, w, n);
    AlternatesFromTable(t1, base, alternates, final, ds, w, a, n - 1);
    AlternatesMonotone(ds, alternates, w, n - 1, n);
  }

  /** The rule of the group is still there, and so is what its alternates gave. */
  lemma GroupParts(t: Table, base: Name, alternates: Alternates, final: Table)
    requires Sound(t) && UNDERSCORE !in base && AlternatesFit(alternates) && CompileGroup(t, base, alternates).Output?
    requires Survives(CompileGroup(t, base, alternates).table, final, |t.ids|)
    ensures var t1 := Generate(t, base);
      var o := CompileAlternates(t1, base, alternates);
      && Sound(t1) && o.Output? && Survives(o.table, final, |t1.ids|)
      && RuleAt(final.rules, |t.ids|) == o.els + [Element(END, 0)]
  {
    var t1 := Generate(t, base);
    GenerateSound(t, base);
    var o := CompileAlternates(t1, base, alternates);
    CompileAlternatesOk(t1, base, alternates);
    GroupSurvives(t, base, o, final);
    var name :| NamedBy(o.table, |t.ids|, name);
    assert NamedBy(Grouped(t, o).table, |t.ids|, name);
  }

  lemma BodyOfRule(rules: Rules, q: nat, els: seq<Element>, w: Word, n: nat) returns (a: nat)
    requires RuleAt(rules, q) == els + [Element(END, 0)] && RuleDerives(rules, q, w, n)
    ensures n > 0 && BodyDerives(rules, els, w, a, n - 1)
  {
    assert els + [Element(END, 0)] == els + ([Element(END, 0)] + []);
    a := RuleDerivesAlternate(rules, q, w, n);
    DerivesUpTo(rules, els, Element(END, 0), [], a, w, n - 1);
  }

  /** A sequence that survives is made of parts that survive. */
  lemma ThenSurvives(t: Table, base: Name, s: Sequence, final: Table)
    requires Sound(t) && UNDERSCORE !in base && SequenceFits(s) && s.Then? && CompileSequence(t, base, s).Output?
    requires Survives(CompileSequence(t, base, s).table, final, |t.ids|)
    ensures var o := CompileSequence(t, base, s.front);
      && o.Output? && Sound(o.table) && IsSymbols(o.els) && Survives(o.table, final, |t.ids|)
      && var o' := CompileItem(o.table, base, s.item);
        o'.Output? && IsSymbols(o'.els) && Survives(o'.table, final, |o.table.ids|)
  {
    var o := CompileSequence(t, base, s.front);
    CompileSequenceOk(t, base, s.front);
    var o' := CompileItem(o.table, base, s.item);
    CompileItemOk(o.table, base, s.item);
    SurvivesEarlier(o.table, o'.table, final, |t.ids|);
    SurvivesFrom(o'.table, final, |t.ids|, |o.table.ids|);
  }

  lemma PartsDerive(rules: Rules, a: seq<Element>, b: seq<Element>, w: Word, n: nat) returns (k: nat)
    requires IsSymbols(a) && IsSymbols(b) && Derives(rules, a + b, 0, w, n)
    ensures k <= |w| && Derives(rules, a, 0, w[..k], n) && Derives(rules, b, 0, w[k..], n)
  {
    var m;
    k, m := ConcatSplit(rules, a, b, 0, w, n);
    DerivesMonotone(rules, a, 0, w[..k], m, n);
    DerivesMonotone(rules, b, 0, w[k..], n - m, n);
  }

  lemma {:induction false} SequenceFromTable(t: Table, base: Name, s: Sequence, final: Table, ds: seq<Definition>,
                                             w: Word, n: nat)
    requires Sound(t) && UNDERSCORE !in base && SequenceFits(s) && CompileSequence(t, base, s).Output?
    requires Survives(CompileSequence(t, base, s).table, final, |t.ids|) && NamesAgree(final, ds, n)
    requires Derives(final.rules, CompileSequence(t, base, s).els, 0, w, n)
    ensures SequenceDerives(ds, s, w, n)
    decreases s, 0
  {
    if s.Then? {
      var o := CompileSequence(t, base, s.front);
      var o' := CompileItem(o.table, base, s.item);
      ThenSurvives(t, base, s, final);
      var k := PartsDerive(final.rules, o.els, o'.els, w, n);
      SequenceFromTable(t, base, s.front, final, ds, w[..k], n);
      ItemFromTable(o.table, base, s.item, final, ds, w[k..], n);
      SequenceJoin(ds, s, w, n, k);
    }
  }

  lemma {:induction false} AlternatesFromTable(t: Table, base: Name, a: Alternates, final: Table, ds: seq<Definition>,
                                               w: Word, i: nat, n: nat)
    requires Sound(t) && UNDERSCORE !in base && AlternatesFit(a) && CompileAlternates(t, base, a).Output?
    requires Survives(CompileAlternates(t, base, a).table, final, |t.ids|) && NamesAgree(final, ds, n)
    requires BodyDerives(final.rules, CompileAlternates(t, base, a).els, w, i, n)
    ensures AlternatesDerive(ds, a, w, n)
    decreases a, 0
  {
    if a.One? {
      CompileSequenceOk(t, base, a.sequence);
      assert i == 0;
      SequenceFromTable(t, base, a.sequence, final, ds, w, n);
    } else {
      var o := CompileAlternates(t, base, a.front);
      CompileAlternatesOk(t, base, a.front);
      var o' := CompileSequence(o.table, base, a.sequence);
      CompileSequenceOk(o.table, base, a.sequence);
      SurvivesEarlier(o.table, o'.table, final, |t.ids|);
      SurvivesFrom(o'.table, final, |t.ids|, |o.table.ids|);
      BodyPart(final.rules, o.els, o'.els, w, i, n);
      if i <= |o.els| {
        AlternatesFromTable(t, base, a.front, final, ds, w, i, n);
      } else {
        SequenceFromTable(o.table, base, a.sequence, final, ds, w, n);
      }
    }
  }

  /** An alternate of the body is one of the front, or the last one. */
  lemma BodyPart(rules: Rules, front: seq<Element>, els: seq<Element>, w: Word, i: nat, n: nat)
    requires IsSymbols(els) && BodyDerives(rules, front + [Element(ALT, 0)] + els, w, i, n)
    ensures if i <= |front| then BodyDerives(rules, front, w, i, n) else Derives(rules, els, 0, w, n)
  {
    var alt := Element(ALT, 0);
    var c := front + [alt] + els;
    assert c == front + ([alt] + els) && c == (front + [alt]) + els;
    if i <= |front| {
      DerivesUpTo(rules, front, alt, els, i, w, n);
    } else {
      assert i == |front| + 1;
      DerivesSuffix(rules, front + [alt], els, 0, w, n);
    }
  }

  lemma LastOf(ds: seq<Definition>, name: Name) returns (i: nat)
    requires Defines(ds, name)
    ensures DefinedLast(ds, i) && ds[i].name == name
  {
    i := |ds| - 1;
    while ds[i].name != name
      invariant 0 <= i < |ds| && (forall j :: i < j < |ds| ==> ds[j].name != name) && Defines(ds, name)
      decreases i
    {
      var j :| 0 <= j < |ds| && ds[j].name == name;
      i := i - 1;
    }
  }

  /** A word of the rule of a name comes from the body of its last definition. */
  lemma NameBody(final: Table, ds: seq<Definition>, name: Name, w: Word, m: nat)
    returns (i: nat, t1: Table, o: Output, a: nat)
    requires IsTableOf(final, ds) && UNDERSCORE !in name && name in final.ids &&
      RuleDerives(final.rules, final.ids[name], w, m)
    ensures DefinedLast(ds, i) && ds[i].name == name && Sound(t1)
    ensures o == CompileAlternates(t1, name, ds[i].alternates) && o.Output? && Survives(o.table, final, |t1.ids|)
    ensures m > 0 && BodyDerives(final.rules, o.els, w, a, m - 1)
  {
    var _ := RuleDerivesAlternate(final.rules, final.ids[name], w, m);
    RulesDefine(ds, name);
    i := LastOf(ds, name);
    t1, o := RuleOfDefinition(Table(map[], []), ds, i);
    a := BodyOfRule(final.rules, final.ids[name], o.els, w, m);
  }

  lemma {:induction false} NameFromTable(final: Table, ds: seq<Definition>, name: Name, w: Word, m: nat)
    requires IsTableOf(final, ds)
    ensures NameAgrees(final, ds, name, w, m)
    decreases m, 0
  {
    if UNDERSCORE !in name && name in final.ids && RuleDerives(final.rules, final.ids[name], w, m) {
      var i, t1, o, a := NameBody(final, ds, name, w, m);
      AllFromTable(final, ds, m - 1);
      AlternatesFromTable(t1, name, ds[i].alternates, final, ds, w, a, m - 1);
      assert DefinitionDerives(ds, name, w, m, i);
    }
  }

  lemma {:induction false} AllFromTable(final: Table, ds: seq<Definition>, n: nat)
    requires IsTableOf(final, ds)
    ensures NamesAgree(final, ds, n)
    decreases n, 1
  {
    forall name: Name, w: Word, m: nat | m <= n
      ensures NameAgrees(final, ds, name, w, m)
    {
      NameFromTable(final, ds, name, w, m);
    }
  }

  ghost predicate NameMeans(final: Table, ds: seq<Definition>, name: Name, w: Word) {
    UNDERSCORE !in name && name in final.ids ==> (InRule(final.rules, final.ids[name], w) <==> InText(ds, name, w))
  }

  /** The rules of the names have the languages that the text gives them. */
  ghost predicate HasLanguage(final: Table, ds: seq<Definition>) {
    forall name: Name, w: Word :: NameMeans(final, ds, name, w)
  }

  /**
    In the table of a grammar the rule of every name derives exactly the words that the name derives by the
    text: the last definition of a name counts, names are unfolded any finite number of times, and an
    undefined name derives nothing.
    */
  lemma TableIsLanguage(final: Table, ds: seq<Definition>)
    requires IsTableOf(final, ds)
    ensures HasLanguage(final, ds)
  {
    forall name: Name, w: Word
      ensures NameMeans(final, ds, name, w)
    {
      if UNDERSCORE !in name && name in final.ids {
        NameLanguage(final, ds, name, w);
      }
    }
  }

  lemma NameLanguage(final: Table, ds: seq<Definition>, name: Name, w: Word)
    requires IsTableOf(final, ds) && UNDERSCORE !in name && name in final.ids
    ensures InRule(final.rules, final.ids[name], w) <==> InText(ds, name, w)
  {
    if InRule(final.rules, final.ids[name], w) {
      var n: nat :| RuleDerives(final.rules, final.ids[name], w, n);
      NameFromTable(final, ds, name, w, n);
      assert NameAgrees(final, ds, name, w, n);
    }
    if InText(ds, name, w) {
      var n: nat :| NameDerives(ds, name, w, n);
      NameIntoTable(final, ds, name, w, n);
    }
  }
}
