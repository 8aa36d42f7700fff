/**
  What a written grammar accepts, said of the notation itself: `x ::= y+` means one or more words of `y`, `[^a-c]`
  one character that is not between `a` and `c`. The rule that the parser leaves in the table accepts just that.
  */
module NotationLanguage {
  import opened GrammarElements
  import opened Language
  import opened Repetition
  import opened GrammarSyntax
  import opened Notation
  import opened GrammarShow
  import opened RuleTable
  import opened GrammarMeaning

  /** How often an operator lets its item stand; a maximum above 2000 is no maximum. */
  predicate CountFits(op: Operator, k: nat) {
    match op
    case Star => true
    case Plus => k >= 1
    case Optional => k <= 1
    case Exactly(_, m, _) => k == m.value
    case AtLeast(_, m, _, _) => k >= m.value
    case Between(_, m, _, _, n, _) => k >= m.value && (k <= n.value || n.value > 2000)
  }

  predicate IsSpelled(letters: seq<Letter>, v: Word) {
    |v| == |letters| && forall i :: 0 <= i < |v| ==> v[i] == letters[i].code
  }

  /** `v` is what the item says; a token is no word of code points. */
  ghost predicate Accepts(t: Table, w: Writing, v: Word)
    decreases w, 0
  {
    match w
    case Quoted(letters) => IsSpelled(letters, v)
    case Class(inverse, ranges) =>
      if ranges == [] then v == [] else |v| == 1 && (InClass(ranges, v[0]) <==> !inverse)
    case Dot => |v| == 1
    case TokenId(_, _) => false
    case TokenText(_, _) => false
    case Ref(name) => name in t.ids && InRule(t.rules, t.ids[name], v)
    case Paren(_, choices) => ChoicesAccept(t, choices, v)
    case Repeated(item, _, op) => exists k: nat :: CountFits(op, k) && InPower(WordsOf(t, item), k, v)
  }

  ghost function WordsOf(t: Table, w: Writing): iset<Word>
    decreases w, 1
  {
    iset v: Word | Accepts(t, w, v)
  }

  /** The items of the line, one behind the other. */
  ghost predicate LineAccepts(t: Table, l: Line, v: Word)
    decreases l, 1
  {
    if l.Empty? then v == [] else exists k: nat :: LineCut(t, l, v, k)
  }

  ghost predicate LineCut(t: Table, l: Line, v: Word, k: nat)
    requires l.Next?
    decreases l, 0
  {
    k <= |v| && LineAccepts(t, l.front, v[..k]) && Accepts(t, l.item, v[k..])
  }

  /** One of the choices. */
  ghost predicate ChoicesAccept(t: Table, c: Choices, v: Word)
    decreases c, 0
  {
    LineAccepts(t, c.line, v) || (c.Bar? && ChoicesAccept(t, c.front, v))
  }

  // ---------------------------------------------------------------------------------------
  // The tree means what is written
  // ---------------------------------------------------------------------------------------

  lemma TerminalAgrees(t: Table, w: Writing, nested: bool, vocab: Vocab, v: Word)
    requires IsTerminal(w) && Shows(w, nested, vocab)
    ensures InItem(t, TreeOf(w, nested, vocab), v) <==> Accepts(t, w, v)
  {
    match w
    case Quoted(letters) =>
      WrittenLiteralAccepts(letters, v);
    case Class(inverse, ranges) =>
      WrittenClassAccepts(inverse, ranges, v);
    case Dot =>
      DotAccepts(v);
    case TokenId(inverse, id) =>
      TokenDerivesNothing(Element(if inverse then TOKEN_NOT else TOKEN, id.value % 0x1_0000_0000), v);
    case TokenText(inverse, text) =>
      TokenDerivesNothing(Element(if inverse then TOKEN_NOT else TOKEN, vocab.tokenize(TokenBrackets(text))[0]), v);
  }

  lemma TokenDerivesNothing(e: Element, v: Word)
    requires IsToken(e)
    ensures v !in LanguageOf([], [e])
  {
    forall n: nat
      ensures !Derives([], [e], 0, v, n)
    {
    }
  }

  lemma PowersAgree(l: iset<Word>, op: Operator, v: Word)
    ensures InPowers(l, TimesOfOperator(op).min, TimesOfOperator(op).max, v) <==>
      exists k: nat :: CountFits(op, k) && InPower(l, k, v)
  {
    var min, max := TimesOfOperator(op).min, TimesOfOperator(op).max;
    forall k: nat
      ensures IsPower(l, min, max, v, k) <==> CountFits(op, k) && InPower(l, k, v)
    {
    }
  }

  lemma {:induction false} ItemAgrees(t: Table, w: Writing, nested: bool, vocab: Vocab, v: Word)
    requires Shows(w, nested, vocab)
    ensures InItem(t, TreeOf(w, nested, vocab), v) <==> Accepts(t, w, v)
    decreases w, 0
  {
    match w
    case Ref(_) =>
    case Paren(_, choices) =>
      ChoicesAgree(t, choices, true, vocab, v);
    case Repeated(item, _, op) =>
      forall u: Word
        ensures InItem(t, TreeOf(item, nested, vocab), u) <==> Accepts(t, item, u)
      {
        ItemAgrees(t, item, nested, vocab, u);
      }
      assert MeaningOf(t, TreeOf(item, nested, vocab)) == WordsOf(t, item);
      PowersAgree(WordsOf(t, item), op, v);
    case _ =>
      TerminalAgrees(t, w, nested, vocab, v);
  }

  lemma {:induction false} LineAgrees(t: Table, l: Line, nested: bool, vocab: Vocab, v: Word)
    requires LineShows(l, nested, vocab)
    ensures InSequence(t, TreeOfLine(l, nested, vocab), v) <==> LineAccepts(t, l, v)
    decreases l, 0
  {
    if l.Next? {
      forall k: nat
        ensures SequenceCut(t, TreeOfLine(l, nested, vocab), v, k) <==> LineCut(t, l, v, k)
      {
        if k <= |v| {
          LineAgrees(t, l.front, nested, vocab, v[..k]);
          ItemAgrees(t, l.item, nested, vocab, v[k..]);
        }
      }
    }
  }

  lemma {:induction false} ChoicesAgree(t: Table, c: Choices, nested: bool, vocab: Vocab, v: Word)
    requires ChoicesShow(c, nested, vocab)
    ensures InAlternates(t, TreeOfChoices(c, nested, vocab), v) <==> ChoicesAccept(t, c, v)
    decreases c, 0
  {
    LineAgrees(t, c.line, nested, vocab, v);
    if c.Bar? {
      ChoicesAgree(t, c.front, nested, vocab, v);
    }
  }

  // ---------------------------------------------------------------------------------------
  // Whole grammars
  // ---------------------------------------------------------------------------------------

  /** The last statement for its name. */
  predicate StatedLast(ds: seq<Statement>, i: nat) {
    i < |ds| && forall j :: i < j < |ds| ==> ds[j].name != ds[i].name
  }

  /**
    A grammar that is written in the notation and compiles: its text is read, and the rule of each name accepts
    exactly what the last statement for the name says, a reference standing for the rule of its name.
    */
  lemma WrittenRuleAccepts(lead: Text, ds: seq<Statement>, last: Text, vocab: Vocab, i: nat, v: Word)
    requires IsGap(lead, true) && AllShow(ds, vocab) && LastShows(ds, last) && LinesEnd(ds) && StatedLast(ds, i)
    requires CompileRules(Table(map[], []), TreesOf(ds, vocab)).Final?
    ensures ReadGrammar(lead + (TextOfGrammar(ds, vocab) + last), vocab) == Read(TreesOf(ds, vocab), [])
    ensures var final := CompileRules(Table(map[], []), TreesOf(ds, vocab)).table;
      ds[i].name in final.ids && (InRule(final.rules, final.ids[ds[i].name], v) <==>
        ChoicesAccept(final, ds[i].choices, v))
  {
    var trees := TreesOf(ds, vocab);
    GrammarRoundTrip(lead, ds, last, vocab);
    TreesFit(ds, vocab);
    assert DefinedLast(trees, i);
    TableMeansText(Table(map[], []), trees, i, v);
    ChoicesAgree(CompileRules(Table(map[], []), trees).table, ds[i].choices, false, vocab, v);
  }

  /** The rule of `x ::= y*` accepts any number of words of `y`, that of `x ::= y+` one or more, and so on. */
  lemma OperatorAccepts(lead: Text, ds: seq<Statement>, last: Text, vocab: Vocab, i: nat, y: Name, op: Operator,
                        v: Word)
    requires IsGap(lead, true) && AllShow(ds, vocab) && LastShows(ds, last) && LinesEnd(ds) && StatedLast(ds, i)
    requires CompileRules(Table(map[], []), TreesOf(ds, vocab)).Final?
    requires ds[i].choices == Sole(Next(Empty, Repeated(Ref(y), [], op), []))
    ensures var final := CompileRules(Table(map[], []), TreesOf(ds, vocab)).table;
      && ds[i].name in final.ids
      && (InRule(final.rules, final.ids[ds[i].name], v) <==>
            exists k: nat :: CountFits(op, k) && InPower(RuleWords(final, y), k, v))
  {
    var final := CompileRules(Table(map[], []), TreesOf(ds, vocab)).table;
    WrittenRuleAccepts(lead, ds, last, vocab, i, v);
    SingleItem(final, ds[i].choices.line, v);
    assert RuleWords(final, y) == WordsOf(final, Ref(y));
  }

  /** The words of the rule of a name. */
  ghost function RuleWords(t: Table, name: Name): iset<Word> {
    iset v: Word | name in t.ids && InRule(t.rules, t.ids[name], v)
  }

  lemma LineSplit(t: Table, l: Line, v: Word) returns (k: nat)
    requires l.Next? && LineAccepts(t, l, v)
    ensures k <= |v| && LineAccepts(t, l.front, v[..k]) && Accepts(t, l.item, v[k..])
  {
    k :| LineCut(t, l, v, k);
  }

  lemma SingleItem(t: Table, l: Line, v: Word)
    requires l.Next? && l.front.Empty?
    ensures LineAccepts(t, l, v) <==> Accepts(t, l.item, v)
  {
    if Accepts(t, l.item, v) {
      assert v[..0] == [] && v[0..] == v;
      assert LineCut(t, l, v, 0);
    }
    if LineAccepts(t, l, v) {
      var k := LineSplit(t, l, v);
      assert v[..k] == [] && v[k..] == v;
    }
  }
}
