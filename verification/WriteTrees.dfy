/**
  Every syntax tree that a text can mean is the meaning of some text.
  */
module WriteTrees {
  import opened GrammarElements
  import opened Repetition
  import opened GrammarSyntax
  import opened Notation

  predicate AllWide(els: seq<Element>) {
    forall i :: 0 <= i < |els| ==> els[i].value < 0x1_0000_0000
  }

  /** One element that stands alone: a token or the dot. */
  predicate IsSingle(els: seq<Element>) {
    |els| == 1 && (IsToken(els[0]) || els[0] == Element(CHAR_ANY, 0))
  }

  /** Elements that a terminal can have: those of a literal, a class, a token or the dot. */
  predicate TerminalExists(els: seq<Element>) {
    AllWide(els) && (AllChars(els) || IsSingle(els) || (els != [] && (IsClass(els, CHAR) || IsClass(els, CHAR_NOT))))
  }

  predicate ItemExists(item: Item) {
    match item
    case Terminal(els) => TerminalExists(els)
    case Named(name) => NameShows(name)
    case Group(alternates) => AlternatesExist(alternates)
    case Repeat(inner, min, max) =>
      ItemExists(inner) && min <= MAX_REPETITION_THRESHOLD && (max.Max? ==> max.value <= MAX_REPETITION_THRESHOLD)
  }

  predicate SequenceExists(s: Sequence) {
    s.Then? ==> SequenceExists(s.front) && ItemExists(s.item)
  }

  predicate AlternatesExist(a: Alternates) {
    SequenceExists(a.sequence) && (a.Or? ==> AlternatesExist(a.front))
  }

  predicate DefinitionsExist(ds: seq<Definition>) {
    forall i :: 0 <= i < |ds| ==> NameShows(ds[i].name) && AlternatesExist(ds[i].alternates)
  }

  // ---------------------------------------------------------------------------------------
  // A way to write them
  // ---------------------------------------------------------------------------------------

  /** Eight hexadecimal digits do for every character. */
  function Write(c: nat): Letter {
    Letter(c, Hex([false, false, false, false, false, false, false, false]))
  }

  function WriteLetters(els: seq<Element>): (letters: seq<Letter>)
    ensures |letters| == |els| && forall i :: 0 <= i < |els| ==> letters[i] == Write(els[i].value)
  {
    seq(|els|, i requires 0 <= i < |els| => Write(els[i].value))
  }

  function WriteRanges(els: seq<Element>): seq<Range> {
    if els == [] then []
    else if |els| > 1 && els[1].kind.CHAR_RNG_UPPER? then
      [Span(Write(els[0].value), Write(els[1].value))] + WriteRanges(els[2..])
    else [Only(Write(els[0].value))] + WriteRanges(els[1..])
  }

  function WriteTerminal(els: seq<Element>): Writing {
    if AllChars(els) then Quoted(WriteLetters(els))
    else if els[0].kind.CHAR_ANY? then Dot
    else if IsToken(els[0]) then TokenId(els[0].kind.TOKEN_NOT?, Numeral(0, els[0].value))
    else Class(els[0].kind.CHAR_NOT?, WriteRanges(els))
  }

  function WriteItem(item: Item): Writing
    decreases item, 0
  {
    match item
    case Terminal(els) => WriteTerminal(els)
    case Named(name) => Ref(name)
    case Group(alternates) => Paren([], WriteChoices(alternates))
    case Repeat(inner, min, max) =>
      Repeated(WriteItem(inner), [],
        if max.Max? then Between([], Numeral(0, min), [], [], Numeral(0, max.value), [])
        else AtLeast([], Numeral(0, min), [], []))
  }

  function WriteLine(s: Sequence): Line
    decreases s, 0
  {
    if s.Nothing? then Empty else Next(WriteLine(s.front), WriteItem(s.item), [32])
  }

  function WriteChoices(a: Alternates): Choices
    decreases a, 0
  {
    if a.One? then Sole(WriteLine(a.sequence)) else Bar(WriteChoices(a.front), [], WriteLine(a.sequence))
  }

  function WriteGrammar(ds: seq<Definition>): (w: seq<Statement>)
    ensures |w| == |ds| && forall i :: 0 <= i < |ds| ==>
      w[i] == Statement(ds[i].name, [], [], WriteChoices(ds[i].alternates), [], [10], [])
  {
    seq(|ds|, i requires 0 <= i < |ds| => Statement(ds[i].name, [], [], WriteChoices(ds[i].alternates), [], [10], []))
  }

  // ---------------------------------------------------------------------------------------
  // They mean what they were written for
  // ---------------------------------------------------------------------------------------

  lemma WriteShows(c: nat, inClass: bool)
    requires c < 0x1_0000_0000
    ensures LetterShows(Write(c), inClass) && TextOfLetter(Write(c), inClass)[0] == 92
  {
    assert Power16(4) == 0x1_0000;
    assert Power16(6) == 0x100_0000;
  }

  /** The rest of a class: alternatives, some of them with an upper bound. */
  predicate ClassRest(els: seq<Element>, kind: GreType) {
    && AllWide(els) && (els != [] ==> els[0].kind == kind && !kind.CHAR_RNG_UPPER?)
    && forall i :: 0 < i < |els| ==>
      els[i].kind.CHAR_ALT? || (els[i].kind.CHAR_RNG_UPPER? && !els[i - 1].kind.CHAR_RNG_UPPER?)
  }

  lemma ClassIsRest(els: seq<Element>, kind: GreType)
    requires IsClass(els, kind) && AllWide(els)
    ensures ClassRest(els, kind)
  {
    forall i | 0 < i < |els|
      ensures els[i].kind.CHAR_ALT? || (els[i].kind.CHAR_RNG_UPPER? && !els[i - 1].kind.CHAR_RNG_UPPER?)
    {
      assert FollowsWell(els, i) && IsContinuation(els[i]);
    }
  }

  lemma {:induction false} RangesWritten(els: seq<Element>, kind: GreType, single: bool)
    requires ClassRest(els, kind)
    ensures RangesShow(WriteRanges(els), single) && TreeOfRanges(kind, WriteRanges(els)) == els
    ensures els != [] ==> !StartsWith(WriteRanges(els)[0], 94)
    decreases |els|
  {
    if els != [] {
      var k := if |els| > 1 && els[1].kind.CHAR_RNG_UPPER? then 2 else 1;
      assert ClassRest(els[k..], CHAR_ALT) by {
        assert |els| > k ==> els[k].kind.CHAR_ALT?;
      }
      RangesWritten(els[k..], CHAR_ALT, k == 1);
      FirstWritten(els, kind, k, single);
    }
  }

  lemma FirstWritten(els: seq<Element>, kind: GreType, k: nat, single: bool)
    requires ClassRest(els, kind) && els != [] && k == if |els| > 1 && els[1].kind.CHAR_RNG_UPPER? then 2 else 1
    requires RangesShow(WriteRanges(els[k..]), k == 1) && TreeOfRanges(CHAR_ALT, WriteRanges(els[k..])) == els[k..]
    ensures RangesShow(WriteRanges(els), single) && TreeOfRanges(kind, WriteRanges(els)) == els
    ensures !StartsWith(WriteRanges(els)[0], 94)
  {
    var r := if k == 2 then Span(Write(els[0].value), Write(els[1].value)) else Only(Write(els[0].value));
    WriteShows(els[0].value, true);
    if k == 2 {
      WriteShows(els[1].value, true);
    }
    assert WriteRanges(els) == [r] + WriteRanges(els[k..]);
    assert TreeOfRange(kind, r) == els[..k];
    assert els[..k] + els[k..] == els;
    FirstRange(r, WriteRanges(els[k..]), kind, single);
  }

  lemma FirstRange(r: Range, more: seq<Range>, kind: GreType, single: bool)
    requires RangeShows(r) && TextOfLetter(r.lo, true)[0] == 92 && RangesShow(more, r.Only?)
    ensures RangesShow([r] + more, single) && !StartsWith(r, 94)
    ensures TreeOfRanges(kind, [r] + more) == TreeOfRange(kind, r) + TreeOfRanges(CHAR_ALT, more)
  {
    assert ([r] + more)[1..] == more;
  }

  lemma TerminalWritten(els: seq<Element>, nested: bool, vocab: Vocab)
    requires TerminalExists(els)
    ensures Shows(WriteTerminal(els), nested, vocab) && TreeOf(WriteTerminal(els), nested, vocab) == Terminal(els)
  {
    if AllChars(els) {
      forall i | 0 <= i < |els|
        ensures LetterShows(Write(els[i].value), false) && els[i] == Element(CHAR, els[i].value)
      {
        WriteShows(els[i].value, false);
      }
      assert TreeOfLetters(WriteLetters(els)) == els;
    } else if IsSingle(els) {
      assert els == [els[0]] && els[0] == Element(els[0].kind, els[0].value);
    } else {
      ClassIsRest(els, els[0].kind);
      RangesWritten(els, els[0].kind, false);
    }
  }

  lemma {:induction false} ItemWritten(item: Item, nested: bool, vocab: Vocab)
    requires ItemExists(item)
    ensures Shows(WriteItem(item), nested, vocab) && TreeOf(WriteItem(item), nested, vocab) == item
    decreases item, 0
  {
    match item
    case Terminal(els) =>
      TerminalWritten(els, nested, vocab);
    case Named(_) =>
    case Group(alternates) =>
      ChoicesWritten(alternates, true, vocab);
    case Repeat(inner, _, _) =>
      ItemWritten(inner, nested, vocab);
  }

  lemma {:induction false} LineWritten(s: Sequence, nested: bool, vocab: Vocab)
    requires SequenceExists(s)
    ensures LineShows(WriteLine(s), nested, vocab) && TreeOfLine(WriteLine(s), nested, vocab) == s
    ensures !EndsWithName(WriteLine(s))
    decreases s, 0
  {
    if s.Then? {
      LineWritten(s.front, nested, vocab);
      ItemWritten(s.item, nested, vocab);
      BlankIsGap(nested);
    }
  }

  lemma BlankIsGap(newlineOk: bool)
    ensures IsGap([32], newlineOk)
  {
    var g: Text := [32];
    assert g[1..] == [];
  }

  lemma {:induction false} ChoicesWritten(a: Alternates, nested: bool, vocab: Vocab)
    requires AlternatesExist(a)
    ensures ChoicesShow(WriteChoices(a), nested, vocab) && TreeOfChoices(WriteChoices(a), nested, vocab) == a
    decreases a, 0
  {
    LineWritten(a.sequence, nested, vocab);
    if a.Or? {
      ChoicesWritten(a.front, nested, vocab);
    }
  }

  /** So every grammar can be written. */
  lemma EveryGrammarIsWritten(ds: seq<Definition>, vocab: Vocab)
    requires DefinitionsExist(ds)
    ensures AllShow(WriteGrammar(ds), vocab) && TreesOf(WriteGrammar(ds), vocab) == ds
  {
    var w := WriteGrammar(ds);
    forall i | 0 <= i < |ds|
      ensures StatementShows(w[i], vocab) && TreeOfStatement(w[i], vocab) == ds[i]
    {
      ChoicesWritten(ds[i].alternates, false, vocab);
    }
  }
}
