/**
  Reading back what is written in the notation: whatever spellings, blanks and comments are chosen, a grammar
  is read as what is meant by it. Every syntax tree can be written. What literals and classes accept.
  */
module GrammarShow {
  import opened GrammarElements
  import opened Language
  import opened Repetition
  import opened GrammarSyntax
  import opened Notation
  import opened NotationTerms

  // ---------------------------------------------------------------------------------------
  // Terminals
  // ---------------------------------------------------------------------------------------

  lemma QuotedRead(letters: seq<Letter>, vocab: Vocab, rest: Text)
    requires LettersShow(letters)
    ensures ReadTerminal([34] + (TextOfLetters(letters) + [34]) + rest, vocab) == Read(TreeOfLetters(letters), rest)
  {
    var t := TextOfLetters(letters);
    Regroup([34], t + [34], rest);
    Regroup(t, [34], rest);
    Behind([34], t + ([34] + rest));
    LettersShown(letters, [], rest);
    assert [] + TreeOfLetters(letters) == TreeOfLetters(letters);
  }

  lemma BracketRead(s: Text, vocab: Vocab)
    requires s != [] && Is(s, 0, '[')
    ensures if Is(s, 1, '^') then |s| > 1 && ReadTerminal(s, vocab) == ReadClass(s[2..], CHAR_NOT, [])
      else ReadTerminal(s, vocab) == ReadClass(s[1..], CHAR, [])
  {
  }

  lemma ClassRead(inverse: bool, ranges: seq<Range>, vocab: Vocab, rest: Text)
    requires ClassShows(inverse, ranges)
    ensures ReadTerminal((if inverse then [91, 94] else [91]) + (TextOfRanges(ranges, false) + [93]) + rest, vocab)
      == Read(TreeOfRanges(ClassStart(inverse), ranges), rest)
  {
    var open: Text := if inverse then [91, 94] else [91];
    var t, end := TextOfRanges(ranges, false), [93] + rest;
    Regroup(open, t + [93], rest);
    Regroup(t, [93], rest);
    Behind(open, t + end);
    assert !inverse ==> (t + end)[0] != 94 by {
      if ranges == [] {
        assert t + end == end;
      } else {
        RangeInk(ranges[0]);
        assert (t + end)[0] == TextOfRange(ranges[0])[0];
      }
    }
    ClassShown(inverse, ranges, rest);
    BracketRead(open + (t + end), vocab);
  }

  lemma TokenAhead(s: Text, vocab: Vocab)
    requires s != [] && (s[0] == 60 || s[0] == 33)
    ensures var r := ReadToken(if s[0] == 33 then s[1..] else s, vocab);
      ReadTerminal(s, vocab) ==
        if r.Refused? then Refused else Read([Element(if s[0] == 33 then TOKEN_NOT else TOKEN, r.value)], r.rest)
  {
  }

  /** A token, or any token but one. */
  lemma TokenRead(t: Text, inverse: bool, id: nat, vocab: Vocab, rest: Text)
    requires t != [] && t[0] == 60 && ReadToken(t + rest, vocab) == Read(id, rest)
    ensures var s := (if inverse then [33] else []) + t + rest;
      ReadTerminal(s, vocab) == Read([Element(if inverse then TOKEN_NOT else TOKEN, id)], rest)
  {
    if inverse {
      Regroup([33], t, rest);
      Behind([33], t + rest);
      TokenAhead([33] + (t + rest), vocab);
    } else {
      assert [] + t == t;
      TokenAhead(t + rest, vocab);
    }
  }

  predicate IsTerminal(w: Writing) {
    w.Quoted? || w.Class? || w.Dot? || w.TokenId? || w.TokenText?
  }

  lemma TerminalRead(w: Writing, nested: bool, vocab: Vocab, rest: Text)
    requires IsTerminal(w) && Shows(w, nested, vocab)
    ensures var s := TextOf(w, nested, vocab) + rest;
      && StartsTerminal(At(s, 0)) && TreeOf(w, nested, vocab).Terminal?
      && ReadTerminal(s, vocab) == Read(TreeOf(w, nested, vocab).els, rest)
  {
    match w
    case Quoted(letters) =>
      QuotedRead(letters, vocab, rest);
    case Class(inverse, ranges) =>
      ClassRead(inverse, ranges, vocab, rest);
    case Dot =>
      Behind([46], rest);
    case TokenId(inverse, id) =>
      TokenIdShown(id, vocab, rest);
      TokenRead([60, 91] + (TextOfNumeral(id) + [93, 62]), inverse, id.value % 0x1_0000_0000, vocab, rest);
    case TokenText(inverse, text) =>
      TokenTextShown(text, vocab, rest);
      TokenRead(TokenBrackets(text), inverse, vocab.tokenize(TokenBrackets(text))[0], vocab, rest);
  }

  lemma TerminalFits(w: Writing, nested: bool, vocab: Vocab)
    requires IsTerminal(w) && Shows(w, nested, vocab)
    ensures ItemFits(TreeOf(w, nested, vocab))
  {
    TerminalRead(w, nested, vocab, []);
  }

  // ---------------------------------------------------------------------------------------
  // Items
  // ---------------------------------------------------------------------------------------

  lemma {:induction false} ItemTreeFits(w: Writing, nested: bool, vocab: Vocab)
    requires Shows(w, nested, vocab)
    ensures ItemFits(TreeOf(w, nested, vocab))
    decreases w, 0
  {
    match w
    case Ref(name) =>
    case Paren(_, choices) =>
      ChoicesTreeFits(choices, true, vocab);
    case Repeated(item, _, _) =>
      ItemTreeFits(item, nested, vocab);
    case _ =>
      TerminalFits(w, nested, vocab);
  }

  lemma {:induction false} LineTreeFits(l: Line, nested: bool, vocab: Vocab)
    requires LineShows(l, nested, vocab)
    ensures SequenceFits(TreeOfLine(l, nested, vocab))
    decreases l, 0
  {
    if l.Next? {
      LineTreeFits(l.front, nested, vocab);
      ItemTreeFits(l.item, nested, vocab);
    }
  }

  lemma {:induction false} ChoicesTreeFits(c: Choices, nested: bool, vocab: Vocab)
    requires ChoicesShow(c, nested, vocab)
    ensures AlternatesFit(TreeOfChoices(c, nested, vocab))
    decreases c, 0
  {
    LineTreeFits(c.line, nested, vocab);
    if c.Bar? {
      ChoicesTreeFits(c.front, nested, vocab);
    }
  }

  /** An item starts with no blank; only one that starts with a name starts with a character of a name. */
  lemma {:induction false} ItemInk(w: Writing, nested: bool, vocab: Vocab)
    requires Shows(w, nested, vocab)
    ensures var t := TextOf(w, nested, vocab);
      t != [] && !IsBlank(t[0], true) && t[0] != 0 && (IsWordChar(t[0]) <==> StartsWithName(w))
    decreases w
  {
    match w
    case Ref(_) =>
    case Paren(_, _) =>
    case Repeated(item, gap, op) =>
      ItemInk(item, nested, vocab);
      Behind(TextOf(item, nested, vocab), gap + TextOfOperator(op));
    case _ =>
      TerminalInk(w, nested, vocab);
  }

  lemma TerminalInk(w: Writing, nested: bool, vocab: Vocab)
    requires IsTerminal(w) && Shows(w, nested, vocab)
    ensures var t := TextOf(w, nested, vocab); t != [] && StartsTerminal(t[0])
  {
    TerminalRead(w, nested, vocab, []);
    assert TextOf(w, nested, vocab) + [] == TextOf(w, nested, vocab);
  }

  lemma TerminalTaken(s: Text, nested: bool, vocab: Vocab, acc: Sequence, els: seq<Element>, rest: Text)
    requires s != [] && StartsTerminal(At(s, 0)) && ReadTerminal(s, vocab) == Read(els, rest)
    requires SequenceFits(acc) && ItemFits(Terminal(els))
    ensures ReadSequence(s, nested, vocab, acc) ==
      ReadSequence(SkipSpace(rest, nested), nested, vocab, Append(acc, Terminal(els)))
  {
  }

  lemma NameEnds(s: Text, n: nat)
    requires n <= |s| && (forall i :: 0 <= i < n ==> IsWordChar(s[i])) && !IsWordChar(At(s, n))
    ensures NameLength(s) == n
  {
    assert IsWordChar(At(s, NameLength(s))) || NameLength(s) >= n;
  }

  lemma NameTaken(name: Name, nested: bool, vocab: Vocab, acc: Sequence, rest: Text)
    requires NameShows(name) && ItemFits(Named(name)) && SequenceFits(acc) && !IsWordChar(At(rest, 0))
    ensures ReadSequence(name + rest, nested, vocab, acc) ==
      ReadSequence(SkipSpace(rest, nested), nested, vocab, Append(acc, Named(name)))
  {
    var s := name + rest;
    Behind(name, rest);
    assert At(s, |name|) == At(rest, 0) && s[0] == name[0];
    NameEnds(s, |name|);
  }

  lemma PostfixTaken(s: Text, nested: bool, vocab: Vocab, acc: Sequence, item: Item, times: Times, rest: Text)
    requires SequenceFits(acc) && ItemFits(item) && ItemFits(Repeat(item, times.min, times.max))
    requires IsPostfix(At(s, 0)) && ReadPostfix(s, nested) == Read(times, rest)
    ensures ReadSequence(s, nested, vocab, Append(acc, item)) ==
      ReadSequence(rest, nested, vocab, Append(acc, Repeat(item, times.min, times.max)))
  {
  }

  lemma GroupTaken(s: Text, nested: bool, vocab: Vocab, acc: Sequence, a: Alternates, rest: Text)
    requires SequenceFits(acc) && ItemFits(Group(a)) && Is(s, 0, '(') && ReadGroup(s, nested, vocab) == Read(a, rest)
    ensures ReadSequence(s, nested, vocab, acc) == ReadSequence(rest, nested, vocab, Append(acc, Group(a)))
  {
  }

  /** Reading goes on behind the item and the blanks that follow it. */
  lemma {:induction false} ItemShown(w: Writing, nested: bool, vocab: Vocab, acc: Sequence, rest: Text)
    requires Shows(w, nested, vocab) && ItemFits(TreeOf(w, nested, vocab)) && SequenceFits(acc)
    requires w.Ref? ==> !IsWordChar(At(rest, 0))
    ensures ReadSequence(TextOf(w, nested, vocab) + rest, nested, vocab, acc) ==
      ReadSequence(SkipSpace(rest, nested), nested, vocab, Append(acc, TreeOf(w, nested, vocab)))
    decreases w, 0
  {
    match w
    case Ref(name) =>
      NameTaken(name, nested, vocab, acc, rest);
    case Paren(open, choices) =>
      GroupShown(open, choices, nested, vocab, rest);
      GroupText(open, choices, nested, vocab, rest);
      GroupTaken(TextOf(w, nested, vocab) + rest, nested, vocab, acc, TreeOfChoices(choices, true, vocab),
        SkipSpace(rest, nested));
    case Repeated(item, gap, op) =>
      var s := TextOfOperator(op) + rest;
      RepeatedText(item, gap, op, nested, vocab, rest);
      OperatorInk(op, rest);
      GapEndsName(gap, s, nested);
      ItemShown(item, nested, vocab, acc, gap + s);
      GapSkipped(gap, s, nested);
      InkStays(s, nested);
      OperatorShown(op, nested, rest);
      PostfixTaken(s, nested, vocab, acc, TreeOf(item, nested, vocab), TimesOfOperator(op), SkipSpace(rest, nested));
    case _ =>
      TerminalRead(w, nested, vocab, rest);
      TerminalTaken(TextOf(w, nested, vocab) + rest, nested, vocab, acc, TreeOf(w, nested, vocab).els, rest);
  }

  lemma RepeatedText(item: Writing, gap: Text, op: Operator, nested: bool, vocab: Vocab, rest: Text)
    requires Shows(Repeated(item, gap, op), nested, vocab)
    ensures TextOf(Repeated(item, gap, op), nested, vocab) + rest ==
      TextOf(item, nested, vocab) + (gap + (TextOfOperator(op) + rest))
  {
    Regroup(TextOf(item, nested, vocab), gap + TextOfOperator(op), rest);
    Regroup(gap, TextOfOperator(op), rest);
  }

  lemma GroupText(open: Text, choices: Choices, nested: bool, vocab: Vocab, rest: Text)
    requires Shows(Paren(open, choices), nested, vocab)
    ensures TextOf(Paren(open, choices), nested, vocab) + rest ==
      [40] + (open + (TextOfChoices(choices, true, vocab) + ([41] + rest)))
  {
    var t := TextOfChoices(choices, true, vocab);
    Regroup([40], open + (t + [41]), rest);
    Regroup(open, t + [41], rest);
    Regroup(t, [41], rest);
  }

  lemma GroupRead(s: Text, nested: bool, vocab: Vocab, a: Alternates, rest: Text)
    requires Is(s, 0, '(') && ReadAlternates(SkipSpace(s[1..], true), true, vocab) == Read(a, [41] + rest)
    ensures ReadGroup(s, nested, vocab) == Read(a, SkipSpace(rest, nested))
  {
    Behind([41], rest);
  }

  lemma {:induction false} GroupShown(open: Text, choices: Choices, nested: bool, vocab: Vocab, rest: Text)
    requires IsGap(open, true) && ChoicesShow(choices, true, vocab)
    requires AlternatesFit(TreeOfChoices(choices, true, vocab))
    ensures ReadGroup([40] + (open + (TextOfChoices(choices, true, vocab) + ([41] + rest))), nested, vocab) ==
      Read(TreeOfChoices(choices, true, vocab), SkipSpace(rest, nested))
    decreases choices, 2
  {
    var end := [41] + rest;
    var s := TextOfChoices(choices, true, vocab) + end;
    Behind([40], open + s);
    GapSkipped(open, s, true);
    InkStays(end, true);
    ChoicesStart(choices, true, vocab, end);
    ChoicesShown(choices, true, vocab, end);
    GroupRead([40] + (open + s), nested, vocab, TreeOfChoices(choices, true, vocab), rest);
  }

  // ---------------------------------------------------------------------------------------
  // Lines and choices
  // ---------------------------------------------------------------------------------------

  /** Where reading goes on behind a line. */
  function BehindLine(l: Line, rest: Text, nested: bool): Text {
    if l.Next? then SkipSpace(rest, nested) else rest
  }

  lemma LineText(l: Line, nested: bool, vocab: Vocab, rest: Text)
    requires l.Next? && LineShows(l, nested, vocab)
    ensures TextOfLine(l, nested, vocab) + rest ==
      TextOfLine(l.front, nested, vocab) + (TextOf(l.item, nested, vocab) + (l.gap + rest))
  {
    Regroup(TextOfLine(l.front, nested, vocab), TextOf(l.item, nested, vocab) + l.gap, rest);
    Regroup(TextOf(l.item, nested, vocab), l.gap, rest);
  }

  lemma {:induction false} LineShown(l: Line, nested: bool, vocab: Vocab, rest: Text)
    requires LineShows(l, nested, vocab) && SequenceFits(TreeOfLine(l, nested, vocab))
    requires EndsWithName(l) ==> !IsWordChar(At(rest, 0))
    ensures ReadSequence(TextOfLine(l, nested, vocab) + rest, nested, vocab, Nothing) ==
      ReadSequence(BehindLine(l, rest, nested), nested, vocab, TreeOfLine(l, nested, vocab))
    decreases l, 0
  {
    if l.Empty? {
      assert [] + rest == rest;
    } else {
      var tail := TextOf(l.item, nested, vocab) + (l.gap + rest);
      LineText(l, nested, vocab, rest);
      ItemInk(l.item, nested, vocab);
      assert At(tail, 0) == TextOf(l.item, nested, vocab)[0];
      LineShown(l.front, nested, vocab, tail);
      InkStays(tail, nested);
      GapBehindItem(l, nested, rest);
      ItemShown(l.item, nested, vocab, TreeOfLine(l.front, nested, vocab), l.gap + rest);
      GapSkipped(l.gap, rest, nested);
    }
  }

  lemma GapBehindItem(l: Line, nested: bool, rest: Text)
    requires l.Next? && IsGap(l.gap, nested) && (EndsWithName(l) ==> !IsWordChar(At(rest, 0)))
    ensures l.item.Ref? ==> !IsWordChar(At(l.gap + rest, 0))
  {
    if l.item.Ref? {
      GapEndsName(l.gap, rest, nested);
    }
  }

  /** Behind these bytes a sequence does not go on. */
  predicate StopsSequence(s: Text, nested: bool) {
    var c := At(s, 0);
    IsInk(s, nested) && !StartsTerminal(c) && !IsWordChar(c) && c != 40 && !IsPostfix(c)
  }

  /** Where reading goes on behind the choices: behind an empty choice even the end of the line is skipped. */
  function BehindChoices(c: Choices, rest: Text, nested: bool): Text {
    if c.line.Next? then SkipSpace(rest, nested) else if c.Bar? then SkipSpace(rest, true) else rest
  }

  lemma {:induction false} LineInk(l: Line, nested: bool, vocab: Vocab)
    requires LineShows(l, nested, vocab)
    ensures var t := TextOfLine(l, nested, vocab);
      (t == [] <==> l.Empty?) && (t != [] ==> !IsBlank(t[0], true))
    decreases l
  {
    if l.Next? {
      LineInk(l.front, nested, vocab);
      ItemInk(l.item, nested, vocab);
      var t := TextOf(l.item, nested, vocab) + l.gap;
      assert TextOfLine(l, nested, vocab)[0] ==
        if l.front.Empty? then t[0] else TextOfLine(l.front, nested, vocab)[0];
    }
  }

  lemma {:induction false} ChoicesInk(c: Choices, nested: bool, vocab: Vocab)
    requires ChoicesShow(c, nested, vocab)
    ensures var t := TextOfChoices(c, nested, vocab);
      (t == [] <==> c == Sole(Empty)) && (t != [] ==> !IsBlank(t[0], true))
    decreases c
  {
    LineInk(c.line, nested, vocab);
    if c.Bar? {
      ChoicesInk(c.front, nested, vocab);
      var t := TextOfChoices(c.front, nested, vocab);
      assert TextOfChoices(c, nested, vocab)[0] == if t == [] then 124 else t[0];
    }
  }

  /** Choices start with no blank, unless there is only an empty one. */
  lemma ChoicesStart(c: Choices, nested: bool, vocab: Vocab, rest: Text)
    requires ChoicesShow(c, nested, vocab)
    ensures SkipSpace(TextOfChoices(c, nested, vocab) + rest, true) ==
      if c == Sole(Empty) then SkipSpace(rest, true) else TextOfChoices(c, nested, vocab) + rest
  {
    var t := TextOfChoices(c, nested, vocab);
    ChoicesInk(c, nested, vocab);
    if t == [] {
      assert t + rest == rest;
    } else {
      assert (t + rest)[0] == t[0];
      InkStays(t + rest, true);
    }
  }

  lemma BarText(c: Choices, nested: bool, vocab: Vocab, rest: Text)
    requires c.Bar? && ChoicesShow(c, nested, vocab)
    ensures TextOfChoices(c, nested, vocab) + rest ==
      TextOfChoices(c.front, nested, vocab) + ([124] + (c.gap + (TextOfLine(c.line, nested, vocab) + rest)))
  {
    Regroup(TextOfChoices(c.front, nested, vocab), [124] + (c.gap + TextOfLine(c.line, nested, vocab)), rest);
    Regroup([124], c.gap + TextOfLine(c.line, nested, vocab), rest);
    Regroup(c.gap, TextOfLine(c.line, nested, vocab), rest);
  }

  lemma Stopped(s: Text, nested: bool, vocab: Vocab, acc: Sequence)
    requires StopsSequence(s, nested) && SequenceFits(acc)
    ensures ReadSequence(s, nested, vocab, acc) == Read(acc, s)
  {
  }

  lemma {:induction false} ChoicesShown(c: Choices, nested: bool, vocab: Vocab, rest: Text)
    requires ChoicesShow(c, nested, vocab) && AlternatesFit(TreeOfChoices(c, nested, vocab))
    requires !IsWordChar(At(rest, 0)) && StopsSequence(BehindChoices(c, rest, nested), nested)
    ensures ReadAlternates(TextOfChoices(c, nested, vocab) + rest, nested, vocab) ==
      ReadMore(BehindChoices(c, rest, nested), nested, vocab, TreeOfChoices(c, nested, vocab))
    decreases c, 1
  {
    var l := c.line;
    if c.Sole? {
      LineShown(l, nested, vocab, rest);
      Stopped(BehindChoices(c, rest, nested), nested, vocab, TreeOfLine(l, nested, vocab));
    } else {
      var s := TextOfLine(l, nested, vocab) + rest;
      var bar := [124] + (c.gap + s);
      BarText(c, nested, vocab, rest);
      InkStays(bar, true);
      InkStays(bar, nested);
      ChoicesShown(c.front, nested, vocab, bar);
      BarShown(c, nested, vocab, rest);
    }
  }

  /** A bar and the line behind it. */
  lemma {:induction false} BarShown(c: Choices, nested: bool, vocab: Vocab, rest: Text)
    requires c.Bar? && ChoicesShow(c, nested, vocab) && AlternatesFit(TreeOfChoices(c, nested, vocab))
    requires !IsWordChar(At(rest, 0)) && StopsSequence(BehindChoices(c, rest, nested), nested)
    ensures ReadMore([124] + (c.gap + (TextOfLine(c.line, nested, vocab) + rest)), nested, vocab,
        TreeOfChoices(c.front, nested, vocab)) ==
      ReadMore(BehindChoices(c, rest, nested), nested, vocab, TreeOfChoices(c, nested, vocab))
    decreases c, 0
  {
    var l, s := c.line, TextOfLine(c.line, nested, vocab) + rest;
    var start := if l.Next? then s else SkipSpace(rest, true);
    Behind([124], c.gap + s);
    GapSkipped(c.gap, s, true);
    LineStarts(l, nested, vocab, rest);
    if l.Next? {
      LineShown(l, nested, vocab, rest);
    }
    Stopped(BehindChoices(c, rest, nested), nested, vocab, TreeOfLine(l, nested, vocab));
    MoreRead([124] + (c.gap + s), start, nested, vocab, TreeOfChoices(c.front, nested, vocab),
      TreeOfLine(l, nested, vocab), BehindChoices(c, rest, nested));
  }

  lemma LineStarts(l: Line, nested: bool, vocab: Vocab, rest: Text)
    requires LineShows(l, nested, vocab)
    ensures SkipSpace(TextOfLine(l, nested, vocab) + rest, true) ==
      if l.Next? then TextOfLine(l, nested, vocab) + rest else SkipSpace(rest, true)
  {
    var t := TextOfLine(l, nested, vocab);
    LineInk(l, nested, vocab);
    if l.Next? {
      assert (t + rest)[0] == t[0];
      InkStays(t + rest, true);
    } else {
      assert t + rest == rest;
    }
  }

  lemma MoreRead(s: Text, start: Text, nested: bool, vocab: Vocab, acc: Alternates, line: Sequence, rest: Text)
    requires AlternatesFit(acc) && SequenceFits(line) && Is(s, 0, '|') && SkipSpace(s[1..], true) == start
    requires ReadSequence(start, nested, vocab, Nothing) == Read(line, rest)
    ensures ReadMore(s, nested, vocab, acc) == ReadMore(rest, nested, vocab, Or(acc, line))
  {
  }

  // ---------------------------------------------------------------------------------------
  // Rules
  // ---------------------------------------------------------------------------------------

  /** What follows a rule: the next one, or a comment that the end of the text cuts off. */
  predicate IsNext(next: Text) {
    IsInk(next, true) || IsRemark(next)
  }

  lemma NextSkipped(next: Text)
    requires IsNext(next)
    ensures SkipSpace(next, true) == if IsInk(next, true) then next else []
    ensures At(next, 0) != 10 && At(next, 0) != 13
  {
    if !IsInk(next, true) {
      RemarkSkipped(next, [], true);
      assert next + [] == next;
    }
  }

  /** Behind the choices of a rule the line ends, and the next rule starts behind blank lines. */
  lemma EndShown(d: Statement, vocab: Vocab, next: Text)
    requires StatementShows(d, vocab) && IsNext(next)
    requires d.end == [] ==> next == []
    ensures var s := TextOfEnd(d) + next;
      && !IsWordChar(At(s, 0)) && SkipSpace(s, true) == SkipSpace(next, true)
      && SkipSpace(s, false) == d.end + (d.blank + next)
  {
    RemarkAndEnd(d.remark, d.end, d.blank, next);
  }

  lemma RemarkAndEnd(remark: Text, end: Text, blank: Text, next: Text)
    requires IsRemark(remark) && EndShows(end, blank) && (end == [] ==> next == [])
    ensures var s := remark + (end + blank) + next;
      && !IsWordChar(At(s, 0)) && SkipSpace(s, true) == SkipSpace(next, true)
      && SkipSpace(s, false) == end + (blank + next)
  {
    var line := end + (blank + next);
    Regroup(remark, end + blank, next);
    Regroup(end, blank, next);
    LineOver(end, blank, next);
    RemarkSkipped(remark, line, false);
    RemarkSkipped(remark, line, true);
    assert At(remark + line, 0) == if remark == [] then At(line, 0) else remark[0];
  }

  /** The end of a line stays where ends of lines count, and is skipped with the blank lines where they do not. */
  lemma LineOver(end: Text, blank: Text, next: Text)
    requires EndShows(end, blank) && (end == [] ==> next == [])
    ensures var line := end + (blank + next);
      && (At(line, 0) == 0 || At(line, 0) == 10 || At(line, 0) == 13)
      && SkipSpace(line, false) == line && SkipSpace(line, true) == SkipSpace(next, true)
  {
    var line := end + (blank + next);
    assert At(line, 0) == if end == [] then 0 else end[0];
    InkStays(line, false);
    EndIsGap(end);
    GapSkipped(end, blank + next, true);
    GapSkipped(blank, next, true);
  }

  lemma EndIsGap(end: Text)
    requires end == [10] || end == [13, 10] || end == [13] || end == []
    ensures IsGap(end, true)
  {
    assert end != [] ==> end[1..] == [] || end[1..] == [10];
    assert |end| == 2 ==> end[1..][1..] == [];
  }

  lemma LineEndShown(end: Text, blank: Text, next: Text)
    requires EndShows(end, blank) && IsNext(next) && (end == [] ==> next == [])
    ensures var r := ReadLineEnd(end + (blank + next)); r.Read? && SkipSpace(r.rest, true) == SkipSpace(next, true)
  {
    var s := blank + next;
    Behind(end, s);
    GapSkipped(blank, next, true);
    NextSkipped(next);
    if end == [13] {
      assert At(end + s, 1) == At(s, 0) == if blank == [] then At(next, 0) else blank[0];
    }
  }

  lemma BodyRead(s: Text, name: Name, vocab: Vocab, a: Alternates, line: Text, next: Text)
    requires UNDERSCORE !in name && ReadAlternates(s, false, vocab) == Read(a, line)
    requires ReadLineEnd(line).Read? && SkipSpace(ReadLineEnd(line).rest, true) == next
    ensures ReadBody(s, name, vocab) == Read(Definition(name, a), next)
  {
  }

  lemma BodyEnds(d: Statement, vocab: Vocab, next: Text)
    requires StatementShows(d, vocab) && IsNext(next) && d.choices.line.Next?
    requires d.end == [] ==> next == []
    ensures var s, line := TextOfEnd(d) + next, d.end + (d.blank + next);
      && !IsWordChar(At(s, 0)) && BehindChoices(d.choices, s, false) == line
      && StopsSequence(line, false) && !Is(line, 0, '|')
  {
    EndShown(d, vocab, next);
    assert At(d.end + (d.blank + next), 0) == if d.end == [] then 0 else d.end[0];
  }

  lemma LineStops(line: Text, vocab: Vocab, a: Alternates)
    requires !Is(line, 0, '|') && AlternatesFit(a)
    ensures ReadMore(line, false, vocab, a) == Read(a, line)
  {
  }

  lemma BodyShown(d: Statement, vocab: Vocab, next: Text)
    requires StatementShows(d, vocab) && DefinitionFits(TreeOfStatement(d, vocab)) && IsNext(next)
    requires d.choices.line.Next?
    requires d.end == [] ==> next == []
    ensures ReadBody(TextOfChoices(d.choices, false, vocab) + (TextOfEnd(d) + next), d.name, vocab) ==
      Read(TreeOfStatement(d, vocab), SkipSpace(next, true))
  {
    var s, line := TextOfEnd(d) + next, d.end + (d.blank + next);
    BodyEnds(d, vocab, next);
    LineEndShown(d.end, d.blank, next);
    ChoicesShown(d.choices, false, vocab, s);
    LineStops(line, vocab, TreeOfChoices(d.choices, false, vocab));
    BodyRead(TextOfChoices(d.choices, false, vocab) + s, d.name, vocab, TreeOfChoices(d.choices, false, vocab), line,
      SkipSpace(next, true));
  }

  /** The text behind `::=`, as it is read: blanks and ends of lines are skipped. */
  function BodyText(d: Statement, vocab: Vocab, next: Text): Text
    requires StatementShows(d, vocab)
  {
    if d.choices == Sole(Empty) then SkipSpace(next, true)
      else TextOfChoices(d.choices, false, vocab) + (TextOfEnd(d) + next)
  }

  /** Reading goes on at `start` with the last of the choices. */
  function ReadOn(start: Text, vocab: Vocab, a: Alternates): Reading<Alternates>
    requires AlternatesFit(a)
  {
    match ReadSequence(start, false, vocab, Nothing)
    case Refused => Refused
    case Read(line, rest) => ReadMore(rest, false, vocab, if a.One? then One(line) else Or(a.front, line))
  }

  /** Behind an empty choice the end of the line is skipped, and the next line is read as the choice. */
  lemma EmptyReadsOn(d: Statement, vocab: Vocab, next: Text)
    requires StatementShows(d, vocab) && DefinitionFits(TreeOfStatement(d, vocab)) && IsNext(next)
    requires d.choices.line.Empty?
    requires d.end == [] ==> next == []
    ensures ReadAlternates(BodyText(d, vocab, next), false, vocab) ==
      ReadOn(SkipSpace(next, true), vocab, TreeOfStatement(d, vocab).alternates)
  {
    if d.choices.Bar? {
      EndShown(d, vocab, next);
      BarReadsOn(d.choices, TextOfEnd(d) + next, vocab);
    }
  }

  lemma BarReadsOn(c: Choices, s: Text, vocab: Vocab)
    requires c.Bar? && c.line.Empty? && ChoicesShow(c, false, vocab) && AlternatesFit(TreeOfChoices(c, false, vocab))
    ensures ReadAlternates(TextOfChoices(c, false, vocab) + s, false, vocab) ==
      ReadOn(SkipSpace(s, true), vocab, TreeOfChoices(c, false, vocab))
  {
    var bar := [124] + (c.gap + s);
    BarText(c, false, vocab, s);
    assert TextOfLine(c.line, false, vocab) + s == s;
    BarReached(c, vocab, bar);
    Behind([124], c.gap + s);
    GapSkipped(c.gap, s, true);
    MoreReadsOn(bar, SkipSpace(s, true), vocab, TreeOfChoices(c.front, false, vocab));
  }

  lemma BarReached(c: Choices, vocab: Vocab, bar: Text)
    requires c.Bar? && ChoicesShow(c, false, vocab) && AlternatesFit(TreeOfChoices(c, false, vocab))
    requires bar != [] && bar[0] == 124
    ensures ReadAlternates(TextOfChoices(c.front, false, vocab) + bar, false, vocab) ==
      ReadMore(bar, false, vocab, TreeOfChoices(c.front, false, vocab))
  {
    InkStays(bar, true);
    InkStays(bar, false);
    ChoicesShown(c.front, false, vocab, bar);
  }

  lemma MoreReadsOn(s: Text, start: Text, vocab: Vocab, acc: Alternates)
    requires AlternatesFit(acc) && Is(s, 0, '|') && SkipSpace(s[1..], true) == start
    ensures var r := ReadSequence(start, false, vocab, Nothing);
      ReadMore(s, false, vocab, acc) ==
        if r.Refused? then Refused else ReadMore(r.rest, false, vocab, Or(acc, r.value))
  {
  }

  lemma NothingReadOn(c: Choices, vocab: Vocab)
    requires ChoicesShow(c, false, vocab) && AlternatesFit(TreeOfChoices(c, false, vocab)) && c.line.Empty?
    ensures ReadOn([], vocab, TreeOfChoices(c, false, vocab)) == Read(TreeOfChoices(c, false, vocab), [])
  {
    assert ReadSequence([], false, vocab, Nothing) == Read(Nothing, []);
  }

  lemma NothingEnds(s: Text, name: Name, a: Alternates, vocab: Vocab)
    requires UNDERSCORE !in name && ReadAlternates(s, false, vocab) == Read(a, [])
    ensures ReadBody(s, name, vocab) == Read(Definition(name, a), [])
  {
  }

  /** At the end of the text there is no next line. */
  lemma EmptyAtEnd(d: Statement, vocab: Vocab, last: Text)
    requires StatementShows(d, vocab) && DefinitionFits(TreeOfStatement(d, vocab)) && d.choices.line.Empty?
    requires IsRemark(last) && (d.end == [] ==> last == [])
    ensures ReadBody(BodyText(d, vocab, last), d.name, vocab) == Read(TreeOfStatement(d, vocab), [])
  {
    NextSkipped(last);
    EmptyReadsOn(d, vocab, last);
    NothingReadOn(d.choices, vocab);
    NothingEnds(BodyText(d, vocab, last), d.name, TreeOfStatement(d, vocab).alternates, vocab);
  }

  /** The next rule is refused as a choice: its name is read as a reference, and then no line ends. */
  lemma EmptyBeforeRule(d: Statement, vocab: Vocab, next: Statement, rest: Text)
    requires StatementShows(d, vocab) && DefinitionFits(TreeOfStatement(d, vocab)) && d.choices.line.Empty?
    requires StatementShows(next, vocab)
    requires d.end != []
    ensures ReadBody(BodyText(d, vocab, TextOfStatement(next, vocab) + rest), d.name, vocab).Refused?
  {
    StatementStarts(next, vocab, rest);
    InkStays(TextOfStatement(next, vocab) + rest, true);
    EmptyReadsOn(d, vocab, TextOfStatement(next, vocab) + rest);
  }

  /** What stands behind the name of a rule. */
  function BehindName(d: Statement, vocab: Vocab, rest: Text): Text
    requires StatementShows(d, vocab)
  {
    [58, 58, 61] + (d.after + (TextOfChoices(d.choices, false, vocab) + (TextOfEnd(d) + rest)))
  }

  lemma StatementText(d: Statement, vocab: Vocab, rest: Text)
    requires StatementShows(d, vocab)
    ensures TextOfStatement(d, vocab) + rest == d.name + (d.before + BehindName(d, vocab, rest))
  {
    var t := TextOfChoices(d.choices, false, vocab);
    Regroup(d.name, d.before + ([58, 58, 61] + (d.after + (t + TextOfEnd(d)))), rest);
    Regroup(d.before, [58, 58, 61] + (d.after + (t + TextOfEnd(d))), rest);
    Regroup([58, 58, 61], d.after + (t + TextOfEnd(d)), rest);
    Regroup(d.after, t + TextOfEnd(d), rest);
    Regroup(t, TextOfEnd(d), rest);
  }

  /** Taken for a reference, the name of a rule is followed by a colon. */
  lemma StatementStarts(d: Statement, vocab: Vocab, rest: Text)
    requires StatementShows(d, vocab)
    ensures IsInk(TextOfStatement(d, vocab) + rest, true) && At(TextOfStatement(d, vocab) + rest, 0) != 0
    ensures var r := ReadSequence(TextOfStatement(d, vocab) + rest, false, vocab, Nothing);
      r.Read? && At(r.rest, 0) == 58
  {
    var s := BehindName(d, vocab, rest);
    StatementText(d, vocab, rest);
    Behind(d.name, d.before + s);
    GapEndsName(d.before, s, false);
    NameTaken(d.name, false, vocab, Nothing, d.before + s);
    GapSkipped(d.before, s, false);
    InkStays(s, false);
  }

  /** A rule is read as its name and what follows the sign. */
  lemma StatementRead(d: Statement, vocab: Vocab, next: Text)
    requires StatementShows(d, vocab) && DefinitionFits(TreeOfStatement(d, vocab)) && IsNext(next)
    requires d.end == [] ==> next == []
    ensures ReadRule(TextOfStatement(d, vocab) + next, vocab) == ReadBody(BodyText(d, vocab, next), d.name, vocab)
  {
    var s1 := BehindName(d, vocab, next);
    var t := TextOfEnd(d) + next;
    var body := TextOfChoices(d.choices, false, vocab) + t;
    StatementText(d, vocab, next);
    Behind(d.name, d.before + s1);
    GapEndsName(d.before, s1, false);
    NameEnds(d.name + (d.before + s1), |d.name|);
    GapSkipped(d.before, s1, false);
    InkStays(s1, false);
    Behind([58, 58, 61], d.after + body);
    GapSkipped(d.after, body, true);
    ChoicesStart(d.choices, false, vocab, t);
    EndShown(d, vocab, next);
    RuleRead(d.name + (d.before + s1), |d.name|, s1, BodyText(d, vocab, next), vocab);
  }

  lemma RuleRead(s: Text, n: nat, s1: Text, body: Text, vocab: Vocab)
    requires 0 < n <= |s| && NameLength(s) == n && SkipSpace(s[n..], false) == s1
    requires |s1| >= 3 && DefinesAhead(s1) && SkipSpace(s1[3..], true) == body
    ensures ReadRule(s, vocab) == ReadBody(body, s[..n], vocab)
  {
  }

  // ---------------------------------------------------------------------------------------
  // Grammars
  // ---------------------------------------------------------------------------------------

  /** Only the last rule ends with an empty choice. */
  predicate LinesEnd(ds: seq<Statement>) {
    forall i :: 0 <= i < |ds| - 1 ==> ds[i].choices.line.Next?
  }

  /** A comment that the end of the text cuts off can stand behind rules whose last line has ended. */
  predicate LastShows(ds: seq<Statement>, last: Text) {
    IsRemark(last) && (last != [] && ds != [] ==> ds[|ds| - 1].end != [])
  }

  lemma GrammarInk(ds: seq<Statement>, last: Text, vocab: Vocab)
    requires AllShow(ds, vocab) && LastShows(ds, last)
    ensures var s := TextOfGrammar(ds, vocab) + last;
      if ds == [] then s == last && IsNext(s) && SkipSpace(s, true) == []
      else
        && IsInk(s, true) && At(s, 0) != 0
        && s == TextOfStatement(ds[0], vocab) + (TextOfGrammar(ds[1..], vocab) + last)
  {
    if ds == [] {
      assert [] + last == last;
      NextSkipped(last);
      assert last == [] || !IsInk(last, true);
    } else {
      Regroup(TextOfStatement(ds[0], vocab), TextOfGrammar(ds[1..], vocab), last);
      StatementStarts(ds[0], vocab, TextOfGrammar(ds[1..], vocab) + last);
    }
  }

  lemma RestShows(ds: seq<Statement>, last: Text, vocab: Vocab)
    requires AllShow(ds, vocab) && LastShows(ds, last) && ds != []
    ensures AllShow(ds[1..], vocab) && LastShows(ds[1..], last)
  {
  }

  lemma FirstShown(ds: seq<Statement>, last: Text, vocab: Vocab)
    requires AllShow(ds, vocab) && LastShows(ds, last) && ds != [] && DefinitionFits(TreeOfStatement(ds[0], vocab))
    ensures var rest := TextOfGrammar(ds[1..], vocab) + last;
      && IsNext(rest) && (ds[0].end == [] ==> rest == [])
      && ReadBody(BodyText(ds[0], vocab, rest), ds[0].name, vocab) ==
        if |ds| == 1 || ds[0].choices.line.Next? then Read(TreeOfStatement(ds[0], vocab), SkipSpace(rest, true))
        else Refused
  {
    var d, rest := ds[0], TextOfGrammar(ds[1..], vocab) + last;
    RestShows(ds, last, vocab);
    GrammarInk(ds[1..], last, vocab);
    if d.choices.line.Next? {
      BodyShown(d, vocab, rest);
    } else if |ds| == 1 {
      EmptyAtEnd(d, vocab, last);
      NextSkipped(last);
    } else {
      assert ds[1..][0] == ds[1];
      EmptyBeforeRule(d, vocab, ds[1], TextOfGrammar(ds[1..][1..], vocab) + last);
    }
  }

  lemma RulesStep(d: Statement, vocab: Vocab, acc: seq<Definition>, rest: Text)
    requires StatementShows(d, vocab) && DefinitionFits(TreeOfStatement(d, vocab)) && DefinitionsFit(acc)
    requires IsNext(rest)
    requires d.end == [] ==> rest == []
    ensures var r, tree := ReadBody(BodyText(d, vocab, rest), d.name, vocab), TreeOfStatement(d, vocab);
      && (r.Read? && r.value == tree ==>
        && DefinitionsFit(acc + [tree])
        && ReadRules(TextOfStatement(d, vocab) + rest, vocab, acc) == ReadRules(r.rest, vocab, acc + [tree]))
      && (r.Refused? ==> ReadRules(TextOfStatement(d, vocab) + rest, vocab, acc).Refused?)
  {
    StatementRead(d, vocab, rest);
    StatementStarts(d, vocab, rest);
  }

  /** One rule of the grammar is read, and reading goes on behind it. */
  lemma RulesNext(ds: seq<Statement>, last: Text, vocab: Vocab, acc: seq<Definition>)
    requires AllShow(ds, vocab) && LastShows(ds, last) && DefinitionsFit(acc) && ds != []
    requires DefinitionFits(TreeOfStatement(ds[0], vocab))
    ensures var rest, tree := TextOfGrammar(ds[1..], vocab) + last, TreeOfStatement(ds[0], vocab);
      && DefinitionsFit(acc + [tree])
      && ReadRules(SkipSpace(TextOfGrammar(ds, vocab) + last, true), vocab, acc) ==
        if |ds| == 1 || ds[0].choices.line.Next? then ReadRules(SkipSpace(rest, true), vocab, acc + [tree]) else Refused
  {
    GrammarInk(ds, last, vocab);
    InkStays(TextOfGrammar(ds, vocab) + last, true);
    FirstShown(ds, last, vocab);
    RulesStep(ds[0], vocab, acc, TextOfGrammar(ds[1..], vocab) + last);
  }

  lemma {:induction false} RulesShown(ds: seq<Statement>, last: Text, vocab: Vocab, acc: seq<Definition>)
    requires AllShow(ds, vocab) && LastShows(ds, last) && DefinitionsFit(TreesOf(ds, vocab)) && DefinitionsFit(acc)
    ensures ReadRules(SkipSpace(TextOfGrammar(ds, vocab) + last, true), vocab, acc) ==
      if LinesEnd(ds) then Read(acc + TreesOf(ds, vocab), []) else Refused
    decreases |ds|
  {
    if ds == [] {
      GrammarInk(ds, last, vocab);
      assert acc + TreesOf(ds, vocab) == acc;
    } else {
      var tree := TreeOfStatement(ds[0], vocab);
      assert TreesOf(ds, vocab)[0] == tree;
      RestShows(ds, last, vocab);
      RulesNext(ds, last, vocab, acc);
      LinesEndStep(ds);
      if |ds| == 1 || ds[0].choices.line.Next? {
        TreesMore(ds, vocab);
        RulesShown(ds[1..], last, vocab, acc + [tree]);
        Regroup(acc, [tree], TreesOf(ds[1..], vocab));
      }
    }
  }

  lemma TreesMore(ds: seq<Statement>, vocab: Vocab)
    requires AllShow(ds, vocab) && ds != [] && DefinitionsFit(TreesOf(ds, vocab))
    ensures TreesOf(ds, vocab) == [TreeOfStatement(ds[0], vocab)] + TreesOf(ds[1..], vocab)
    ensures DefinitionsFit(TreesOf(ds[1..], vocab))
  {
    forall i | 0 <= i < |ds| - 1
      ensures TreesOf(ds[1..], vocab)[i] == TreesOf(ds, vocab)[i + 1]
    {
    }
  }

  lemma LinesEndStep(ds: seq<Statement>)
    requires ds != []
    ensures LinesEnd(ds) <==> (|ds| == 1 || ds[0].choices.line.Next?) && LinesEnd(ds[1..])
  {
    if LinesEnd(ds[1..]) && (|ds| == 1 || ds[0].choices.line.Next?) {
      forall i | 0 <= i < |ds| - 1
        ensures ds[i].choices.line.Next?
      {
        assert i > 0 ==> ds[i] == ds[1..][i - 1];
      }
    }
  }

  lemma TreesFit(ds: seq<Statement>, vocab: Vocab)
    requires AllShow(ds, vocab)
    ensures DefinitionsFit(TreesOf(ds, vocab))
  {
    forall i | 0 <= i < |ds|
      ensures DefinitionFits(TreesOf(ds, vocab)[i])
    {
      ChoicesTreeFits(ds[i].choices, false, vocab);
    }
  }

  /**
    A grammar that is written in the notation, with any spelling of its characters and operators and any
    blanks and comments, is read as what is meant, if and only if no rule but the last ends with an empty
    choice; otherwise it is refused.
    */
  lemma GrammarRoundTrip(lead: Text, ds: seq<Statement>, last: Text, vocab: Vocab)
    requires IsGap(lead, true) && AllShow(ds, vocab) && LastShows(ds, last)
    ensures ReadGrammar(lead + (TextOfGrammar(ds, vocab) + last), vocab) ==
      if LinesEnd(ds) then Read(TreesOf(ds, vocab), []) else Refused
  {
    var s := TextOfGrammar(ds, vocab) + last;
    GapSkipped(lead, s, true);
    TreesFit(ds, vocab);
    RulesShown(ds, last, vocab, []);
    assert [] + TreesOf(ds, vocab) == TreesOf(ds, vocab);
  }

  // ---------------------------------------------------------------------------------------
  // What literals and classes accept
  // ---------------------------------------------------------------------------------------

  function Chars(w: Word): seq<Element> {
    seq(|w|, i requires 0 <= i < |w| => Element(CHAR, w[i]))
  }

  /** A literal accepts its own characters and nothing else. */
  lemma {:induction false} LiteralAccepts(w: Word, v: Word)
    ensures v in LanguageOf([], Chars(w)) <==> v == w
  {
    if v in LanguageOf([], Chars(w)) {
      var n: nat :| Derives([], Chars(w), 0, v, n);
      CharsDerive(w, 0, v, n);
    }
    if v == w {
      CharsDerive(w, 0, v, 0);
    }
  }

  lemma {:induction false} CharsDerive(w: Word, i: nat, v: Word, n: nat)
    requires i <= |w|
    ensures Derives([], Chars(w), i, v, n) <==> v == w[i..]
    decreases |w| - i
  {
    if i < |w| {
      var els := Chars(w);
      assert SymbolEnd(els, i) == i + 1;
      if v != [] {
        CharsDerive(w, i + 1, v[1..], n);
        assert ClassAccepts(els, i, v[0]) <==> v[0] == w[i] by {
          assert ItemCovers(els, i, v[0]) <==> v[0] == w[i];
        }
        assert v == [v[0]] + v[1..] && w[i..] == [w[i]] + w[i + 1..];
      }
    }
  }

  /** Character `c` is one of the class, or lies in one of its ranges. */
  predicate Listed(els: seq<Element>, c: CodePoint) {
    exists j :: 0 <= j < |els| && !els[j].kind.CHAR_RNG_UPPER? && ItemCovers(els, j, c)
  }

  /**
    A class accepts one character: one that is listed, or for an inverse class one that is not. An empty class
    is skipped.
    */
  lemma ClassAcceptsListed(els: seq<Element>, start: GreType, v: Word)
    requires IsClass(els, start)
    ensures v in LanguageOf([], els) <==>
      if els == [] then v == [] else |v| == 1 && (Listed(els, v[0]) <==> start.CHAR?)
  {
    if els == [] {
      assert Derives([], els, 0, v, 0) <==> v == [];
    } else {
      ClassToEnd(els, 0);
      forall n: nat
        ensures Derives([], els, 0, v, n) <==> v != [] && ClassAccepts(els, 0, v[0]) && v[1..] == []
      {
        DerivesClass([], els, 0, v, n);
      }
      assert |v| == 1 <==> v != [] && v[1..] == [];
      if v in LanguageOf([], els) {
        var n: nat :| Derives([], els, 0, v, n);
      }
      if |v| == 1 && (Listed(els, v[0]) <==> start.CHAR?) {
        assert Derives([], els, 0, v, 0);
      }
    }
  }

  lemma {:induction false} ClassToEnd(els: seq<Element>, i: nat)
    requires i < |els| && forall j :: 0 < j < |els| ==> IsContinuation(els[j])
    ensures SymbolEnd(els, i) == |els|
    decreases |els| - i
  {
    if i + 1 < |els| {
      ClassToEnd(els, i + 1);
    }
  }

  // ---------------------------------------------------------------------------------------
  // What is written accepts
  // ---------------------------------------------------------------------------------------

  predicate InRange(r: Range, c: CodePoint) {
    if r.Only? then c == r.lo.code else r.lo.code <= c <= r.hi.code
  }

  /** The character is one of those written in the class, or between the ends of one of its ranges. */
  predicate InClass(ranges: seq<Range>, c: CodePoint) {
    exists i :: 0 <= i < |ranges| && InRange(ranges[i], c)
  }

  lemma ListedSplit(front: seq<Element>, rest: seq<Element>, c: CodePoint)
    requires rest != [] ==> !rest[0].kind.CHAR_RNG_UPPER?
    ensures Listed(front + rest, c) <==> Listed(front, c) || Listed(rest, c)
  {
    var k, els := |front|, front + rest;
    forall j | 0 <= j < |els|
      ensures ItemCovers(els, j, c) == if j < k then ItemCovers(front, j, c) else ItemCovers(rest, j - k, c)
    {
    }
    if Listed(front, c) {
      var j :| 0 <= j < k && !front[j].kind.CHAR_RNG_UPPER? && ItemCovers(front, j, c);
      assert ItemCovers(els, j, c);
    }
    if Listed(rest, c) {
      var j :| 0 <= j < |rest| && !rest[j].kind.CHAR_RNG_UPPER? && ItemCovers(rest, j, c);
      assert ItemCovers(els, k + j, c);
    }
  }

  lemma ListedRange(r: Range, kind: GreType, c: CodePoint)
    requires kind.CHAR? || kind.CHAR_NOT? || kind.CHAR_ALT?
    ensures Listed(TreeOfRange(kind, r), c) <==> InRange(r, c)
  {
    assert ItemCovers(TreeOfRange(kind, r), 0, c) <==> InRange(r, c);
  }

  lemma {:induction false} RangesListed(ranges: seq<Range>, kind: GreType, c: CodePoint)
    requires kind.CHAR? || kind.CHAR_NOT? || kind.CHAR_ALT?
    ensures Listed(TreeOfRanges(kind, ranges), c) <==> InClass(ranges, c)
    decreases |ranges|
  {
    if ranges != [] {
      var more := ranges[1..];
      var rest := TreeOfRanges(CHAR_ALT, more);
      assert rest != [] ==> !rest[0].kind.CHAR_RNG_UPPER? by {
        assert more != [] ==> rest[0] == TreeOfRange(CHAR_ALT, more[0])[0];
      }
      ListedSplit(TreeOfRange(kind, ranges[0]), rest, c);
      ListedRange(ranges[0], kind, c);
      RangesListed(more, CHAR_ALT, c);
      assert forall i :: 0 <= i < |more| ==> more[i] == ranges[i + 1];
    }
  }

  /**
    A class that is written accepts single characters: those that it names, or that lie between the ends of one
    of its ranges, and if it is inverse exactly the others. A class without characters is skipped.
    */
  lemma WrittenClassAccepts(inverse: bool, ranges: seq<Range>, v: Word)
    requires RangesShow(ranges, false)
    ensures v in LanguageOf([], TreeOfRanges(ClassStart(inverse), ranges)) <==>
      if ranges == [] then v == [] else |v| == 1 && (InClass(ranges, v[0]) <==> !inverse)
  {
    var els := TreeOfRanges(ClassStart(inverse), ranges);
    ClassShown(inverse, ranges, []);
    ClassAcceptsListed(els, ClassStart(inverse), v);
    TreeOfRangesEmpty(ClassStart(inverse), ranges);
    if v != [] {
      RangesListed(ranges, ClassStart(inverse), v[0]);
    }
  }

  /** A literal accepts the characters that are written in it, and nothing else. */
  lemma WrittenLiteralAccepts(letters: seq<Letter>, v: Word)
    ensures v in LanguageOf([], TreeOfLetters(letters)) <==>
      |v| == |letters| && forall i :: 0 <= i < |v| ==> v[i] == letters[i].code
  {
    var w: Word := seq(|letters|, i requires 0 <= i < |letters| => letters[i].code);
    assert TreeOfLetters(letters) == Chars(w);
    LiteralAccepts(w, v);
  }

  /** The dot accepts every character. */
  lemma DotAccepts(v: Word)
    ensures v in LanguageOf([], [Element(CHAR_ANY, 0)]) <==> |v| == 1
  {
    var els := [Element(CHAR_ANY, 0)];
    assert SymbolEnd(els, 0) == 1 && (v != [] ==> ItemCovers(els, 0, v[0]));
    forall n: nat
      ensures Derives([], els, 0, v, n) <==> |v| == 1
    {
      DerivesClass([], els, 0, v, n);
    }
    if |v| == 1 {
      assert Derives([], els, 0, v, 0);
    }
  }
}
