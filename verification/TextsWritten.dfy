/**
  The texts that are read are exactly those that are written in the notation, and what is read is what is meant.
  */
module TextsWritten {
  import opened GrammarSyntax
  import opened Notation
  import opened NotationTerms
  import opened GrammarShow
  import opened TermsWritten

  lemma FrontAndRest(s: Text)
    requires s != []
    ensures s == [s[0]] + s[1..] && (0 !in s ==> s[0] != 0 && 0 !in s[1..])
  {
  }

  lemma NoNulBehind(a: Text, b: Text)
    requires 0 !in a + b
    ensures 0 !in b
  {
    assert forall i :: 0 <= i < |b| ==> (a + b)[|a| + i] == b[i];
  }

  /** A terminal that is read. */
  lemma TerminalWritten(s: Text, nested: bool, vocab: Vocab) returns (w: Writing)
    requires 0 !in s && s != [] && StartsTerminal(s[0]) && ReadTerminal(s, vocab).Read?
    ensures IsTerminal(w) && Shows(w, nested, vocab)
    ensures TreeOf(w, nested, vocab) == Terminal(ReadTerminal(s, vocab).value)
    ensures s == TextOf(w, nested, vocab) + ReadTerminal(s, vocab).rest
  {
    var rest := ReadTerminal(s, vocab).rest;
    FrontAndRest(s);
    if s[0] == 34 {
      var letters := LettersWritten(s[1..], []);
      w := Quoted(letters);
      assert [] + TreeOfLetters(letters) == TreeOfLetters(letters);
      Regroup(TextOfLetters(letters), [34], rest);
      Regroup([34], TextOfLetters(letters) + [34], rest);
    } else if s[0] == 91 {
      w := BracketWritten(s, nested, vocab);
    } else if s[0] == 46 {
      w := Dot;
    } else if s[0] == 33 {
      w := TokenWritten(s[1..], true, nested, vocab);
    } else {
      w := TokenWritten(s, false, nested, vocab);
      assert [] + s == s;
    }
  }

  lemma BracketWritten(s: Text, nested: bool, vocab: Vocab) returns (w: Writing)
    requires 0 !in s && s != [] && s[0] == 91 && ReadTerminal(s, vocab).Read?
    ensures IsTerminal(w) && Shows(w, nested, vocab)
    ensures TreeOf(w, nested, vocab) == Terminal(ReadTerminal(s, vocab).value)
    ensures s == TextOf(w, nested, vocab) + ReadTerminal(s, vocab).rest
  {
    BracketRead(s, vocab);
    if Is(s, 1, '^') {
      TwoAndRest(s, 91, 94);
      NoNulBehind([91, 94], s[2..]);
      w := ClassBehind(s[2..], true, nested, vocab);
    } else {
      FrontAndRest(s);
      w := ClassBehind(s[1..], false, nested, vocab);
    }
  }

  lemma ClassBehind(s: Text, inverse: bool, nested: bool, vocab: Vocab) returns (w: Writing)
    requires 0 !in s && ReadClass(s, ClassStart(inverse), []).Read? && (!inverse ==> !Is(s, 0, '^'))
    ensures w.Class? && Shows(w, nested, vocab)
    ensures var r := ReadClass(s, ClassStart(inverse), []);
      && TreeOf(w, nested, vocab) == Terminal(r.value)
      && (if inverse then [91, 94] else [91]) + s == TextOf(w, nested, vocab) + r.rest
  {
    var ranges := ClassWritten(s, inverse);
    w := Class(inverse, ranges);
    var rest := ReadClass(s, ClassStart(inverse), []).rest;
    var open: Text := if inverse then [91, 94] else [91];
    Regroup(TextOfRanges(ranges, false), [93], rest);
    Regroup(open, TextOfRanges(ranges, false) + [93], rest);
  }

  // ---------------------------------------------------------------------------------------
  // Lines
  // ---------------------------------------------------------------------------------------

  /** Reading on from the line `l0` at `s` gives what the line `l` means, with a comment behind it. */
  ghost predicate LineGrows(l0: Line, s: Text, nested: bool, vocab: Vocab, r: Reading<Sequence>, l: Line, c: Text) {
    && LineShows(l0, nested, vocab) && LineShows(l, nested, vocab)
    && r.Read? && r.value == TreeOfLine(l, nested, vocab) && 0 !in r.rest
    && TextOfLine(l0, nested, vocab) + s == TextOfLine(l, nested, vocab) + (c + r.rest)
    && IsRemark(c) && (c != [] ==> IsOver(r.rest, nested))
    && (l.Empty? ==> r.rest == s)
  }

  /** Where the line or the text is over, nothing more is read. */
  lemma OverStops(s: Text, nested: bool, vocab: Vocab, acc: Sequence)
    requires SequenceFits(acc) && IsOver(s, nested)
    ensures ReadSequence(s, nested, vocab, acc) == Read(acc, s)
  {
  }

  lemma ItemText(l0: Line, w: Writing, nested: bool, vocab: Vocab, r1: Text, g: Text, c: Text, r2: Text)
    requires LineShows(Next(l0, w, g), nested, vocab) && r1 == g + (c + r2)
    ensures TextOfLine(l0, nested, vocab) + (TextOf(w, nested, vocab) + r1) ==
      TextOfLine(Next(l0, w, g), nested, vocab) + (c + r2)
  {
    LineText(Next(l0, w, g), nested, vocab, c + r2);
  }

  /** Behind an item, the blanks and the rest of the line. */
  lemma {:induction false} BehindItem(l0: Line, w: Writing, r1: Text, nested: bool, vocab: Vocab)
    returns (l: Line, c: Text)
    requires 0 !in r1 && LineShows(l0, nested, vocab) && Shows(w, nested, vocab)
    requires SequenceFits(TreeOfLine(l0, nested, vocab)) && ItemFits(TreeOf(w, nested, vocab))
    requires !(EndsWithName(l0) && StartsWithName(w)) && (w.Ref? ==> !IsWordChar(At(r1, 0)))
    requires ReadSequence(SkipSpace(r1, nested), nested, vocab,
      Append(TreeOfLine(l0, nested, vocab), TreeOf(w, nested, vocab))).Read?
    ensures LineGrows(l0, TextOf(w, nested, vocab) + r1, nested, vocab,
      ReadSequence(SkipSpace(r1, nested), nested, vocab,
        Append(TreeOfLine(l0, nested, vocab), TreeOf(w, nested, vocab))), l, c)
    ensures l.Next?
    decreases |r1|, 3
  {
    var r2 := SkipSpace(r1, nested);
    var g, c1 := SpaceWritten(r1, nested);
    var l1 := Next(l0, w, g);
    ItemText(l0, w, nested, vocab, r1, g, c1, r2);
    if c1 == [] {
      assert [] + r2 == r2;
      assert g == [] ==> r1 == r2;
      l, c := SequenceWritten(r2, nested, vocab, l1);
      LineKept(l0, TextOf(w, nested, vocab) + r1, l1, r2, nested, vocab,
        ReadSequence(r2, nested, vocab, TreeOfLine(l1, nested, vocab)), l, c);
    } else {
      l, c := l1, c1;
      OverStops(r2, nested, vocab, TreeOfLine(l1, nested, vocab));
    }
  }

  lemma LineKept(l0: Line, s: Text, l1: Line, r2: Text, nested: bool, vocab: Vocab, r: Reading<Sequence>, l: Line,
                 c: Text)
    requires LineShows(l0, nested, vocab) && LineShows(l1, nested, vocab)
    requires TextOfLine(l0, nested, vocab) + s == TextOfLine(l1, nested, vocab) + r2
    requires LineGrows(l1, r2, nested, vocab, r, l, c) && l.Next?
    ensures LineGrows(l0, s, nested, vocab, r, l, c)
  {
  }

  /** The line that is read behind the line `l0`. */
  lemma {:induction false} SequenceWritten(s: Text, nested: bool, vocab: Vocab, l0: Line) returns (l: Line, c: Text)
    requires 0 !in s && LineShows(l0, nested, vocab) && SequenceFits(TreeOfLine(l0, nested, vocab))
    requires EndsWithName(l0) ==> !IsWordChar(At(s, 0))
    requires ReadSequence(s, nested, vocab, TreeOfLine(l0, nested, vocab)).Read?
    ensures LineGrows(l0, s, nested, vocab, ReadSequence(s, nested, vocab, TreeOfLine(l0, nested, vocab)), l, c)
    ensures l0.Next? ==> l.Next?
    decreases |s|, 2
  {
    var b := At(s, 0);
    if StartsTerminal(b) {
      l, c := TerminalBehind(s, nested, vocab, l0);
    } else if IsWordChar(b) {
      l, c := NameBehind(s, nested, vocab, l0);
    } else if b == 40 {
      l, c := GroupBehind(s, nested, vocab, l0);
    } else if IsPostfix(b) {
      l, c := OperatorBehind(s, nested, vocab, l0);
    } else {
      l, c := l0, [];
      NothingAhead(s, nested, vocab, TreeOfLine(l0, nested, vocab));
      assert [] + s == s;
    }
  }

  lemma NothingAhead(s: Text, nested: bool, vocab: Vocab, acc: Sequence)
    requires SequenceFits(acc) && !StartsTerminal(At(s, 0)) && !IsWordChar(At(s, 0)) && At(s, 0) != 40
    requires !IsPostfix(At(s, 0))
    ensures ReadSequence(s, nested, vocab, acc) == Read(acc, s)
  {
  }

  lemma TerminalAhead(s: Text, nested: bool, vocab: Vocab, acc: Sequence)
    requires StartsTerminal(At(s, 0)) && SequenceFits(acc) && ReadSequence(s, nested, vocab, acc).Read?
    ensures s != [] && ReadTerminal(s, vocab).Read? && ItemFits(Terminal(ReadTerminal(s, vocab).value))
    ensures ReadSequence(s, nested, vocab, acc) ==
      ReadSequence(SkipSpace(ReadTerminal(s, vocab).rest, nested), nested, vocab,
        Append(acc, Terminal(ReadTerminal(s, vocab).value)))
  {
  }

  lemma {:induction false} TerminalBehind(s: Text, nested: bool, vocab: Vocab, l0: Line) returns (l: Line, c: Text)
    requires 0 !in s && LineShows(l0, nested, vocab) && SequenceFits(TreeOfLine(l0, nested, vocab))
    requires StartsTerminal(At(s, 0)) && ReadSequence(s, nested, vocab, TreeOfLine(l0, nested, vocab)).Read?
    ensures LineGrows(l0, s, nested, vocab, ReadSequence(s, nested, vocab, TreeOfLine(l0, nested, vocab)), l, c)
    ensures l.Next?
    decreases |s|, 1
  {
    TerminalAhead(s, nested, vocab, TreeOfLine(l0, nested, vocab));
    var w := TerminalWritten(s, nested, vocab);
    TerminalRest(s, nested, vocab, w);
    l, c := BehindItem(l0, w, ReadTerminal(s, vocab).rest, nested, vocab);
  }

  lemma TerminalRest(s: Text, nested: bool, vocab: Vocab, w: Writing)
    requires 0 !in s && s != [] && ReadTerminal(s, vocab).Read? && Shows(w, nested, vocab)
    requires s == TextOf(w, nested, vocab) + ReadTerminal(s, vocab).rest
    ensures 0 !in ReadTerminal(s, vocab).rest
  {
    NoNulBehind(TextOf(w, nested, vocab), ReadTerminal(s, vocab).rest);
  }

  lemma {:induction false} NameBehind(s: Text, nested: bool, vocab: Vocab, l0: Line) returns (l: Line, c: Text)
    requires 0 !in s && LineShows(l0, nested, vocab) && SequenceFits(TreeOfLine(l0, nested, vocab))
    requires !EndsWithName(l0) && !StartsTerminal(At(s, 0)) && IsWordChar(At(s, 0))
    requires ReadSequence(s, nested, vocab, TreeOfLine(l0, nested, vocab)).Read?
    ensures LineGrows(l0, s, nested, vocab, ReadSequence(s, nested, vocab, TreeOfLine(l0, nested, vocab)), l, c)
    ensures l.Next?
    decreases |s|, 1
  {
    var n := NameLength(s);
    assert s == s[..n] + s[n..];
    NameTaken(s[..n], nested, vocab, TreeOfLine(l0, nested, vocab), s[n..]);
    l, c := BehindItem(l0, Ref(s[..n]), s[n..], nested, vocab);
  }

  lemma GroupAhead(s: Text, nested: bool, vocab: Vocab, acc: Sequence)
    requires Is(s, 0, '(') && SequenceFits(acc) && ReadSequence(s, nested, vocab, acc).Read?
    ensures ReadGroup(s, nested, vocab).Read? && ItemFits(Group(ReadGroup(s, nested, vocab).value))
    ensures ReadSequence(s, nested, vocab, acc) ==
      ReadSequence(ReadGroup(s, nested, vocab).rest, nested, vocab,
        Append(acc, Group(ReadGroup(s, nested, vocab).value)))
  {
  }

  lemma {:induction false} GroupBehind(s: Text, nested: bool, vocab: Vocab, l0: Line) returns (l: Line, c: Text)
    requires 0 !in s && LineShows(l0, nested, vocab) && SequenceFits(TreeOfLine(l0, nested, vocab))
    requires Is(s, 0, '(') && ReadSequence(s, nested, vocab, TreeOfLine(l0, nested, vocab)).Read?
    ensures LineGrows(l0, s, nested, vocab, ReadSequence(s, nested, vocab, TreeOfLine(l0, nested, vocab)), l, c)
    ensures l.Next?
    decreases |s|, 1
  {
    GroupAhead(s, nested, vocab, TreeOfLine(l0, nested, vocab));
    var w, r1 := GroupWritten(s, nested, vocab);
    l, c := BehindItem(l0, w, r1, nested, vocab);
  }

  lemma OperatorAhead(s: Text, nested: bool, vocab: Vocab, acc: Sequence)
    requires IsPostfix(At(s, 0)) && SequenceFits(acc) && ReadSequence(s, nested, vocab, acc).Read?
    ensures s != [] && acc.Then? && ReadPostfix(s, nested).Read?
    ensures var times := ReadPostfix(s, nested).value;
      ReadSequence(s, nested, vocab, acc) == ReadSequence(ReadPostfix(s, nested).rest, nested, vocab,
        Append(acc.front, Repeat(acc.item, times.min, times.max)))
  {
  }

  /** An operator takes the last item of the line. */
  lemma {:induction false} OperatorBehind(s: Text, nested: bool, vocab: Vocab, l0: Line) returns (l: Line, c: Text)
    requires 0 !in s && LineShows(l0, nested, vocab) && SequenceFits(TreeOfLine(l0, nested, vocab))
    requires IsPostfix(At(s, 0)) && ReadSequence(s, nested, vocab, TreeOfLine(l0, nested, vocab)).Read?
    ensures LineGrows(l0, s, nested, vocab, ReadSequence(s, nested, vocab, TreeOfLine(l0, nested, vocab)), l, c)
    ensures l.Next?
    decreases |s|, 1
  {
    OperatorAhead(s, nested, vocab, TreeOfLine(l0, nested, vocab));
    var op, r0 := PostfixWritten(s, nested);
    Behind(TextOfOperator(op), r0);
    NoNulBehind(TextOfOperator(op), r0);
    OperatorInk(op, r0);
    OperatorText(l0, op, nested, vocab, r0);
    l, c := BehindItem(l0.front, Repeated(l0.item, l0.gap, op), r0, nested, vocab);
    LineKept(l0, s, l0.front, TextOf(Repeated(l0.item, l0.gap, op), nested, vocab) + r0, nested, vocab,
      ReadSequence(s, nested, vocab, TreeOfLine(l0, nested, vocab)), l, c);
  }

  lemma OperatorText(l0: Line, op: Operator, nested: bool, vocab: Vocab, r0: Text)
    requires l0.Next? && LineShows(l0, nested, vocab) && OperatorShows(op, nested)
    ensures TextOfLine(l0, nested, vocab) + (TextOfOperator(op) + r0) ==
      TextOfLine(l0.front, nested, vocab) + (TextOf(Repeated(l0.item, l0.gap, op), nested, vocab) + r0)
  {
    LineText(l0, nested, vocab, TextOfOperator(op) + r0);
    RepeatedText(l0.item, l0.gap, op, nested, vocab, r0);
  }

  /** A group. */
  lemma {:induction false} GroupWritten(s: Text, nested: bool, vocab: Vocab) returns (w: Writing, r1: Text)
    requires 0 !in s && Is(s, 0, '(') && ReadGroup(s, nested, vocab).Read?
    ensures w.Paren? && Shows(w, nested, vocab) && s == TextOf(w, nested, vocab) + r1 && 0 !in r1
    ensures TreeOf(w, nested, vocab) == Group(ReadGroup(s, nested, vocab).value)
    ensures SkipSpace(r1, nested) == ReadGroup(s, nested, vocab).rest
    decreases |s|, 0
  {
    var s1 := SkipSpace(s[1..], true);
    var r := ReadAlternates(s1, true, vocab);
    FrontAndRest(s);
    assert r.rest != [];
    var g := GapWritten(s[1..], true);
    var choices, c := AlternatesWritten(s1, true, vocab);
    r1 := r.rest[1..];
    w := Paren(g, choices);
    FrontAndRest(r.rest);
    assert c == [] && [] + r.rest == r.rest;
    GroupText(g, choices, nested, vocab, r1);
  }

  // ---------------------------------------------------------------------------------------
  // Choices
  // ---------------------------------------------------------------------------------------

  /** What is read is what the choices mean; a comment follows them, or no end of a line behind an empty choice. */
  ghost predicate ChoicesGrow(s: Text, nested: bool, vocab: Vocab, r: Reading<Alternates>, ch: Choices, c: Text) {
    && ChoicesShow(ch, nested, vocab) && r.Read? && r.value == TreeOfChoices(ch, nested, vocab) && 0 !in r.rest
    && s == TextOfChoices(ch, nested, vocab) + (c + r.rest)
    && IsRemark(c) && (c != [] ==> IsOver(r.rest, nested))
    && (ch.line.Empty? ==> IsInk(r.rest, true))
  }

  lemma {:induction false} AlternatesWritten(s: Text, nested: bool, vocab: Vocab) returns (ch: Choices, c: Text)
    requires 0 !in s && IsInk(s, true) && ReadAlternates(s, nested, vocab).Read?
    ensures ChoicesGrow(s, nested, vocab, ReadAlternates(s, nested, vocab), ch, c)
    decreases |s|, 4
  {
    var l, c0 := SequenceWritten(s, nested, vocab, Empty);
    var rest := ReadSequence(s, nested, vocab, Nothing).rest;
    assert [] + s == s;
    ch, c := MoreWritten(s, rest, nested, vocab, Sole(l), c0);
  }

  /** The choices `ch0`, perhaps with a comment, are written in front of `s1`. */
  ghost predicate ChoicesDone(s: Text, s1: Text, nested: bool, vocab: Vocab, ch0: Choices, c0: Text) {
    && ChoicesShow(ch0, nested, vocab) && AlternatesFit(TreeOfChoices(ch0, nested, vocab)) && 0 !in s1
    && s == TextOfChoices(ch0, nested, vocab) + (c0 + s1) && IsRemark(c0) && (c0 != [] ==> IsOver(s1, nested))
    && (ch0.line.Empty? ==> IsInk(s1, true))
  }

  lemma BarAhead(s1: Text, nested: bool, vocab: Vocab, acc: Alternates)
    requires AlternatesFit(acc) && Is(s1, 0, '|') && ReadMore(s1, nested, vocab, acc).Read?
    ensures var r := ReadSequence(SkipSpace(s1[1..], true), nested, vocab, Nothing);
      && r.Read? && |r.rest| < |s1| && ReadMore(s1, nested, vocab, acc) ==
          ReadMore(r.rest, nested, vocab, Or(acc, r.value))
  {
  }

  /** Behind the choices `ch0` more of them are read, or none. */
  lemma {:induction false} MoreWritten(s: Text, s1: Text, nested: bool, vocab: Vocab, ch0: Choices, c0: Text)
    returns (ch: Choices, c: Text)
    requires ChoicesDone(s, s1, nested, vocab, ch0, c0)
    requires ReadMore(s1, nested, vocab, TreeOfChoices(ch0, nested, vocab)).Read?
    ensures ChoicesGrow(s, nested, vocab, ReadMore(s1, nested, vocab, TreeOfChoices(ch0, nested, vocab)), ch, c)
    decreases |s1|, 3
  {
    if !Is(s1, 0, '|') {
      ch, c := ch0, c0;
    } else {
      FrontAndRest(s1);
      BarAhead(s1, nested, vocab, TreeOfChoices(ch0, nested, vocab));
      var s2 := SkipSpace(s1[1..], true);
      var rest := ReadSequence(s2, nested, vocab, Nothing).rest;
      var g, c1 := SpaceWritten(s1[1..], true);
      var l, c2 := SequenceWritten(s2, nested, vocab, Empty);
      BarDone(s, ch0, c0, g, c1, ReadSequence(s2, nested, vocab, Nothing), l, c2, nested, vocab, s1, s2);
      ch, c := MoreWritten(s, rest, nested, vocab, Bar(ch0, g, l), c1 + c2);
    }
  }

  lemma BarShows(ch0: Choices, g: Text, l: Line, nested: bool, vocab: Vocab)
    requires ChoicesShow(ch0, nested, vocab) && AlternatesFit(TreeOfChoices(ch0, nested, vocab))
    requires IsGap(g, true) && LineShows(l, nested, vocab)
    ensures ChoicesShow(Bar(ch0, g, l), nested, vocab) && AlternatesFit(TreeOfChoices(Bar(ch0, g, l), nested, vocab))
    ensures TreeOfChoices(Bar(ch0, g, l), nested, vocab) ==
      Or(TreeOfChoices(ch0, nested, vocab), TreeOfLine(l, nested, vocab))
  {
    LineTreeFits(l, nested, vocab);
  }

  lemma EmptyFront(s: Text)
    ensures [] + s == s
  {
  }

  lemma BarDone(s: Text, ch0: Choices, c0: Text, g: Text, c1: Text, r: Reading<Sequence>, l: Line, c2: Text,
                nested: bool, vocab: Vocab, s1: Text, s2: Text)
    requires ChoicesDone(s, s1, nested, vocab, ch0, c0) && Is(s1, 0, '|') && s1 == [124] + s1[1..]
    requires s2 == SkipSpace(s1[1..], true) && Skipped(s1[1..], true, g, c1)
    requires LineGrows(Empty, s2, nested, vocab, r, l, c2)
    ensures ChoicesDone(s, r.rest, nested, vocab, Bar(ch0, g, l), c1 + c2)
    ensures TreeOfChoices(Bar(ch0, g, l), nested, vocab) ==
      Or(TreeOfChoices(ch0, nested, vocab), TreeOfLine(l, nested, vocab))
  {
    BarShows(ch0, g, l, nested, vocab);
    EmptyFront(s1);
    EmptyFront(s2);
    BarWritten(ch0, g, c1, l, c2, nested, vocab, s1, s2, r.rest);
  }

  /** A bar and the line behind it. At the end of the text, the line is empty and a comment may be left. */
  lemma BarWritten(ch0: Choices, g: Text, c1: Text, l: Line, c2: Text, nested: bool, vocab: Vocab, s1: Text, s2: Text,
                   rest: Text)
    requires ChoicesShow(ch0, nested, vocab) && IsGap(g, true) && IsRemark(c1) && LineShows(l, nested, vocab)
    requires s1 == [124] + (g + (c1 + s2)) && 0 !in s2 && (c1 != [] ==> IsOver(s2, true)) && IsRemark(c2)
    requires s2 == TextOfLine(l, nested, vocab) + (c2 + rest) && (c2 != [] ==> IsOver(rest, nested))
    ensures IsRemark(c1 + c2) && (c1 + c2 != [] ==> IsOver(rest, nested))
    ensures TextOfChoices(ch0, nested, vocab) + s1 == TextOfChoices(Bar(ch0, g, l), nested, vocab) + ((c1 + c2) + rest)
  {
    RemarksJoin(c1, s2, TextOfLine(l, nested, vocab), c2, rest);
    BarText(Bar(ch0, g, l), nested, vocab, (c1 + c2) + rest);
  }

  /** A comment in front of a text `t` is one at the end, where nothing else follows. */
  lemma RemarksJoin(c1: Text, s2: Text, t: Text, c2: Text, rest: Text)
    requires IsRemark(c1) && IsRemark(c2) && 0 !in s2 && s2 == t + (c2 + rest) && (c1 != [] ==> IsOver(s2, true))
    ensures IsRemark(c1 + c2) && c1 + s2 == t + ((c1 + c2) + rest)
    ensures c1 != [] ==> rest == [] && c2 == []
  {
    if c1 == [] {
      assert [] + s2 == s2 && [] + c2 == c2;
    } else {
      assert s2 == [] && t == [] && c2 == [] && rest == [];
      assert c1 + [] == c1 && t + (c1 + []) == c1;
    }
  }

  // ---------------------------------------------------------------------------------------
  // Rules
  // ---------------------------------------------------------------------------------------

  lemma EndOfLine(s: Text) returns (end: Text)
    requires 0 !in s && ReadLineEnd(s).Read?
    ensures var s1 := ReadLineEnd(s).rest;
      && s == end + s1 && 0 !in s1 && (end == [] ==> s == [])
      && (end == [10] || end == [13, 10] || (end == [13] && At(s1, 0) != 10) || end == [])
  {
    var s1 := ReadLineEnd(s).rest;
    if s == [] {
      end := [];
      assert [] + s == s;
    } else {
      assert s[0] in s;
      FrontAndRest(s);
      end := if s[0] == 10 then [10] else if Is(s, 1, '\n') then [13, 10] else [13];
      assert s == end + s1;
      NoNulBehind(end, s1);
    }
  }

  /** The end of a line, the blank lines behind it, and a comment at the end of the text. */
  lemma LineEndWritten(s: Text) returns (end: Text, blank: Text, last: Text)
    requires 0 !in s && ReadLineEnd(s).Read?
    ensures var rest := SkipSpace(ReadLineEnd(s).rest, true);
      && EndShows(end, blank) && IsRemark(last) && s == end + (blank + (last + rest)) && 0 !in rest
      && (last != [] ==> rest == [] && end != []) && (end == [] ==> s == [] && rest == [])
  {
    var s1 := ReadLineEnd(s).rest;
    var rest := SkipSpace(s1, true);
    end := EndOfLine(s);
    blank, last := SpaceWritten(s1, true);
    if rest != [] {
      FrontAndRest(rest);
    }
    if blank != [] {
      assert (blank + (last + rest))[0] == blank[0];
    }
  }

  /** The parts of a rule that is read. */
  lemma RuleParts(s: Text, vocab: Vocab) returns (n: nat, s1: Text, s2: Text, s3: Text)
    requires ReadRule(s, vocab).Read?
    ensures 0 < n <= |s| && NameLength(s) == n && s1 == SkipSpace(s[n..], false) && |s1| >= 3
    ensures s1[0] == 58 && s1[1] == 58 && s1[2] == 61 && s2 == SkipSpace(s1[3..], true)
    ensures var r := ReadAlternates(s2, false, vocab);
      && r.Read? && s3 == r.rest && ReadLineEnd(s3).Read?
      && ReadRule(s, vocab) == Read(Definition(s[..n], r.value), SkipSpace(ReadLineEnd(s3).rest, true))
  {
    n := NameLength(s);
    s1 := SkipSpace(s[n..], false);
    s2 := SkipSpace(s1[3..], true);
    s3 := ReadAlternates(s2, false, vocab).rest;
  }

  lemma ThreeAndRest(s: Text)
    requires |s| >= 3 && s[0] == 58 && s[1] == 58 && s[2] == 61
    ensures s == [58, 58, 61] + s[3..] && (0 !in s ==> 0 !in s[3..])
  {
  }

  /** A rule that is read; only the last one has an empty choice at its end, or no end of its line. */
  lemma RuleWritten(s: Text, vocab: Vocab) returns (d: Statement, last: Text)
    requires 0 !in s && ReadRule(s, vocab).Read?
    ensures var rest := ReadRule(s, vocab).rest;
      && StatementShows(d, vocab) && TreeOfStatement(d, vocab) == ReadRule(s, vocab).value
      && s == TextOfStatement(d, vocab) + (last + rest) && IsRemark(last) && 0 !in rest && IsInk(rest, true)
      && (last != [] ==> rest == [] && d.end != []) && (d.end == [] || d.choices.line.Empty? ==> rest == [])
  {
    var n, s1, s2, s3 := RuleParts(s, vocab);
    var before := NameWritten(s, n, s1);
    var after, choices, remark := BodyWritten(s1[3..], vocab);
    var end, blank, t := LineEndWritten(s3);
    last := t;
    d := Statement(s[..n], before, after, choices, remark, end, blank);
    EmptyIsLast(choices, s3);
    Assembled(d, last + ReadRule(s, vocab).rest, vocab, s, s1, s3);
  }

  /** The name of a rule and the blanks behind it. */
  lemma NameWritten(s: Text, n: nat, s1: Text) returns (before: Text)
    requires 0 !in s && 0 < n <= |s| && NameLength(s) == n && s1 == SkipSpace(s[n..], false) && |s1| >= 3
    requires s1[0] == 58 && s1[1] == 58 && s1[2] == 61
    ensures NameShows(s[..n]) && IsGap(before, false) && s == s[..n] + (before + s1)
    ensures s1 == [58, 58, 61] + s1[3..] && 0 !in s1[3..]
  {
    assert s == s[..n] + s[n..];
    before := GapWritten(s[n..], false);
    ThreeAndRest(s1);
  }

  /** What stands behind the sign of a rule, up to the end of the line. */
  lemma BodyWritten(s: Text, vocab: Vocab) returns (after: Text, choices: Choices, remark: Text)
    requires 0 !in s && ReadAlternates(SkipSpace(s, true), false, vocab).Read?
    ensures var r := ReadAlternates(SkipSpace(s, true), false, vocab);
      && IsGap(after, true) && ChoicesShow(choices, false, vocab) && IsRemark(remark) && 0 !in r.rest
      && TreeOfChoices(choices, false, vocab) == r.value && (choices.line.Empty? ==> IsInk(r.rest, true))
      && s == after + (TextOfChoices(choices, false, vocab) + (remark + r.rest))
  {
    var s2 := SkipSpace(s, true);
    var c1, c2;
    after, c1 := SpaceWritten(s, true);
    choices, c2 := AlternatesWritten(s2, false, vocab);
    RemarksJoin(c1, s2, TextOfChoices(choices, false, vocab), c2, ReadAlternates(s2, false, vocab).rest);
    remark := c1 + c2;
  }

  lemma Assembled(d: Statement, tail: Text, vocab: Vocab, s: Text, s1: Text, s3: Text)
    requires StatementShows(d, vocab) && s == d.name + (d.before + s1) && |s1| >= 3 && s1 == [58, 58, 61] + s1[3..]
    requires s1[3..] == d.after + (TextOfChoices(d.choices, false, vocab) + (d.remark + s3))
    requires s3 == d.end + (d.blank + tail)
    ensures s == TextOfStatement(d, vocab) + tail
  {
    Regroup(d.remark, d.end + d.blank, tail);
    Regroup(d.end, d.blank, tail);
    StatementText(d, vocab, tail);
  }

  /** Behind an empty choice the line does not end, so the text does. */
  lemma EmptyIsLast(choices: Choices, s3: Text)
    requires choices.line.Empty? ==> IsInk(s3, true)
    requires ReadLineEnd(s3).Read? && 0 !in s3
    ensures choices.line.Empty? ==> s3 == []
  {
    if s3 != [] {
      FrontAndRest(s3);
    }
  }

  // ---------------------------------------------------------------------------------------
  // Grammars
  // ---------------------------------------------------------------------------------------

  lemma ShowMore(d: Statement, more: seq<Statement>, last: Text, vocab: Vocab)
    requires StatementShows(d, vocab) && AllShow(more, vocab) && LinesEnd(more) && LastShows(more, last)
    requires (d.end == [] ==> more == []) && (d.choices.line.Empty? ==> more == [])
    requires more == [] && last != [] ==> d.end != []
    ensures AllShow([d] + more, vocab) && LinesEnd([d] + more) && LastShows([d] + more, last)
  {
    var ds := [d] + more;
    forall i | 0 <= i < |ds|
      ensures StatementShows(ds[i], vocab) && (i < |ds| - 1 ==> ds[i].end != [] && ds[i].choices.line.Next?)
    {
      assert i > 0 ==> ds[i] == more[i - 1];
    }
  }

  /** The first rule, and the others. */
  lemma StatementsMore(ds: seq<Statement>, last: Text, vocab: Vocab)
    requires ds != [] && AllShow(ds, vocab)
    ensures TextOfGrammar(ds, vocab) + last ==
      TextOfStatement(ds[0], vocab) + (TextOfGrammar(ds[1..], vocab) + last)
    ensures TreesOf(ds, vocab) == [TreeOfStatement(ds[0], vocab)] + TreesOf(ds[1..], vocab)
  {
    Regroup(TextOfStatement(ds[0], vocab), TextOfGrammar(ds[1..], vocab), last);
    TreesFit(ds, vocab);
    TreesMore(ds, vocab);
  }

  /** The rules `ds` are written here, and read behind those of `acc`. */
  ghost predicate RulesGrow(s: Text, vocab: Vocab, acc: seq<Definition>, ds: seq<Statement>, last: Text)
    requires DefinitionsFit(acc)
  {
    && AllShow(ds, vocab) && LinesEnd(ds) && LastShows(ds, last) && s == TextOfGrammar(ds, vocab) + last
    && (s == [] ==> ds == [] && last == []) && (s != [] ==> ds != [])
    && ReadRules(s, vocab, acc) == Read(acc + TreesOf(ds, vocab), [])
  }

  lemma RuleAhead(s: Text, vocab: Vocab, acc: seq<Definition>)
    requires DefinitionsFit(acc) && At(s, 0) != 0 && ReadRules(s, vocab, acc).Read?
    ensures var r := ReadRule(s, vocab);
      && r.Read? && DefinitionsFit(acc + [r.value])
      && ReadRules(s, vocab, acc) == ReadRules(r.rest, vocab, acc + [r.value])
  {
  }

  lemma {:induction false} RulesWritten(s: Text, vocab: Vocab, acc: seq<Definition>)
    returns (ds: seq<Statement>, last: Text)
    requires 0 !in s && IsInk(s, true) && DefinitionsFit(acc) && ReadRules(s, vocab, acc).Read?
    ensures RulesGrow(s, vocab, acc, ds, last)
    decreases |s|
  {
    if s == [] {
      ds, last := [], [];
      assert acc + [] == acc;
    } else {
      FrontAndRest(s);
      RuleAhead(s, vocab, acc);
      var d, t := RuleWritten(s, vocab);
      var rest, tree := ReadRule(s, vocab).rest, TreeOfStatement(d, vocab);
      var more, end := RulesWritten(rest, vocab, acc + [tree]);
      ds, last := [d] + more, t + end;
      LastJoins(t, rest, TextOfGrammar(more, vocab), end);
      RuleAndMore(d, more, last, vocab, acc, s, t + rest);
    }
  }

  lemma LastJoins(t: Text, rest: Text, grammar: Text, end: Text)
    requires rest == grammar + end && (t != [] ==> rest == [])
    ensures t + rest == grammar + (t + end) && (t == [] ==> t + end == end) && (t != [] ==> t + end == t)
  {
  }

  lemma RuleAndMore(d: Statement, more: seq<Statement>, last: Text, vocab: Vocab, acc: seq<Definition>, s: Text,
                    rest: Text)
    requires DefinitionsFit(acc) && s != [] && StatementShows(d, vocab) && s == TextOfStatement(d, vocab) + rest
    requires AllShow(more, vocab) && LinesEnd(more) && LastShows(more, last) &&
      rest == TextOfGrammar(more, vocab) + last
    requires (d.end == [] ==> more == []) && (d.choices.line.Empty? ==> more == [])
    requires more == [] && last != [] ==> d.end != []
    requires ReadRules(s, vocab, acc) == Read(acc + [TreeOfStatement(d, vocab)] + TreesOf(more, vocab), [])
    ensures RulesGrow(s, vocab, acc, [d] + more, last)
  {
    var ds := [d] + more;
    assert ds[1..] == more;
    ShowMore(d, more, last, vocab);
    StatementsMore(ds, last, vocab);
    Regroup(acc, [TreeOfStatement(d, vocab)], TreesOf(more, vocab));
  }

  /** The text is written as these rules. */
  predicate Writes(s: Text, lead: Text, ds: seq<Statement>, last: Text, vocab: Vocab) {
    && IsGap(lead, true) && AllShow(ds, vocab) && LinesEnd(ds) && LastShows(ds, last)
    && s == lead + (TextOfGrammar(ds, vocab) + last)
  }

  /** A text that is read has been written, and what is read is what is meant. */
  lemma GrammarWritten(s: Text, vocab: Vocab) returns (lead: Text, ds: seq<Statement>, last: Text)
    requires 0 !in s && ReadGrammar(s, vocab).Read?
    ensures Writes(s, lead, ds, last, vocab) && ReadGrammar(s, vocab) == Read(TreesOf(ds, vocab), [])
  {
    var c;
    var s1 := SkipSpace(s, true);
    lead, c := SpaceWritten(s, true);
    ds, last := RulesWritten(s1, vocab, []);
    assert [] + TreesOf(ds, vocab) == TreesOf(ds, vocab);
    if c != [] {
      assert s1 == [];
      last := c;
      assert c + [] == c && [] + c == c;
    } else {
      assert [] + s1 == s1;
    }
  }

  ghost predicate IsWritten(s: Text, vocab: Vocab) {
    exists lead, ds, last :: Writes(s, lead, ds, last, vocab)
  }

  /**
    A text is read if and only if it is written in the notation; everything else is refused. However it can be
    taken to be written, what is read is what is meant.
    */
  lemma ReadIffWritten(s: Text, vocab: Vocab)
    requires 0 !in s
    ensures ReadGrammar(s, vocab).Read? <==> IsWritten(s, vocab)
    ensures forall lead, ds, last :: Writes(s, lead, ds, last, vocab) ==>
      ReadGrammar(s, vocab) == Read(TreesOf(ds, vocab), [])
  {
    if ReadGrammar(s, vocab).Read? {
      var lead, ds, last := GrammarWritten(s, vocab);
    }
    forall lead, ds, last | Writes(s, lead, ds, last, vocab)
      ensures ReadGrammar(s, vocab) == Read(TreesOf(ds, vocab), [])
    {
      GrammarRoundTrip(lead, ds, last, vocab);
    }
  }
}
