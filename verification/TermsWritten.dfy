/**
  Whatever is read has been written in the notation: blanks and comments, characters, literals, classes, tokens
  and operators. A text is a C string and so has no NUL in it.
  */
module TermsWritten {
  import opened GrammarElements
  import opened Repetition
  import opened Utf8
  import opened GrammarSyntax
  import opened Notation
  import opened NotationTerms

  // ---------------------------------------------------------------------------------------
  // Blanks and comments
  // ---------------------------------------------------------------------------------------

  /** Here the text, or the line in which ends of lines count, is over. */
  predicate IsOver(rest: Text, newlineOk: bool) {
    At(rest, 0) == 0 || (!newlineOk && (At(rest, 0) == 10 || At(rest, 0) == 13))
  }

  lemma {:induction false} LineWritten(s: Text) returns (body: Text)
    requires 0 !in s
    ensures s == body + SkipLine(s) && forall i :: 0 <= i < |body| ==> body[i] != 0 && body[i] != 10 && body[i] != 13
    ensures At(SkipLine(s), 0) == 0 || At(SkipLine(s), 0) == 10 || At(SkipLine(s), 0) == 13
    decreases |s|
  {
    if s == [] || s[0] == 10 || s[0] == 13 {
      body := [];
      assert [] + s == s;
    } else {
      var more := LineWritten(s[1..]);
      body := [s[0]] + more;
      Regroup([s[0]], more, SkipLine(s));
    }
  }

  lemma {:induction false} CommentIsGap(body: Text, g: Text)
    requires forall i :: 0 <= i < |body| ==> body[i] != 0 && body[i] != 10 && body[i] != 13
    requires IsGap(g, true) && g != [] && (g[0] == 10 || g[0] == 13)
    ensures InComment(body + g)
    decreases |body|
  {
    if body == [] {
      assert body + g == g;
    } else {
      assert (body + g)[0] == body[0] && (body + g)[1..] == body[1..] + g;
      CommentIsGap(body[1..], g);
    }
  }

  /** The gap `g` and the comment `c` are skipped at the front of `s`. */
  predicate Skipped(s: Text, newlineOk: bool, g: Text, c: Text) {
    var rest := SkipSpace(s, newlineOk);
    && s == g + (c + rest) && IsGap(g, newlineOk) && IsRemark(c)
    && (c != [] ==> IsOver(rest, newlineOk)) && 0 !in rest
    && (s != [] && IsBlank(s[0], newlineOk) && s[0] != 35 ==> g != [] && g[0] == s[0])
  }

  /** A comment up to the end of the text, or of a line whose end counts. */
  lemma OpenComment(s: Text, newlineOk: bool, body: Text)
    requires s != [] && s[0] == 35 && s[1..] == body + SkipLine(s[1..]) && IsOver(SkipLine(s[1..]), newlineOk)
    requires forall i :: 0 <= i < |body| ==> body[i] != 0 && body[i] != 10 && body[i] != 13
    requires 0 !in s
    ensures Skipped(s, newlineOk, [], [35] + body)
  {
    var line := SkipLine(s[1..]);
    assert s == [35] + s[1..];
    Regroup([35], body, line);
    Behind([35] + body, line);
    assert [] + s == s && line == s[1 + |body|..];
    InkStays(line, newlineOk);
  }

  lemma ClosedComment(s: Text, body: Text, more: Text, c: Text)
    requires s != [] && s[0] == 35 && s[1..] == body + SkipLine(s[1..])
    requires forall i :: 0 <= i < |body| ==> body[i] != 0 && body[i] != 10 && body[i] != 13
    requires var line := SkipLine(s[1..]);
      line != [] && (line[0] == 10 || line[0] == 13) && Skipped(line, true, more, c)
    ensures Skipped(s, true, [35] + (body + more), c)
  {
    var rest := SkipSpace(s, true);
    var g := [35] + (body + more);
    CommentIsGap(body, more);
    assert g[1..] == body + more;
    assert s == [35] + s[1..];
    Regroup(body, more, c + rest);
    Regroup([35], body + more, c + rest);
  }

  lemma BlankSkipped(s: Text, newlineOk: bool, more: Text, c: Text)
    requires s != [] && IsBlank(s[0], newlineOk) && s[0] != 35 && Skipped(s[1..], newlineOk, more, c)
    ensures Skipped(s, newlineOk, [s[0]] + more, c)
  {
    var g := [s[0]] + more;
    assert g[1..] == more;
    assert s == [s[0]] + s[1..];
    Regroup([s[0]], more, c + SkipSpace(s, newlineOk));
  }

  /** What is skipped is a gap, and a comment where the line or the text is over. */
  lemma {:induction false} SpaceWritten(s: Text, newlineOk: bool) returns (g: Text, c: Text)
    requires 0 !in s
    ensures Skipped(s, newlineOk, g, c)
    decreases |s|
  {
    if !IsBlank(At(s, 0), newlineOk) {
      g, c := [], [];
      assert [] + ([] + s) == s;
    } else if s[0] == 35 {
      var body := LineWritten(s[1..]);
      var line := SkipLine(s[1..]);
      assert forall i :: 0 <= i < |line| ==> line[i] == s[1..][|body| + i];
      if !newlineOk || line == [] {
        g, c := [], [35] + body;
        OpenComment(s, newlineOk, body);
      } else {
        var more;
        more, c := SpaceWritten(line, newlineOk);
        g := [35] + (body + more);
        ClosedComment(s, body, more, c);
      }
    } else {
      var more;
      more, c := SpaceWritten(s[1..], newlineOk);
      g := [s[0]] + more;
      BlankSkipped(s, newlineOk, more, c);
    }
  }

  /** Where something follows that is part of the same line, it is a gap. */
  lemma GapWritten(s: Text, newlineOk: bool) returns (g: Text)
    requires 0 !in s && SkipSpace(s, newlineOk) != []
    requires !newlineOk ==> At(SkipSpace(s, newlineOk), 0) != 10 && At(SkipSpace(s, newlineOk), 0) != 13
    ensures s == g + SkipSpace(s, newlineOk) && IsGap(g, newlineOk) && 0 !in SkipSpace(s, newlineOk)
  {
    var c;
    g, c := SpaceWritten(s, newlineOk);
    assert SkipSpace(s, newlineOk)[0] in SkipSpace(s, newlineOk);
    assert [] + SkipSpace(s, newlineOk) == SkipSpace(s, newlineOk);
  }

  // ---------------------------------------------------------------------------------------
  // Characters
  // ---------------------------------------------------------------------------------------

  lemma {:induction false} HexWritten(h: Text) returns (upper: seq<bool>)
    requires HexAhead(h, |h|)
    ensures |upper| == |h| && 0 <= HexValue(h) < Power16(|h|) && HexText(HexValue(h), upper) == h
    decreases |h|
  {
    if h == [] {
      upper := [];
    } else {
      var n := |h| - 1;
      var front := HexWritten(h[..n]);
      var d := HexDigit(h[n]);
      upper := front + [65 <= h[n] <= 70];
      assert upper[..n] == front && upper[n] == (65 <= h[n] <= 70);
      assert HexValue(h) / 16 == HexValue(h[..n]) && HexValue(h) % 16 == d;
      assert HexByte(d, upper[n]) == h[n];
      assert h == h[..n] + [h[n]];
    }
  }

  /** The digits of an escape. */
  lemma DigitsOfEscape(s: Text, size: nat) returns (upper: seq<bool>)
    requires (size == 2 || size == 4 || size == 8) && ReadHex(s, size).Read?
    ensures |upper| == size && ReadHex(s, size).value < Power16(size)
    ensures s == HexText(ReadHex(s, size).value, upper) + ReadHex(s, size).rest
  {
    upper := HexWritten(s[..size]);
    HexTaken(s, size);
  }

  /** The digits are taken as they are: 32 bits hold them. */
  lemma HexTaken(s: Text, size: nat)
    requires (size == 2 || size == 4 || size == 8) && ReadHex(s, size).Read?
    requires 0 <= HexValue(s[..size]) < Power16(size)
    ensures ReadHex(s, size).value == HexValue(s[..size]) && s == s[..size] + ReadHex(s, size).rest
  {
    PowersOf16(size);
  }

  lemma HexEscape(s: Text, size: nat, inClass: bool) returns (l: Letter)
    requires |s| >= 2 && s[0] == 92 && s[1] == HexMark(size) && (size == 2 || size == 4 || size == 8)
    requires ReadHex(s[2..], size).Read?
    ensures LetterShows(l, inClass) && l.code == ReadHex(s[2..], size).value
    ensures s == TextOfLetter(l, inClass) + ReadHex(s[2..], size).rest
  {
    var upper := DigitsOfEscape(s[2..], size);
    l := Letter(ReadHex(s[2..], size).value, Hex(upper));
    assert s == [92, HexMark(size)] + s[2..];
    Regroup([92, HexMark(size)], HexText(l.code, upper), ReadHex(s[2..], size).rest);
  }

  lemma EscapeWritten(s: Text, inClass: bool) returns (l: Letter)
    requires s != [] && s[0] == 92 && ReadChar(s).Read?
    ensures LetterShows(l, inClass) && l.code == ReadChar(s).value
    ensures s == TextOfLetter(l, inClass) + ReadChar(s).rest
  {
    if Is(s, 1, 'x') {
      l := HexEscape(s, 2, inClass);
    } else if Is(s, 1, 'u') {
      l := HexEscape(s, 4, inClass);
    } else if Is(s, 1, 'U') {
      l := HexEscape(s, 8, inClass);
    } else {
      l := Letter(ReadChar(s).value, Short);
      assert s == [92, s[1]] + s[2..];
    }
  }

  lemma {:induction false} CollectWritten(src: Text, value: nat, n: nat)
    requires 0 !in src && Collect(src, value, n).rest != []
    ensures n <= |src| && Collect(src, value, n).rest == src[n..]
    decreases n
  {
    if n > 0 {
      CollectWritten(src[1..], ShiftIn(value, src[0]), n - 1);
      assert src[1..][n - 1..] == src[n..];
    }
  }

  lemma LooseWritten(s: Text) returns (bytes: Text)
    requires 0 !in s && s != [] && s[0] != 92 && ReadChar(s).Read? && ReadChar(s).rest != []
    ensures IsLoose(bytes) && bytes[0] == s[0] && s == bytes + ReadChar(s).rest && ReadChar(s).value == LooseCode(bytes)
  {
    assert s[0] in s;
    var more := if LengthOf(s[0]) == 0 then 0 else LengthOf(s[0]) - 1;
    CollectWritten(s[1..], LeadValue(s[0], more), more);
    bytes := s[..more + 1];
    assert s[1..][more..] == s[more + 1..] && bytes[1..] == s[1..][..more];
    assert s[1..] == bytes[1..] + s[more + 1..];
    CollectTakes(bytes[1..], LeadValue(s[0], more), more, s[more + 1..]);
  }

  /** A character that is read, and behind which something follows, is written somehow. */
  lemma CharWritten(s: Text, inClass: bool) returns (l: Letter)
    requires 0 !in s && s != [] && s[0] != Closing(inClass) && ReadChar(s).Read? && ReadChar(s).rest != []
    ensures LetterShows(l, inClass) && l.code == ReadChar(s).value
    ensures s == TextOfLetter(l, inClass) + ReadChar(s).rest && 0 !in ReadChar(s).rest
  {
    if s[0] == 92 {
      l := EscapeWritten(s, inClass);
    } else {
      var bytes := LooseWritten(s);
      l := Letter(LooseCode(bytes), Loose(bytes));
    }
    assert forall i :: 0 <= i < |ReadChar(s).rest| ==>
      ReadChar(s).rest[i] == s[|TextOfLetter(l, inClass)| + i];
  }

  // ---------------------------------------------------------------------------------------
  // Literals and classes
  // ---------------------------------------------------------------------------------------

  lemma {:induction false} LettersWritten(s: Text, els: seq<Element>) returns (letters: seq<Letter>)
    requires 0 !in s && AllChars(els) && ReadLiteral(s, els).Read?
    ensures var r := ReadLiteral(s, els);
      LettersShow(letters) && r.value == els + TreeOfLetters(letters) &&
        s == TextOfLetters(letters) + ([34] + r.rest)
    decreases |s|
  {
    var r := ReadLiteral(s, els);
    if Is(s, 0, '"') {
      letters := [];
      assert s == [34] + s[1..] && [] + s == s && els + TreeOfLetters([]) == els;
    } else {
      var l := CharWritten(s, false);
      var rest := ReadChar(s).rest;
      var e := [Element(CHAR, l.code)];
      var more := LettersWritten(rest, els + e);
      letters := [l] + more;
      assert letters[1..] == more;
      LettersMore(letters);
      Regroup(els, e, TreeOfLetters(more));
      Regroup(TextOfLetter(l, false), TextOfLetters(more), [34] + r.rest);
    }
  }

  /** One part of a class; behind a single character there is no range. */
  lemma RangeWritten(s: Text, start: GreType, els: seq<Element>) returns (r: Range)
    requires 0 !in s && s != [] && s[0] != 93 && IsClass(els, start)
    requires ReadClassItem(s, start, els).Read? && ReadClassItem(s, start, els).rest != []
    ensures RangeShows(r) && s == TextOfRange(r) + ReadClassItem(s, start, els).rest
    ensures ReadClassItem(s, start, els).value == els + TreeOfRange(if els == [] then start else CHAR_ALT, r)
    ensures r.Only? ==> !RangeAhead(ReadClassItem(s, start, els).rest)
    ensures 0 !in ReadClassItem(s, start, els).rest
  {
    var rest := ReadChar(s).rest;
    assert rest != [];
    var lo := CharWritten(s, true);
    var e := ClassElement(els, start, lo.code);
    ClassPush(els, start, e);
    if RangeAhead(rest) {
      assert rest[0] == 45 && rest == [45] + rest[1..];
      var tail := ReadChar(rest[1..]).rest;
      var hi := CharWritten(rest[1..], true);
      r := Span(lo, hi);
      assert els + [e] + [Element(CHAR_RNG_UPPER, hi.code)] == els + TreeOfRange(e.kind, r);
      Regroup([45], TextOfLetter(hi, true), tail);
      Regroup(TextOfLetter(lo, true), [45] + TextOfLetter(hi, true), tail);
    } else {
      r := Only(lo);
      assert els + [e] == els + TreeOfRange(e.kind, r);
    }
  }

  lemma ClassRest(s: Text, start: GreType, els: seq<Element>)
    requires IsClass(els, start) && ReadClass(s, start, els).Read? && !Is(s, 0, ']')
    ensures var item := ReadClassItem(s, start, els);
      && item.Read? && item.rest != [] && s != []
      && ReadClass(s, start, els) == ReadClass(item.rest, start, item.value)
  {
  }

  lemma {:induction false} RangesWritten(s: Text, start: GreType, els: seq<Element>, single: bool)
    returns (ranges: seq<Range>)
    requires 0 !in s && IsClass(els, start) && ReadClass(s, start, els).Read? && (single ==> !RangeAhead(s))
    ensures var r := ReadClass(s, start, els);
      RangesShow(ranges, single) && r.value == els + TreeOfRanges(if els == [] then start else CHAR_ALT, ranges) &&
        s == TextOfRanges(ranges, single) + ([93] + r.rest)
    decreases |s|
  {
    var kind := if els == [] then start else CHAR_ALT;
    var end := [93] + ReadClass(s, start, els).rest;
    if Is(s, 0, ']') {
      ranges := [];
      assert s == end && [] + s == s && els + TreeOfRanges(kind, []) == els;
    } else {
      ClassRest(s, start, els);
      var item := ReadClassItem(s, start, els);
      var r := RangeWritten(s, start, els);
      var more := RangesWritten(item.rest, start, item.value, r.Only?);
      ranges := [r] + more;
      assert ranges[1..] == more;
      RangeInk(r);
      assert s[0] == TextOfRange(r)[0];
      if single && StartsWith(r, 45) {
        HyphenLast(s, r, more, end);
      }
      Regroup(els, TreeOfRange(kind, r), TreeOfRanges(CHAR_ALT, more));
      Regroup(TextOfRange(r), TextOfRanges(more, r.Only?), end);
    }
  }

  lemma SecondByte(r: Range, more: seq<Range>, end: Text)
    requires RangeShows(r) && RangesShow(more, r.Only?) && StartsWith(r, 45) && (r.Span? || more != [])
    ensures var s := TextOfRange(r) + (TextOfRanges(more, r.Only?) + end); s[0] == 45 && |s| > 1 && s[1] != 93
  {
    LetterInk(r.lo, true);
    assert TextOfLetter(r.lo, true) == [45];
    if more != [] {
      RangeInk(more[0]);
    }
  }

  /** A hyphen that makes no range, though it stands behind a single character, is the last one. */
  lemma HyphenLast(s: Text, r: Range, more: seq<Range>, end: Text)
    requires RangeShows(r) && RangesShow(more, r.Only?) && StartsWith(r, 45) && !RangeAhead(s)
    requires s == TextOfRange(r) + (TextOfRanges(more, r.Only?) + end)
    ensures more == [] && r.Only?
  {
    if r.Span? || more != [] {
      SecondByte(r, more, end);
    }
  }

  lemma ClassWritten(s: Text, inverse: bool) returns (ranges: seq<Range>)
    requires 0 !in s && ReadClass(s, ClassStart(inverse), []).Read? && (!inverse ==> !Is(s, 0, '^'))
    ensures var r := ReadClass(s, ClassStart(inverse), []);
      ClassShows(inverse, ranges) && r.value == TreeOfRanges(ClassStart(inverse), ranges) &&
        s == TextOfRanges(ranges, false) + ([93] + r.rest)
  {
    ranges := RangesWritten(s, ClassStart(inverse), [], false);
    assert [] + TreeOfRanges(ClassStart(inverse), ranges) == TreeOfRanges(ClassStart(inverse), ranges);
    if ranges != [] {
      RangeInk(ranges[0]);
      assert s[0] == TextOfRange(ranges[0])[0];
    }
  }

  // ---------------------------------------------------------------------------------------
  // Numbers, tokens and operators
  // ---------------------------------------------------------------------------------------

  /** One more digit behind a number. */
  lemma DigitBehind(front: Numeral, digit: nat) returns (n: Numeral)
    requires digit < 10
    ensures TextOfNumeral(n) == TextOfNumeral(front) + [48 + digit] && n.value == front.value * 10 + digit
  {
    var zeros: Text := seq(front.zeros, _ => 48);
    if front.value == 0 {
      n := Numeral(front.zeros + 1, digit);
      assert TextOfNumeral(front) == seq(front.zeros + 1, _ => 48);
    } else {
      n := Numeral(front.zeros, front.value * 10 + digit);
      assert Decimal(n.value) == Decimal(front.value) + [48 + digit];
      Regroup(zeros, Decimal(front.value), [48 + digit]);
    }
  }

  lemma {:induction false} DigitsWritten(d: Text) returns (n: Numeral)
    requires d != [] && forall i :: 0 <= i < |d| ==> IsDigit(d[i])
    ensures TextOfNumeral(n) == d && n.value == ValueOf(d)
    decreases |d|
  {
    var k := |d| - 1;
    var digit: nat := d[k] - 48;
    if k == 0 {
      n := Numeral(0, digit);
      assert d[..0] == [] && d == [48 + digit];
    } else {
      var front := DigitsWritten(d[..k]);
      n := DigitBehind(front, digit);
      assert d == d[..k] + [48 + digit];
    }
  }

  lemma IntWritten(s: Text) returns (n: Numeral)
    requires 0 !in s && ReadInt(s).Read?
    ensures n.value == ReadInt(s).value < 0x1_0000_0000_0000_0000 && s == TextOfNumeral(n) + ReadInt(s).rest
    ensures 0 !in ReadInt(s).rest
  {
    var k := DigitCount(s);
    n := DigitsWritten(s[..k]);
    assert s == s[..k] + s[k..];
  }

  lemma {:induction false} TokenLengthWritten(s: Text)
    requires 0 !in s
    ensures var n := TokenLength(s); 62 !in s[..n] && (At(s, n) == 0 || At(s, n) == 62)
    decreases |s|
  {
    if s != [] && s[0] != 62 {
      assert s[0] in s;
      TokenLengthWritten(s[1..]);
      assert s[..TokenLength(s)] == [s[0]] + s[1..][..TokenLength(s[1..])];
      assert At(s, TokenLength(s)) == At(s[1..], TokenLength(s[1..]));
    }
  }

  lemma TokenIdParts(s: Text, vocab: Vocab)
    requires ReadToken(s, vocab).Read? && Is(s, 1, '[')
    ensures |s| >= 2 && s[0] == 60 && s[1] == 91
    ensures var r := ReadInt(s[2..]);
      && r.Read? && |r.rest| >= 2 && r.rest[0] == 93 && r.rest[1] == 62
      && ReadToken(s, vocab) == Read(r.value % 0x1_0000_0000, r.rest[2..])
  {
  }

  lemma TwoAndRest(s: Text, a: Byte, b: Byte)
    requires |s| >= 2 && s[0] == a && s[1] == b
    ensures s == [a, b] + s[2..]
  {
  }

  lemma TokenIdWritten(s: Text, vocab: Vocab) returns (id: Numeral)
    requires 0 !in s && ReadToken(s, vocab).Read? && Is(s, 1, '[')
    ensures id.value < 0x1_0000_0000_0000_0000 && ReadToken(s, vocab).value == id.value % 0x1_0000_0000
    ensures s == [60, 91] + (TextOfNumeral(id) + [93, 62]) + ReadToken(s, vocab).rest
  {
    TokenIdParts(s, vocab);
    var tail := ReadInt(s[2..]).rest;
    var rest := tail[2..];
    id := IntWritten(s[2..]);
    TwoAndRest(s, 60, 91);
    TwoAndRest(tail, 93, 62);
    Regroup(TextOfNumeral(id), [93, 62], rest);
    Regroup([60, 91], TextOfNumeral(id) + [93, 62], rest);
  }

  lemma TokenTextWritten(s: Text, vocab: Vocab) returns (text: Text)
    requires 0 !in s && ReadToken(s, vocab).Read? && !Is(s, 1, '[')
    ensures TokenShows(text, vocab) && ReadToken(s, vocab).value == vocab.tokenize(TokenBrackets(text))[0]
    ensures s == TokenBrackets(text) + ReadToken(s, vocab).rest
  {
    var n := TokenLength(s[1..]);
    TokenLengthWritten(s[1..]);
    text := s[1..][..n];
    assert s[..n + 2] == TokenBrackets(text);
    assert text != [] ==> text[0] == s[1];
    assert forall i :: 0 <= i < |text| ==> text[i] == s[i + 1];
  }

  /** A token, without its mark of inversion. */
  lemma TokenWritten(s: Text, inverse: bool, nested: bool, vocab: Vocab) returns (w: Writing)
    requires 0 !in s && ReadToken(s, vocab).Read?
    ensures IsTokenWriting(w) && Shows(w, nested, vocab)
    ensures (if inverse then [33] else []) + s == TextOf(w, nested, vocab) + ReadToken(s, vocab).rest
    ensures TreeOf(w, nested, vocab) ==
      Terminal([Element(if inverse then TOKEN_NOT else TOKEN, ReadToken(s, vocab).value)])
  {
    var mark: Text := if inverse then [33] else [];
    var rest := ReadToken(s, vocab).rest;
    if Is(s, 1, '[') {
      var id := TokenIdWritten(s, vocab);
      w := TokenId(inverse, id);
      Regroup(mark, [60, 91] + (TextOfNumeral(id) + [93, 62]), rest);
    } else {
      var text := TokenTextWritten(s, vocab);
      w := TokenText(inverse, text);
      Regroup(mark, TokenBrackets(text), rest);
    }
  }

  predicate IsTokenWriting(w: Writing) {
    w.TokenId? || w.TokenText?
  }

  /** The maximum, up to the closing brace. */
  lemma MaxWritten(s: Text, nested: bool) returns (g3: Text, max: Numeral, g4: Text)
    requires 0 !in s && IsDigit(At(SkipSpace(s, nested), 0))
    requires ReadMax(SkipSpace(s, nested), nested).Read? && Is(ReadMax(SkipSpace(s, nested), nested).rest, 0, '}')
    ensures var r := ReadMax(SkipSpace(s, nested), nested);
      && IsGap(g3, nested) && IsGap(g4, nested) && max.value < 0x1_0000_0000_0000_0000
      && r.value == (if max.value > MAX_REPETITION_THRESHOLD then NoMax else Max(max.value))
      && s == g3 + (TextOfNumeral(max) + (g4 + r.rest))
  {
    var s1 := SkipSpace(s, nested);
    g3 := GapWritten(s, nested);
    max := IntWritten(s1);
    g4 := GapWritten(ReadInt(s1).rest, nested);
  }

  lemma BoundsParts(s: Text, nested: bool) returns (tail: Text, r0: Text)
    requires ReadBounds(s, nested).Read?
    ensures var s1 := SkipSpace(s, nested);
      && ReadInt(s1).Read? && ReadInt(s1).value <= MAX_REPETITION_THRESHOLD && IsDigit(At(s1, 0))
      && tail == SkipSpace(ReadInt(s1).rest, nested) && (Is(tail, 0, '}') || Is(tail, 0, ','))
      && var c := ReadComma(tail, ReadInt(s1).value, nested);
        && c.Read? && c.rest == [125] + r0
        && ReadBounds(s, nested) == Read(Times(ReadInt(s1).value, c.value), SkipSpace(r0, nested))
  {
    var s1 := SkipSpace(s, nested);
    tail := SkipSpace(ReadInt(s1).rest, nested);
    var c := ReadComma(tail, ReadInt(s1).value, nested);
    r0 := c.rest[1..];
    assert c.rest == [125] + r0;
  }

  /** What follows the minimum: `op` has the gaps and the minimum in front of it. */
  lemma CommaWritten(g1: Text, min: Numeral, g2: Text, tail: Text, nested: bool, r0: Text) returns (op: Operator)
    requires IsGap(g1, nested) && IsGap(g2, nested) && min.value <= MAX_REPETITION_THRESHOLD && 0 !in tail
    requires ReadComma(tail, min.value, nested).Read? && ReadComma(tail, min.value, nested).rest == [125] + r0
    ensures OperatorShows(op, nested)
    ensures [123] + (g1 + (TextOfNumeral(min) + (g2 + tail))) == TextOfOperator(op) + r0
    ensures TimesOfOperator(op) == Times(min.value, ReadComma(tail, min.value, nested).value)
  {
    if Is(tail, 0, '}') {
      op := Exactly(g1, min, g2);
      ExactlyText(op, r0);
    } else {
      var s2 := tail[1..];
      assert tail == [44] + s2;
      if IsDigit(At(SkipSpace(s2, nested), 0)) {
        var g3, max, g4 := MaxWritten(s2, nested);
        op := Operator.Between(g1, min, g2, g3, max, g4);
        BetweenText(op, r0);
      } else {
        var g3 := GapWritten(s2, nested);
        op := AtLeast(g1, min, g2, g3);
        AtLeastText(op, r0);
      }
    }
  }

  /** Bounds in braces, behind the opening one. */
  lemma BoundsWritten(s: Text, nested: bool) returns (op: Operator, r0: Text)
    requires 0 !in s && ReadBounds(s, nested).Read?
    ensures OperatorShows(op, nested) && [123] + s == TextOfOperator(op) + r0
    ensures ReadBounds(s, nested) == Read(TimesOfOperator(op), SkipSpace(r0, nested))
  {
    var s1, tail := SkipSpace(s, nested), [];
    tail, r0 := BoundsParts(s, nested);
    var g1 := GapWritten(s, nested);
    var min := IntWritten(s1);
    var g2 := GapWritten(ReadInt(s1).rest, nested);
    op := CommaWritten(g1, min, g2, tail, nested, r0);
  }

  lemma PostfixWritten(s: Text, nested: bool) returns (op: Operator, r0: Text)
    requires 0 !in s && s != [] && IsPostfix(s[0]) && ReadPostfix(s, nested).Read?
    ensures OperatorShows(op, nested) && s == TextOfOperator(op) + r0
    ensures ReadPostfix(s, nested) == Read(TimesOfOperator(op), SkipSpace(r0, nested))
  {
    assert s == [s[0]] + s[1..];
    if s[0] == 123 {
      op, r0 := BoundsWritten(s[1..], nested);
    } else {
      op := if s[0] == 42 then Star else if s[0] == 43 then Plus else Optional;
      r0 := s[1..];
    }
  }
}
