/**
  Reading what is written: blanks and comments, characters, literals, classes, tokens and operators.
  */
module NotationTerms {
  import opened GrammarElements
  import opened Repetition
  import opened Utf8
  import opened GrammarSyntax
  import opened Notation

  lemma Regroup<T>(a: seq<T>, b: seq<T>, c: seq<T>)
    ensures (a + b) + c == a + (b + c)
  {
  }

  lemma Behind<T>(a: seq<T>, b: seq<T>)
    ensures (a + b)[|a|..] == b && (a + b)[..|a|] == a && forall i :: 0 <= i < |a| ==> (a + b)[i] == a[i]
  {
  }

  // ---------------------------------------------------------------------------------------
  // Blanks and comments
  // ---------------------------------------------------------------------------------------

  /** Text that does not start with a blank is where the next item starts. */
  predicate IsInk(s: Text, newlineOk: bool) {
    !IsBlank(At(s, 0), newlineOk)
  }

  lemma {:induction false} GapSkipped(g: Text, rest: Text, newlineOk: bool)
    requires IsGap(g, newlineOk)
    ensures SkipSpace(g + rest, newlineOk) == SkipSpace(rest, newlineOk)
    decreases |g|, 0
  {
    if g == [] {
      assert g + rest == rest;
    } else {
      assert (g + rest)[0] == g[0] && (g + rest)[1..] == g[1..] + rest;
      if g[0] == 35 {
        CommentSkipped(g[1..], rest);
      } else {
        GapSkipped(g[1..], rest, newlineOk);
      }
    }
  }

  lemma {:induction false} CommentSkipped(g: Text, rest: Text)
    requires InComment(g)
    ensures SkipSpace(SkipLine(g + rest), true) == SkipSpace(rest, true)
    decreases |g|, 1
  {
    assert (g + rest)[0] == g[0] && (g + rest)[1..] == g[1..] + rest;
    if g[0] == 10 || g[0] == 13 {
      GapSkipped(g, rest, true);
    } else {
      CommentSkipped(g[1..], rest);
    }
  }

  /** A remark is skipped up to what ends the line. */
  lemma {:induction false} RestOfRemark(c: Text, rest: Text)
    requires forall i :: 0 <= i < |c| ==> c[i] != 0 && c[i] != 10 && c[i] != 13
    requires At(rest, 0) == 0 || At(rest, 0) == 10 || At(rest, 0) == 13
    ensures SkipLine(c + rest) == rest
    decreases |c|
  {
    if c == [] {
      assert c + rest == rest;
    } else {
      assert (c + rest)[0] == c[0] && (c + rest)[1..] == c[1..] + rest;
      RestOfRemark(c[1..], rest);
    }
  }

  lemma RemarkSkipped(c: Text, rest: Text, newlineOk: bool)
    requires IsRemark(c) && (At(rest, 0) == 0 || At(rest, 0) == 10 || At(rest, 0) == 13)
    ensures SkipSpace(c + rest, newlineOk) == SkipSpace(rest, newlineOk)
  {
    if c == [] {
      assert c + rest == rest;
    } else {
      assert (c + rest)[0] == 35 && (c + rest)[1..] == c[1..] + rest;
      RestOfRemark(c[1..], rest);
    }
  }

  /** No name goes on behind a gap. */
  lemma GapEndsName(g: Text, rest: Text, newlineOk: bool)
    requires IsGap(g, newlineOk) && (g == [] ==> !IsWordChar(At(rest, 0)))
    ensures !IsWordChar(At(g + rest, 0))
  {
    assert At(g + rest, 0) == if g == [] then At(rest, 0) else g[0];
  }

  /** Nor does a number. */
  lemma GapEndsNumber(g: Text, rest: Text, newlineOk: bool)
    requires IsGap(g, newlineOk) && !IsDigit(At(rest, 0))
    ensures !IsDigit(At(g + rest, 0))
  {
    assert At(g + rest, 0) == if g == [] then At(rest, 0) else g[0];
  }

  // ---------------------------------------------------------------------------------------
  // Characters
  // ---------------------------------------------------------------------------------------

  lemma {:induction false} HexRoundTrip(n: nat, upper: seq<bool>)
    requires n < Power16(|upper|)
    ensures var h := HexText(n, upper); |h| == |upper| && HexAhead(h, |upper|) && HexValue(h) == n
    decreases |upper|
  {
    if upper != [] {
      HexRoundTrip(n / 16, upper[..|upper| - 1]);
      var h := HexText(n, upper);
      assert h[..|upper| - 1] == HexText(n / 16, upper[..|upper| - 1]);
    }
  }

  lemma PowersOf16(size: nat)
    requires size == 2 || size == 4 || size == 8
    ensures Power16(size) <= 0x1_0000_0000
  {
    assert Power16(4) == 0x1_0000;
    assert Power16(6) == 0x100_0000;
  }

  lemma HexRead(h: Text, n: nat, size: nat, rest: Text)
    requires |h| == size && HexAhead(h, size) && HexValue(h) == n < 0x1_0000_0000
    ensures ReadHex(h + rest, size) == Read(n, rest)
  {
    Behind(h, rest);
    assert HexAhead(h + rest, size);
  }

  lemma HexShown(n: nat, upper: seq<bool>, rest: Text)
    requires (|upper| == 2 || |upper| == 4 || |upper| == 8) && n < Power16(|upper|)
    ensures ReadHex(HexText(n, upper) + rest, |upper|) == Read(n, rest)
  {
    HexRoundTrip(n, upper);
    PowersOf16(|upper|);
    HexRead(HexText(n, upper), n, |upper|, rest);
  }

  lemma EscapeShown(l: Letter, inClass: bool, rest: Text)
    requires LetterShows(l, inClass) && (l.form.Short? || l.form.Hex?)
    ensures ReadChar(TextOfLetter(l, inClass) + rest) == Read(l.code, rest)
  {
    var s := TextOfLetter(l, inClass) + rest;
    if l.form.Short? {
      assert s[0] == 92 && s[1] == ShortName(l.code) && s[2..] == rest;
    } else {
      var h := HexText(l.code, l.form.upper);
      assert s[0] == 92 && s[1] == HexMark(|l.form.upper|) && s[2..] == h + rest;
      HexShown(l.code, l.form.upper, rest);
    }
  }

  lemma RawShown(c: nat, rest: Text)
    requires Scalar(c) && c != 92
    ensures ReadChar(Encode(c) + rest) == Read(c, rest)
    ensures Encode(c)[0] == c || Encode(c)[0] >= 0xC0
  {
    var s, n := Encode(c) + rest, EncodedLength(c);
    LeadDecodes(c);
    assert s[0] == EncodedByte(c, 0) == Encode(c)[0];
    assert s[1..] == Encode(c)[1..n] + rest;
    TailDecodes(c, 1, n, s[1..], rest);
  }

  /** As many bytes as are asked for are taken, if there are as many. */
  lemma {:induction false} CollectTakes(src: Text, value: nat, n: nat, rest: Text)
    requires |src| == n && 0 !in src
    ensures Collect(src + rest, value, n) == Tail(rest, Collect(src, value, n).value, 0)
    decreases n
  {
    if n == 0 {
      assert src + rest == rest;
    } else {
      assert (src + rest)[0] == src[0] && (src + rest)[1..] == src[1..] + rest;
      CollectTakes(src[1..], ShiftIn(value, src[0]), n - 1, rest);
    }
  }

  lemma LooseShown(bytes: Text, rest: Text)
    requires IsLoose(bytes) && bytes[0] != 92
    ensures ReadChar(bytes + rest) == Read(LooseCode(bytes), rest)
  {
    var s, more := bytes + rest, |bytes| - 1;
    assert s[0] == bytes[0] && s[1..] == bytes[1..] + rest;
    CollectTakes(bytes[1..], LeadValue(bytes[0], more), more, rest);
  }

  /** Reading a character gives its code point, however it is written. */
  lemma LetterShown(l: Letter, inClass: bool, rest: Text)
    requires LetterShows(l, inClass)
    ensures ReadChar(TextOfLetter(l, inClass) + rest) == Read(l.code, rest)
  {
    match l.form
    case Raw => RawShown(l.code, rest);
    case Loose(bytes) => LooseShown(bytes, rest);
    case _ => EscapeShown(l, inClass, rest);
  }

  /** It does not start like what ends a literal or a class; nothing else starts with a hyphen but the hyphen. */
  lemma LetterInk(l: Letter, inClass: bool)
    requires LetterShows(l, inClass)
    ensures var t := TextOfLetter(l, inClass); t != [] && t[0] != 0 && t[0] != Closing(inClass)
    ensures var t := TextOfLetter(l, inClass); t[0] < 0x80 && t[0] != 92 ==> |t| == 1
  {
    if l.form.Raw? {
      RawShown(l.code, []);
      LeadDecodes(l.code);
    }
  }

  // ---------------------------------------------------------------------------------------
  // Literals
  // ---------------------------------------------------------------------------------------

  lemma LiteralStep(l: Letter, acc: seq<Element>, rest: Text)
    requires LetterShows(l, false) && AllChars(acc)
    ensures AllChars(acc + [Element(CHAR, l.code)])
    ensures ReadLiteral(TextOfLetter(l, false) + rest, acc) == ReadLiteral(rest, acc + [Element(CHAR, l.code)])
  {
    LetterShown(l, false, rest);
    LetterInk(l, false);
    Behind(TextOfLetter(l, false), rest);
  }

  lemma {:induction false} LettersShown(letters: seq<Letter>, acc: seq<Element>, rest: Text)
    requires LettersShow(letters) && AllChars(acc)
    ensures ReadLiteral(TextOfLetters(letters) + ([34] + rest), acc) == Read(acc + TreeOfLetters(letters), rest)
    decreases |letters|
  {
    var s := [34] + rest;
    if letters == [] {
      assert [] + s == s && s[1..] == rest && acc + TreeOfLetters(letters) == acc;
    } else {
      var t, tail := TextOfLetter(letters[0], false), TextOfLetters(letters[1..]);
      var first := [Element(CHAR, letters[0].code)];
      Regroup(t, tail, s);
      LiteralStep(letters[0], acc, tail + s);
      LettersShown(letters[1..], acc + first, rest);
      LettersMore(letters);
      Regroup(acc, first, TreeOfLetters(letters[1..]));
    }
  }

  lemma LettersMore(letters: seq<Letter>)
    requires letters != []
    ensures TreeOfLetters(letters) == [Element(CHAR, letters[0].code)] + TreeOfLetters(letters[1..])
  {
  }

  // ---------------------------------------------------------------------------------------
  // Classes
  // ---------------------------------------------------------------------------------------

  lemma RangeShown(r: Range, acc: seq<Element>, start: GreType, rest: Text)
    requires RangeShows(r) && IsClass(acc, start) && (r.Only? ==> !RangeAhead(rest))
    ensures var kind := if acc == [] then start else CHAR_ALT;
      && IsClass(acc + TreeOfRange(kind, r), start)
      && ReadClassItem(TextOfRange(r) + rest, start, acc) == Read(acc + TreeOfRange(kind, r), rest)
  {
    var e := ClassElement(acc, start, r.lo.code);
    ClassPush(acc, start, e);
    if r.Only? {
      LetterShown(r.lo, true, rest);
      assert acc + TreeOfRange(e.kind, r) == acc + [e];
    } else {
      var upper := [45] + (TextOfLetter(r.hi, true) + rest);
      Regroup(TextOfLetter(r.lo, true), [45] + TextOfLetter(r.hi, true), rest);
      Regroup([45], TextOfLetter(r.hi, true), rest);
      LetterShown(r.lo, true, upper);
      UpperShown(r.hi, acc + [e], start, rest);
      assert acc + TreeOfRange(e.kind, r) == acc + [e] + [Element(CHAR_RNG_UPPER, r.hi.code)];
    }
  }

  lemma UpperShown(hi: Letter, acc: seq<Element>, start: GreType, rest: Text)
    requires LetterShows(hi, true) && OpenClass(acc, start)
    ensures IsClass(acc + [Element(CHAR_RNG_UPPER, hi.code)], start)
    ensures ReadUpper([45] + (TextOfLetter(hi, true) + rest), start, acc) ==
      Read(acc + [Element(CHAR_RNG_UPPER, hi.code)], rest)
  {
    var t := TextOfLetter(hi, true) + rest;
    LetterShown(hi, true, rest);
    LetterInk(hi, true);
    ClassPush(acc, start, Element(CHAR_RNG_UPPER, hi.code));
    assert ([45] + t)[1..] == t && ([45] + t)[1] == t[0];
  }

  lemma RangeInk(r: Range)
    requires RangeShows(r)
    ensures var t := TextOfRange(r); t != [] && t[0] != 0 && t[0] != 93 && (StartsWith(r, t[0]))
    ensures StartsWith(r, 45) && r.Only? ==> TextOfRange(r) == [45]
  {
    LetterInk(r.lo, true);
  }

  /** Behind a single character there is no hyphen, or it is the last one. */
  lemma RangesStart(ranges: seq<Range>, rest: Text)
    requires RangesShow(ranges, true) && rest != [] && rest[0] == 93
    ensures !RangeAhead(TextOfRanges(ranges, true) + rest)
  {
    var s := TextOfRanges(ranges, true) + rest;
    if ranges == [] {
      assert s == rest;
    } else {
      var t := TextOfRange(ranges[0]);
      RangeInk(ranges[0]);
      assert s[0] == t[0];
      if t[0] == 45 {
        assert ranges[1..] == [] && t == [45] && TextOfRanges(ranges, true) == [45] + [];
        assert s == [45] + rest && s[1] == rest[0];
      }
    }
  }

  lemma {:induction false} RangesShown(ranges: seq<Range>, single: bool, acc: seq<Element>, start: GreType, rest: Text)
    requires RangesShow(ranges, single) && IsClass(acc, start) && rest != [] && rest[0] == 93
    ensures var kind := if acc == [] then start else CHAR_ALT;
      && IsClass(acc + TreeOfRanges(kind, ranges), start)
      && ReadClass(TextOfRanges(ranges, single) + rest, start, acc) ==
        Read(acc + TreeOfRanges(kind, ranges), rest[1..])
    decreases |ranges|
  {
    var kind := if acc == [] then start else CHAR_ALT;
    if ranges == [] {
      assert [] + rest == rest && acc + TreeOfRanges(kind, ranges) == acc;
    } else {
      var r, more := ranges[0], ranges[1..];
      var tail := TextOfRanges(more, r.Only?) + rest;
      var acc' := acc + TreeOfRange(kind, r);
      Regroup(TextOfRange(r), TextOfRanges(more, r.Only?), rest);
      if r.Only? {
        RangesStart(more, rest);
      }
      RangeInk(r);
      Behind(TextOfRange(r), tail);
      RangeShown(r, acc, start, tail);
      RangesShown(more, r.Only?, acc', start, rest);
      Regroup(acc, TreeOfRange(kind, r), TreeOfRanges(CHAR_ALT, more));
    }
  }

  lemma {:induction false} TreeOfRangesEmpty(kind: GreType, ranges: seq<Range>)
    ensures TreeOfRanges(kind, ranges) == [] <==> ranges == []
  {
  }

  /** Text behind the bracket of a class. */
  lemma ClassShown(inverse: bool, ranges: seq<Range>, rest: Text)
    requires RangesShow(ranges, false)
    ensures IsClass(TreeOfRanges(ClassStart(inverse), ranges), ClassStart(inverse))
    ensures ReadClass(TextOfRanges(ranges, false) + ([93] + rest), ClassStart(inverse), []) ==
      Read(TreeOfRanges(ClassStart(inverse), ranges), rest)
  {
    var els := TreeOfRanges(ClassStart(inverse), ranges);
    Behind([93], rest);
    RangesShown(ranges, false, [], ClassStart(inverse), [93] + rest);
    assert [] + els == els;
  }

  // ---------------------------------------------------------------------------------------
  // Numbers and tokens
  // ---------------------------------------------------------------------------------------

  lemma DigitsEnd(s: Text, n: nat)
    requires n <= |s| && (forall i :: 0 <= i < n ==> IsDigit(s[i])) && !IsDigit(At(s, n))
    ensures DigitCount(s) == n
  {
    assert IsDigit(At(s, DigitCount(s))) || DigitCount(s) >= n;
  }

  lemma {:induction false} ZerosValue(zeros: nat, d: Text)
    ensures ValueOf(seq(zeros, _ => 48) + d) == ValueOf(d)
    decreases |d|, zeros
  {
    var z: Text := seq(zeros, _ => 48);
    if d != [] {
      ZerosValue(zeros, d[..|d| - 1]);
      assert (z + d)[..|z + d| - 1] == z + d[..|d| - 1];
    } else if zeros > 0 {
      ZerosValue(zeros - 1, d);
      assert (z + d)[..|z + d| - 1] == seq(zeros - 1, _ => 48) + d;
    }
  }

  lemma NumeralValue(n: Numeral)
    ensures ValueOf(TextOfNumeral(n)) == n.value && TextOfNumeral(n) != []
    ensures forall i :: 0 <= i < |TextOfNumeral(n)| ==> IsDigit(TextOfNumeral(n)[i])
  {
    DecimalRoundTrip(n.value);
    ZerosValue(n.zeros, Decimal(n.value));
  }

  lemma IntShown(n: Numeral, rest: Text)
    requires n.value < 0x1_0000_0000_0000_0000 && !IsDigit(At(rest, 0))
    ensures ReadInt(TextOfNumeral(n) + rest) == Read(n.value, rest)
    ensures IsDigit(At(TextOfNumeral(n) + rest, 0))
  {
    var s, d := TextOfNumeral(n) + rest, TextOfNumeral(n);
    NumeralValue(n);
    assert At(s, |d|) == At(rest, 0);
    DigitsEnd(s, |d|);
    assert s[..|d|] == d && s[|d|..] == rest;
  }

  lemma TokenIdRead(s: Text, id: nat, s1: Text, vocab: Vocab)
    requires |s| >= 2 && s[0] == 60 && s[1] == 91 && ReadInt(s[2..]) == Read(id, s1)
    requires |s1| >= 2 && s1[0] == 93 && s1[1] == 62
    ensures ReadToken(s, vocab) == Read(id % 0x1_0000_0000, s1[2..])
  {
  }

  lemma TokenIdShown(id: Numeral, vocab: Vocab, rest: Text)
    requires id.value < 0x1_0000_0000_0000_0000
    ensures ReadToken([60, 91] + (TextOfNumeral(id) + [93, 62]) + rest, vocab) == Read(id.value % 0x1_0000_0000, rest)
  {
    var s1 := [93, 62] + rest;
    Regroup([60, 91], TextOfNumeral(id) + [93, 62], rest);
    Regroup(TextOfNumeral(id), [93, 62], rest);
    Behind([60, 91], TextOfNumeral(id) + s1);
    Behind([93, 62], rest);
    IntShown(id, s1);
    TokenIdRead([60, 91] + (TextOfNumeral(id) + s1), id.value, s1, vocab);
  }

  lemma {:induction false} TokenEnds(text: Text, rest: Text)
    requires 0 !in text && 62 !in text
    ensures TokenLength(text + ([62] + rest)) == |text|
    decreases |text|
  {
    var s := text + ([62] + rest);
    if text != [] {
      assert s[0] == text[0] && s[1..] == text[1..] + ([62] + rest);
      TokenEnds(text[1..], rest);
    }
  }

  /** The tokenizer is given the text with its brackets. */
  lemma TokenTextShown(text: Text, vocab: Vocab, rest: Text)
    requires TokenShows(text, vocab)
    ensures ReadToken(TokenBrackets(text) + rest, vocab) == Read(vocab.tokenize(TokenBrackets(text))[0], rest)
  {
    var s, n := TokenBrackets(text) + rest, 1 + |text|;
    assert s[1..] == text + ([62] + rest);
    TokenEnds(text, rest);
    assert s[..n + 1] == TokenBrackets(text) && s[n + 1..] == rest && s[n] == 62;
    assert s[1] == if text == [] then 62 else text[0];
  }

  // ---------------------------------------------------------------------------------------
  // Operators
  // ---------------------------------------------------------------------------------------

  lemma OperatorInk(op: Operator, rest: Text)
    ensures var c := At(TextOfOperator(op) + rest, 0);
      TextOfOperator(op) != [] && IsPostfix(c) && !IsBlank(c, true) && !IsWordChar(c)
  {
  }

  /** The minimum in its gaps, behind the brace. */
  lemma MinShown(g1: Text, min: Numeral, g2: Text, nested: bool, tail: Text)
    requires IsGap(g1, nested) && IsGap(g2, nested) && min.value <= MAX_REPETITION_THRESHOLD
    requires IsInk(tail, nested) && !IsDigit(At(tail, 0))
    ensures ReadBounds(g1 + (TextOfNumeral(min) + (g2 + tail)), nested) == ReadBrace(tail, min.value, nested)
  {
    var s := TextOfNumeral(min) + (g2 + tail);
    GapEndsNumber(g2, tail, nested);
    IntShown(min, g2 + tail);
    GapSkipped(g1, s, nested);
    GapSkipped(g2, tail, nested);
    InkStays(s, nested);
    InkStays(tail, nested);
    BoundsRead(g1 + s, s, min.value, g2 + tail, nested);
  }

  lemma InkStays(s: Text, newlineOk: bool)
    requires IsInk(s, newlineOk)
    ensures SkipSpace(s, newlineOk) == s
  {
  }

  lemma BoundsRead(s: Text, s1: Text, min: nat, rest: Text, nested: bool)
    requires SkipSpace(s, nested) == s1 && ReadInt(s1) == Read(min, rest)
    ensures ReadBounds(s, nested) == ReadBrace(SkipSpace(rest, nested), min, nested)
  {
  }

  /** What follows the comma. */
  lemma MaxShown(g3: Text, max: Numeral, g4: Text, nested: bool, tail: Text)
    requires IsGap(g3, nested) && IsGap(g4, nested) && max.value < 0x1_0000_0000_0000_0000 && At(tail, 0) == 125
    ensures ReadMax(SkipSpace(g3 + (TextOfNumeral(max) + (g4 + tail)), nested), nested) ==
      Read(if max.value > MAX_REPETITION_THRESHOLD then NoMax else Max(max.value), tail)
  {
    var s := TextOfNumeral(max) + (g4 + tail);
    GapEndsNumber(g4, tail, nested);
    IntShown(max, g4 + tail);
    GapSkipped(g3, s, nested);
    GapSkipped(g4, tail, nested);
    MaxRead(s, max.value, g4 + tail, nested);
  }

  lemma MaxRead(s: Text, max: nat, rest: Text, nested: bool)
    requires IsDigit(At(s, 0)) && ReadInt(s) == Read(max, rest)
    ensures SkipSpace(s, nested) == s
    ensures ReadMax(s, nested) ==
      Read(if max > MAX_REPETITION_THRESHOLD then NoMax else Max(max), SkipSpace(rest, nested))
  {
  }

  lemma NoMaxShown(g3: Text, nested: bool, tail: Text)
    requires IsGap(g3, nested) && At(tail, 0) == 125
    ensures ReadMax(SkipSpace(g3 + tail, nested), nested) == Read(NoMax, tail)
  {
    GapSkipped(g3, tail, nested);
    assert SkipSpace(tail, nested) == tail;
  }

  lemma BraceShown(s: Text, min: nat, max: Bound, nested: bool, rest: Text)
    requires min <= MAX_REPETITION_THRESHOLD && ReadComma(s, min, nested) == Read(max, [125] + rest)
    ensures ReadBrace(s, min, nested) == Read(Times(min, max), SkipSpace(rest, nested))
  {
    assert ([125] + rest)[1..] == rest;
  }

  lemma ExactlyShown(op: Operator, nested: bool, rest: Text)
    requires op.Exactly? && OperatorShows(op, nested)
    ensures ReadPostfix(TextOfOperator(op) + rest, nested) ==
      Read(TimesOfOperator(op), SkipSpace(rest, nested))
  {
    var tail := [125] + rest;
    var s := op.g1 + (TextOfNumeral(op.min) + (op.g2 + tail));
    ExactlyText(op, rest);
    assert ([123] + s)[1..] == s;
    MinShown(op.g1, op.min, op.g2, nested, tail);
    BraceShown(tail, op.min.value, Max(op.min.value), nested, rest);
  }

  lemma AtLeastShown(op: Operator, nested: bool, rest: Text)
    requires op.AtLeast? && OperatorShows(op, nested)
    ensures ReadPostfix(TextOfOperator(op) + rest, nested) ==
      Read(TimesOfOperator(op), SkipSpace(rest, nested))
  {
    var end := op.g3 + ([125] + rest);
    var tail := [44] + end;
    var s := op.g1 + (TextOfNumeral(op.min) + (op.g2 + tail));
    AtLeastText(op, rest);
    assert ([123] + s)[1..] == s && tail[1..] == end;
    MinShown(op.g1, op.min, op.g2, nested, tail);
    NoMaxShown(op.g3, nested, [125] + rest);
    BraceShown(tail, op.min.value, NoMax, nested, rest);
  }

  lemma BetweenShown(op: Operator, nested: bool, rest: Text)
    requires op.Between? && OperatorShows(op, nested)
    ensures ReadPostfix(TextOfOperator(op) + rest, nested) ==
      Read(TimesOfOperator(op), SkipSpace(rest, nested))
  {
    var end := op.g3 + (TextOfNumeral(op.max) + (op.g4 + ([125] + rest)));
    var tail := [44] + end;
    var s := op.g1 + (TextOfNumeral(op.min) + (op.g2 + tail));
    BetweenText(op, rest);
    assert ([123] + s)[1..] == s && tail[1..] == end;
    MinShown(op.g1, op.min, op.g2, nested, tail);
    MaxShown(op.g3, op.max, op.g4, nested, [125] + rest);
    BraceShown(tail, op.min.value, TimesOfOperator(op).max, nested, rest);
  }

  lemma ExactlyText(op: Operator, rest: Text)
    requires op.Exactly?
    ensures TextOfOperator(op) + rest == [123] + (op.g1 + (TextOfNumeral(op.min) + (op.g2 + ([125] + rest))))
  {
    Regroup([123], op.g1 + (TextOfNumeral(op.min) + (op.g2 + [125])), rest);
    Regroup(op.g1, TextOfNumeral(op.min) + (op.g2 + [125]), rest);
    Regroup(TextOfNumeral(op.min), op.g2 + [125], rest);
    Regroup(op.g2, [125], rest);
  }

  lemma AtLeastText(op: Operator, rest: Text)
    requires op.AtLeast?
    ensures TextOfOperator(op) + rest ==
      [123] + (op.g1 + (TextOfNumeral(op.min) + (op.g2 + ([44] + (op.g3 + ([125] + rest))))))
  {
    Regroup([123], op.g1 + (TextOfNumeral(op.min) + (op.g2 + ([44] + (op.g3 + [125])))), rest);
    Regroup(op.g1, TextOfNumeral(op.min) + (op.g2 + ([44] + (op.g3 + [125]))), rest);
    Regroup(TextOfNumeral(op.min), op.g2 + ([44] + (op.g3 + [125])), rest);
    Regroup(op.g2, [44] + (op.g3 + [125]), rest);
    Regroup([44], op.g3 + [125], rest);
    Regroup(op.g3, [125], rest);
  }

  lemma BetweenText(op: Operator, rest: Text)
    requires op.Between?
    ensures TextOfOperator(op) + rest == [123] + (op.g1 + (TextOfNumeral(op.min) + (op.g2
      + ([44] + (op.g3 + (TextOfNumeral(op.max) + (op.g4 + ([125] + rest))))))))
  {
    var d := TextOfNumeral(op.max) + (op.g4 + [125]);
    Regroup([123], op.g1 + (TextOfNumeral(op.min) + (op.g2 + ([44] + (op.g3 + d)))), rest);
    Regroup(op.g1, TextOfNumeral(op.min) + (op.g2 + ([44] + (op.g3 + d))), rest);
    Regroup(TextOfNumeral(op.min), op.g2 + ([44] + (op.g3 + d)), rest);
    Regroup(op.g2, [44] + (op.g3 + d), rest);
    Regroup([44], op.g3 + d, rest);
    Regroup(op.g3, d, rest);
    Regroup(TextOfNumeral(op.max), op.g4 + [125], rest);
    Regroup(op.g4, [125], rest);
  }

  /** An operator is read as the bounds that it stands for, with the blanks behind it. */
  lemma OperatorShown(op: Operator, nested: bool, rest: Text)
    requires OperatorShows(op, nested)
    ensures ReadPostfix(TextOfOperator(op) + rest, nested) == Read(TimesOfOperator(op), SkipSpace(rest, nested))
  {
    match op
    case Exactly(_, _, _) => ExactlyShown(op, nested, rest);
    case AtLeast(_, _, _, _) => AtLeastShown(op, nested, rest);
    case Between(_, _, _, _, _, _) => BetweenShown(op, nested, rest);
    case _ =>
      assert (TextOfOperator(op) + rest)[1..] == rest;
  }
}
