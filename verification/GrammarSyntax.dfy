/**
  What a grammar text says, without any table: each function reads an item from the front of the
  text and leaves the rest, or refuses where the original throws. The result is a syntax tree.
  */
module GrammarSyntax {
  import opened GrammarElements
  import opened Repetition
  import opened Utf8

  const MAX_REPETITION_THRESHOLD: nat := 2000
  const UNDERSCORE: Byte := 95

  type Text = seq<Byte>
  type Name = seq<Byte>

  datatype Reading<T> = Read(value: T, rest: Text) | Refused

  // ---------------------------------------------------------------------------------------
  // Syntax trees
  // ---------------------------------------------------------------------------------------

  /** A terminal is given by its elements: a literal, a class, a token or the dot. */
  datatype Item =
    | Terminal(els: seq<Element>)
    | Named(name: Name)
    | Group(alternates: Alternates)
    | Repeat(item: Item, min: nat, max: Bound)

  datatype Sequence = Nothing | Then(front: Sequence, item: Item)

  datatype Alternates = One(sequence: Sequence) | Or(front: Alternates, sequence: Sequence)

  datatype Definition = Definition(name: Name, alternates: Alternates)

  /** Elements of an alternate: no END and no ALT, classes in order, only references below `n`. */
  predicate IsBody(els: seq<Element>, n: nat) {
    IsSymbols(els) && WellNested(els) && RefsBelow(els, n)
  }

  predicate ItemFits(item: Item) {
    match item
    case Terminal(els) => IsBody(els, 0)
    case Named(name) => UNDERSCORE !in name
    case Group(alternates) => AlternatesFit(alternates)
    case Repeat(inner, _, _) => ItemFits(inner)
  }

  predicate SequenceFits(s: Sequence) {
    s.Then? ==> SequenceFits(s.front) && ItemFits(s.item)
  }

  function Append(s: Sequence, item: Item): (r: Sequence)
    requires SequenceFits(s) && ItemFits(item)
    ensures SequenceFits(r)
  {
    Then(s, item)
  }

  predicate AlternatesFit(a: Alternates) {
    SequenceFits(a.sequence) && (a.Or? ==> AlternatesFit(a.front))
  }

  predicate DefinitionFits(d: Definition) {
    UNDERSCORE !in d.name && AlternatesFit(d.alternates)
  }

  predicate DefinitionsFit(ds: seq<Definition>) {
    forall i :: 0 <= i < |ds| ==> DefinitionFits(ds[i])
  }

  // ---------------------------------------------------------------------------------------
  // Characters of the text
  // ---------------------------------------------------------------------------------------

  /** The text is a C string: behind its last byte, and at a NUL, it reads 0. */
  function At(src: Text, i: nat): Byte {
    if i < |src| then src[i] else 0
  }

  predicate Is(src: Text, i: nat, c: char) {
    At(src, i) == c as int
  }

  predicate IsDigit(b: Byte) {
    48 <= b <= 57
  }

  predicate IsWordChar(b: Byte) {
    97 <= b <= 122 || 65 <= b <= 90 || b == 45 || IsDigit(b)
  }

  predicate IsBlank(b: Byte, newlineOk: bool) {
    b == 32 || b == 9 || b == 35 || (newlineOk && (b == 13 || b == 10))
  }

  /** The rest of the text behind the comment. */
  function SkipLine(s: Text): (r: Text)
    ensures |r| <= |s|
  {
    if At(s, 0) == 0 || Is(s, 0, '\r') || Is(s, 0, '\n') then s else SkipLine(s[1..])
  }

  /** The rest of the text behind blanks and comments. */
  function SkipSpace(s: Text, newlineOk: bool): (r: Text)
    ensures |r| <= |s| && !IsBlank(At(r, 0), newlineOk)
    decreases |s|
  {
    if !IsBlank(At(s, 0), newlineOk) then s
    else if Is(s, 0, '#') then SkipSpace(SkipLine(s[1..]), newlineOk)
    else SkipSpace(s[1..], newlineOk)
  }

  /** The length of the name at the front. */
  function NameLength(s: Text): (n: nat)
    ensures n <= |s| && !IsWordChar(At(s, n)) && forall i :: 0 <= i < n ==> IsWordChar(s[i])
  {
    if IsWordChar(At(s, 0)) then 1 + NameLength(s[1..]) else 0
  }

  /** The number of decimal digits at the front. */
  function DigitCount(s: Text): (n: nat)
    ensures n <= |s| && !IsDigit(At(s, n)) && forall i :: 0 <= i < n ==> IsDigit(s[i])
  {
    if IsDigit(At(s, 0)) then 1 + DigitCount(s[1..]) else 0
  }

  // ---------------------------------------------------------------------------------------
  // Numbers
  // ---------------------------------------------------------------------------------------

  function Decimal(n: nat): Text {
    if n < 10 then [48 + n] else Decimal(n / 10) + [48 + n % 10]
  }

  function ValueOf(s: Text): int {
    if s == [] then 0 else ValueOf(s[..|s| - 1]) * 10 + (s[|s| - 1] as int - 48)
  }

  lemma {:induction false} DecimalRoundTrip(n: nat)
    ensures ValueOf(Decimal(n)) == n && Decimal(n) != []
    ensures forall i :: 0 <= i < |Decimal(n)| ==> IsDigit(Decimal(n)[i])
    decreases n
  {
    var d := Decimal(n);
    if n < 10 {
      assert d[..0] == [];
    } else {
      DecimalRoundTrip(n / 10);
      assert d[..|d| - 1] == Decimal(n / 10);
    }
  }

  lemma {:induction false} DigitsValue(s: Text)
    requires forall i :: 0 <= i < |s| ==> IsDigit(s[i])
    ensures ValueOf(s) >= 0
  {
    if s != [] {
      DigitsValue(s[..|s| - 1]);
    }
  }

  /** A decimal number; beyond 64 bits the conversion throws. */
  function ReadInt(s: Text): (r: Reading<nat>)
    ensures r.Read? ==> |r.rest| < |s| && r.value < 0x1_0000_0000_0000_0000
  {
    var n := DigitCount(s);
    DigitsValue(s[..n]);
    if n == 0 || ValueOf(s[..n]) >= 0x1_0000_0000_0000_0000 then Refused else Read(ValueOf(s[..n]), s[n..])
  }

  function HexDigit(b: Byte): int {
    if 97 <= b <= 102 then b - 97 + 10
    else if 65 <= b <= 70 then b - 65 + 10
    else if IsDigit(b) then b - 48
    else -1
  }

  function HexValue(s: Text): int {
    if s == [] then 0 else HexValue(s[..|s| - 1]) * 16 + HexDigit(s[|s| - 1])
  }

  /** The first `size` bytes are hexadecimal digits. */
  predicate HexAhead(s: Text, size: nat) {
    size <= |s| && forall i :: 0 <= i < size ==> HexDigit(s[i]) >= 0
  }

  /** The original keeps 32 bits, which hold the at most eight digits. */
  function ReadHex(s: Text, size: nat): (r: Reading<nat>)
    ensures r.Read? ==> |r.rest| == |s| - size
  {
    if HexAhead(s, size) then Read(HexValue(s[..size]) % 0x1_0000_0000, s[size..]) else Refused
  }

  // ---------------------------------------------------------------------------------------
  // Terminals
  // ---------------------------------------------------------------------------------------

  /** One character of the text, which is taken to be UTF-8 and is not validated. */
  function ReadRaw(s: Text): (r: Reading<nat>)
    requires At(s, 0) != 0
    ensures r.Read? && |r.rest| < |s|
  {
    var more := if LengthOf(s[0]) == 0 then 0 else LengthOf(s[0]) - 1;
    var t := Collect(s[1..], LeadValue(s[0], more), more);
    Read(t.value, t.rest)
  }

  /** A character or an escape. */
  function ReadChar(s: Text): (r: Reading<nat>)
    ensures r.Read? ==> |r.rest| < |s|
  {
    if Is(s, 0, '\\') then
      var c := At(s, 1);
      if c == 0 then Refused
      else if c == 'x' as int then ReadHex(s[2..], 2)
      else if c == 'u' as int then ReadHex(s[2..], 4)
      else if c == 'U' as int then ReadHex(s[2..], 8)
      else if c == 't' as int then Read(9, s[2..])
      else if c == 'r' as int then Read(13, s[2..])
      else if c == 'n' as int then Read(10, s[2..])
      else
        if c == '\\' as int ||
        c == '"' as int || c == '[' as int || c == ']' as int || c == '-' as int then Read(c, s[2..])
      else Refused
    else if At(s, 0) != 0 then
      ReadRaw(s)
    else
      Refused
  }

  lemma BodyPush(els: seq<Element>, n: nat, e: Element)
    requires IsBody(els, n) && !IsEndOfSequence(e) && (e.kind.RULE_REF? ==> e.value < n)
    requires e.kind.CHAR_ALT? ==> els != [] && (IsClassStart(els[|els| - 1]) || IsContinuation(els[|els| - 1]))
    requires e.kind.CHAR_RNG_UPPER? ==> els != [] && (IsClassStart(els[|els| - 1]) || els[|els| - 1].kind.CHAR_ALT?)
    ensures IsBody(els + [e], n)
  {
    var c := els + [e];
    forall i | 0 <= i < |c|
      ensures FollowsWell(c, i)
    {
      if i < |els| {
        assert FollowsWell(els, i);
      }
    }
  }

  predicate AllChars(els: seq<Element>) {
    forall i :: 0 <= i < |els| ==> els[i].kind.CHAR?
  }

  /** A literal, behind its opening quote: one CHAR for each character. */
  function ReadLiteral(s: Text, els: seq<Element>): (r: Reading<seq<Element>>)
    requires AllChars(els)
    ensures r.Read? ==> |r.rest| < |s| && AllChars(r.value)
    decreases |s|
  {
    if Is(s, 0, '"') then Read(els, s[1..])
    else match ReadChar(s)
      case Read(c, rest) => ReadLiteral(rest, els + [Element(CHAR, c)])
      case Refused => Refused
  }

  /** The elements of a class: its start, then alternatives and upper bounds of ranges. */
  predicate IsClass(els: seq<Element>, start: GreType) {
    && (start.CHAR? || start.CHAR_NOT?)
    && (els != [] ==> els[0].kind == start)
    && (forall i :: 0 < i < |els| ==> IsContinuation(els[i]))
    && WellNested(els)
  }

  lemma ClassPush(els: seq<Element>, start: GreType, e: Element)
    requires IsClass(els, start)
    requires if els == [] then e.kind == start
      else e.kind.CHAR_ALT? || (e.kind.CHAR_RNG_UPPER? && !els[|els| - 1].kind.CHAR_RNG_UPPER?)
    ensures IsClass(els + [e], start)
  {
    assert IsBody(els, 0);
    BodyPush(els, 0, e);
  }

  /** The element that a character of a class becomes. */
  function ClassElement(els: seq<Element>, start: GreType, c: nat): Element {
    Element(if els == [] then start else CHAR_ALT, c)
  }

  /** A hyphen makes a range, unless it is the last character of the class. */
  predicate RangeAhead(s: Text) {
    Is(s, 0, '-') && !Is(s, 1, ']')
  }

  /** A class that an upper bound may follow. */
  predicate OpenClass(els: seq<Element>, start: GreType) {
    IsClass(els, start) && els != [] && !els[|els| - 1].kind.CHAR_RNG_UPPER?
  }

  /** The upper bound of a range, if there is one. */
  function ReadUpper(s: Text, start: GreType, els: seq<Element>): (r: Reading<seq<Element>>)
    requires OpenClass(els, start)
    ensures r.Read? ==> |r.rest| <= |s| && IsClass(r.value, start)
  {
    if !RangeAhead(s) then Read(els, s)
    else match ReadChar(s[1..])
      case Refused => Refused
      case Read(c, rest) =>
        ClassPush(els, start, Element(CHAR_RNG_UPPER, c));
        Read(els + [Element(CHAR_RNG_UPPER, c)], rest)
  }

  /** One character or range of a class. */
  function ReadClassItem(s: Text, start: GreType, els: seq<Element>): (r: Reading<seq<Element>>)
    requires IsClass(els, start)
    ensures r.Read? ==> |r.rest| < |s| && IsClass(r.value, start)
  {
    match ReadChar(s)
    case Refused => Refused
    case Read(c, rest) =>
      ClassPush(els, start, ClassElement(els, start, c));
      ReadUpper(rest, start, els + [ClassElement(els, start, c)])
  }

  /** A class, behind its opening bracket and the mark of an inverse class. */
  function ReadClass(s: Text, start: GreType, els: seq<Element>): (r: Reading<seq<Element>>)
    requires IsClass(els, start)
    ensures r.Read? ==> |r.rest| < |s| && IsClass(r.value, start)
    decreases |s|
  {
    if Is(s, 0, ']') then Read(els, s[1..])
    else match ReadClassItem(s, start, els)
      case Read(els', rest) => ReadClass(rest, start, els')
      case Refused => Refused
  }

  /** What the vocabulary makes of a token text, when there is a vocabulary. */
  datatype Vocab = NoVocab | Vocab(tokenize: Text -> seq<nat>)

  /** The length of the text in front of the closing bracket, or of the whole text. */
  function TokenLength(s: Text): (n: nat)
    ensures n <= |s|
  {
    if At(s, 0) == 0 || Is(s, 0, '>') then 0 else 1 + TokenLength(s[1..])
  }

  /** <[id]> or <text>; the text must be exactly one token. */
  function ReadToken(s: Text, vocab: Vocab): (r: Reading<nat>)
    ensures r.Read? ==> |r.rest| < |s|
  {
    if !Is(s, 0, '<') then Refused
    else if Is(s, 1, '[') then
      match ReadInt(s[2..])
      case Refused => Refused
      case Read(id, rest) =>
        if Is(rest, 0, ']') && Is(rest, 1, '>') then Read(id % 0x1_0000_0000, rest[2..]) else Refused
    else if vocab.NoVocab? then Refused
    else
      var n := 1 + TokenLength(s[1..]);
      if !Is(s, n, '>') then Refused
      else
        var tokens := vocab.tokenize(s[..n + 1]);
        if |tokens| == 1 then Read(tokens[0], s[n + 1..]) else Refused
  }

  predicate StartsTerminal(c: Byte) {
    c == '"' as int || c == '[' as int || c == '<' as int || c == '!' as int || c == '.' as int
  }

  /** A literal, a class, the dot or a token. */
  function ReadTerminal(s: Text, vocab: Vocab): (r: Reading<seq<Element>>)
    requires s != []
    ensures r.Read? ==> |r.rest| < |s| && IsBody(r.value, 0)
  {
    if Is(s, 0, '"') then ReadLiteral(s[1..], [])
    else if Is(s, 0, '[') && Is(s, 1, '^') then ReadClass(s[2..], CHAR_NOT, [])
    else if Is(s, 0, '[') then ReadClass(s[1..], CHAR, [])
    else if Is(s, 0, '.') then Read([Element(CHAR_ANY, 0)], s[1..])
    else
      var inverse := Is(s, 0, '!');
      match ReadToken(if inverse then s[1..] else s, vocab)
      case Refused => Refused
      case Read(token, rest) => Read([Element(if inverse then TOKEN_NOT else TOKEN, token)], rest)
  }

  // ---------------------------------------------------------------------------------------
  // Repetitions
  // ---------------------------------------------------------------------------------------

  datatype Times = Times(min: nat, max: Bound)

  /** The maximum behind the comma; the largest 64-bit number is the mark for no maximum. */
  function ReadMax(s: Text, nested: bool): (r: Reading<Bound>)
    ensures r.Read? ==> |r.rest| <= |s|
  {
    if !IsDigit(At(s, 0)) then Read(NoMax, s)
    else match ReadInt(s)
      case Refused => Refused
      case Read(n, rest) =>
        Read(if n == 0xFFFF_FFFF_FFFF_FFFF || n > MAX_REPETITION_THRESHOLD then NoMax
          else Max(n), SkipSpace(rest, nested))
  }

  /** What follows the minimum: nothing, or a comma and the maximum. */
  function ReadComma(s: Text, min: nat, nested: bool): (r: Reading<Bound>)
    ensures r.Read? ==> |r.rest| <= |s|
  {
    if Is(s, 0, '}') then Read(Max(min), s)
    else if Is(s, 0, ',') then ReadMax(SkipSpace(s[1..], nested), nested)
    else Refused
  }

  /** What follows the minimum, and the closing brace. */
  function ReadBrace(s: Text, min: nat, nested: bool): (r: Reading<Times>)
    ensures r.Read? ==> |r.rest| <= |s|
  {
    match ReadComma(s, min, nested)
    case Refused => Refused
    case Read(max, rest) =>
      if Is(rest, 0, '}') && min <= MAX_REPETITION_THRESHOLD then Read(Times(min, max), SkipSpace(rest[1..], nested))
        else Refused
  }

  /** {m}, {m,} or {m,n}, behind the brace. Too large a minimum is refused, too large a maximum taken for none. */
  function ReadBounds(s: Text, nested: bool): (r: Reading<Times>)
    ensures r.Read? ==> |r.rest| <= |s|
  {
    match ReadInt(SkipSpace(s, nested))
    case Refused => Refused
    case Read(min, rest) => ReadBrace(SkipSpace(rest, nested), min, nested)
  }

  predicate IsPostfix(c: Byte) {
    c == '*' as int || c == '+' as int || c == '?' as int || c == '{' as int
  }

  function ReadPostfix(s: Text, nested: bool): (r: Reading<Times>)
    requires s != []
    ensures r.Read? ==> |r.rest| < |s|
  {
    if Is(s, 0, '{') then ReadBounds(s[1..], nested)
    else Read(Times(if Is(s, 0, '+') then 1 else 0, if Is(s, 0, '?') then Max(1) else NoMax), SkipSpace(s[1..], nested))
  }

  // ---------------------------------------------------------------------------------------
  // Sequences, alternates, rules, grammars
  // ---------------------------------------------------------------------------------------

  /** The items from here on, behind those of `acc`. An operator applies to the last item. */
  function ReadSequence(s: Text, nested: bool, vocab: Vocab, acc: Sequence): (r: Reading<Sequence>)
    requires SequenceFits(acc)
    ensures r.Read? ==> |r.rest| <= |s| && SequenceFits(r.value)
    decreases |s|, 1
  {
    var c := At(s, 0);
    if StartsTerminal(c) then
      match ReadTerminal(s, vocab)
      case Refused => Refused
      case Read(els, rest) => ReadSequence(SkipSpace(rest, nested), nested, vocab, Append(acc, Terminal(els)))
    else if IsWordChar(c) then
      var n := NameLength(s);
      ReadSequence(SkipSpace(s[n..], nested), nested, vocab, Append(acc, Named(s[..n])))
    else if c == '(' as int then
      match ReadGroup(s, nested, vocab)
      case Refused => Refused
      case Read(alternates, rest) => ReadSequence(rest, nested, vocab, Append(acc, Group(alternates)))
    else if IsPostfix(c) then
      match ReadPostfix(s, nested)
      case Refused => Refused
      case Read(times, rest) =>
        if acc.Nothing? then Refused
        else ReadSequence(rest, nested, vocab, Append(acc.front, Repeat(acc.item, times.min, times.max)))
    else
      Read(acc, s)
  }

  /** ( alternates ) */
  function ReadGroup(s: Text, nested: bool, vocab: Vocab): (r: Reading<Alternates>)
    requires Is(s, 0, '(')
    ensures r.Read? ==> |r.rest| < |s| && AlternatesFit(r.value)
    decreases |s|, 0
  {
    match ReadAlternates(SkipSpace(s[1..], true), true, vocab)
    case Refused => Refused
    case Read(alternates, rest) => if Is(rest, 0, ')') then Read(alternates, SkipSpace(rest[1..], nested)) else Refused
  }

  function ReadAlternates(s: Text, nested: bool, vocab: Vocab): (r: Reading<Alternates>)
    ensures r.Read? ==> |r.rest| <= |s| && AlternatesFit(r.value)
    decreases |s|, 3
  {
    match ReadSequence(s, nested, vocab, Nothing)
    case Refused => Refused
    case Read(sequence, rest) => ReadMore(rest, nested, vocab, One(sequence))
  }

  /** Further alternates behind those of `acc`. */
  function ReadMore(s: Text, nested: bool, vocab: Vocab, acc: Alternates): (r: Reading<Alternates>)
    requires AlternatesFit(acc)
    ensures r.Read? ==> |r.rest| <= |s| && AlternatesFit(r.value)
    decreases |s|, 2
  {
    if !Is(s, 0, '|') then Read(acc, s)
    else match ReadSequence(SkipSpace(s[1..], true), nested, vocab, Nothing)
      case Refused => Refused
      case Read(sequence, rest) => ReadMore(rest, nested, vocab, Or(acc, sequence))
  }

  /** The rest behind the end of the line, which must be here. */
  function ReadLineEnd(s: Text): (r: Reading<()>)
    ensures r.Read? ==> |r.rest| <= |s|
  {
    if Is(s, 0, '\r') then Read((), s[if Is(s, 1, '\n') then 2 else 1..])
    else if Is(s, 0, '\n') then Read((), s[1..])
    else if At(s, 0) == 0 then Read((), s)
    else Refused
  }

  /** What a name is defined as, to the end of the line. */
  function ReadBody(s: Text, name: Name, vocab: Vocab): (r: Reading<Definition>)
    requires UNDERSCORE !in name
    ensures r.Read? ==> |r.rest| <= |s| && DefinitionFits(r.value)
  {
    match ReadAlternates(s, false, vocab)
    case Refused => Refused
    case Read(alternates, s2) =>
      match ReadLineEnd(s2)
      case Refused => Refused
      case Read(_, s3) => Read(Definition(name, alternates), SkipSpace(s3, true))
  }

  predicate DefinesAhead(s: Text) {
    Is(s, 0, ':') && Is(s, 1, ':') && Is(s, 2, '=')
  }

  /** name ::= alternates, to the end of the line. */
  function ReadRule(s: Text, vocab: Vocab): (r: Reading<Definition>)
    ensures r.Read? ==> |r.rest| < |s| && DefinitionFits(r.value)
  {
    var n := NameLength(s);
    var s1 := SkipSpace(s[n..], false);
    if n == 0 || !DefinesAhead(s1) then Refused else ReadBody(SkipSpace(s1[3..], true), s[..n], vocab)
  }

  /** The definitions from here to the end of the text, behind those of `acc`. */
  function ReadRules(s: Text, vocab: Vocab, acc: seq<Definition>): (r: Reading<seq<Definition>>)
    requires DefinitionsFit(acc)
    ensures r.Read? ==> DefinitionsFit(r.value)
    decreases |s|
  {
    if At(s, 0) == 0 then Read(acc, s)
    else match ReadRule(s, vocab)
      case Refused => Refused
      case Read(definition, rest) => ReadRules(rest, vocab, acc + [definition])
  }

  function ReadGrammar(s: Text, vocab: Vocab): (r: Reading<seq<Definition>>)
    ensures r.Read? ==> DefinitionsFit(r.value)
  {
    ReadRules(SkipSpace(s, true), vocab, [])
  }
}
