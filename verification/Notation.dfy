/**
  The notation for grammars, as it is written: characters in all their spellings, literals, classes, tokens,
  operators, groups, blanks and comments. `Text...` says what is written, `Tree...` what is meant by it.
  */
module Notation {
  import opened GrammarElements
  import opened Repetition
  import opened Utf8
  import opened GrammarSyntax

  // ---------------------------------------------------------------------------------------
  // Blanks and comments
  // ---------------------------------------------------------------------------------------

  /** Blanks between items; where lines may end, also ends of lines and comments up to them. */
  predicate IsGap(g: Text, newlineOk: bool)
    decreases |g|, 0
  {
    g == [] ||
    if g[0] == 35 then newlineOk && InComment(g[1..])
    else (g[0] == 32 || g[0] == 9 || (newlineOk && (g[0] == 10 || g[0] == 13))) && IsGap(g[1..], newlineOk)
  }

  /** The rest of a comment, the end of its line, and what follows. */
  predicate InComment(g: Text)
    decreases |g|, 1
  {
    g != [] && g[0] != 0 && if g[0] == 10 || g[0] == 13 then IsGap(g, true) else InComment(g[1..])
  }

  /** A comment at the end of a rule, without the end of the line. */
  predicate IsRemark(c: Text) {
    c == [] || (c[0] == 35 && forall i :: 0 <= i < |c| ==> c[i] != 0 && c[i] != 10 && c[i] != 13)
  }

  // ---------------------------------------------------------------------------------------
  // Characters
  // ---------------------------------------------------------------------------------------

  /**
    A character is written as it is, by a short escape, or by hexadecimal digits, each of which can be a
    capital. Bytes that are no UTF-8 stand for something as well.
    */
  datatype Form = Raw | Short | Hex(upper: seq<bool>) | Loose(bytes: Text)

  datatype Letter = Letter(code: nat, form: Form)

  function HexByte(d: nat, upper: bool): Byte
    requires d < 16
  {
    if d < 10 then 48 + d else if upper then 55 + d else 87 + d
  }

  function HexText(n: nat, upper: seq<bool>): Text {
    if upper == [] then []
    else HexText(n / 16, upper[..|upper| - 1]) + [HexByte(n % 16, upper[|upper| - 1])]
  }

  function Power16(size: nat): nat {
    if size == 0 then 1 else 16 * Power16(size - 1)
  }

  /** The characters with a short escape: tab, line feed, carriage return, and those with a meaning of their own. */
  predicate HasShort(c: nat) {
    c == 9 || c == 10 || c == 13 || c == 34 || c == 45 || c == 91 || c == 92 || c == 93
  }

  /** What is written behind the backslash: t, n, r, or the character itself. */
  function ShortName(c: nat): Byte
    requires HasShort(c)
  {
    if c == 9 then 116 else if c == 10 then 110 else if c == 13 then 114 else c
  }

  /** x for two digits, u for four, U for eight. */
  function HexMark(size: nat): Byte {
    if size == 2 then 120 else if size == 4 then 117 else 85
  }

  /** A first byte and as many more as it announces, whatever they are. */
  predicate IsLoose(bytes: Text) {
    bytes != [] && 0 !in bytes && |bytes| == if LengthOf(bytes[0]) == 0 then 1 else LengthOf(bytes[0])
  }

  /** The payload bits of the bytes. */
  function LooseCode(bytes: Text): nat
    requires IsLoose(bytes)
  {
    Collect(bytes[1..], LeadValue(bytes[0], |bytes| - 1), |bytes| - 1).value
  }

  /** A class ends at a bracket, a literal at a quote. */
  function Closing(inClass: bool): Byte {
    if inClass then 93 else 34
  }

  predicate LetterShows(l: Letter, inClass: bool) {
    match l.form
    case Raw => Scalar(l.code) && l.code != 92 && l.code != Closing(inClass)
    case Short => HasShort(l.code)
    case Hex(upper) => (|upper| == 2 || |upper| == 4 || |upper| == 8) && l.code < Power16(|upper|)
    case Loose(bytes) =>
      IsLoose(bytes) && l.code == LooseCode(bytes) && bytes[0] != 92 && bytes[0] != Closing(inClass)
  }

  function TextOfLetter(l: Letter, inClass: bool): Text
    requires LetterShows(l, inClass)
  {
    match l.form
    case Raw => Encode(l.code)
    case Short => [92, ShortName(l.code)]
    case Hex(upper) => [92, HexMark(|upper|)] + HexText(l.code, upper)
    case Loose(bytes) => bytes
  }

  // ---------------------------------------------------------------------------------------
  // Terminals
  // ---------------------------------------------------------------------------------------

  predicate LettersShow(letters: seq<Letter>) {
    forall i :: 0 <= i < |letters| ==> LetterShows(letters[i], false)
  }

  function TextOfLetters(letters: seq<Letter>): Text
    requires LettersShow(letters)
  {
    if letters == [] then [] else TextOfLetter(letters[0], false) + TextOfLetters(letters[1..])
  }

  /** One element for each character. */
  function TreeOfLetters(letters: seq<Letter>): (els: seq<Element>)
    ensures |els| == |letters| && forall i :: 0 <= i < |els| ==> els[i] == Element(CHAR, letters[i].code)
  {
    seq(|letters|, i requires 0 <= i < |letters| => Element(CHAR, letters[i].code))
  }

  /** A part of a class: one character, or all from one to another. */
  datatype Range = Only(lo: Letter) | Span(lo: Letter, hi: Letter)

  predicate RangeShows(r: Range) {
    LetterShows(r.lo, true) && (r.Span? ==> LetterShows(r.hi, true))
  }

  /** The text of the part starts with this byte. */
  predicate StartsWith(r: Range, b: Byte)
    requires RangeShows(r)
  {
    TextOfLetter(r.lo, true)[..1] == [b]
  }

  /** A hyphen behind a single character makes a range of it, unless the hyphen is the last of the class. */
  predicate RangesShow(ranges: seq<Range>, single: bool)
    decreases |ranges|
  {
    ranges != [] ==>
      && RangeShows(ranges[0])
      && (single && StartsWith(ranges[0], 45) ==> |ranges| == 1 && ranges[0].Only?)
      && RangesShow(ranges[1..], ranges[0].Only?)
  }

  /** A class that starts with a caret is inverse. */
  predicate ClassShows(inverse: bool, ranges: seq<Range>) {
    RangesShow(ranges, false) && (!inverse && ranges != [] ==> !StartsWith(ranges[0], 94))
  }

  function TextOfRange(r: Range): Text
    requires RangeShows(r)
  {
    if r.Only? then TextOfLetter(r.lo, true) else TextOfLetter(r.lo, true) + ([45] + TextOfLetter(r.hi, true))
  }

  function TextOfRanges(ranges: seq<Range>, single: bool): Text
    requires RangesShow(ranges, single)
    decreases |ranges|
  {
    if ranges == [] then [] else TextOfRange(ranges[0]) + TextOfRanges(ranges[1..], ranges[0].Only?)
  }

  function TreeOfRange(kind: GreType, r: Range): seq<Element> {
    if r.Only? then [Element(kind, r.lo.code)] else [Element(kind, r.lo.code), Element(CHAR_RNG_UPPER, r.hi.code)]
  }

  function TreeOfRanges(kind: GreType, ranges: seq<Range>): seq<Element>
    decreases |ranges|
  {
    if ranges == [] then [] else TreeOfRange(kind, ranges[0]) + TreeOfRanges(CHAR_ALT, ranges[1..])
  }

  function ClassStart(inverse: bool): GreType {
    if inverse then CHAR_NOT else CHAR
  }

  // ---------------------------------------------------------------------------------------
  // Operators
  // ---------------------------------------------------------------------------------------

  /** A decimal number, perhaps with zeros in front. */
  datatype Numeral = Numeral(zeros: nat, value: nat)

  function TextOfNumeral(n: Numeral): Text {
    seq(n.zeros, _ => 48) + Decimal(n.value)
  }

  /** * + ? {m} {m,} {m,n}, with blanks inside the braces. */
  datatype Operator =
    | Star
    | Plus
    | Optional
    | Exactly(g1: Text, min: Numeral, g2: Text)
    | AtLeast(g1: Text, min: Numeral, g2: Text, g3: Text)
    | Between(g1: Text, min: Numeral, g2: Text, g3: Text, max: Numeral, g4: Text)

  predicate OperatorShows(op: Operator, nested: bool) {
    match op
    case Exactly(g1, min, g2) => IsGap(g1, nested) && IsGap(g2, nested) && min.value <= MAX_REPETITION_THRESHOLD
    case AtLeast(g1, min, g2, g3) =>
      IsGap(g1, nested) && IsGap(g2, nested) && IsGap(g3, nested) && min.value <= MAX_REPETITION_THRESHOLD
    case Between(g1, min, g2, g3, max, g4) =>
      IsGap(g1, nested) && IsGap(g2, nested) && IsGap(g3, nested) && IsGap(g4, nested)
      && min.value <= MAX_REPETITION_THRESHOLD && max.value < 0x1_0000_0000_0000_0000
    case _ => true
  }

  function TextOfOperator(op: Operator): Text {
    match op
    case Star => [42]
    case Plus => [43]
    case Optional => [63]
    case Exactly(g1, min, g2) => [123] + (g1 + (TextOfNumeral(min) + (g2 + [125])))
    case AtLeast(g1, min, g2, g3) => [123] + (g1 + (TextOfNumeral(min) + (g2 + ([44] + (g3 + [125])))))
    case Between(g1, min, g2, g3, max, g4) =>
      [123] + (g1 + (TextOfNumeral(min) + (g2 + ([44] + (g3 + (TextOfNumeral(max) + (g4 + [125])))))))
  }

  /** A maximum that is too large stands for none. */
  function TimesOfOperator(op: Operator): Times {
    match op
    case Star => Times(0, NoMax)
    case Plus => Times(1, NoMax)
    case Optional => Times(0, Max(1))
    case Exactly(_, min, _) => Times(min.value, Max(min.value))
    case AtLeast(_, min, _, _) => Times(min.value, NoMax)
    case Between(_, min, _, _, max, _) =>
      Times(min.value, if max.value > MAX_REPETITION_THRESHOLD then NoMax else Max(max.value))
  }

  // ---------------------------------------------------------------------------------------
  // Items, lines of items, choices
  // ---------------------------------------------------------------------------------------

  datatype Writing =
    | Quoted(letters: seq<Letter>)
    | Class(inverse: bool, ranges: seq<Range>)
    | Dot
    | TokenId(inverse: bool, id: Numeral)
    | TokenText(inverse: bool, text: Text)
    | Ref(name: Name)
    | Paren(open: Text, choices: Choices)
    | Repeated(item: Writing, gap: Text, op: Operator)

  datatype Line = Empty | Next(front: Line, item: Writing, gap: Text)

  datatype Choices = Sole(line: Line) | Bar(front: Choices, gap: Text, line: Line)

  /**
    name ::= choices, a comment, the end of the line, and blank lines; `end` is LF, CR LF or CR, or nothing at
    the end of the text.
    */
  datatype Statement = Statement(
    name: Name, before: Text, after: Text, choices: Choices, remark: Text, end: Text, blank: Text)

  predicate NameShows(name: Name) {
    name != [] && forall i :: 0 <= i < |name| ==> IsWordChar(name[i])
  }

  function TokenBrackets(text: Text): Text {
    [60] + (text + [62])
  }

  /** The text of a token has no closing bracket, does not look like an id, and is exactly one token. */
  predicate TokenShows(text: Text, vocab: Vocab) {
    && vocab.Vocab? && 0 !in text && 62 !in text && (text != [] ==> text[0] != 91)
    && |vocab.tokenize(TokenBrackets(text))| == 1 && vocab.tokenize(TokenBrackets(text))[0] >= 0
  }

  predicate StartsWithName(w: Writing) {
    if w.Repeated? then StartsWithName(w.item) else w.Ref?
  }

  predicate Shows(w: Writing, nested: bool, vocab: Vocab)
    decreases w, 0
  {
    match w
    case Quoted(letters) => LettersShow(letters)
    case Class(inverse, ranges) => ClassShows(inverse, ranges)
    case Dot => true
    case TokenId(_, id) => id.value < 0x1_0000_0000_0000_0000
    case TokenText(_, text) => TokenShows(text, vocab)
    case Ref(name) => NameShows(name)
    case Paren(open, choices) => IsGap(open, true) && ChoicesShow(choices, true, vocab)
    case Repeated(item, gap, op) => Shows(item, nested, vocab) && IsGap(gap, nested) && OperatorShows(op, nested)
  }

  /** The line ends with a name, with no blank behind it. */
  predicate EndsWithName(l: Line) {
    l.Next? && l.item.Ref? && l.gap == []
  }

  /** Two names have a blank between them. */
  predicate LineShows(l: Line, nested: bool, vocab: Vocab)
    decreases l, 0
  {
    l.Next? ==>
      && LineShows(l.front, nested, vocab) && Shows(l.item, nested, vocab) && IsGap(l.gap, nested)
      && !(EndsWithName(l.front) && StartsWithName(l.item))
  }

  predicate ChoicesShow(c: Choices, nested: bool, vocab: Vocab)
    decreases c, 0
  {
    LineShows(c.line, nested, vocab) && (c.Bar? ==> ChoicesShow(c.front, nested, vocab) && IsGap(c.gap, true))
  }

  function TextOf(w: Writing, nested: bool, vocab: Vocab): Text
    requires Shows(w, nested, vocab)
    decreases w, 0
  {
    match w
    case Quoted(letters) => [34] + (TextOfLetters(letters) + [34])
    case Class(inverse, ranges) => (if inverse then [91, 94] else [91]) + (TextOfRanges(ranges, false) + [93])
    case Dot => [46]
    case TokenId(inverse, id) => (if inverse then [33] else []) + ([60, 91] + (TextOfNumeral(id) + [93, 62]))
    case TokenText(inverse, text) => (if inverse then [33] else []) + TokenBrackets(text)
    case Ref(name) => name
    case Paren(open, choices) => [40] + (open + (TextOfChoices(choices, true, vocab) + [41]))
    case Repeated(item, gap, op) => TextOf(item, nested, vocab) + (gap + TextOfOperator(op))
  }

  function TextOfLine(l: Line, nested: bool, vocab: Vocab): Text
    requires LineShows(l, nested, vocab)
    decreases l, 0
  {
    if l.Empty? then []
    else TextOfLine(l.front, nested, vocab) + (TextOf(l.item, nested, vocab) + l.gap)
  }

  function TextOfChoices(c: Choices, nested: bool, vocab: Vocab): Text
    requires ChoicesShow(c, nested, vocab)
    decreases c, 0
  {
    if c.Sole? then TextOfLine(c.line, nested, vocab)
    else TextOfChoices(c.front, nested, vocab) + ([124] + (c.gap + TextOfLine(c.line, nested, vocab)))
  }

  function TreeOf(w: Writing, nested: bool, vocab: Vocab): (item: Item)
    requires Shows(w, nested, vocab)
    decreases w, 0
  {
    match w
    case Quoted(letters) => Terminal(TreeOfLetters(letters))
    case Class(inverse, ranges) => Terminal(TreeOfRanges(ClassStart(inverse), ranges))
    case Dot => Terminal([Element(CHAR_ANY, 0)])
    case TokenId(inverse, id) => Terminal([Element(if inverse then TOKEN_NOT else TOKEN, id.value % 0x1_0000_0000)])
    case TokenText(inverse, text) =>
      Terminal([Element(if inverse then TOKEN_NOT else TOKEN, vocab.tokenize(TokenBrackets(text))[0])])
    case Ref(name) => Named(name)
    case Paren(_, choices) => Group(TreeOfChoices(choices, true, vocab))
    case Repeated(item, _, op) =>
      Repeat(TreeOf(item, nested, vocab), TimesOfOperator(op).min, TimesOfOperator(op).max)
  }

  function TreeOfLine(l: Line, nested: bool, vocab: Vocab): Sequence
    requires LineShows(l, nested, vocab)
    decreases l, 0
  {
    if l.Empty? then Nothing else Then(TreeOfLine(l.front, nested, vocab), TreeOf(l.item, nested, vocab))
  }

  function TreeOfChoices(c: Choices, nested: bool, vocab: Vocab): Alternates
    requires ChoicesShow(c, nested, vocab)
    decreases c, 0
  {
    if c.Sole? then One(TreeOfLine(c.line, nested, vocab))
    else Or(TreeOfChoices(c.front, nested, vocab), TreeOfLine(c.line, nested, vocab))
  }

  // ---------------------------------------------------------------------------------------
  // Grammars
  // ---------------------------------------------------------------------------------------

  predicate EndShows(end: Text, blank: Text) {
    && IsGap(blank, true)
    && (end == [10] || end == [13, 10] || (end == [13] && (blank != [] ==> blank[0] != 10)) || end == blank == [])
  }

  predicate StatementShows(d: Statement, vocab: Vocab) {
    && NameShows(d.name) && IsGap(d.before, false) && IsGap(d.after, true)
    && ChoicesShow(d.choices, false, vocab) && IsRemark(d.remark) && EndShows(d.end, d.blank)
  }

  /** Every rule but the last ends its line. */
  predicate AllShow(ds: seq<Statement>, vocab: Vocab) {
    && (forall i :: 0 <= i < |ds| ==> StatementShows(ds[i], vocab))
    && forall i :: 0 <= i < |ds| - 1 ==> ds[i].end != []
  }

  /** What follows the choices of a rule. */
  function TextOfEnd(d: Statement): Text {
    d.remark + (d.end + d.blank)
  }

  function TextOfStatement(d: Statement, vocab: Vocab): Text
    requires StatementShows(d, vocab)
  {
    d.name + (d.before + ([58, 58, 61] + (d.after + (TextOfChoices(d.choices, false, vocab) + TextOfEnd(d)))))
  }

  function TextOfGrammar(ds: seq<Statement>, vocab: Vocab): Text
    requires AllShow(ds, vocab)
  {
    if ds == [] then [] else TextOfStatement(ds[0], vocab) + TextOfGrammar(ds[1..], vocab)
  }

  function TreeOfStatement(d: Statement, vocab: Vocab): Definition
    requires StatementShows(d, vocab)
  {
    Definition(d.name, TreeOfChoices(d.choices, false, vocab))
  }

  function TreesOf(ds: seq<Statement>, vocab: Vocab): (trees: seq<Definition>)
    requires AllShow(ds, vocab)
    ensures |trees| == |ds| && forall i :: 0 <= i < |ds| ==> trees[i] == TreeOfStatement(ds[i], vocab)
  {
    seq(|ds|, i requires 0 <= i < |ds| => TreeOfStatement(ds[i], vocab))
  }
}
