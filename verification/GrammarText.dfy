/**
  Reading a grammar text byte by byte. Every method gives up (false) where the original throws, and
  is proved against what the text says and what the table makes of it.
  */
module GrammarText {
  import opened GrammarElements
  import opened Language
  import opened Repetition
  import opened Utf8
  import opened GrammarSyntax
  import opened RuleTable
  import opened GrammarParser
  import opened GrammarMeaning
  import opened GrammarLanguage
  import opened ParseSteps

  /** A method finds what the text says, and stops behind it. */
  ghost predicate Gives<T>(r: Reading<T>, ok: bool, value: T, rest: Text) {
    if ok then r == Read(value, rest) else r.Refused?
  }

  lemma Suffix(src: Text, pos: nat, k: nat)
    requires pos + k <= |src|
    ensures src[pos..][k..] == src[pos + k..]
  {
  }

  // ---------------------------------------------------------------------------------------
  // Single items
  // ---------------------------------------------------------------------------------------

  /** Skips a comment, which starts here. */
  method ParseComment(src: Text, from: nat) returns (pos: nat)
    requires from < |src| && Is(src, from, '#')
    ensures from < pos <= |src| && src[pos..] == SkipLine(src[from..][1..])
  {
    Suffix(src, from, 1);
    pos := from;
    while At(src, pos) != 0 && !Is(src, pos, '\r') && !Is(src, pos, '\n')
      invariant from <= pos <= |src| && SkipLine(src[pos..]) == SkipLine(src[from..])
      decreases |src| - pos
    {
      Suffix(src, pos, 1);
      pos := pos + 1;
    }
  }

  /** Skips blanks and comments. */
  method ParseSpace(src: Text, from: nat, newlineOk: bool) returns (pos: nat)
    requires from <= |src|
    ensures from <= pos <= |src| && src[pos..] == SkipSpace(src[from..], newlineOk)
  {
    pos := from;
    while IsBlank(At(src, pos), newlineOk)
      invariant from <= pos <= |src| && SkipSpace(src[pos..], newlineOk) == SkipSpace(src[from..], newlineOk)
      decreases |src| - pos
    {
      if Is(src, pos, '#') {
        pos := ParseComment(src, pos);
      } else {
        Suffix(src, pos, 1);
        pos := pos + 1;
      }
    }
  }

  method ParseName(src: Text, from: nat) returns (ok: bool, pos: nat)
    requires from <= |src|
    ensures pos == from + NameLength(src[from..]) <= |src| && (ok <==> pos > from)
    ensures UNDERSCORE !in src[from..pos] && src[from..][..pos - from] == src[from..pos]
  {
    pos := from;
    while IsWordChar(At(src, pos))
      invariant from <= pos <= |src| && forall i :: from <= i < pos ==> IsWordChar(src[i])
      decreases |src| - pos
    {
      pos := pos + 1;
    }
    ok := pos != from;
    NameStops(src, from, pos);
  }

  lemma NameStops(src: Text, from: nat, pos: nat)
    requires from <= pos <= |src| && (forall i :: from <= i < pos ==> IsWordChar(src[i])) && !IsWordChar(At(src, pos))
    ensures NameLength(src[from..]) == pos - from
  {
    assert At(src[from..], pos - from) == At(src, pos);
    assert At(src[from..], NameLength(src[from..])) == At(src, from + NameLength(src[from..]));
  }

  /** A name and the blanks behind it. */
  method ParseNamed(src: Text, from: nat, newlineOk: bool) returns (name: Name, pos: nat)
    requires from <= |src|
    ensures name == src[from..][..NameLength(src[from..])] && UNDERSCORE !in name && from + |name| <= pos <= |src|
    ensures src[pos..] == SkipSpace(src[from..][NameLength(src[from..])..], newlineOk)
  {
    var _, nameEnd := ParseName(src, from);
    Suffix(src, from, nameEnd - from);
    name := src[from..nameEnd];
    pos := ParseSpace(src, nameEnd, newlineOk);
  }

  method ParseDigits(src: Text, from: nat) returns (value: int, pos: nat)
    requires from <= |src|
    ensures from <= pos <= |src| && !IsDigit(At(src, pos)) && forall i :: from <= i < pos ==> IsDigit(src[i])
    ensures value == ValueOf(src[from..pos])
  {
    pos, value := from, 0;
    while IsDigit(At(src, pos))
      invariant from <= pos <= |src| && forall i :: from <= i < pos ==> IsDigit(src[i])
      invariant value == ValueOf(src[from..pos])
      decreases |src| - pos
    {
      assert src[from..pos + 1][..pos - from] == src[from..pos];
      value := value * 10 + (src[pos] as int - 48);
      pos := pos + 1;
    }
  }

  /** A decimal number; beyond 64 bits the conversion fails. */
  method ParseInt(src: Text, from: nat) returns (ok: bool, value: nat, pos: nat)
    requires from <= |src|
    ensures from <= pos <= |src| && Gives(ReadInt(src[from..]), ok, value, src[pos..])
  {
    var n;
    n, pos := ParseDigits(src, from);
    DigitsStop(src, from, pos);
    DigitsValue(src[from..pos]);
    value := n;
    ok := pos != from && value < 0x1_0000_0000_0000_0000;
  }

  lemma DigitsStop(src: Text, from: nat, pos: nat)
    requires from <= pos <= |src| && (forall i :: from <= i < pos ==> IsDigit(src[i])) && !IsDigit(At(src, pos))
    ensures DigitCount(src[from..]) == pos - from
    ensures src[from..][..pos - from] == src[from..pos] && src[from..][pos - from..] == src[pos..]
  {
    Suffix(src, from, pos - from);
    assert At(src[from..], pos - from) == At(src, pos);
    assert At(src[from..], DigitCount(src[from..])) == At(src, from + DigitCount(src[from..]));
  }

  lemma HexStep(a: int, d: int)
    ensures (a % 0x1_0000_0000 * 16 + d) % 0x1_0000_0000 == (a * 16 + d) % 0x1_0000_0000
  {
    var q := a / 0x1_0000_0000;
    assert a == q * 0x1_0000_0000 + a % 0x1_0000_0000;
    assert a * 16 + d == (q * 16) * 0x1_0000_0000 + (a % 0x1_0000_0000 * 16 + d);
  }

  /** The original keeps 32 bits. */
  method ParseHex(src: Text, from: nat, size: nat) returns (ok: bool, value: nat, pos: nat)
    requires from <= |src|
    ensures from <= pos <= |src| && Gives(ReadHex(src[from..], size), ok, value, src[pos..])
  {
    pos, value := from, 0;
    while pos < from + size && At(src, pos) != 0
      invariant from <= pos <= |src| && pos <= from + size
      invariant forall i :: from <= i < pos ==> HexDigit(src[i]) >= 0
      invariant value == HexValue(src[from..pos]) % 0x1_0000_0000
      decreases |src| - pos
    {
      var d := HexDigit(src[pos]);
      if d < 0 {
        break;
      }
      assert src[from..pos + 1][..pos - from] == src[from..pos];
      HexStep(HexValue(src[from..pos]), d);
      value := (value * 16 + d) % 0x1_0000_0000;
      pos := pos + 1;
    }
    ok := pos == from + size;
    HexStops(src, from, size, pos);
  }

  /** The digits stop where the loop stops. */
  lemma HexStops(src: Text, from: nat, size: nat, pos: nat)
    requires from <= pos <= |src| && pos <= from + size && forall i :: from <= i < pos ==> HexDigit(src[i]) >= 0
    requires pos < from + size ==> HexDigit(At(src, pos)) < 0
    ensures HexAhead(src[from..], size) <==> pos == from + size
    ensures src[from..][..pos - from] == src[from..pos] && src[from..][pos - from..] == src[pos..]
  {
    Suffix(src, from, pos - from);
    if pos < from + size && pos < |src| {
      assert src[from..][pos - from] == src[pos];
    }
  }

  /** One character of the text, which is taken to be UTF-8. */
  method DecodeOne(src: Text, from: nat) returns (value: nat, pos: nat)
    requires from < |src| && src[from] != 0
    ensures from < pos <= |src| && ReadRaw(src[from..]) == Read(value, src[pos..])
  {
    var first := src[from];
    var len := if first / 16 < 12 then 1 else LengthOf(first);
    value := LeadValue(first, len - 1);
    pos := from + 1;
    Suffix(src, from, 1);
    while pos < from + len && At(src, pos) != 0
      invariant from < pos <= |src| && pos <= from + len
      invariant var t := Collect(src[pos..], value, from + len - pos); Read(t.value, t.rest) == ReadRaw(src[from..])
    {
      Suffix(src, pos, 1);
      value := ShiftIn(value, src[pos]);
      pos := pos + 1;
    }
  }

  /** A character or an escape. */
  method ParseChar(src: Text, from: nat) returns (ok: bool, value: nat, pos: nat)
    requires from <= |src|
    ensures from <= pos <= |src| && Gives(ReadChar(src[from..]), ok, value, src[pos..])
  {
    value, pos := 0, from;
    if Is(src, from, '\\') {
      var c := At(src, from + 1);
      if c == 0 {
        return false, 0, from;
      }
      Suffix(src, from, 2);
      if c == 'x' as int {
        ok, value, pos := ParseHex(src, from + 2, 2);
      } else if c == 'u' as int {
        ok, value, pos := ParseHex(src, from + 2, 4);
      } else if c == 'U' as int {
        ok, value, pos := ParseHex(src, from + 2, 8);
      } else if c == 't' as int {
        return true, 9, from + 2;
      } else if c == 'r' as int {
        return true, 13, from + 2;
      } else if c == 'n' as int {
        return true, 10, from + 2;
      } else if c == '\\' as int || c == '"' as int || c == '[' as int || c == ']' as int || c == '-' as int {
        return true, c, from + 2;
      } else {
        return false, 0, from;
      }
    } else if At(src, from) != 0 {
      value, pos := DecodeOne(src, from);
      ok := true;
    } else {
      ok := false;
    }
  }

  /** <[id]>, behind the two brackets. */
  method ParseTokenId(src: Text, from: nat) returns (ok: bool, token: nat, pos: nat)
    requires from + 2 <= |src| && Is(src, from, '<') && Is(src, from + 1, '[')
    ensures from <= pos <= |src| && Gives(ReadToken(src[from..], NoVocab), ok, token, src[pos..])
  {
    Suffix(src, from, 2);
    ok, token, pos := ParseInt(src, from + 2);
    token := token % 0x1_0000_0000;
    if !ok || !Is(src, pos, ']') || !Is(src, pos + 1, '>') {
      return false, 0, from;
    }
    Suffix(src, pos, 2);
    pos := pos + 2;
  }

  /** The place of the closing bracket, or of the end. */
  method ParseTokenEnd(src: Text, from: nat) returns (pos: nat)
    requires from <= |src|
    ensures pos == from + TokenLength(src[from..]) <= |src|
  {
    pos := from;
    while At(src, pos) != 0 && !Is(src, pos, '>')
      invariant from <= pos <= |src| && pos - from + TokenLength(src[pos..]) == TokenLength(src[from..])
      decreases |src| - pos
    {
      Suffix(src, pos, 1);
      pos := pos + 1;
    }
  }

  /** <[id]> or <text>; the text must be exactly one token. */
  method ParseToken(src: Text, from: nat, vocab: Vocab) returns (ok: bool, token: nat, pos: nat)
    requires from <= |src|
    ensures from <= pos <= |src| && Gives(ReadToken(src[from..], vocab), ok, token, src[pos..])
  {
    if Is(src, from, '<') && Is(src, from + 1, '[') {
      ok, token, pos := ParseTokenId(src, from);
    } else if Is(src, from, '<') && vocab.Vocab? {
      ok, token, pos := ParseTokenText(src, from, vocab);
    } else {
      return false, 0, from;
    }
  }

  /** <text> */
  method ParseTokenText(src: Text, from: nat, vocab: Vocab) returns (ok: bool, token: nat, pos: nat)
    requires from < |src| && Is(src, from, '<') && !Is(src, from + 1, '[') && vocab.Vocab?
    ensures from <= pos <= |src| && Gives(ReadToken(src[from..], vocab), ok, token, src[pos..])
  {
    Suffix(src, from, 1);
    pos := ParseTokenEnd(src, from + 1);
    if !Is(src, pos, '>') {
      return false, 0, from;
    }
    Suffix(src, from, pos + 1 - from);
    assert src[from..][..pos + 1 - from] == src[from..pos + 1];
    pos := pos + 1;
    var tokens := vocab.tokenize(src[from..pos]);
    if |tokens| != 1 {
      return false, 0, from;
    }
    return true, tokens[0], pos;
  }

  /** "literal", behind its quote: one CHAR per character. */
  method ParseLiteral(src: Text, from: nat) returns (ok: bool, pos: nat, sym: seq<Element>)
    requires from <= |src|
    ensures from <= pos <= |src| && Gives(ReadLiteral(src[from..], []), ok, sym, src[pos..])
  {
    pos, sym := from, [];
    while !Is(src, pos, '"')
      invariant from <= pos <= |src| && AllChars(sym)
      invariant ReadLiteral(src[pos..], sym) == ReadLiteral(src[from..], [])
      decreases |src| - pos
    {
      if At(src, pos) == 0 {
        return false, pos, sym;
      }
      var good, value, next := ParseChar(src, pos);
      if !good {
        return false, pos, sym;
      }
      pos := next;
      sym := sym + [Element(CHAR, value)];
    }
    Suffix(src, pos, 1);
    ok, pos := true, pos + 1;
  }

  /** One character or range of a class. */
  method ParseClassItem(src: Text, from: nat, startType: GreType, els: seq<Element>)
    returns (ok: bool, pos: nat, sym: seq<Element>)
    requires from <= |src| && IsClass(els, startType)
    ensures from <= pos <= |src| && Gives(ReadClassItem(src[from..], startType, els), ok, sym, src[pos..])
  {
    var good, value, next := ParseChar(src, from);
    if !good {
      return false, from, els;
    }
    var e := Element(if els == [] then startType else CHAR_ALT, value);
    ClassPush(els, startType, e);
    ok, pos, sym := ParseUpper(src, next, startType, els + [e]);
  }

  method ParseUpper(src: Text, from: nat, startType: GreType, els: seq<Element>)
    returns (ok: bool, pos: nat, sym: seq<Element>)
    requires from <= |src| && OpenClass(els, startType)
    ensures from <= pos <= |src| && Gives(ReadUpper(src[from..], startType, els), ok, sym, src[pos..])
  {
    ok, pos, sym := true, from, els;
    if Is(src, from, '-') && !Is(src, from + 1, ']') {
      Suffix(src, from, 1);
      var value;
      ok, value, pos := ParseChar(src, from + 1);
      sym := els + [Element(CHAR_RNG_UPPER, value)];
    }
  }

  /** [class] or [^class], behind the bracket and the mark. */
  method ParseClass(src: Text, from: nat, startType: GreType) returns (ok: bool, pos: nat, sym: seq<Element>)
    requires from <= |src| && (startType.CHAR? || startType.CHAR_NOT?)
    ensures from <= pos <= |src| && Gives(ReadClass(src[from..], startType, []), ok, sym, src[pos..])
  {
    pos, sym := from, [];
    while !Is(src, pos, ']')
      invariant from <= pos <= |src| && IsClass(sym, startType)
      invariant ReadClass(src[pos..], startType, sym) == ReadClass(src[from..], startType, [])
      decreases |src| - pos
    {
      var good, next, grown := ParseClassItem(src, pos, startType, sym);
      if !good {
        return false, pos, sym;
      }
      pos, sym := next, grown;
    }
    Suffix(src, pos, 1);
    ok, pos := true, pos + 1;
  }

  /** A literal, a class, a token or a dot. */
  method ParseTerminal(src: Text, from: nat, vocab: Vocab) returns (ok: bool, pos: nat, sym: seq<Element>)
    requires from < |src| && StartsTerminal(At(src, from))
    ensures from <= pos <= |src| && Gives(ReadTerminal(src[from..], vocab), ok, sym, src[pos..])
  {
    pos, sym := from, [];
    Suffix(src, from, 1);
    if Is(src, from, '"') {
      ok, pos, sym := ParseLiteral(src, from + 1);
    } else if Is(src, from, '[') {
      if Is(src, from + 1, '^') {
        Suffix(src, from, 2);
        ok, pos, sym := ParseClass(src, from + 2, CHAR_NOT);
      } else {
        ok, pos, sym := ParseClass(src, from + 1, CHAR);
      }
    } else if Is(src, from, '.') {
      ok, pos, sym := true, from + 1, [Element(CHAR_ANY, 0)];
    } else {
      var kind := TOKEN;
      if Is(src, from, '!') {
        kind := TOKEN_NOT;
        pos := pos + 1;
      }
      var token;
      ok, token, pos := ParseToken(src, pos, vocab);
      sym := [Element(kind, token)];
    }
  }

  /** The maximum behind the comma, if there is one. */
  method ParseMax(src: Text, from: nat, isNested: bool) returns (ok: bool, pos: nat, max: Bound)
    requires from <= |src|
    ensures from <= pos <= |src| && Gives(ReadMax(src[from..], isNested), ok, max, src[pos..])
  {
    pos, max, ok := from, NoMax, true;
    if IsDigit(At(src, pos)) {
      var value;
      ok, value, pos := ParseInt(src, pos);
      if !ok {
        return;
      }
      // the largest 64-bit number is the mark for no maximum
      max := if value == 0xFFFF_FFFF_FFFF_FFFF || value > MAX_REPETITION_THRESHOLD then NoMax else Max(value);
      pos := ParseSpace(src, pos, isNested);
    }
  }

  /** What follows the minimum. */
  method ParseComma(src: Text, from: nat, min: nat, isNested: bool) returns (ok: bool, pos: nat, max: Bound)
    requires from <= |src|
    ensures from <= pos <= |src| && Gives(ReadComma(src[from..], min, isNested), ok, max, src[pos..])
  {
    if Is(src, from, '}') {
      return true, from, Max(min);
    }
    if !Is(src, from, ',') {
      return false, from, NoMax;
    }
    Suffix(src, from, 1);
    pos := ParseSpace(src, from + 1, isNested);
    ok, pos, max := ParseMax(src, pos, isNested);
  }

  /** What follows the minimum, and the closing brace. */
  method ParseBrace(src: Text, from: nat, min: nat, isNested: bool) returns (ok: bool, pos: nat, max: Bound)
    requires from <= |src|
    ensures from <= pos <= |src| && Gives(ReadBrace(src[from..], min, isNested), ok, Times(min, max), src[pos..])
  {
    ok, pos, max := ParseComma(src, from, min, isNested);
    ok := ok && Is(src, pos, '}') && min <= MAX_REPETITION_THRESHOLD;
    if ok {
      Suffix(src, pos, 1);
      pos := ParseSpace(src, pos + 1, isNested);
    }
  }

  /** {m}, {m,} or {m,n}, behind the brace. Too many repetitions are refused, or taken for no maximum. */
  method ParseBounds(src: Text, from: nat, isNested: bool) returns (ok: bool, pos: nat, min: nat, max: Bound)
    requires from <= |src|
    ensures from <= pos <= |src| && Gives(ReadBounds(src[from..], isNested), ok, Times(min, max), src[pos..])
  {
    max := NoMax;
    pos := ParseSpace(src, from, isNested);
    ok, min, pos := ParseInt(src, pos);
    if ok {
      pos := ParseSpace(src, pos, isNested);
      ok, pos, max := ParseBrace(src, pos, min, isNested);
    }
  }

  // ---------------------------------------------------------------------------------------
  // Symbols of an alternate
  // ---------------------------------------------------------------------------------------

  /** A postfix operator: '*', '+', '?' or a brace. */
  method ParseTimes(src: Text, from: nat, isNested: bool) returns (ok: bool, pos: nat, min: nat, max: Bound)
    requires from < |src| && IsPostfix(At(src, from))
    ensures from <= pos <= |src| && Gives(ReadPostfix(src[from..], isNested), ok, Times(min, max), src[pos..])
  {
    Suffix(src, from, 1);
    if Is(src, from, '{') {
      ok, pos, min, max := ParseBounds(src, from + 1, isNested);
    } else {
      pos := ParseSpace(src, from + 1, isNested);
      min := if Is(src, from, '+') then 1 else 0;
      max := if Is(src, from, '?') then Max(1) else NoMax;
      ok := true;
    }
  }

  /** A repetition of the last symbol. A minimum above the maximum is given up. */
  method ParseRepetition(p: Parser, ruleName: Name, rule: seq<Element>, last: nat, nPrevRules: nat, min: nat,
                         max: Bound) returns (ok: bool, res: seq<Element>, nRules: nat)
    requires p.Valid() && UNDERSCORE !in ruleName && last <= |rule| && IsBody(rule[last..], |p.symbolIds|) &&
      nPrevRules >= 1
    modifies p
    ensures p.Valid() && Grown(old(p.State()), p.State())
    ensures var o := Repeated(old(p.State()), ruleName, rule[last..], nPrevRules, min, max);
      if ok then last < |rule| && last <= |res| && res[..last] == rule[..last] &&
        o == Output(p.State(), res[last..], nRules)
      else o.Rejected?
  {
    if max.Max? && min > max.value {
      return false, rule, nPrevRules;
    }
    ok, res, nRules := p.HandleRepetitions(ruleName, rule, last, nPrevRules, min, max);
  }

  /** A postfix operator and what it makes of the last symbol. */
  method ParsePostfix(p: Parser, vocab: Vocab, src: Text, from: nat, isNested: bool, ruleName: Name, rule: seq<Element>,
                      last: nat, nPrevRules: nat, ghost t0: Table, ghost before: seq<Element>, ghost acc: Sequence)
    returns (ok: bool, pos: nat, res: seq<Element>, nRules: nat, ghost acc': Sequence)
    requires p.Valid() && UNDERSCORE !in ruleName && from < |src| && IsPostfix(At(src, from)) && Sound(t0)
    requires Stage(t0, ruleName, before, acc, p.State(), rule, last, nPrevRules)
    modifies p
    ensures p.Valid() && Grown(old(p.State()), p.State())
    ensures from <= pos <= |src| && (ok ==> from < pos)
    ensures ok ==> Stage(t0, ruleName, before, acc', p.State(), res, last, nRules)
    ensures Step(t0, ruleName, src[from..], isNested, vocab, acc, ok, src[pos..], acc')
  {
    acc', res, nRules := acc, rule, nPrevRules;
    StageOk(t0, ruleName, before, acc, p.State(), rule, last, nPrevRules);
    var min, max;
    ok, pos, min, max := ParseTimes(src, from, isNested);
    if ok {
      ok, res, nRules := ParseRepetition(p, ruleName, rule, last, nPrevRules, min, max);
    }
    if ok {
      StageSome(t0, ruleName, before, acc, old(p.State()), rule, last, nPrevRules);
      acc' := RepeatLast(acc, Times(min, max));
      StageRepeat(t0, ruleName, before, acc, old(p.State()), rule, last, nPrevRules, Times(min, max), p.State(), res,
        nRules);
      TakePostfix(t0, ruleName, acc, src[from..], isNested, vocab, Times(min, max), src[pos..]);
    } else {
      PostfixFails(t0, ruleName, before, acc, old(p.State()), rule, last, nPrevRules, src[from..], isNested, vocab);
    }
  }

  /** name: a reference to the rule of that name. */
  method ParseReference(p: Parser, vocab: Vocab, src: Text, from: nat, isNested: bool, ruleName: Name,
                        rule: seq<Element>, ghost last: nat, ghost nPrevRules: nat, ghost t0: Table,
                        ghost before: seq<Element>, ghost acc: Sequence)
    returns (pos: nat, res: seq<Element>, ghost acc': Sequence)
    requires p.Valid() && from < |src| && !StartsTerminal(At(src, from)) && IsWordChar(At(src, from))
    requires Stage(t0, ruleName, before, acc, p.State(), rule, last, nPrevRules)
    modifies p
    ensures p.Valid() && Grown(old(p.State()), p.State())
    ensures from < pos <= |src| && Stage(t0, ruleName, before, acc', p.State(), res, |rule|, 1)
    ensures Step(t0, ruleName, src[from..], isNested, vocab, acc, true, src[pos..], acc')
  {
    var name;
    name, pos := ParseNamed(src, from, isNested);
    var refRuleId := p.GetSymbolId(name);
    res := rule + [Element(RULE_REF, refRuleId)];
    acc' := Then(acc, Named(name));
    TakeReference(t0, ruleName, before, acc, old(p.State()), rule, last, nPrevRules, src[from..], isNested, vocab,
      name);
  }

  /** A literal, a class, the dot or a token. */
  method ParseSymbol(vocab: Vocab, src: Text, from: nat, isNested: bool, ghost ruleName: Name, rule: seq<Element>,
                     ghost last: nat, ghost nPrevRules: nat, ghost t0: Table, ghost t: Table,
                     ghost before: seq<Element>, ghost acc: Sequence)
    returns (ok: bool, pos: nat, res: seq<Element>, ghost acc': Sequence)
    requires from < |src| && StartsTerminal(At(src, from)) &&
      Stage(t0, ruleName, before, acc, t, rule, last, nPrevRules)
    ensures from <= pos <= |src| && (ok ==> from < pos && Stage(t0, ruleName, before, acc', t, res, |rule|, 1))
    ensures Step(t0, ruleName, src[from..], isNested, vocab, acc, ok, src[pos..], acc')
  {
    var next, sym;
    ok, next, sym := ParseTerminal(src, from, vocab);
    pos, res, acc' := from, rule, acc;
    if ok {
      TakeTerminal(t0, ruleName, before, acc, t, rule, last, nPrevRules, src[from..], isNested, vocab, sym,
        src[next..]);
      res, acc' := rule + sym, Then(acc, Terminal(sym));
      pos := ParseSpace(src, next, isNested);
    }
  }

  predicate StartsItem(c: Byte) {
    StartsTerminal(c) || IsWordChar(c) || c == '(' as int || IsPostfix(c)
  }

  /** One symbol, or one operator. */
  method ParseItem(p: Parser, vocab: Vocab, src: Text, from: nat, isNested: bool, ruleName: Name, rule: seq<Element>,
                   last: nat, nPrevRules: nat, ghost t0: Table, ghost before: seq<Element>, ghost acc: Sequence)
    returns (ok: bool, pos: nat, res: seq<Element>, last': nat, nRules: nat, ghost acc': Sequence)
    requires p.Valid() && UNDERSCORE !in ruleName && from < |src| && StartsItem(At(src, from)) && Sound(t0)
    requires Stage(t0, ruleName, before, acc, p.State(), rule, last, nPrevRules)
    modifies p
    ensures p.Valid() && Grown(old(p.State()), p.State())
    ensures from <= pos <= |src| && (ok ==> from < pos)
    ensures ok ==> Stage(t0, ruleName, before, acc', p.State(), res, last', nRules)
    ensures Step(t0, ruleName, src[from..], isNested, vocab, acc, ok, src[pos..], acc')
    decreases |src| - from, 1
  {
    var c := At(src, from);
    last', nRules := |rule|, 1;
    if StartsTerminal(c) {
      ok, pos, res, acc' := ParseSymbol(vocab, src, from, isNested, ruleName, rule, last, nPrevRules, t0, p.State(),
        before, acc);
    } else if IsWordChar(c) {
      pos, res, acc' := ParseReference(p, vocab, src, from, isNested, ruleName, rule, last, nPrevRules, t0, before,
        acc);
      ok := true;
    } else if c == '(' as int {
      ok, pos, nRules, res, acc' := ParseGroup(p, vocab, src, from, isNested, ruleName, rule, last, nPrevRules, t0,
        before, acc);
    } else {
      ok, pos, res, nRules, acc' := ParsePostfix(p, vocab, src, from, isNested, ruleName, rule, last, nPrevRules, t0,
        before, acc);
      last' := last;
    }
  }

  /** The symbols of one alternate, appended to the rule. */
  method ParseSequence(p: Parser, vocab: Vocab, src: Text, from: nat, ruleName: Name, before: seq<Element>,
                       isNested: bool) returns (ok: bool, pos: nat, rule: seq<Element>)
    requires p.Valid() && UNDERSCORE !in ruleName && from <= |src|
    modifies p
    ensures p.Valid() && Grown(old(p.State()), p.State()) && from <= pos <= |src|
    ensures before <= rule
    ensures SequenceGives(old(p.State()), ruleName, ReadSequence(src[from..], isNested, vocab, Nothing), ok, p.State(),
                          rule[|before|..], src[pos..])
    decreases |src| - from, 2
  {
    ghost var t0 := p.State();
    ghost var acc: Sequence := Nothing;
    pos, rule, ok := from, before, true;
    var last: nat := |rule|;
    var nPrevRules := 1;
    while StartsItem(At(src, pos))
      invariant from <= pos <= |src| && p.Valid() && Grown(t0, p.State())
      invariant Stage(t0, ruleName, before, acc, p.State(), rule, last, nPrevRules)
      invariant ReadSequence(src[pos..], isNested, vocab, acc) == ReadSequence(src[from..], isNested, vocab, Nothing)
      decreases |src| - pos
    {
      ghost var t := p.State();
      var next, grown, last', count;
      ghost var acc';
      ok, next, grown, last', count, acc' := ParseItem(p, vocab, src, pos, isNested, ruleName, rule, last, nPrevRules,
        t0, before, acc);
      GrownTransitive(t0, t, p.State());
      if !ok {
        return;
      }
      pos, rule, last, nPrevRules, acc := next, grown, last', count, acc';
    }
    BuiltCompiles(t0, ruleName, acc, p.State(), rule[|before|..], last - |before|, nPrevRules);
  }

  /** A group becomes a rule of its own. */
  method ParseGroup(p: Parser, vocab: Vocab, src: Text, from: nat, isNested: bool, ruleName: Name, rule: seq<Element>,
                    ghost last: nat, ghost nPrevRules: nat, ghost t0: Table, ghost before: seq<Element>,
                    ghost acc: Sequence)
    returns (ok: bool, pos: nat, nRules: nat, res: seq<Element>, ghost acc': Sequence)
    requires p.Valid() && UNDERSCORE !in ruleName && from < |src| && Is(src, from, '(')
    requires Stage(t0, ruleName, before, acc, p.State(), rule, last, nPrevRules)
    modifies p
    ensures p.Valid() && Grown(old(p.State()), p.State())
    ensures from <= pos <= |src| && (ok ==> from < pos)
    ensures ok ==> Stage(t0, ruleName, before, acc', p.State(), res, |rule|, nRules)
    ensures Step(t0, ruleName, src[from..], isNested, vocab, acc, ok, src[pos..], acc')
    decreases |src| - from, 0
  {
    var subRuleId;
    ok, pos, nRules, subRuleId := ParseGroupRule(p, vocab, src, from, isNested, ruleName);
    res, acc' := rule, acc;
    if ok {
      ghost var alternates := ReadGroup(src[from..], isNested, vocab).value;
      res, acc' := rule + [Element(RULE_REF, subRuleId)], Then(acc, Group(alternates));
      TakeGroup(t0, ruleName, before, acc, old(p.State()), rule, last, nPrevRules, src[from..], isNested, vocab,
                p.State(), [Element(RULE_REF, subRuleId)], nRules);
    } else {
      GroupFails(t0, ruleName, before, acc, old(p.State()), rule, last, nPrevRules, src[from..], isNested, vocab);
    }
  }

  /** The closing parenthesis. */
  method ParseClose(src: Text, from: nat, isNested: bool) returns (ok: bool, pos: nat)
    requires from <= |src|
    ensures from <= pos <= |src| && (ok <==> Is(src, from, ')'))
    ensures src[pos..] == if ok then SkipSpace(src[from..][1..], isNested) else src[from..]
  {
    ok, pos := Is(src, from, ')'), from;
    if ok {
      Suffix(src, from, 1);
      pos := ParseSpace(src, from + 1, isNested);
    }
  }

  /** The rule of a group. */
  method ParseGroupRule(p: Parser, vocab: Vocab, src: Text, from: nat, isNested: bool, ruleName: Name)
    returns (ok: bool, pos: nat, nRules: nat, subRuleId: nat)
    requires p.Valid() && UNDERSCORE !in ruleName && from < |src| && Is(src, from, '(')
    modifies p
    ensures p.Valid() && Grown(old(p.State()), p.State()) && from < pos <= |src|
    ensures GroupGives(old(p.State()), ruleName, ReadGroup(src[from..], isNested, vocab), ok, p.State(), subRuleId,
      nRules, src[pos..])
    decreases |src| - from, -1
  {
    Suffix(src, from, 1);
    pos := ParseSpace(src, from + 1, true);
    var nRulesBefore := |p.symbolIds|;
    ok, pos, subRuleId := ParseInner(p, vocab, src, pos, ruleName);
    GroupDone(old(p.State()), ruleName, src[from..], isNested, vocab, ok, p.State(), src[pos..]);
    var n := |p.symbolIds| - nRulesBefore;
    nRules := if n < 1 then 1 else n;
    if ok {
      ok, pos := ParseClose(src, pos, isNested);
    }
  }

  /** What stands between the parentheses. */
  method ParseInner(p: Parser, vocab: Vocab, src: Text, from: nat, ruleName: Name)
    returns (ok: bool, pos: nat, subRuleId: nat)
    requires p.Valid() && UNDERSCORE !in ruleName && from <= |src|
    modifies p
    ensures p.Valid() && Grown(old(p.State()), p.State()) && from <= pos <= |src| && subRuleId == |old(p.symbolIds)|
    ensures AlternatesDefine(Generate(old(p.State()), ruleName), ruleName, ReadAlternates(src[from..], true, vocab), ok,
                             subRuleId, p.State(), src[pos..])
    decreases |src| - from, 5
  {
    subRuleId := p.GenerateSymbolId(ruleName);
    ok, pos := ParseAlternates(p, vocab, src, from, ruleName, subRuleId, true);
    GroupKeeps(old(p.State()), ruleName, ReadAlternates(src[from..], true, vocab), ok, p.State(), src[pos..]);
  }

  // ---------------------------------------------------------------------------------------
  // Alternates, rules, grammars
  // ---------------------------------------------------------------------------------------

  /** All alternates of a rule or of a group, which become the definition of `ruleId`. */
  method ParseAlternates(p: Parser, vocab: Vocab, src: Text, from: nat, ruleName: Name, ruleId: nat, isNested: bool)
    returns (ok: bool, pos: nat)
    requires p.Valid() && UNDERSCORE !in ruleName && from <= |src| && ruleId < |p.symbolIds|
    modifies p
    ensures p.Valid() && from <= pos <= |src|
    ensures AlternatesDefine(old(p.State()), ruleName, ReadAlternates(src[from..], isNested, vocab), ok, ruleId,
      p.State(), src[pos..])
    decreases |src| - from, 4
  {
    var rule;
    ok, pos, rule := ParseBodies(p, vocab, src, from, ruleName, isNested);
    if ok {
      ghost var a := ReadAlternates(src[from..], isNested, vocab).value;
      CompileAlternatesOk(old(p.State()), ruleName, a);
      CloseRule(rule, |p.symbolIds|);
      p.AddRule(ruleId, rule + [Element(END, 0)]);
    }
  }

  /** The alternates, still without the END. */
  method ParseBodies(p: Parser, vocab: Vocab, src: Text, from: nat, ruleName: Name, isNested: bool)
    returns (ok: bool, pos: nat, rule: seq<Element>)
    requires p.Valid() && UNDERSCORE !in ruleName && from <= |src|
    modifies p
    ensures p.Valid() && Grown(old(p.State()), p.State()) && from <= pos <= |src|
    ensures AlternatesGive(old(p.State()), ruleName, ReadAlternates(src[from..], isNested, vocab), ok, p.State(), rule,
      src[pos..])
    decreases |src| - from, 3
  {
    ghost var t0, s := p.State(), src[from..];
    ok, pos, rule := ParseSequence(p, vocab, src, from, ruleName, [], isNested);
    FirstAlternate(t0, ruleName, s, isNested, vocab, ok, p.State(), rule, src[pos..]);
    if !ok {
      return;
    }
    ghost var acc := One(ReadSequence(s, isNested, vocab, Nothing).value);
    while Is(src, pos, '|')
      invariant from <= pos <= |src| && p.Valid() && Grown(t0, p.State()) && AlternatesFit(acc) && ok
      invariant AlternatesGive(t0, ruleName, Read(acc, src[pos..]), true, p.State(), rule, src[pos..])
      invariant ReadMore(src[pos..], isNested, vocab, acc) == ReadAlternates(s, isNested, vocab)
      decreases |src| - pos
    {
      ok, pos, rule, acc := ParseAlternate(p, vocab, src, pos, ruleName, rule, isNested, t0, acc);
      if !ok {
        return;
      }
    }
  }

  /** A bar and the alternate behind it. */
  method ParseAlternate(p: Parser, vocab: Vocab, src: Text, from: nat, ruleName: Name, front: seq<Element>,
                        isNested: bool, ghost t0: Table, ghost acc: Alternates)
    returns (ok: bool, pos: nat, rule: seq<Element>, ghost acc': Alternates)
    requires p.Valid() && UNDERSCORE !in ruleName && from < |src| && Is(src, from, '|') && AlternatesFit(acc) &&
      Grown(t0, p.State())
    requires AlternatesGive(t0, ruleName, Read(acc, src[from..]), true, p.State(), front, src[from..])
    modifies p
    ensures p.Valid() && Grown(t0, p.State()) && from < pos <= |src|
    ensures if ok then
        && AlternatesFit(acc') && AlternatesGive(t0, ruleName, Read(acc', src[pos..]), true, p.State(), rule,
            src[pos..])
        && ReadMore(src[from..], isNested, vocab, acc) == ReadMore(src[pos..], isNested, vocab, acc')
      else AlternatesFail(t0, ruleName, ReadMore(src[from..], isNested, vocab, acc))
    decreases |src| - from, 0
  {
    ghost var t, s := p.State(), src[from..];
    var before := front + [Element(ALT, 0)];
    Suffix(src, from, 1);
    pos := ParseSpace(src, from + 1, true);
    ok, pos, rule := ParseSequence(p, vocab, src, pos, ruleName, before, isNested);
    ghost var els := rule[|before|..];
    assert rule == before + els;
    NextAlternate(t0, ruleName, s, isNested, vocab, acc, t, front, ok, p.State(), els, src[pos..]);
    GrownTransitive(t0, t, p.State());
    ghost var r := ReadSequence(SkipSpace(s[1..], true), isNested, vocab, Nothing);
    acc' := if ok then Or(acc, r.value) else acc;
  }

  /** The end of the line. */
  method ParseLineEnd(src: Text, from: nat) returns (ok: bool, pos: nat)
    requires from <= |src|
    ensures from <= pos <= |src| && Gives(ReadLineEnd(src[from..]), ok, (), src[pos..])
  {
    ok, pos := true, from;
    if Is(src, pos, '\r') {
      pos := pos + if Is(src, pos + 1, '\n') then 2 else 1;
    } else if Is(src, pos, '\n') {
      pos := pos + 1;
    } else if At(src, pos) != 0 {
      ok := false;
    }
  }

  /** ::= */
  method ParseDefines(src: Text, from: nat) returns (ok: bool, pos: nat)
    requires from <= |src|
    ensures from <= pos <= |src| && (ok <==> DefinesAhead(src[from..]))
    ensures ok ==> src[pos..] == SkipSpace(src[from..][3..], true)
  {
    ok, pos := Is(src, from, ':') && Is(src, from + 1, ':') && Is(src, from + 2, '='), from;
    if ok {
      Suffix(src, from, 3);
      pos := ParseSpace(src, from + 3, true);
    }
  }

  /** name ::= alternates, to the end of the line. */
  method ParseRule(p: Parser, vocab: Vocab, src: Text, from: nat) returns (ok: bool, pos: nat)
    requires p.Valid() && from <= |src|
    modifies p
    ensures p.Valid() && from <= pos <= |src| && (ok ==> from < pos)
    ensures RuleGives(old(p.State()), ReadRule(src[from..], vocab), ok, p.State(), src[pos..])
  {
    var name;
    name, pos := ParseNamed(src, from, false);
    if name == [] {
      return false, pos;
    }
    var ruleId := p.GetSymbolId(name);
    ok, pos := ParseDefines(src, pos);
    if ok {
      ok, pos := ParseBody(p, vocab, src, pos, name, ruleId, old(p.State()));
    }
  }

  /** What the name is defined as. */
  method ParseBody(p: Parser, vocab: Vocab, src: Text, from: nat, name: Name, ruleId: nat, ghost t: Table)
    returns (ok: bool, pos: nat)
    requires p.Valid() && from <= |src| && UNDERSCORE !in name
    requires p.State() == Lookup(t, name) && ruleId == p.symbolIds[name] < |p.symbolIds|
    modifies p
    ensures p.Valid() && from <= pos <= |src|
    ensures RuleGives(t, ReadBody(src[from..], name, vocab), ok, p.State(), src[pos..])
  {
    ok, pos := ParseAlternates(p, vocab, src, from, name, ruleId, false);
    if ok {
      ok, pos := ParseLineEnd(src, pos);
    }
    if ok {
      pos := ParseSpace(src, pos, true);
    }
  }

  /** Every rule must be defined; an undefined reference is reported with the name of the symbol. */
  method AllDefined(p: Parser) returns (ok: bool)
    requires p.Valid()
    ensures ok <==> IsDefined(p.rules)
  {
    for q := 0 to |p.rules|
      invariant DefinedBelow(p.rules, q)
    {
      var rule := p.rules[q];
      if rule == [] {
        return false;
      }
      for i := 0 to |rule|
        invariant RefsDefinedUpTo(p.rules, rule, i)
      {
        if rule[i].kind.RULE_REF? {
          if rule[i].value >= |p.rules| || p.rules[rule[i].value] == [] {
            // the search for the name finds one, so the exception is thrown
            assert HasName(p.symbolIds, rule[i].value);
            return false;
          }
        }
      }
    }
    ok := true;
  }

  /** The rules of the text, one after the other. */
  method ParseRules(p: Parser, vocab: Vocab, src: Text) returns (ok: bool)
    requires p.Valid()
    modifies p
    ensures p.Valid()
    ensures var r := ReadGrammar(src, vocab);
      if ok then r.Read? && CompileRules(old(p.State()), r.value) == Final(p.State()) else RulesFail(old(p.State()), r)
  {
    ghost var t0 := p.State();
    ghost var acc: seq<Definition> := [];
    Suffix(src, 0, 0);
    var pos := ParseSpace(src, 0, true);
    while At(src, pos) != 0
      invariant p.Valid() && pos <= |src| && DefinitionsFit(acc) && CompileRules(t0, acc) == Final(p.State())
      invariant ReadRules(src[pos..], vocab, acc) == ReadGrammar(src, vocab)
      decreases |src| - pos
    {
      ghost var t, s := p.State(), src[pos..];
      ok, pos := ParseRule(p, vocab, src, pos);
      NextRule(t0, s, vocab, acc, t, ok, p.State(), src[pos..]);
      if !ok {
        return;
      }
      acc := acc + [ReadRule(s, vocab).value];
    }
    ok := true;
  }

  /** Every rule derives what the last definition of its name says. */
  ghost predicate MeansText(t: Table, ds: seq<Definition>) {
    forall i: nat, w: Word :: DefinedLast(ds, i) ==> MeansDefinition(t, ds[i], w)
  }

  ghost predicate MeansDefinition(t: Table, d: Definition, w: Word) {
    d.name in t.ids && (InRule(t.rules, t.ids[d.name], w) <==> InAlternates(t, d.alternates, w))
  }

  /**
    Parses a grammar. It succeeds exactly if the text can be read, no repetition is rejected, and all
    rules are defined. The table is then well formed, and its rules mean what the text says; for a new
    parser they have exactly the languages of the text.
    */
  method Parse(p: Parser, vocab: Vocab, src: Text) returns (ok: bool)
    requires p.Valid()
    modifies p
    ensures p.Valid()
    ensures ok ==> WellFormed(p.rules)
    ensures !ok ==> p.rules == []
    ensures var r := ReadGrammar(src, vocab);
      ok <==>
        && r.Read? && CompileRules(old(p.State()), r.value).Final?
        && IsDefined(CompileRules(old(p.State()), r.value).table.rules)
    ensures ok ==> CompileRules(old(p.State()), ReadGrammar(src, vocab).value) == Final(p.State())
    ensures ok ==> MeansText(p.State(), ReadGrammar(src, vocab).value)
    ensures ok && old(p.State()) == Table(map[], []) ==> HasLanguage(p.State(), ReadGrammar(src, vocab).value)
  {
    ghost var ds := ReadGrammar(src, vocab);
    ok := ParseRules(p, vocab, src);
    if ok {
      forall i: nat, w: Word | DefinedLast(ds.value, i)
        ensures MeansDefinition(p.State(), ds.value[i], w)
      {
        TableMeansText(old(p.State()), ds.value, i, w);
      }
      if old(p.State()) == Table(map[], []) {
        TableIsLanguage(p.State(), ds.value);
      }
      ok := AllDefined(p);
    }
    if !ok {
      p.rules := [];
    }
  }
}
