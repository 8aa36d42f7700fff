/**
  The flat representation of a compiled grammar: a rule is a sequence of elements in which
  alternates are separated by ALT and closed by END, and a character class is a run of
  elements (a class start followed by range bounds and further alternatives).
  */
module GrammarElements {

  datatype GreType =
    | END
    | ALT
    | RULE_REF
    | CHAR
    | CHAR_NOT
    | CHAR_RNG_UPPER
    | CHAR_ALT
    | CHAR_ANY
    | TOKEN
    | TOKEN_NOT

  /** `value` is a code point, a rule index or a token id, depending on `kind`. */
  datatype Element = Element(kind: GreType, value: nat)

  type Rule = seq<Element>
  type Rules = seq<Rule>
  type CodePoint = nat
  type Word = seq<CodePoint>

  predicate IsEndOfSequence(e: Element) {
    e.kind.END? || e.kind.ALT?
  }

  /** The elements at which a character class can start. */
  predicate IsClassStart(e: Element) {
    e.kind.CHAR? || e.kind.CHAR_NOT? || e.kind.CHAR_ANY?
  }

  predicate IsToken(e: Element) {
    e.kind.TOKEN? || e.kind.TOKEN_NOT?
  }

  /** The elements a stack frame may point at: the first element of a grammar symbol. */
  predicate IsSymbolStart(e: Element) {
    e.kind.RULE_REF? || IsClassStart(e) || IsToken(e)
  }

  /** The elements that only continue a class. */
  predicate IsContinuation(e: Element) {
    e.kind.CHAR_ALT? || e.kind.CHAR_RNG_UPPER?
  }

  /** A range bound must close a single character; an alternative must extend a class. */
  predicate FollowsWell(els: seq<Element>, i: nat)
    requires i < |els|
  {
    && (els[i].kind.CHAR_RNG_UPPER? ==> i > 0 && (IsClassStart(els[i - 1]) || els[i - 1].kind.CHAR_ALT?))
    && (els[i].kind.CHAR_ALT? ==> i > 0 && (IsClassStart(els[i - 1]) || IsContinuation(els[i - 1])))
  }

  /** Class elements sit behind a class, in a rule or in a rule that is still being built. */
  predicate WellNested(els: seq<Element>) {
    forall i :: 0 <= i < |els| ==> FollowsWell(els, i)
  }

  /** A finished rule: its only END is its last element. */
  predicate WellShaped(rule: Rule) {
    && |rule| > 0
    && (forall i :: 0 <= i < |rule| ==> (rule[i].kind.END? <==> i == |rule| - 1))
    && WellNested(rule)
  }

  predicate RefsBelow(els: seq<Element>, n: nat) {
    forall i :: 0 <= i < |els| && els[i].kind.RULE_REF? ==> els[i].value < n
  }

  predicate WellFormed(rules: Rules) {
    forall r :: 0 <= r < |rules| ==> WellShaped(rules[r]) && RefsBelow(rules[r], |rules|)
  }

  /** Position `a` starts an alternate of the rule. */
  predicate AltStart(rule: Rule, a: nat) {
    a < |rule| && (a == 0 || rule[a - 1].kind.ALT?)
  }

  // ---------------------------------------------------------------------------------------
  // Character classes
  // ---------------------------------------------------------------------------------------

  /** The position behind the class (or the plain symbol) that starts at `i`. */
  function SymbolEnd(els: seq<Element>, i: nat): (j: nat)
    requires i < |els|
    ensures i < j <= |els|
    ensures forall k :: i < k < j ==> IsContinuation(els[k])
    ensures j < |els| ==> !IsContinuation(els[j])
    decreases |els| - i
  {
    if i + 1 < |els| && IsContinuation(els[i + 1]) then SymbolEnd(els, i + 1) else i + 1
  }

  /** Item `j` of a class covers `c`: a range, any character, or one character. */
  predicate ItemCovers(els: seq<Element>, j: nat, c: CodePoint)
    requires j < |els|
  {
    if j + 1 < |els| && els[j + 1].kind.CHAR_RNG_UPPER? then
      els[j].value <= c <= els[j + 1].value
    else
      els[j].kind.CHAR_ANY? || els[j].value == c
  }

  /** Some item of the class at `i` covers `c`. Range bounds are not items of their own. */
  predicate ClassCovers(els: seq<Element>, i: nat, c: CodePoint)
    requires i < |els|
  {
    exists j :: i <= j < SymbolEnd(els, i) && !els[j].kind.CHAR_RNG_UPPER? && ItemCovers(els, j, c)
  }

  /** The class at `i` accepts `c`; CHAR_NOT inverts the class. */
  predicate ClassAccepts(els: seq<Element>, i: nat, c: CodePoint)
    requires i < |els|
  {
    ClassCovers(els, i, c) <==> !els[i].kind.CHAR_NOT?
  }

  /**
    Walks the class at `i`. The verdict is membership in the class; the position reached is the
    end of the class and so does not depend on the character.
    */
  method MatchChar(rule: Rule, i: nat, chr: CodePoint) returns (matched: bool, next: nat)
    requires WellShaped(rule) && i < |rule| && IsClassStart(rule[i])
    ensures matched <==> ClassAccepts(rule, i, chr)
    ensures next == SymbolEnd(rule, i) && next < |rule|
  {
    var isPositive := rule[i].kind.CHAR? || rule[i].kind.CHAR_ANY?;
    var found := false;
    var pos := i;
    ghost var end := SymbolEnd(rule, i);
    assert end < |rule| by { assert rule[|rule| - 1].kind.END?; }
    while true
      invariant i <= pos < end < |rule|
      invariant pos == i || rule[pos].kind.CHAR_ALT?
      invariant found <==> exists j :: i <= j < pos && !rule[j].kind.CHAR_RNG_UPPER? && ItemCovers(rule, j, chr)
      decreases |rule| - pos
    {
      assert FollowsWell(rule, pos + 1);
      if rule[pos + 1].kind.CHAR_RNG_UPPER? {
        assert FollowsWell(rule, pos + 2);
        found := found || rule[pos].value <= chr <= rule[pos + 1].value;
        pos := pos + 2;
      } else if rule[pos].kind.CHAR_ANY? {
        found := true;
        pos := pos + 1;
      } else {
        found := found || rule[pos].value == chr;
        pos := pos + 1;
      }
      if !rule[pos].kind.CHAR_ALT? {
        break;
      }
    }
    matched := found == isPositive;
    next := pos;
  }

  predicate TokenMatches(e: Element, token: nat)
    requires IsToken(e)
  {
    (e.value == token) <==> e.kind.TOKEN?
  }
}
