/**
  The language of a grammar, independent of any automaton: which words can be derived from a
  position of a rule, from a rule and from a stack of positions. The index `n` bounds the number
  of rule applications in the derivation, so the definitions are well founded for every grammar.
  */
module Language {
  import opened GrammarElements

  /** `w` derives from the elements of `els` from `i` to the end of the alternate. */
  ghost predicate Derives(rules: Rules, els: seq<Element>, i: nat, w: Word, n: nat)
    requires i <= |els|
    decreases n, |els| - i + 1, 1
  {
    if i == |els| || IsEndOfSequence(els[i]) then
      w == []
    else if els[i].kind.RULE_REF? then
      exists k: nat, m: nat :: RefCut(rules, els, i, w, n, k, m)
    else if IsClassStart(els[i]) then
      w != [] && ClassAccepts(els, i, w[0]) && Derives(rules, els, SymbolEnd(els, i), w[1..], n)
    else
      false  // tokens match whole tokens, not code points
  }

  /** The first `k` code points derive from the reference at `i`, the others from what follows it. */
  ghost predicate RefCut(rules: Rules, els: seq<Element>, i: nat, w: Word, n: nat, k: nat, m: nat)
    requires i < |els| && els[i].kind.RULE_REF?
    decreases n, |els| - i + 1, 0
  {
    && k <= |w| && m <= n
    && RuleDerives(rules, els[i].value, w[..k], m) && Derives(rules, els, i + 1, w[k..], n - m)
  }

  /** `w` derives from one of the alternates of rule `q`. */
  ghost predicate RuleDerives(rules: Rules, q: nat, w: Word, n: nat)
    decreases n, 0, 1
  {
    n > 0 && exists a: nat :: AlternateDerives(rules, q, w, n, a)
  }

  ghost predicate AlternateDerives(rules: Rules, q: nat, w: Word, n: nat, a: nat)
    requires n > 0
    decreases n, 0, 0
  {
    q < |rules| && AltStart(rules[q], a) && Derives(rules, rules[q], a, w, n - 1)
  }

  /** The language of a rule. */
  ghost predicate InRule(rules: Rules, q: nat, w: Word) {
    exists n: nat :: RuleDerives(rules, q, w, n)
  }

  /** The language of the rest of an alternate. */
  ghost predicate InSuffix(rules: Rules, els: seq<Element>, i: nat, w: Word)
    requires i <= |els|
  {
    exists n: nat :: Derives(rules, els, i, w, n)
  }

  /** The two ways to cut a word at `k` and at `i`. */
  lemma CutTwice(w: Word, k: nat, i: nat)
    requires k <= i <= |w|
    ensures w[..i][..k] == w[..k] && w[..i][k..] == w[k..][..i - k] && w[k..][i - k..] == w[i..]
  {
  }

  lemma {:induction false} DerivesMonotone(rules: Rules, els: seq<Element>, i: nat, w: Word, n: nat, n': nat)
    requires i <= |els| && n <= n' && Derives(rules, els, i, w, n)
    ensures Derives(rules, els, i, w, n')
    decreases |els| - i
  {
    if i == |els| || IsEndOfSequence(els[i]) {
    } else if els[i].kind.RULE_REF? {
      var k, m := DerivesRefSplit(rules, els, i, w, n);
      DerivesMonotone(rules, els, i + 1, w[k..], n - m, n' - m);
      DerivesRefJoin(rules, els, i, w, k, m, n' - m);
    } else if IsClassStart(els[i]) {
      DerivesMonotone(rules, els, SymbolEnd(els, i), w[1..], n, n');
    }
  }

  lemma DerivesRefSplit(rules: Rules, els: seq<Element>, i: nat, w: Word, n: nat) returns (k: nat, m: nat)
    requires i < |els| && els[i].kind.RULE_REF? && Derives(rules, els, i, w, n)
    ensures k <= |w| && m <= n
    ensures RuleDerives(rules, els[i].value, w[..k], m) && Derives(rules, els, i + 1, w[k..], n - m)
  {
    k, m :| RefCut(rules, els, i, w, n, k, m);
  }

  lemma DerivesRefJoin(rules: Rules, els: seq<Element>, i: nat, w: Word, k: nat, m: nat, n: nat)
    requires i < |els| && els[i].kind.RULE_REF? && k <= |w|
    requires RuleDerives(rules, els[i].value, w[..k], m) && Derives(rules, els, i + 1, w[k..], n)
    ensures Derives(rules, els, i, w, m + n)
  {
    assert m + n - m == n;
    assert RefCut(rules, els, i, w, m + n, k, m);
  }

  lemma DerivesClass(rules: Rules, els: seq<Element>, i: nat, w: Word, n: nat)
    requires i < |els| && IsClassStart(els[i])
    ensures Derives(rules, els, i, w, n) <==>
      w != [] && ClassAccepts(els, i, w[0]) && Derives(rules, els, SymbolEnd(els, i), w[1..], n)
  {
  }

  /** A reference in front of a longer word. */
  lemma RefFront(rules: Rules, els: seq<Element>, i: nat, w: Word, k: nat, m: nat, k': nat, m': nat)
    requires i < |els| && els[i].kind.RULE_REF? && k + k' <= |w|
    requires RuleDerives(rules, els[i].value, w[..k], m) && Derives(rules, els, i + 1, w[k..][..k'], m')
    ensures Derives(rules, els, i, w[..k + k'], m + m') && w[k..][k'..] == w[k + k'..]
  {
    CutTwice(w, k, k + k');
    DerivesRefJoin(rules, els, i, w[..k + k'], k, m, m');
  }

  /** A class in front of a longer word. */
  lemma ClassFront(rules: Rules, els: seq<Element>, i: nat, w: Word, k: nat, m: nat)
    requires i < |els| && IsClassStart(els[i]) && k < |w|
    requires ClassAccepts(els, i, w[0]) && Derives(rules, els, SymbolEnd(els, i), w[1..][..k], m)
    ensures Derives(rules, els, i, w[..k + 1], m) && w[1..][k..] == w[k + 1..]
  {
    CutTwice(w, 1, k + 1);
    DerivesClass(rules, els, i, w[..k + 1], m);
  }

  lemma RuleDerivesAlternate(rules: Rules, q: nat, w: Word, n: nat) returns (a: nat)
    requires RuleDerives(rules, q, w, n)
    ensures n > 0 && q < |rules| && AltStart(rules[q], a) && Derives(rules, rules[q], a, w, n - 1)
  {
    a :| AlternateDerives(rules, q, w, n, a);
  }

  lemma RuleDerivesBy(rules: Rules, q: nat, w: Word, n: nat, a: nat)
    requires q < |rules| && AltStart(rules[q], a) && Derives(rules, rules[q], a, w, n)
    ensures RuleDerives(rules, q, w, n + 1)
  {
    assert AlternateDerives(rules, q, w, n + 1, a);
  }

  lemma RuleDerivesMonotone(rules: Rules, q: nat, w: Word, n: nat, n': nat)
    requires n <= n' && RuleDerives(rules, q, w, n)
    ensures RuleDerives(rules, q, w, n')
  {
    var a := RuleDerivesAlternate(rules, q, w, n);
    DerivesMonotone(rules, rules[q], a, w, n - 1, n' - 1);
    RuleDerivesBy(rules, q, w, n' - 1, a);
  }

  // ---------------------------------------------------------------------------------------
  // Pushdown stacks
  // ---------------------------------------------------------------------------------------

  /** A position inside a rule. The source keeps a pointer to the element. */
  datatype Frame = Frame(rule: nat, idx: nat)

  /** The top of a stack is its last frame. */
  type Stack = seq<Frame>

  predicate InBounds(rules: Rules, f: Frame) {
    f.rule < |rules| && f.idx < |rules[f.rule]|
  }

  function ElementAt(rules: Rules, f: Frame): Element
    requires InBounds(rules, f)
  {
    rules[f.rule][f.idx]
  }

  predicate ValidFrame(rules: Rules, f: Frame) {
    InBounds(rules, f) && IsSymbolStart(ElementAt(rules, f))
  }

  /** Stacks never hold an END, an ALT or the middle of a class. */
  predicate ValidStack(rules: Rules, s: Stack) {
    forall i :: 0 <= i < |s| ==> ValidFrame(rules, s[i])
  }

  function Top(s: Stack): Frame
    requires s != []
  {
    s[|s| - 1]
  }

  function Pop(s: Stack): Stack
    requires s != []
  {
    s[..|s| - 1]
  }

  /** `w` derives from the stack: a part of it from the top frame, the rest from the frames below. */
  ghost predicate StackDerives(rules: Rules, s: Stack, w: Word, n: nat)
    decreases |s|, 1
  {
    if s == [] then w == [] else exists k: nat, m: nat :: StackCut(rules, s, w, n, k, m)
  }

  /** The first `k` code points derive from the top frame, the others from the frames below. */
  ghost predicate StackCut(rules: Rules, s: Stack, w: Word, n: nat, k: nat, m: nat)
    requires s != []
    decreases |s|, 0
  {
    && InBounds(rules, Top(s)) && k <= |w| && m <= n
    && Derives(rules, rules[Top(s).rule], Top(s).idx, w[..k], m) && StackDerives(rules, Pop(s), w[k..], n - m)
  }

  /** The language of a stack. */
  ghost predicate InStack(rules: Rules, s: Stack, w: Word) {
    exists n: nat :: StackDerives(rules, s, w, n)
  }

  /** The language of a set of stacks. */
  ghost predicate InStacks(rules: Rules, stacks: seq<Stack>, w: Word) {
    exists s :: s in stacks && InStack(rules, s, w)
  }

  lemma StackDerivesSplit(rules: Rules, s: Stack, w: Word, n: nat) returns (k: nat, m: nat)
    requires s != [] && StackDerives(rules, s, w, n)
    ensures InBounds(rules, Top(s)) && k <= |w| && m <= n
    ensures Derives(rules, rules[Top(s).rule], Top(s).idx, w[..k], m) && StackDerives(rules, Pop(s), w[k..], n - m)
  {
    k, m :| StackCut(rules, s, w, n, k, m);
  }

  lemma StackDerivesJoin(rules: Rules, s: Stack, w: Word, k: nat, m: nat, n: nat)
    requires s != [] && InBounds(rules, Top(s)) && k <= |w|
    requires Derives(rules, rules[Top(s).rule], Top(s).idx, w[..k], m) && StackDerives(rules, Pop(s), w[k..], n)
    ensures StackDerives(rules, s, w, m + n)
  {
    assert m + n - m == n;
    assert StackCut(rules, s, w, m + n, k, m);
  }

  lemma {:induction false} StackDerivesMonotone(rules: Rules, s: Stack, w: Word, n: nat, n': nat)
    requires n <= n' && StackDerives(rules, s, w, n)
    ensures StackDerives(rules, s, w, n')
    decreases |s|
  {
    if s != [] {
      var k, m := StackDerivesSplit(rules, s, w, n);
      StackDerivesMonotone(rules, Pop(s), w[k..], n - m, n' - m);
      StackDerivesJoin(rules, s, w, k, m, n' - m);
    }
  }
}
