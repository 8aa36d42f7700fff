/**
  What the rewriting of repetitions means: a symbol repeated between `min` and `max` times becomes
  copies of the symbol and a reference to generated rules.
  */
module Repetition {
  import opened GrammarElements
  import opened Language

  /** Part of an alternate: it holds no END and no ALT, and starts with a whole symbol. */
  predicate IsSymbols(els: seq<Element>) {
    && (forall i :: 0 <= i < |els| ==> !IsEndOfSequence(els[i]))
    && (els != [] ==> !IsContinuation(els[0]))
  }

  // ---------------------------------------------------------------------------------------
  // Concatenation of element sequences is concatenation of languages
  // ---------------------------------------------------------------------------------------

  lemma {:induction false} SymbolEndInPrefix(a: seq<Element>, b: seq<Element>, i: nat)
    requires i < |a| && (b != [] ==> !IsContinuation(b[0]))
    ensures SymbolEnd(a + b, i) == SymbolEnd(a, i)
    decreases |a| - i
  {
    var c := a + b;
    if i + 1 < |a| {
      assert c[i + 1] == a[i + 1];
      if IsContinuation(a[i + 1]) {
        SymbolEndInPrefix(a, b, i + 1);
      }
    } else if b != [] {
      assert c[i + 1] == b[0];
    }
  }

  lemma ClassInPrefix(a: seq<Element>, b: seq<Element>, i: nat, ch: CodePoint)
    requires i < |a| && (b != [] ==> !IsContinuation(b[0]))
    ensures ClassAccepts(a + b, i, ch) <==> ClassAccepts(a, i, ch)
  {
    SymbolEndInPrefix(a, b, i);
    var c := a + b;
    forall j | i <= j < SymbolEnd(a, i)
      ensures c[j] == a[j] && (ItemCovers(c, j, ch) <==> ItemCovers(a, j, ch))
    {
      if j + 1 < |a| {
        assert c[j + 1] == a[j + 1];
      }
    }
  }

  lemma {:induction false} SymbolEndInSuffix(a: seq<Element>, b: seq<Element>, i: nat)
    requires i < |b|
    ensures SymbolEnd(a + b, |a| + i) == |a| + SymbolEnd(b, i)
    decreases |b| - i
  {
    if i + 1 < |b| && IsContinuation(b[i + 1]) {
      SymbolEndInSuffix(a, b, i + 1);
    }
  }

  lemma ClassInSuffix(a: seq<Element>, b: seq<Element>, i: nat, ch: CodePoint)
    requires i < |b|
    ensures ClassAccepts(a + b, |a| + i, ch) <==> ClassAccepts(b, i, ch)
  {
    SymbolEndInSuffix(a, b, i);
    var c := a + b;
    if ClassCovers(b, i, ch) {
      var j :| i <= j < SymbolEnd(b, i) && !b[j].kind.CHAR_RNG_UPPER? && ItemCovers(b, j, ch);
      assert c[|a| + j] == b[j] && ItemCovers(c, |a| + j, ch);
    }
    if ClassCovers(c, |a| + i, ch) {
      var j :| |a| + i <= j < SymbolEnd(c, |a| + i) && !c[j].kind.CHAR_RNG_UPPER? && ItemCovers(c, j, ch);
      assert c[j] == b[j - |a|] && ItemCovers(b, j - |a|, ch);
    }
  }

  /** Behind `a` only `b` matters. */
  lemma {:induction false} DerivesSuffix(rules: Rules, a: seq<Element>, b: seq<Element>, i: nat, w: Word, n: nat)
    requires i <= |b|
    ensures Derives(rules, a + b, |a| + i, w, n) <==> Derives(rules, b, i, w, n)
    decreases n, |b| - i
  {
    var c := a + b;
    if i == |b| || IsEndOfSequence(b[i]) {
    } else if b[i].kind.RULE_REF? {
      if Derives(rules, c, |a| + i, w, n) {
        var k, m := DerivesRefSplit(rules, c, |a| + i, w, n);
        DerivesSuffix(rules, a, b, i + 1, w[k..], n - m);
        DerivesRefJoin(rules, b, i, w, k, m, n - m);
      }
      if Derives(rules, b, i, w, n) {
        var k, m := DerivesRefSplit(rules, b, i, w, n);
        DerivesSuffix(rules, a, b, i + 1, w[k..], n - m);
        DerivesRefJoin(rules, c, |a| + i, w, k, m, n - m);
      }
    } else if IsClassStart(b[i]) && w != [] {
      SymbolEndInSuffix(a, b, i);
      ClassInSuffix(a, b, i, w[0]);
      DerivesSuffix(rules, a, b, SymbolEnd(b, i), w[1..], n);
    }
  }

  /** A word of `a + b` splits into a word of `a` and a word of `b`. */
  lemma {:induction false} ConcatSplit(rules: Rules, a: seq<Element>, b: seq<Element>, i: nat, w: Word, n: nat)
    returns (k: nat, m: nat)
    requires i <= |a| && (forall j :: 0 <= j < |a| ==> !IsEndOfSequence(a[j])) && (b != [] ==> !IsContinuation(b[0]))
    requires Derives(rules, a + b, i, w, n)
    ensures k <= |w| && m <= n && Derives(rules, a, i, w[..k], m) && Derives(rules, b, 0, w[k..], n - m)
    decreases |a| - i
  {
    var c := a + b;
    if i == |a| {
      DerivesSuffix(rules, a, b, 0, w, n);
      k, m := 0, 0;
      assert w[0..] == w;
    } else if a[i].kind.RULE_REF? {
      var k1, m1 := DerivesRefSplit(rules, c, i, w, n);
      var k2, m2 := ConcatSplit(rules, a, b, i + 1, w[k1..], n - m1);
      k, m := k1 + k2, m1 + m2;
      RefFront(rules, a, i, w, k1, m1, k2, m2);
    } else {
      assert c[i] == a[i];
      DerivesClass(rules, c, i, w, n);
      SymbolEndInPrefix(a, b, i);
      ClassInPrefix(a, b, i, w[0]);
      var k2, m2 := ConcatSplit(rules, a, b, SymbolEnd(a, i), w[1..], n);
      k, m := k2 + 1, m2;
      ClassFront(rules, a, i, w, k2, m2);
    }
  }

  /** A word of `a` followed by a word of `b` is a word of `a + b`. */
  lemma {:induction false} ConcatJoin(rules: Rules, a: seq<Element>, b: seq<Element>, i: nat, w: Word, k: nat, m: nat,
                                      n: nat)
    requires i <= |a| && (forall j :: 0 <= j < |a| ==> !IsEndOfSequence(a[j])) && (b != [] ==> !IsContinuation(b[0]))
    requires k <= |w| && Derives(rules, a, i, w[..k], m) && Derives(rules, b, 0, w[k..], n)
    ensures Derives(rules, a + b, i, w, m + n)
    decreases |a| - i
  {
    var c := a + b;
    if i == |a| {
      assert w[k..] == w;
      DerivesMonotone(rules, b, 0, w, n, m + n);
      DerivesSuffix(rules, a, b, 0, w, m + n);
    } else if a[i].kind.RULE_REF? {
      var k1, m1 := DerivesRefSplit(rules, a, i, w[..k], m);
      CutTwice(w, k1, k);
      ConcatJoin(rules, a, b, i + 1, w[k1..], k - k1, m - m1, n);
      DerivesRefJoin(rules, c, i, w, k1, m1, m - m1 + n);
    } else {
      SymbolEndInPrefix(a, b, i);
      ClassInPrefix(a, b, i, w[0]);
      CutTwice(w, 1, k);
      ConcatJoin(rules, a, b, SymbolEnd(a, i), w[1..], k - 1, m, n);
    }
  }

  /** The language of a sequence of elements. */
  ghost function LanguageOf(rules: Rules, els: seq<Element>): iset<Word> {
    iset w: Word | InSuffix(rules, els, 0, w)
  }

  /** The words that derive within `n` rule applications. */
  ghost function Bounded(rules: Rules, els: seq<Element>, n: nat): iset<Word> {
    iset w: Word | Derives(rules, els, 0, w, n)
  }

  lemma BoundedGrows(rules: Rules, els: seq<Element>, n: nat, n': nat)
    requires n <= n'
    ensures Bounded(rules, els, n) <= Bounded(rules, els, n') <= LanguageOf(rules, els)
  {
    forall w: Word | w in Bounded(rules, els, n)
      ensures w in Bounded(rules, els, n')
    {
      DerivesMonotone(rules, els, 0, w, n, n');
    }
  }

  lemma LanguageSplit(rules: Rules, a: seq<Element>, b: seq<Element>, w: Word) returns (k: nat)
    requires (forall j :: 0 <= j < |a| ==> !IsEndOfSequence(a[j])) && (b != [] ==> !IsContinuation(b[0]))
    requires w in LanguageOf(rules, a + b)
    ensures k <= |w| && w[..k] in LanguageOf(rules, a) && w[k..] in LanguageOf(rules, b)
  {
    var n: nat :| Derives(rules, a + b, 0, w, n);
    var m;
    k, m := ConcatSplit(rules, a, b, 0, w, n);
  }

  lemma LanguageJoin(rules: Rules, a: seq<Element>, b: seq<Element>, w: Word, k: nat)
    requires (forall j :: 0 <= j < |a| ==> !IsEndOfSequence(a[j])) && (b != [] ==> !IsContinuation(b[0]))
    requires k <= |w| && w[..k] in LanguageOf(rules, a) && w[k..] in LanguageOf(rules, b)
    ensures w in LanguageOf(rules, a + b)
  {
    var m: nat :| Derives(rules, a, 0, w[..k], m);
    var n: nat :| Derives(rules, b, 0, w[k..], n);
    ConcatJoin(rules, a, b, 0, w, k, m, n);
  }

  // ---------------------------------------------------------------------------------------
  // Powers
  // ---------------------------------------------------------------------------------------

  /** `w` is made of `k` words of the language. */
  ghost predicate InPower(l: iset<Word>, k: nat, w: Word)
    decreases k, 1
  {
    if k == 0 then w == [] else exists i: nat :: PowerCut(l, k, w, i)
  }

  /** The first `i` code points are one word, the others are `k - 1`. */
  ghost predicate PowerCut(l: iset<Word>, k: nat, w: Word, i: nat)
    requires k > 0
    decreases k, 0
  {
    i <= |w| && w[..i] in l && InPower(l, k - 1, w[i..])
  }

  /** `w` is made of at least `min` and at most `max` words; without a `max`, of any number from `min` on. */
  ghost predicate InPowers(l: iset<Word>, min: nat, max: Bound, w: Word) {
    exists k: nat :: IsPower(l, min, max, w, k)
  }

  ghost predicate IsPower(l: iset<Word>, min: nat, max: Bound, w: Word, k: nat) {
    min <= k && max.Allows(k) && InPower(l, k, w)
  }

  datatype Bound = NoMax | Max(value: nat) {
    predicate Allows(k: nat) {
      Max? ==> k <= value
    }
  }

  lemma PowerSplit(l: iset<Word>, k: nat, w: Word) returns (i: nat)
    requires k > 0 && InPower(l, k, w)
    ensures i <= |w| && w[..i] in l && InPower(l, k - 1, w[i..])
  {
    i :| PowerCut(l, k, w, i);
  }

  lemma {:induction false} PowerWider(l: iset<Word>, l': iset<Word>, k: nat, w: Word)
    requires l <= l' && InPower(l, k, w)
    ensures InPower(l', k, w)
    decreases k
  {
    if k > 0 {
      var i := PowerSplit(l, k, w);
      PowerWider(l, l', k - 1, w[i..]);
      PowerJoin(l', k - 1, w, i);
    }
  }

  lemma PowersWider(l: iset<Word>, l': iset<Word>, min: nat, max: Bound, w: Word)
    requires l <= l' && InPowers(l, min, max, w)
    ensures InPowers(l', min, max, w)
  {
    var k: nat :| IsPower(l, min, max, w, k);
    PowerWider(l, l', k, w);
    assert IsPower(l', min, max, w, k);
  }

  lemma PowerJoin(l: iset<Word>, k: nat, w: Word, i: nat)
    requires i <= |w| && w[..i] in l && InPower(l, k, w[i..])
    ensures InPower(l, k + 1, w)
  {
    assert PowerCut(l, k + 1, w, i);
  }

  lemma PowerPrepend(l: iset<Word>, k: nat, w: Word, i: nat, j: nat)
    requires k > 0 && i + j <= |w| && w[..i] in l && InPower(l, k - 1, w[i..][..j])
    ensures InPower(l, k, w[..i + j]) && w[i..][j..] == w[i + j..]
  {
    CutTwice(w, i, i + j);
    PowerJoin(l, k - 1, w[..i + j], i);
  }

  lemma {:induction false} PowerAdd(l: iset<Word>, k: nat, k': nat, w: Word, i: nat)
    requires i <= |w| && InPower(l, k, w[..i]) && InPower(l, k', w[i..])
    ensures InPower(l, k + k', w)
    decreases k
  {
    if k == 0 {
      assert w[i..] == w;
    } else {
      var i1 := PowerSplit(l, k, w[..i]);
      CutTwice(w, i1, i);
      PowerAdd(l, k - 1, k', w[i1..], i - i1);
      PowerJoin(l, k + k' - 1, w, i1);
    }
  }

  lemma {:induction false} PowerSub(l: iset<Word>, k: nat, k': nat, w: Word) returns (i: nat)
    requires InPower(l, k + k', w)
    ensures i <= |w| && InPower(l, k, w[..i]) && InPower(l, k', w[i..])
    decreases k
  {
    if k == 0 {
      i := 0;
      assert w[0..] == w;
    } else {
      var i1 := PowerSplit(l, k + k', w);
      var i2 := PowerSub(l, k - 1, k', w[i1..]);
      i := i1 + i2;
      PowerPrepend(l, k, w, i1, i2);
    }
  }

  // ---------------------------------------------------------------------------------------
  // Powers of powers: two operators in a row
  // ---------------------------------------------------------------------------------------

  ghost function Powers(l: iset<Word>, min: nat, max: Bound): iset<Word> {
    iset w: Word | InPowers(l, min, max, w)
  }

  /** `k` groups of at least `min` and at most `max` words can hold `n` words. */
  predicate Groups(k: nat, n: nat, min: nat, max: Bound) {
    k * min <= n && (max.Max? ==> n <= k * max.value) && (k == 0 ==> n == 0)
  }

  ghost predicate StackedBy(l: iset<Word>, min: nat, max: Bound, min': nat, max': Bound, w: Word, k: nat, n: nat) {
    min' <= k && max'.Allows(k) && Groups(k, n, min, max) && InPower(l, n, w)
  }

  lemma {:induction false} Flatten(l: iset<Word>, min: nat, max: Bound, k: nat, w: Word) returns (n: nat)
    requires InPower(Powers(l, min, max), k, w)
    ensures Groups(k, n, min, max) && InPower(l, n, w)
    decreases k
  {
    if k == 0 {
      n := 0;
    } else {
      var i := PowerSplit(Powers(l, min, max), k, w);
      var j: nat :| IsPower(l, min, max, w[..i], j);
      var m := Flatten(l, min, max, k - 1, w[i..]);
      n := j + m;
      GroupsJoin(k, j, m, min, max);
      PowerAdd(l, j, m, w, i);
    }
  }

  lemma GroupsJoin(k: nat, j: nat, m: nat, min: nat, max: Bound)
    requires k > 0 && min <= j && max.Allows(j) && Groups(k - 1, m, min, max)
    ensures Groups(k, j + m, min, max)
  {
    assert k * min == (k - 1) * min + min;
    if max.Max? {
      assert k * max.value == (k - 1) * max.value + max.value;
    }
  }

  /** The size of the first group, so that the others can hold the rest. */
  lemma GroupsSplit(k: nat, n: nat, min: nat, max: Bound) returns (j: nat)
    requires k > 0 && Groups(k, n, min, max)
    ensures min <= j <= n && max.Allows(j) && Groups(k - 1, n - j, min, max)
  {
    assert k * min == (k - 1) * min + min;
    if k == 1 {
      j := n;
    } else if max.NoMax? {
      j := min;
    } else {
      assert k * max.value == (k - 1) * max.value + max.value;
      j := if n - min <= (k - 1) * max.value then min else n - (k - 1) * max.value;
      BoundsOrdered(k, n, min, max.value);
    }
  }

  lemma BoundsOrdered(k: nat, n: nat, a: nat, b: nat)
    requires k > 0 && k * a <= n <= k * b
    ensures a <= b && (k - 1) * a <= (k - 1) * b
  {
    ProductOrder(k, a, b);
    ProductOrder(k - 1, a, b);
  }

  lemma {:induction false} ProductOrder(k: nat, a: nat, b: nat)
    ensures a <= b ==> k * a <= k * b
    ensures a > b && k > 0 ==> k * a > k * b
    decreases k
  {
    if k > 0 {
      ProductOrder(k - 1, a, b);
      assert k * a == (k - 1) * a + a && k * b == (k - 1) * b + b;
    }
  }

  lemma {:induction false} Gather(l: iset<Word>, min: nat, max: Bound, k: nat, n: nat, w: Word)
    requires Groups(k, n, min, max) && InPower(l, n, w)
    ensures InPower(Powers(l, min, max), k, w)
    decreases k
  {
    if k > 0 {
      var j := GroupsSplit(k, n, min, max);
      assert j + (n - j) == n;
      var i := PowerSub(l, j, n - j, w);
      assert IsPower(l, min, max, w[..i], j);
      Gather(l, min, max, k - 1, n - j, w[i..]);
      PowerJoin(Powers(l, min, max), k - 1, w, i);
    }
  }

  /**
    S{a,b}{c,d} is S some number of times: exactly the numbers of words that c up to d groups of a up to b
    words can hold.
    */
  lemma StackedPowers(l: iset<Word>, min: nat, max: Bound, min': nat, max': Bound, w: Word)
    ensures InPowers(Powers(l, min, max), min', max', w) <==>
      exists k: nat, n: nat :: StackedBy(l, min, max, min', max', w, k, n)
  {
    if InPowers(Powers(l, min, max), min', max', w) {
      var k: nat :| IsPower(Powers(l, min, max), min', max', w, k);
      var n := Flatten(l, min, max, k, w);
      assert StackedBy(l, min, max, min', max', w, k, n);
    }
    if k: nat, n: nat :| StackedBy(l, min, max, min', max', w, k, n) {
      Gather(l, min, max, k, n, w);
      assert IsPower(Powers(l, min, max), min', max', w, k);
    }
  }

  // ---------------------------------------------------------------------------------------
  // The generated rules
  // ---------------------------------------------------------------------------------------

  /** S S'(x-1) |    or, without a reference,    S | */
  function RecRule(s: seq<Element>, next: seq<nat>): Rule {
    s + (if next == [] then [] else [Element(RULE_REF, next[0])]) + [Element(ALT, 0), Element(END, 0)]
  }

  /** The word comes from the first alternate, or is empty. */
  lemma RecRuleDerives(rules: Rules, q: nat, body: seq<Element>, w: Word, n: nat)
    requires q < |rules| && IsSymbols(body) && rules[q] == body + [Element(ALT, 0), Element(END, 0)]
    ensures RuleDerives(rules, q, w, n) <==> n > 0 && (w == [] || Derives(rules, body, 0, w, n - 1))
  {
    var rule, tail := rules[q], [Element(ALT, 0), Element(END, 0)];
    assert AltStart(rule, 0) && AltStart(rule, |body| + 1) && IsEndOfSequence(rule[|body| + 1]);
    if RuleDerives(rules, q, w, n) {
      var a := RuleDerivesAlternate(rules, q, w, n);
      assert a == 0 || a == |body| + 1 by {
        if a > 0 {
          assert rule[a - 1].kind.ALT?;
        }
      }
      if a == 0 {
        var k, m := ConcatSplit(rules, body, tail, 0, w, n - 1);
        assert w[..k] == w;
        DerivesMonotone(rules, body, 0, w, m, n - 1);
      }
    }
    if n > 0 && w == [] {
      assert Derives(rules, rule, |body| + 1, w, n - 1);
      RuleDerivesBy(rules, q, w, n - 1, |body| + 1);
    }
    if n > 0 && Derives(rules, body, 0, w, n - 1) {
      assert w[..|w|] == w && w[|w|..] == [];
      assert Derives(rules, tail, 0, w[|w|..], 0);
      ConcatJoin(rules, body, tail, 0, w, |w|, n - 1, 0);
      RuleDerivesBy(rules, q, w, n - 1, 0);
    }
  }

  /** A single reference derives what its rule derives. */
  lemma SingleRef(rules: Rules, q: nat, w: Word, n: nat)
    ensures Derives(rules, [Element(RULE_REF, q)], 0, w, n) <==> RuleDerives(rules, q, w, n)
  {
    var els := [Element(RULE_REF, q)];
    if Derives(rules, els, 0, w, n) {
      var k, m := DerivesRefSplit(rules, els, 0, w, n);
      assert w[..k] == w;
      RuleDerivesMonotone(rules, q, w, m, n);
    }
    if RuleDerives(rules, q, w, n) {
      assert w[..|w|] == w && w[|w|..] == [];
      assert Derives(rules, els, 1, w[|w|..], 0);
      DerivesRefJoin(rules, els, 0, w, |w|, n, 0);
    }
  }

  /** The rule that the `i`-th generated rule refers to: itself without a maximum, else the one before. */
  function NextOf(first: nat, i: nat, max: Bound): seq<nat> {
    if max.NoMax? then [first + i] else if i > 0 then [first + i - 1] else []
  }

  ghost predicate GeneratedAt(rules: Rules, s: seq<Element>, first: nat, i: nat, max: Bound) {
    first + i < |rules| && rules[first + i] == RecRule(s, NextOf(first, i, max))
  }

  /** The rules with which a repetition was rewritten: one that refers to itself, or a chain of `count`. */
  ghost predicate Generated(rules: Rules, s: seq<Element>, first: nat, count: nat, max: Bound) {
    (max.NoMax? ==> count == 1) && forall i: nat :: i < count ==> GeneratedAt(rules, s, first, i, max)
  }

  ghost predicate DerivesNext(rules: Rules, next: seq<nat>, w: Word, n: nat) {
    if next == [] then w == [] else RuleDerives(rules, next[0], w, n)
  }

  /** A generated rule derives the empty word, or a copy followed by what the next rule derives. */
  lemma GeneratedSplit(rules: Rules, s: seq<Element>, first: nat, i: nat, max: Bound, w: Word, n: nat)
    returns (k: nat, n': nat)
    requires IsSymbols(s) && s != [] && GeneratedAt(rules, s, first, i, max) && RuleDerives(rules, first + i, w, n) &&
      w != []
    ensures k <= |w| && n' < n && w[..k] in Bounded(rules, s, n) &&
      DerivesNext(rules, NextOf(first, i, max), w[k..], n')
  {
    var next := NextOf(first, i, max);
    var refs := if next == [] then [] else [Element(RULE_REF, next[0])];
    RecRuleDerives(rules, first + i, s + refs, w, n);
    var m;
    k, m := ConcatSplit(rules, s, refs, 0, w, n - 1);
    n' := n - 1 - m;
    DerivesMonotone(rules, s, 0, w[..k], m, n);
    if next != [] {
      SingleRef(rules, next[0], w[k..], n');
    }
  }

  lemma GeneratedJoin(rules: Rules, s: seq<Element>, first: nat, i: nat, max: Bound, w: Word, k: nat, n: nat)
    requires IsSymbols(s) && s != [] && GeneratedAt(rules, s, first, i, max)
    requires k <= |w| && w[..k] in LanguageOf(rules, s) && DerivesNext(rules, NextOf(first, i, max), w[k..], n)
    ensures InRule(rules, first + i, w)
  {
    var next := NextOf(first, i, max);
    var refs := if next == [] then [] else [Element(RULE_REF, next[0])];
    var m: nat :| Derives(rules, s, 0, w[..k], m);
    if next != [] {
      SingleRef(rules, next[0], w[k..], n);
    }
    ConcatJoin(rules, s, refs, 0, w, k, m, n);
    RecRuleDerives(rules, first + i, s + refs, w, m + n + 1);
  }

  lemma GeneratedEmpty(rules: Rules, s: seq<Element>, first: nat, i: nat, max: Bound)
    requires IsSymbols(s) && s != [] && GeneratedAt(rules, s, first, i, max)
    ensures InRule(rules, first + i, [])
  {
    var next := NextOf(first, i, max);
    RecRuleDerives(rules, first + i, s + (if next == [] then [] else [Element(RULE_REF, next[0])]), [], 1);
  }

  /** The last generated rule derives only words of up to `count` copies, or of any number of them. */
  lemma {:induction false} GeneratedSound(rules: Rules, s: seq<Element>, first: nat, count: nat, max: Bound, w: Word,
                                          n: nat) returns (k: nat)
    requires IsSymbols(s) && s != [] && count > 0 && Generated(rules, s, first, count, max)
    requires RuleDerives(rules, first + (count - 1), w, n)
    ensures (max.Max? ==> k <= count) && InPower(Bounded(rules, s, n), k, w)
    decreases n
  {
    if w == [] {
      k := 0;
    } else {
      var i, n' := GeneratedSplit(rules, s, first, count - 1, max, w, n);
      k := 0;
      if NextOf(first, count - 1, max) != [] {
        k := GeneratedSound(rules, s, first, if max.Max? then count - 1 else count, max, w[i..], n');
        BoundedGrows(rules, s, n', n);
        PowerWider(Bounded(rules, s, n'), Bounded(rules, s, n), k, w[i..]);
      }
      PowerJoin(Bounded(rules, s, n), k, w, i);
      k := k + 1;
    }
  }

  /** All of those words are derived. */
  lemma {:induction false} GeneratedComplete(rules: Rules, s: seq<Element>, first: nat, count: nat, max: Bound, w: Word,
                                             k: nat)
    requires IsSymbols(s) && s != [] && count > 0 && Generated(rules, s, first, count, max)
    requires (max.Max? ==> k <= count) && InPower(LanguageOf(rules, s), k, w)
    ensures InRule(rules, first + (count - 1), w)
    decreases k
  {
    assert GeneratedAt(rules, s, first, count - 1, max);
    if k == 0 {
      GeneratedEmpty(rules, s, first, count - 1, max);
    } else {
      var i := PowerSplit(LanguageOf(rules, s), k, w);
      var next := NextOf(first, count - 1, max);
      if next == [] {
        assert w[i..] == [];
        GeneratedJoin(rules, s, first, count - 1, max, w, i, 0);
      } else {
        GeneratedComplete(rules, s, first, if max.Max? then count - 1 else count, max, w[i..], k - 1);
        var n: nat :| RuleDerives(rules, next[0], w[i..], n);
        GeneratedJoin(rules, s, first, count - 1, max, w, i, n);
      }
    }
  }

  // ---------------------------------------------------------------------------------------
  // The rewritten symbol
  // ---------------------------------------------------------------------------------------

  function Copies(s: seq<Element>, k: nat): seq<Element> {
    if k == 0 then [] else s + Copies(s, k - 1)
  }

  /** S S S (min times), then a reference to the last generated rule, if there is one. */
  function Rewritten(s: seq<Element>, min: nat, first: nat, count: nat): seq<Element> {
    Copies(s, min) + if count == 0 then [] else [Element(RULE_REF, first + (count - 1))]
  }

  lemma {:induction false} CopiesStart(s: seq<Element>, k: nat, rest: seq<Element>)
    requires IsSymbols(s) && s != [] && (rest != [] ==> !IsContinuation(rest[0]))
    ensures Copies(s, k) + rest != [] ==> !IsContinuation((Copies(s, k) + rest)[0])
    ensures forall i :: 0 <= i < |Copies(s, k)| ==> !IsEndOfSequence(Copies(s, k)[i])
    decreases k
  {
    if k > 0 {
      CopiesStart(s, k - 1, rest);
    }
  }

  /** Copies in front add as many repetitions. */
  lemma {:induction false} CopiesSound(rules: Rules, s: seq<Element>, k: nat, rest: seq<Element>, w: Word, n: nat)
    returns (i: nat)
    requires IsSymbols(s) && s != [] && (rest != [] ==> !IsContinuation(rest[0]))
    requires Derives(rules, Copies(s, k) + rest, 0, w, n)
    ensures i <= |w| && InPower(Bounded(rules, s, n), k, w[..i]) && Derives(rules, rest, 0, w[i..], n)
    decreases k
  {
    if k == 0 {
      assert Copies(s, k) + rest == rest && w[0..] == w;
      i := 0;
    } else {
      assert Copies(s, k) + rest == s + (Copies(s, k - 1) + rest);
      CopiesStart(s, k - 1, rest);
      var i1, m := ConcatSplit(rules, s, Copies(s, k - 1) + rest, 0, w, n);
      DerivesMonotone(rules, s, 0, w[..i1], m, n);
      DerivesMonotone(rules, Copies(s, k - 1) + rest, 0, w[i1..], n - m, n);
      var i2 := CopiesSound(rules, s, k - 1, rest, w[i1..], n);
      i := i1 + i2;
      PowerPrepend(Bounded(rules, s, n), k, w, i1, i2);
    }
  }

  lemma {:induction false} CopiesComplete(rules: Rules, s: seq<Element>, k: nat, rest: seq<Element>, w: Word, i: nat)
    requires IsSymbols(s) && s != [] && (rest != [] ==> !IsContinuation(rest[0]))
    requires i <= |w| && InPower(LanguageOf(rules, s), k, w[..i]) && w[i..] in LanguageOf(rules, rest)
    ensures w in LanguageOf(rules, Copies(s, k) + rest)
    decreases k
  {
    if k == 0 {
      assert Copies(s, k) + rest == rest && w[i..] == w;
    } else {
      assert Copies(s, k) + rest == s + (Copies(s, k - 1) + rest);
      CopiesStart(s, k - 1, rest);
      var i1 := PowerSplit(LanguageOf(rules, s), k, w[..i]);
      CutTwice(w, i1, i);
      CopiesComplete(rules, s, k - 1, rest, w[i1..], i - i1);
      LanguageJoin(rules, s, Copies(s, k - 1) + rest, w, i1);
    }
  }

  /** What the new tail derives are powers of what the symbol derives, within the same number of rule applications. */
  lemma RewrittenSound(rules: Rules, s: seq<Element>, min: nat, max: Bound, first: nat, count: nat, w: Word, n: nat)
    requires IsSymbols(s) && s != [] && Generated(rules, s, first, count, max)
    requires (max.Max? ==> max.value == min + count) && Derives(rules, Rewritten(s, min, first, count), 0, w, n)
    ensures InPowers(Bounded(rules, s, n), min, max, w)
  {
    var rest := if count == 0 then [] else [Element(RULE_REF, first + (count - 1))];
    var i := CopiesSound(rules, s, min, rest, w, n);
    var k: nat := 0;
    if count > 0 {
      SingleRef(rules, first + (count - 1), w[i..], n);
      k := GeneratedSound(rules, s, first, count, max, w[i..], n);
    }
    PowerAdd(Bounded(rules, s, n), min, k, w, i);
    assert IsPower(Bounded(rules, s, n), min, max, w, min + k);
  }

  lemma RewrittenComplete(rules: Rules, s: seq<Element>, min: nat, max: Bound, first: nat, count: nat, w: Word)
    requires IsSymbols(s) && s != [] && Generated(rules, s, first, count, max)
    requires (max.Max? ==> max.value == min + count) && InPowers(LanguageOf(rules, s), min, max, w)
    ensures w in LanguageOf(rules, Rewritten(s, min, first, count))
  {
    var rest := if count == 0 then [] else [Element(RULE_REF, first + (count - 1))];
    var k: nat :| IsPower(LanguageOf(rules, s), min, max, w, k);
    assert min + (k - min) == k;
    var i := PowerSub(LanguageOf(rules, s), min, k - min, w);
    RestComplete(rules, s, max, first, count, w[i..], k - min);
    CopiesComplete(rules, s, min, rest, w, i);
  }

  /** What follows the copies derives any number of further words that is allowed. */
  lemma RestComplete(rules: Rules, s: seq<Element>, max: Bound, first: nat, count: nat, v: Word, k: nat)
    requires IsSymbols(s) && s != [] && Generated(rules, s, first, count, max)
    requires (max.Max? ==> k <= count) && (max.NoMax? ==> count == 1) && InPower(LanguageOf(rules, s), k, v)
    ensures v in LanguageOf(rules, if count == 0 then [] else [Element(RULE_REF, first + (count - 1))])
  {
    if count == 0 {
      assert Derives(rules, [], 0, v, 0);
    } else {
      GeneratedComplete(rules, s, first, count, max, v, k);
      var n: nat :| RuleDerives(rules, first + (count - 1), v, n);
      SingleRef(rules, first + (count - 1), v, n);
    }
  }

  /**
    The rewriting keeps its promise in every table that has the generated rules: the new tail derives
    exactly the words of `min` up to `max` repetitions, or of any number from `min` on.
    */
  lemma RewrittenMeaning(rules: Rules, s: seq<Element>, min: nat, max: Bound, first: nat, count: nat, w: Word)
    requires IsSymbols(s) && s != [] && Generated(rules, s, first, count, max)
    requires max.Max? ==> max.value == min + count
    ensures w in LanguageOf(rules, Rewritten(s, min, first, count)) <==> InPowers(LanguageOf(rules, s), min, max, w)
  {
    if w in LanguageOf(rules, Rewritten(s, min, first, count)) {
      var n: nat :| Derives(rules, Rewritten(s, min, first, count), 0, w, n);
      RewrittenSound(rules, s, min, max, first, count, w, n);
      BoundedGrows(rules, s, n, n);
      PowersWider(Bounded(rules, s, n), LanguageOf(rules, s), min, max, w);
    }
    if InPowers(LanguageOf(rules, s), min, max, w) {
      RewrittenComplete(rules, s, min, max, first, count, w);
    }
  }

  // ---------------------------------------------------------------------------------------
  // Rules that are added leave the others alone
  // ---------------------------------------------------------------------------------------

  /** What is missing in a table counts as empty. */
  function RuleAt(rules: Rules, q: nat): Rule {
    if q < |rules| then rules[q] else []
  }

  /** Below `n` the tables agree. */
  ghost predicate AgreeBelow(rules: Rules, rules': Rules, n: nat) {
    forall q: nat :: q < n ==> RuleAt(rules, q) == RuleAt(rules', q)
  }

  ghost predicate ClosedBelow(rules: Rules, n: nat) {
    forall q :: 0 <= q < |rules| && q < n ==> RefsBelow(rules[q], n)
  }

  lemma {:induction false} LanguageKept(rules: Rules, rules': Rules, n0: nat, els: seq<Element>, i: nat, w: Word,
                                        n: nat)
    requires AgreeBelow(rules, rules', n0) && ClosedBelow(rules, n0) && RefsBelow(els, n0) && i <= |els|
    requires Derives(rules, els, i, w, n)
    ensures Derives(rules', els, i, w, n)
    decreases n, |els| - i + 1
  {
    if i == |els| || IsEndOfSequence(els[i]) {
    } else if els[i].kind.RULE_REF? {
      var k, m := DerivesRefSplit(rules, els, i, w, n);
      var q := els[i].value;
      var a := RuleDerivesAlternate(rules, q, w[..k], m);
      assert RuleAt(rules', q) == RuleAt(rules, q);
      LanguageKept(rules, rules', n0, rules[q], a, w[..k], m - 1);
      LanguageKept(rules, rules', n0, els, i + 1, w[k..], n - m);
      RuleDerivesBy(rules', q, w[..k], m - 1, a);
      DerivesRefJoin(rules', els, i, w, k, m, n - m);
    } else if IsClassStart(els[i]) {
      LanguageKept(rules, rules', n0, els, SymbolEnd(els, i), w[1..], n);
    }
  }

  /** Rules outside a closed part of the table have no influence on its languages. */
  lemma RuleLanguageKept(rules: Rules, rules': Rules, n0: nat, q: nat, w: Word)
    requires AgreeBelow(rules, rules', n0) && ClosedBelow(rules, n0) && ClosedBelow(rules', n0) && q < n0
    ensures InRule(rules, q, w) <==> InRule(rules', q, w)
  {
    if InRule(rules, q, w) {
      RuleLanguageInto(rules, rules', n0, q, w);
    }
    if InRule(rules', q, w) {
      RuleLanguageInto(rules', rules, n0, q, w);
    }
  }

  lemma RuleLanguageInto(rules: Rules, rules': Rules, n0: nat, q: nat, w: Word)
    requires AgreeBelow(rules, rules', n0) && ClosedBelow(rules, n0) && q < n0 && InRule(rules, q, w)
    ensures InRule(rules', q, w)
  {
    var n: nat :| RuleDerives(rules, q, w, n);
    var a := RuleDerivesAlternate(rules, q, w, n);
    assert RuleAt(rules', q) == RuleAt(rules, q);
    LanguageKept(rules, rules', n0, rules[q], a, w, n - 1);
    RuleDerivesBy(rules', q, w, n - 1, a);
  }
}
