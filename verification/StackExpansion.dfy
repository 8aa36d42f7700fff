/**
  Expansion of rule references on top of a pushdown stack, and the worklist that turns a stack
  into the settled stacks it can become.
  */
module StackExpansion {
  import opened GrammarElements
  import opened Language
  import opened Relations

  // ---------------------------------------------------------------------------------------
  // One expansion step
  // ---------------------------------------------------------------------------------------

  /** Pushes position `i` of rule `r`, unless nothing is left of the alternate there. */
  function Push(rules: Rules, s: Stack, r: nat, i: nat): Stack
    requires InBounds(rules, Frame(r, i))
  {
    if IsEndOfSequence(rules[r][i]) then s else s + [Frame(r, i)]
  }

  /** The stack has a rule reference on top. */
  predicate Expandable(rules: Rules, s: Stack) {
    s != [] && ValidFrame(rules, Top(s)) && ElementAt(rules, Top(s)).kind.RULE_REF?
  }

  /** A stack with nothing left to expand: empty, or with a terminal on top. */
  predicate Settled(rules: Rules, s: Stack) {
    s == [] || (ValidFrame(rules, Top(s)) && !ElementAt(rules, Top(s)).kind.RULE_REF?)
  }

  function RefOf(rules: Rules, s: Stack): nat
    requires Expandable(rules, s)
  {
    ElementAt(rules, Top(s)).value
  }

  /** Replaces the reference on top by the alternate that starts at `a`. */
  function Expansion(rules: Rules, s: Stack, a: nat): Stack
    requires WellFormed(rules) && Expandable(rules, s) && AltStart(rules[RefOf(rules, s)], a)
  {
    Push(rules, Push(rules, Pop(s), Top(s).rule, Top(s).idx + 1), RefOf(rules, s), a)
  }

  ghost predicate Expands(rules: Rules, s: Stack, t: Stack)
    requires WellFormed(rules)
  {
    && Expandable(rules, s)
    && exists a :: AltStart(rules[RefOf(rules, s)], a) && t == Expansion(rules, s, a)
  }

  /** In a well-formed rule a symbol or the end of the alternate follows every symbol. */
  lemma AfterSymbol(rules: Rules, f: Frame)
    requires WellFormed(rules) && ValidFrame(rules, f)
    ensures SymbolEnd(rules[f.rule], f.idx) < |rules[f.rule]|
    ensures IsEndOfSequence(rules[f.rule][SymbolEnd(rules[f.rule], f.idx)])
      || IsSymbolStart(rules[f.rule][SymbolEnd(rules[f.rule], f.idx)])
    ensures !IsClassStart(ElementAt(rules, f)) ==> SymbolEnd(rules[f.rule], f.idx) == f.idx + 1
  {
    var rule := rules[f.rule];
    assert rule[|rule| - 1].kind.END?;
    assert FollowsWell(rule, f.idx + 1);
  }

  lemma AltStartIsSymbol(rules: Rules, q: nat, a: nat)
    requires WellFormed(rules) && q < |rules| && AltStart(rules[q], a)
    ensures IsEndOfSequence(rules[q][a]) || IsSymbolStart(rules[q][a])
  {
    assert FollowsWell(rules[q], a);
  }

  lemma ExpansionIsValid(rules: Rules, s: Stack, a: nat)
    requires WellFormed(rules) && ValidStack(rules, s)
    requires Expandable(rules, s) && AltStart(rules[RefOf(rules, s)], a)
    ensures ValidStack(rules, Expansion(rules, s, a))
  {
    AfterSymbol(rules, Top(s));
    AltStartIsSymbol(rules, RefOf(rules, s), a);
  }

  // ---------------------------------------------------------------------------------------
  // A step keeps the language
  // ---------------------------------------------------------------------------------------

  lemma PushSplit(rules: Rules, s: Stack, r: nat, i: nat, w: Word, n: nat) returns (k: nat, m: nat)
    requires InBounds(rules, Frame(r, i)) && StackDerives(rules, Push(rules, s, r, i), w, n)
    ensures k <= |w| && m <= n
    ensures Derives(rules, rules[r], i, w[..k], m) && StackDerives(rules, s, w[k..], n - m)
  {
    if IsEndOfSequence(rules[r][i]) {
      k, m := 0, 0;
      assert w[0..] == w;
    } else {
      var t := Push(rules, s, r, i);
      assert Pop(t) == s;
      k, m := StackDerivesSplit(rules, t, w, n);
    }
  }

  lemma PushJoin(rules: Rules, s: Stack, r: nat, i: nat, w: Word, k: nat, m: nat, n: nat)
    requires InBounds(rules, Frame(r, i)) && k <= |w|
    requires Derives(rules, rules[r], i, w[..k], m) && StackDerives(rules, s, w[k..], n)
    ensures StackDerives(rules, Push(rules, s, r, i), w, m + n)
  {
    if IsEndOfSequence(rules[r][i]) {
      assert w[k..] == w;
      StackDerivesMonotone(rules, s, w, n, m + n);
    } else {
      var t := Push(rules, s, r, i);
      assert Pop(t) == s && Top(t) == Frame(r, i);
      StackDerivesJoin(rules, t, w, k, m, n);
    }
  }

  lemma ExpansionSound(rules: Rules, s: Stack, a: nat, w: Word, n: nat)
    requires WellFormed(rules) && Expandable(rules, s) && AltStart(rules[RefOf(rules, s)], a)
    requires StackDerives(rules, Expansion(rules, s, a), w, n)
    ensures StackDerives(rules, s, w, n + 1)
  {
    var k1, m1, k2, m2 := ExpansionSplit(rules, s, a, w, n);
    Unexpand(rules, s, a, w, k1, m1, k2, m2, n - m1 - m2);
  }

  lemma ExpansionSplit(rules: Rules, s: Stack, a: nat, w: Word, n: nat)
    returns (k1: nat, m1: nat, k2: nat, m2: nat)
    requires WellFormed(rules) && Expandable(rules, s) && AltStart(rules[RefOf(rules, s)], a)
    requires StackDerives(rules, Expansion(rules, s, a), w, n)
    ensures k1 <= |w| && k2 <= |w| - k1 && m1 + m2 <= n
    ensures Derives(rules, rules[RefOf(rules, s)], a, w[..k1], m1)
    ensures Derives(rules, rules[Top(s).rule], Top(s).idx + 1, w[k1..][..k2], m2)
    ensures StackDerives(rules, Pop(s), w[k1..][k2..], n - m1 - m2)
  {
    k1, m1 := PushSplit(rules, Push(rules, Pop(s), Top(s).rule, Top(s).idx + 1), RefOf(rules, s), a, w, n);
    k2, m2 := PushSplit(rules, Pop(s), Top(s).rule, Top(s).idx + 1, w[k1..], n - m1);
  }

  lemma Unexpand(rules: Rules, s: Stack, a: nat, w: Word, k1: nat, m1: nat, k2: nat, m2: nat, n: nat)
    requires WellFormed(rules) && Expandable(rules, s) && AltStart(rules[RefOf(rules, s)], a)
    requires k1 <= |w| && k2 <= |w| - k1
    requires Derives(rules, rules[RefOf(rules, s)], a, w[..k1], m1)
    requires Derives(rules, rules[Top(s).rule], Top(s).idx + 1, w[k1..][..k2], m2)
    requires StackDerives(rules, Pop(s), w[k1..][k2..], n)
    ensures StackDerives(rules, s, w, m1 + 1 + m2 + n)
  {
    var f, q, k := Top(s), RefOf(rules, s), k1 + k2;
    RuleDerivesBy(rules, q, w[..k1], m1, a);
    CutTwice(w, k1, k);
    DerivesRefJoin(rules, rules[f.rule], f.idx, w[..k], k1, m1 + 1, m2);
    StackDerivesJoin(rules, s, w, k, m1 + 1 + m2, n);
  }

  lemma ExpandsSound(rules: Rules, s: Stack, t: Stack, w: Word, n: nat)
    requires WellFormed(rules) && Expands(rules, s, t) && StackDerives(rules, t, w, n)
    ensures StackDerives(rules, s, w, n + 1)
  {
    var a :| AltStart(rules[RefOf(rules, s)], a) && t == Expansion(rules, s, a);
    ExpansionSound(rules, s, a, w, n);
  }

  lemma ExpansionJoin(rules: Rules, s: Stack, a: nat, w: Word, k1: nat, m1: nat, k2: nat, m2: nat, n: nat)
    requires WellFormed(rules) && Expandable(rules, s) && AltStart(rules[RefOf(rules, s)], a)
    requires k1 <= |w| && k2 <= |w| - k1
    requires Derives(rules, rules[RefOf(rules, s)], a, w[..k1], m1)
    requires Derives(rules, rules[Top(s).rule], Top(s).idx + 1, w[k1..][..k2], m2)
    requires StackDerives(rules, Pop(s), w[k1..][k2..], n)
    ensures StackDerives(rules, Expansion(rules, s, a), w, m1 + m2 + n)
  {
    PushJoin(rules, Pop(s), Top(s).rule, Top(s).idx + 1, w[k1..], k2, m2, n);
    PushJoin(rules, Push(rules, Pop(s), Top(s).rule, Top(s).idx + 1), RefOf(rules, s), a, w, k1, m1, m2 + n);
    assert m1 + (m2 + n) == m1 + m2 + n;
  }

  lemma ExpansionComplete(rules: Rules, s: Stack, w: Word, n: nat) returns (a: nat)
    requires WellFormed(rules) && Expandable(rules, s) && StackDerives(rules, s, w, n)
    ensures n > 0 && AltStart(rules[RefOf(rules, s)], a)
    ensures StackDerives(rules, Expansion(rules, s, a), w, n - 1)
  {
    var f, q := Top(s), RefOf(rules, s);
    var k, m := StackDerivesSplit(rules, s, w, n);
    var k1, m1 := DerivesRefSplit(rules, rules[f.rule], f.idx, w[..k], m);
    a := RuleDerivesAlternate(rules, q, w[..k][..k1], m1);
    CutTwice(w, k1, k);
    ExpansionJoin(rules, s, a, w, k1, m1 - 1, k - k1, m - m1, n - m);
  }

  // ---------------------------------------------------------------------------------------
  // Expansion to settled stacks
  // ---------------------------------------------------------------------------------------

  ghost function ExpansionSteps(rules: Rules): Relation<Stack>
    requires WellFormed(rules)
  {
    iset p: (Stack, Stack) | Expands(rules, p.0, p.1)
  }

  ghost predicate Reaches(rules: Rules, s: Stack, t: Stack)
    requires WellFormed(rules)
  {
    Connected(ExpansionSteps(rules), s, t)
  }

  /** `t` is one of the settled stacks that `s` expands to. */
  ghost predicate AdvancesTo(rules: Rules, s: Stack, t: Stack)
    requires WellFormed(rules)
  {
    Reaches(rules, s, t) && Settled(rules, t)
  }

  lemma ReachesSelf(rules: Rules, s: Stack)
    requires WellFormed(rules)
    ensures Reaches(rules, s, s)
  {
    ConnectedSelf(ExpansionSteps(rules), s);
  }

  lemma ReachesTransitive(rules: Rules, s: Stack, m: Stack, t: Stack)
    requires WellFormed(rules) && Reaches(rules, s, m) && Reaches(rules, m, t)
    ensures Reaches(rules, s, t)
  {
    ConnectedJoin(ExpansionSteps(rules), s, m, t);
  }

  lemma ReachesStep(rules: Rules, s: Stack, t: Stack)
    requires WellFormed(rules) && Expands(rules, s, t)
    ensures Reaches(rules, s, t)
  {
    EdgeConnects(ExpansionSteps(rules), s, t);
  }

  lemma ReachesThen(rules: Rules, s: Stack, m: Stack, t: Stack)
    requires WellFormed(rules) && Reaches(rules, s, m) && Expands(rules, m, t)
    ensures Reaches(rules, s, t)
  {
    ReachesStep(rules, m, t);
    ReachesTransitive(rules, s, m, t);
  }

  lemma ReachesFirst(rules: Rules, s: Stack, m: Stack, t: Stack)
    requires WellFormed(rules) && Expands(rules, s, m) && Reaches(rules, m, t)
    ensures Reaches(rules, s, t)
  {
    ReachesStep(rules, s, m);
    ReachesTransitive(rules, s, m, t);
  }

  /** What every expansion keeps holds of every reachable stack. */
  lemma ReachesInvariant(rules: Rules, s: Stack, t: Stack, u: iset<Stack>)
    requires WellFormed(rules) && Reaches(rules, s, t) && s in u
    requires forall x, y :: x in u && Expands(rules, x, y) ==> y in u
    ensures t in u
  {
    ConnectedInvariant(ExpansionSteps(rules), s, t, u);
  }

  lemma ReachesValid(rules: Rules, s: Stack, t: Stack)
    requires WellFormed(rules) && ValidStack(rules, s) && Reaches(rules, s, t)
    ensures ValidStack(rules, t)
  {
    var u := iset x | ValidStack(rules, x);
    forall x, y | x in u && Expands(rules, x, y)
      ensures y in u
    {
      var a :| AltStart(rules[RefOf(rules, x)], a) && y == Expansion(rules, x, a);
      ExpansionIsValid(rules, x, a);
    }
    ReachesInvariant(rules, s, t, u);
  }

  /** Nothing is derived from a reachable stack that was not derived from the first one. */
  lemma ReachesSound(rules: Rules, s: Stack, t: Stack, w: Word)
    requires WellFormed(rules) && Reaches(rules, s, t) && InStack(rules, t, w)
    ensures InStack(rules, s, w)
  {
    var u := iset x | InStack(rules, x, w) ==> InStack(rules, s, w);
    forall x, y | x in u && Expands(rules, x, y)
      ensures y in u
    {
      if InStack(rules, y, w) {
        var n: nat :| StackDerives(rules, y, w, n);
        ExpandsSound(rules, x, y, w, n);
      }
    }
    ReachesInvariant(rules, s, t, u);
  }

  /** Every derivation of a stack survives in one of the settled stacks. */
  lemma {:induction false} AdvanceComplete(rules: Rules, s: Stack, w: Word, n: nat) returns (t: Stack)
    requires WellFormed(rules) && ValidStack(rules, s) && StackDerives(rules, s, w, n)
    ensures AdvancesTo(rules, s, t) && InStack(rules, t, w)
    decreases n
  {
    if Settled(rules, s) {
      t := s;
      ReachesSelf(rules, s);
    } else {
      var a := ExpansionComplete(rules, s, w, n);
      var m := Expansion(rules, s, a);
      ExpansionIsValid(rules, s, a);
      t := AdvanceComplete(rules, m, w, n - 1);
      ReachesFirst(rules, s, m, t);
    }
  }

  /** The settled stacks together have exactly the language of the stack they come from. */
  lemma AdvanceKeepsLanguage(rules: Rules, s: Stack, w: Word)
    requires WellFormed(rules) && ValidStack(rules, s)
    ensures InStack(rules, s, w) <==> exists t :: AdvancesTo(rules, s, t) && InStack(rules, t, w)
  {
    if InStack(rules, s, w) {
      var n: nat :| StackDerives(rules, s, w, n);
      var t := AdvanceComplete(rules, s, w, n);
    }
    if exists t :: AdvancesTo(rules, s, t) && InStack(rules, t, w) {
      var t :| AdvancesTo(rules, s, t) && InStack(rules, t, w);
      ReachesSound(rules, s, t, w);
    }
  }
}
