/**
  Leftmost references between rules, counting a reference as leftmost when everything before it
  in its alternate can derive the empty word.
  */
module LeftReferences {
  import opened GrammarElements
  import opened Language
  import opened Relations
  import opened RuleUse

  ghost predicate NullableRule(rules: Rules, q: nat) {
    InRule(rules, q, [])
  }

  /** The alternate can end in the empty word from `f` on. */
  ghost predicate NullableFrom(rules: Rules, f: Frame) {
    InBounds(rules, f) && InSuffix(rules, rules[f.rule], f.idx, [])
  }

  /** Only references to nullable rules lie between `a` and `i`. */
  ghost predicate NullableRun(rules: Rules, rule: Rule, a: nat, i: nat)
    requires i <= |rule|
  {
    forall j :: a <= j < i ==> rule[j].kind.RULE_REF? && NullableRule(rules, rule[j].value)
  }

  /** The frame can be on top before any character of its alternate is matched. */
  ghost predicate Anchored(rules: Rules, f: Frame) {
    && InBounds(rules, f)
    && exists a: nat :: a <= f.idx && AltStart(rules[f.rule], a) && NullableRun(rules, rules[f.rule], a, f.idx)
  }

  ghost predicate LeftRef(rules: Rules, f: Frame, q: nat) {
    Anchored(rules, f) && ElementAt(rules, f) == Element(RULE_REF, q)
  }

  ghost predicate LeftEdge(rules: Rules, r: nat, q: nat) {
    exists i :: LeftRef(rules, Frame(r, i), q)
  }

  /** A leftmost reference that is not the end of its alternate: expanding it leaves a frame behind. */
  ghost predicate GrowRef(rules: Rules, f: Frame, q: nat) {
    && LeftRef(rules, f, q)
    && f.idx + 1 < |rules[f.rule]|
    && !IsEndOfSequence(rules[f.rule][f.idx + 1])
  }

  ghost predicate GrowEdge(rules: Rules, r: nat, q: nat) {
    exists i :: GrowRef(rules, Frame(r, i), q)
  }

  /** The graph of leftmost references. */
  ghost function LeftGraph(rules: Rules): Graph {
    iset e: (nat, nat) | e.1 < |rules| && LeftEdge(rules, e.0, e.1)
  }

  ghost predicate LeftReaches(rules: Rules, r: nat, q: nat) {
    Connected(LeftGraph(rules), r, q)
  }

  /** Some leftmost path from `r` to `q` leaves a frame behind. */
  ghost predicate Grows(rules: Rules, r: nat, q: nat) {
    exists a, b :: LeftReaches(rules, r, a) && GrowEdge(rules, a, b) && LeftReaches(rules, b, q)
  }

  /** No rule returns to itself, leftmost, with something left to match behind it. */
  ghost predicate GrowthFree(rules: Rules) {
    forall r: nat :: !Grows(rules, r, r)
  }

  /** None of the rules that `r` uses does so. */
  ghost predicate GrowthFreeFrom(rules: Rules, r: nat) {
    forall q: nat :: Uses(rules, r, q) ==> !Grows(rules, q, q)
  }

  ghost function GrowthFreeRules(rules: Rules): iset<nat> {
    iset r: nat | GrowthFreeFrom(rules, r)
  }

  /** Nothing grows, whatever is on top of the stack in a run. */
  ghost predicate Tame(rules: Rules, s: Stack) {
    Within(s, GrowthFreeRules(rules))
  }

  ghost predicate AllTame(rules: Rules, stacks: seq<Stack>) {
    AllWithin(stacks, GrowthFreeRules(rules))
  }

  lemma GrowthFreeClosed(rules: Rules)
    ensures ClosedRules(rules, GrowthFreeRules(rules))
  {
    forall r: nat, m: nat | r in GrowthFreeRules(rules) && RefersTo(rules, r, m)
      ensures m in GrowthFreeRules(rules)
    {
      forall q: nat | Uses(rules, m, q)
        ensures !Grows(rules, q, q)
      {
        UsesNext(rules, r, m, q);
      }
    }
  }

  /** A grammar that is free of growth from its start rule keeps its stacks tame. */
  lemma UsedAreTame(rules: Rules, start: nat, s: Stack)
    requires GrowthFreeFrom(rules, start) && Within(s, UsedRules(rules, start))
    ensures Tame(rules, s)
  {
    forall i | 0 <= i < |s|
      ensures s[i].rule in GrowthFreeRules(rules)
    {
      forall q: nat | Uses(rules, s[i].rule, q)
        ensures !Grows(rules, q, q)
      {
        ConnectedJoin(RefGraph(rules), start, s[i].rule, q);
      }
    }
  }

  ghost predicate LeftAcyclic(rules: Rules) {
    Acyclic(LeftGraph(rules))
  }

  lemma LeftReachesJoin(rules: Rules, r: nat, m: nat, q: nat)
    requires LeftReaches(rules, r, m) && LeftReaches(rules, m, q)
    ensures LeftReaches(rules, r, q)
  {
    ConnectedJoin(LeftGraph(rules), r, m, q);
  }

  lemma EdgeReaches(rules: Rules, r: nat, q: nat)
    requires LeftEdge(rules, r, q) && q < |rules|
    ensures (r, q) in LeftGraph(rules) && LeftReaches(rules, r, q)
  {
    assert (r, q) in LeftGraph(rules);
    EdgeConnects(LeftGraph(rules), r, q);
  }

  lemma GrowEdgeIsLeft(rules: Rules, r: nat, q: nat)
    requires GrowEdge(rules, r, q)
    ensures LeftEdge(rules, r, q)
    ensures WellFormed(rules) ==> q < |rules|
  {
    var i :| GrowRef(rules, Frame(r, i), q);
  }

  lemma ReachesItself(rules: Rules, r: nat)
    ensures LeftReaches(rules, r, r)
  {
    ConnectedSelf(LeftGraph(rules), r);
  }

  lemma GrowthIsCycle(rules: Rules, r: nat) returns (a: nat)
    requires WellFormed(rules) && Grows(rules, r, r)
    ensures OnCycle(LeftGraph(rules), a)
  {
    var b: nat;
    a, b :| LeftReaches(rules, r, a) && GrowEdge(rules, a, b) && LeftReaches(rules, b, r);
    GrowEdgeIsLeft(rules, a, b);
    EdgeReaches(rules, a, b);
    LeftReachesJoin(rules, b, r, a);
  }

  /** Without leftmost cycles there are no growing ones. */
  lemma AcyclicIsGrowthFree(rules: Rules)
    requires WellFormed(rules) && LeftAcyclic(rules)
    ensures GrowthFree(rules)
  {
    forall r: nat
      ensures !Grows(rules, r, r)
    {
      if Grows(rules, r, r) {
        var a := GrowthIsCycle(rules, r);
      }
    }
  }

  // ---------------------------------------------------------------------------------------
  // Ranks: sizes of the sets of rules ahead
  // ---------------------------------------------------------------------------------------

  ghost function GrowSet(rules: Rules, r: nat): set<nat> {
    set q: nat | q < |rules| && Grows(rules, r, q)
  }

  ghost predicate Ahead(rules: Rules, r: nat, q: nat) {
    exists m :: (r, m) in LeftGraph(rules) && LeftReaches(rules, m, q)
  }

  ghost function AheadSet(rules: Rules, r: nat): set<nat> {
    set q: nat | q < |rules| && Ahead(rules, r, q)
  }

  lemma EdgeRank(rules: Rules, r: nat, q: nat)
    requires LeftEdge(rules, r, q) && q < |rules|
    ensures |GrowSet(rules, q)| <= |GrowSet(rules, r)| <= |rules|
  {
    EdgeReaches(rules, r, q);
    forall x | x in GrowSet(rules, q)
      ensures x in GrowSet(rules, r)
    {
      var a: nat, b: nat :| LeftReaches(rules, q, a) && GrowEdge(rules, a, b) && LeftReaches(rules, b, x);
      LeftReachesJoin(rules, r, q, a);
    }
    SubsetSize(GrowSet(rules, q), GrowSet(rules, r));
    BelowSize(GrowSet(rules, r), |rules|);
  }

  lemma GrowEdgeRank(rules: Rules, r: nat, q: nat)
    requires !Grows(rules, q, q) && GrowEdge(rules, r, q) && q < |rules|
    ensures |GrowSet(rules, q)| < |GrowSet(rules, r)| <= |rules|
  {
    GrowEdgeIsLeft(rules, r, q);
    EdgeRank(rules, r, q);
    ReachesItself(rules, r);
    ReachesItself(rules, q);
    assert Grows(rules, r, q);
    EdgeReaches(rules, r, q);
    forall x | x in GrowSet(rules, q)
      ensures x in GrowSet(rules, r)
    {
      var a: nat, b: nat :| LeftReaches(rules, q, a) && GrowEdge(rules, a, b) && LeftReaches(rules, b, x);
      LeftReachesJoin(rules, r, q, a);
    }
    SmallerSubset(GrowSet(rules, q), GrowSet(rules, r), q);
  }

  lemma AcyclicRank(rules: Rules, r: nat, q: nat)
    requires LeftAcyclic(rules) && LeftEdge(rules, r, q) && q < |rules|
    ensures |AheadSet(rules, q)| < |AheadSet(rules, r)|
  {
    EdgeReaches(rules, r, q);
    ReachesItself(rules, q);
    assert q in AheadSet(rules, r);
    assert q !in AheadSet(rules, q) by {
      assert Ahead(rules, q, q) ==> OnCycle(LeftGraph(rules), q);
    }
    forall x | x in AheadSet(rules, q)
      ensures x in AheadSet(rules, r)
    {
      var m: nat :| (q, m) in LeftGraph(rules) && LeftReaches(rules, m, x);
      EdgeConnects(LeftGraph(rules), q, m);
      LeftReachesJoin(rules, q, m, x);
    }
    SmallerSubset(AheadSet(rules, q), AheadSet(rules, r), q);
  }

  lemma AheadBound(rules: Rules, r: nat)
    ensures |AheadSet(rules, r)| <= |rules|
  {
    BelowSize(AheadSet(rules, r), |rules|);
  }

  // ---------------------------------------------------------------------------------------
  // Nullability along an expansion
  // ---------------------------------------------------------------------------------------

  /** An alternate that vanishes makes its rule nullable. */
  lemma NullableAlternate(rules: Rules, q: nat, a: nat)
    requires q < |rules| && AltStart(rules[q], a)
    requires IsEndOfSequence(rules[q][a]) || NullableFrom(rules, Frame(q, a))
    ensures NullableRule(rules, q)
  {
    if IsEndOfSequence(rules[q][a]) {
      assert Derives(rules, rules[q], a, [], 0);
      RuleDerivesBy(rules, q, [], 0, a);
    } else {
      var n: nat :| Derives(rules, rules[q], a, [], n);
      RuleDerivesBy(rules, q, [], n, a);
    }
  }

  /** A reference to a nullable rule followed by a nullable rest is nullable. */
  lemma NullableRef(rules: Rules, f: Frame)
    requires InBounds(rules, f) && ElementAt(rules, f).kind.RULE_REF? && f.idx + 1 < |rules[f.rule]|
    requires NullableRule(rules, ElementAt(rules, f).value)
    requires IsEndOfSequence(rules[f.rule][f.idx + 1]) || NullableFrom(rules, Frame(f.rule, f.idx + 1))
    ensures NullableFrom(rules, f)
  {
    var rule, w := rules[f.rule], [];
    var m: nat :| RuleDerives(rules, rule[f.idx].value, w, m);
    var n: nat := 0;
    if !IsEndOfSequence(rule[f.idx + 1]) {
      n :| Derives(rules, rule, f.idx + 1, w, n);
    }
    assert w[..0] == w && w[0..] == w;
    DerivesRefJoin(rules, rule, f.idx, w, 0, m, n);
  }

  /** Moving over a nullable reference keeps a frame anchored. */
  lemma AnchoredNext(rules: Rules, f: Frame)
    requires Anchored(rules, f) && ElementAt(rules, f).kind.RULE_REF? && f.idx + 1 < |rules[f.rule]|
    requires NullableRule(rules, ElementAt(rules, f).value)
    ensures Anchored(rules, Frame(f.rule, f.idx + 1))
  {
    var a: nat :| a <= f.idx && AltStart(rules[f.rule], a) && NullableRun(rules, rules[f.rule], a, f.idx);
    assert NullableRun(rules, rules[f.rule], a, f.idx + 1);
  }

  lemma AltStartAnchored(rules: Rules, q: nat, a: nat)
    requires q < |rules| && AltStart(rules[q], a)
    ensures Anchored(rules, Frame(q, a))
  {
    assert NullableRun(rules, rules[q], a, a);
  }
}
