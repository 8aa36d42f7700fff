/**
  The left-recursion check that runs when a grammar is loaded. It counts a reference as leftmost
  when only references to rules that derive the empty word by one application precede it.
  */
module LeftRecursion {
  import opened GrammarElements
  import opened Language
  import opened StackExpansion
  import opened LeftReferences
  import opened Worklist
  import opened Termination
  import opened Progress
  import opened Relations

  /** The rule derives the empty word by one application. */
  ghost predicate EmptyAtOnce(rules: Rules, q: nat) {
    RuleDerives(rules, q, [], 1)
  }

  /** It does exactly if it has an alternate with no elements at all. */
  lemma EmptyAtOnceIff(rules: Rules, q: nat)
    ensures EmptyAtOnce(rules, q) <==>
      q < |rules| && exists a: nat :: AltStart(rules[q], a) && IsEndOfSequence(rules[q][a])
  {
    if EmptyAtOnce(rules, q) {
      var a := RuleDerivesAlternate(rules, q, [], 1);
      assert !rules[q][a].kind.RULE_REF? by {
        if rules[q][a].kind.RULE_REF? {
          var k, m := DerivesRefSplit(rules, rules[q], a, [], 0);
        }
      }
    }
    if q < |rules| && exists a: nat :: AltStart(rules[q], a) && IsEndOfSequence(rules[q][a]) {
      var a: nat :| AltStart(rules[q], a) && IsEndOfSequence(rules[q][a]);
      RuleDerivesBy(rules, q, [], 0, a);
    }
  }

  ghost predicate SkippableRun(rules: Rules, rule: Rule, a: nat, i: nat)
    requires i <= |rule|
  {
    forall j :: a <= j < i ==> rule[j].kind.RULE_REF? && EmptyAtOnce(rules, rule[j].value)
  }

  /** Only references to rules that are empty at once precede position `i` in its alternate. */
  ghost predicate Leading(rules: Rules, rule: Rule, i: nat)
    requires i <= |rule|
  {
    exists a: nat :: a <= i && AltStart(rule, a) && SkippableRun(rules, rule, a, i)
  }

  ghost predicate CheckedRef(rules: Rules, r: nat, i: nat, q: nat) {
    r < |rules| && i < |rules[r]| && rules[r][i] == Element(RULE_REF, q) && Leading(rules, rules[r], i)
  }

  ghost predicate HasCheckedRef(rules: Rules, r: nat, q: nat) {
    exists i :: CheckedRef(rules, r, i, q)
  }

  /** The references that the check follows. */
  ghost function CheckedGraph(rules: Rules): Graph {
    iset e: (nat, nat) | e.1 < |rules| && HasCheckedRef(rules, e.0, e.1)
  }

  ghost predicate ReachesCycle(g: Graph, r: nat) {
    exists m :: Connected(g, r, m) && OnCycle(g, m)
  }

  /** Some walk from `r` comes back to `r`, to a rule on the walk, or to a rule of `p`. */
  ghost predicate Loops(g: Graph, n: nat, r: nat, p: set<nat>)
    requires r < n && forall x :: x in p ==> x < n
    decreases n - |p|, 1
  {
    BelowSize(p, n);
    r in p || exists q :: LoopsVia(g, n, r, q, p)
  }

  ghost predicate LoopsVia(g: Graph, n: nat, r: nat, q: nat, p: set<nat>)
    requires r < n && r !in p && forall x :: x in p ==> x < n
    decreases n - |p|, 0
  {
    BelowSize(p + {r}, n);
    (r, q) in g && q < n && Loops(g, n, q, p + {r})
  }

  lemma ReachesCycleStep(g: Graph, r: nat) returns (q: nat)
    requires ReachesCycle(g, r)
    ensures (r, q) in g && ReachesCycle(g, q)
  {
    var m: nat :| Connected(g, r, m) && OnCycle(g, m);
    var n: nat :| Path(g, r, m, n);
    if n > 0 {
      q :| (r, q) in g && Path(g, q, m, n - 1);
      assert Connected(g, q, m);
    } else {
      q :| (r, q) in g && Connected(g, q, r);
    }
  }

  lemma CycleClosed(g: Graph, r: nat, q: nat)
    requires (r, q) in g && Connected(g, q, r)
    ensures ReachesCycle(g, r)
  {
    ConnectedSelf(g, r);
    assert OnCycle(g, r);
  }

  lemma CycleBefore(g: Graph, r: nat, q: nat)
    requires Connected(g, r, q) && ReachesCycle(g, q)
    ensures ReachesCycle(g, r)
  {
    var m: nat :| Connected(g, q, m) && OnCycle(g, m);
    ConnectedJoin(g, r, q, m);
  }

  /** A cycle ahead is always found, whatever is in progress. */
  lemma {:induction false} CycleLoops(g: Graph, n: nat, r: nat, p: set<nat>)
    requires forall x, y :: (x, y) in g ==> x < n && y < n
    requires r < n && (forall x :: x in p ==> x < n) && ReachesCycle(g, r)
    ensures Loops(g, n, r, p)
    decreases n - |p|
  {
    if r !in p {
      var q := ReachesCycleStep(g, r);
      BelowSize(p + {r}, n);
      CycleLoops(g, n, q, p + {r});
      assert LoopsVia(g, n, r, q, p);
    }
  }

  /** What is found is a cycle ahead, or a rule that was in progress. */
  lemma {:induction false} LoopsMeans(g: Graph, n: nat, r: nat, p: set<nat>)
    requires r < n && (forall x :: x in p ==> x < n) && Loops(g, n, r, p)
    ensures ReachesCycle(g, r) || exists x :: x in p && Connected(g, r, x)
    decreases n - |p|
  {
    if r in p {
      ConnectedSelf(g, r);
    } else {
      var q: nat :| LoopsVia(g, n, r, q, p);
      BelowSize(p + {r}, n);
      LoopsMeans(g, n, q, p + {r});
      EdgeConnects(g, r, q);
      if Connected(g, q, r) {
        CycleClosed(g, r, q);
      } else if ReachesCycle(g, q) {
        CycleBefore(g, r, q);
      } else {
        var x :| x in p + {r} && Connected(g, q, x);
        ConnectedJoin(g, r, q, x);
      }
    }
  }

  // ---------------------------------------------------------------------------------------
  // The recursive check
  // ---------------------------------------------------------------------------------------

  ghost function Marked(a: array<bool>): (s: set<nat>)
    reads a
    ensures forall x: nat :: x in s <==> x < a.Length && a[x]
  {
    set i: nat | i < a.Length && a[i]
  }

  /** Whether some alternate of the rule is empty, scanning element by element. */
  method HasEmpty(rules: Rules, r: nat) returns (empty: bool)
    requires WellFormed(rules) && r < |rules|
    ensures empty <==> EmptyAtOnce(rules, r)
  {
    var rule := rules[r];
    EmptyAtOnceIff(rules, r);
    var atRuleStart := true;
    for i := 0 to |rule|
      invariant i < |rule| ==> (atRuleStart <==> AltStart(rule, i))
      invariant forall a: nat :: a < i && AltStart(rule, a) ==> !IsEndOfSequence(rule[a])
    {
      if IsEndOfSequence(rule[i]) {
        if atRuleStart {
          return true;
        }
        atRuleStart := true;
      } else {
        atRuleStart := false;
      }
    }
    return false;
  }

  lemma LeadingStep(rules: Rules, rule: Rule, i: nat)
    requires i + 1 < |rule|
    ensures Leading(rules, rule, 0)
    ensures Leading(rules, rule, i + 1) <==>
      rule[i].kind.ALT? || (Leading(rules, rule, i) && rule[i].kind.RULE_REF? &&
        EmptyAtOnce(rules, rule[i].value))
  {
    assert AltStart(rule, 0) && SkippableRun(rules, rule, 0, 0);
    if rule[i].kind.ALT? {
      assert AltStart(rule, i + 1) && SkippableRun(rules, rule, i + 1, i + 1);
    } else {
      if Leading(rules, rule, i + 1) {
        var a: nat :| a <= i + 1 && AltStart(rule, a) && SkippableRun(rules, rule, a, i + 1);
        assert a <= i && SkippableRun(rules, rule, a, i);
      }
      if Leading(rules, rule, i) && rule[i].kind.RULE_REF? && EmptyAtOnce(rules, rule[i].value) {
        var a: nat :| a <= i && AltStart(rule, a) && SkippableRun(rules, rule, a, i);
        assert SkippableRun(rules, rule, a, i + 1);
      }
    }
  }

  ghost function RulesEmptyAtOnce(rules: Rules): set<nat> {
    set q: nat | q < |rules| && EmptyAtOnce(rules, q)
  }

  /** The rules from which no checked reference leads into a cycle. */
  ghost function CycleFreeRules(rules: Rules): set<nat> {
    set q: nat | q < |rules| && !ReachesCycle(CheckedGraph(rules), q)
  }

  /** The reference at `j`, if it is a leading one, leads into no loop. */
  ghost predicate RefIsClean(rules: Rules, r: nat, j: nat, p: set<nat>)
    requires r < |rules| && r !in p && (forall x :: x in p ==> x < |rules|) && j < |rules[r]|
  {
    (rules[r][j].kind.RULE_REF? && Leading(rules, rules[r], j)) ==>
      !LoopsVia(CheckedGraph(rules), |rules|, r, rules[r][j].value, p)
  }

  lemma CheckedRefIsEdge(rules: Rules, r: nat, i: nat)
    requires WellFormed(rules) && r < |rules| && i < |rules[r]|
    requires rules[r][i].kind.RULE_REF? && Leading(rules, rules[r], i)
    ensures rules[r][i].value < |rules| && (r, rules[r][i].value) in CheckedGraph(rules)
  {
    assert CheckedRef(rules, r, i, rules[r][i].value);
  }

  lemma LoopFound(rules: Rules, r: nat, i: nat, p: set<nat>)
    requires WellFormed(rules) && r < |rules| && r !in p && forall x :: x in p ==> x < |rules|
    requires i < |rules[r]| && rules[r][i].value < |rules| && (r, rules[r][i].value) in CheckedGraph(rules)
    requires Loops(CheckedGraph(rules), |rules|, rules[r][i].value, p + {r})
    ensures Loops(CheckedGraph(rules), |rules|, r, p)
  {
    assert LoopsVia(CheckedGraph(rules), |rules|, r, rules[r][i].value, p);
  }

  lemma NothingFound(rules: Rules, r: nat, p: set<nat>)
    requires WellFormed(rules) && r < |rules| && r !in p && forall x :: x in p ==> x < |rules|
    requires forall j :: 0 <= j < |rules[r]| ==> RefIsClean(rules, r, j, p)
    ensures !Loops(CheckedGraph(rules), |rules|, r, p)
    ensures !ReachesCycle(CheckedGraph(rules), r)
  {
    var g, n := CheckedGraph(rules), |rules|;
    forall q: nat
      ensures !LoopsVia(g, n, r, q, p)
    {
      if (r, q) in g {
        var i :| CheckedRef(rules, r, i, q);
        assert RefIsClean(rules, r, i, p);
      }
    }
    if ReachesCycle(g, r) {
      CycleLoops(g, n, r, p);
    }
  }

  /**
    Follows the leading references of a rule depth first. It answers whether a walk along them loops;
    when none does, the rules in progress are as before and the emptiness bit of the rule is right.
    */
  method DetectLeftRecursion(rules: Rules, ruleIndex: nat, visited: array<bool>, inProgress: array<bool>,
                             mayBeEmpty: array<bool>) returns (found: bool)
    requires WellFormed(rules) && ruleIndex < |rules|
    requires visited.Length == inProgress.Length == mayBeEmpty.Length == |rules|
    requires visited != inProgress && visited != mayBeEmpty && inProgress != mayBeEmpty
    requires Marked(mayBeEmpty) <= RulesEmptyAtOnce(rules)
    modifies visited, inProgress, mayBeEmpty
    ensures found <==> Loops(CheckedGraph(rules), |rules|, ruleIndex, old(Marked(inProgress)))
    ensures old(Marked(mayBeEmpty)) <= Marked(mayBeEmpty) <= RulesEmptyAtOnce(rules)
    ensures old(Marked(visited)) <= Marked(visited) <= old(Marked(visited)) + CycleFreeRules(rules)
    ensures !found ==> (ruleIndex in Marked(mayBeEmpty) <==> EmptyAtOnce(rules, ruleIndex))
    ensures !found ==> ruleIndex in Marked(visited)
    ensures !found ==> Marked(inProgress) == old(Marked(inProgress))
    decreases |rules| - |Marked(inProgress)|
  {
    ghost var p := Marked(inProgress);
    if inProgress[ruleIndex] {
      return true;
    }
    inProgress[ruleIndex] := true;
    assert Marked(inProgress) == p + {ruleIndex};
    BelowSize(p + {ruleIndex}, |rules|);

    var rule := rules[ruleIndex];
    var empty := HasEmpty(rules, ruleIndex);
    if empty {
      mayBeEmpty[ruleIndex] := true;
    }

    var recurse := true;
    assert AltStart(rule, 0) && SkippableRun(rules, rule, 0, 0);
    for i := 0 to |rule|
      invariant Marked(inProgress) == p + {ruleIndex}
      invariant old(Marked(mayBeEmpty)) <= Marked(mayBeEmpty) <= RulesEmptyAtOnce(rules)
      invariant old(Marked(visited)) <= Marked(visited) <= old(Marked(visited)) + CycleFreeRules(rules)
      invariant ruleIndex in Marked(mayBeEmpty) <==> EmptyAtOnce(rules, ruleIndex)
      invariant i < |rule| ==> (recurse <==> Leading(rules, rule, i))
      invariant forall j :: 0 <= j < i ==> RefIsClean(rules, ruleIndex, j, p)
    {
      if i + 1 < |rule| {
        LeadingStep(rules, rule, i);
      }
      if rule[i].kind.RULE_REF? && recurse {
        var q := rule[i].value;
        CheckedRefIsEdge(rules, ruleIndex, i);
        var inner := DetectLeftRecursion(rules, q, visited, inProgress, mayBeEmpty);
        if inner {
          LoopFound(rules, ruleIndex, i, p);
          return true;
        }
        if !mayBeEmpty[q] {
          recurse := false;
        }
      } else if IsEndOfSequence(rule[i]) {
        recurse := true;
      } else {
        recurse := false;
      }
    }
    NothingFound(rules, ruleIndex, p);
    inProgress[ruleIndex] := false;
    visited[ruleIndex] := true;
    assert Marked(inProgress) == p;
    return false;
  }

  /** The check over all rules: a grammar is turned down exactly if its checked references have a cycle. */
  method HasLeftRecursion(rules: Rules) returns (found: bool)
    requires WellFormed(rules)
    ensures found <==> !Acyclic(CheckedGraph(rules))
  {
    var n := |rules|;
    ghost var g := CheckedGraph(rules);
    var visited := new bool[n](_ => false);
    var inProgress := new bool[n](_ => false);
    var mayBeEmpty := new bool[n](_ => false);
    for i := 0 to n
      invariant Marked(inProgress) == {}
      invariant Marked(mayBeEmpty) <= RulesEmptyAtOnce(rules)
      invariant Marked(visited) <= CycleFreeRules(rules)
      invariant forall q: nat :: q < i ==> q in Marked(visited)
    {
      if visited[i] {
        continue;
      }
      var inner := DetectLeftRecursion(rules, i, visited, inProgress, mayBeEmpty);
      if inner {
        LoopsMeans(g, n, i, {});
        return true;
      }
    }
    forall r: nat
      ensures !OnCycle(g, r)
    {
      ConnectedSelf(g, r);
      assert r < n ==> r in CycleFreeRules(rules);
    }
    return false;
  }

  // ---------------------------------------------------------------------------------------
  // What a passed check is worth to the worklist
  // ---------------------------------------------------------------------------------------

  /** Every reference the check follows is a leftmost one. */
  lemma CheckedIsLeft(rules: Rules)
    requires WellFormed(rules)
    ensures CheckedGraph(rules) <= LeftGraph(rules)
  {
    forall r: nat, q: nat | (r, q) in CheckedGraph(rules)
      ensures (r, q) in LeftGraph(rules)
    {
      var i: nat :| CheckedRef(rules, r, i, q);
      var a: nat :| a <= i && AltStart(rules[r], a) && SkippableRun(rules, rules[r], a, i);
      forall j | a <= j < i
        ensures NullableRule(rules, rules[r][j].value)
      {
        assert EmptyAtOnce(rules, rules[r][j].value);
      }
      assert NullableRun(rules, rules[r], a, i);
      assert LeftRef(rules, Frame(r, i), q);
    }
  }

  /** Nullability that the check can see: a rule that derives the empty word does so at once. */
  ghost predicate NullabilityIsLiteral(rules: Rules) {
    forall q: nat :: q < |rules| && NullableRule(rules, q) ==> EmptyAtOnce(rules, q)
  }

  /** With literal nullability the check is exact for the worklist's own leftmost references. */
  lemma CheckedIsAllLeft(rules: Rules)
    requires WellFormed(rules) && NullabilityIsLiteral(rules)
    ensures CheckedGraph(rules) == LeftGraph(rules)
  {
    CheckedIsLeft(rules);
    forall r: nat, q: nat | (r, q) in LeftGraph(rules)
      ensures (r, q) in CheckedGraph(rules)
    {
      var i: nat :| LeftRef(rules, Frame(r, i), q);
      var a: nat :| a <= i && AltStart(rules[r], a) && NullableRun(rules, rules[r], a, i);
      assert SkippableRun(rules, rules[r], a, i);
      assert CheckedRef(rules, r, i, q);
    }
  }

  /**
    What the check promises to the worklist: a grammar without leftmost cycles always passes, and,
    where nullability is literal, a grammar that passes has none, so that every stack finitely
    expands and advances to a settled one.
    */
  lemma PassedCheckSuffices(rules: Rules)
    requires WellFormed(rules)
    ensures LeftAcyclic(rules) ==> Acyclic(CheckedGraph(rules))
    ensures NullabilityIsLiteral(rules) && Acyclic(CheckedGraph(rules)) ==> LeftAcyclic(rules)
    ensures LeftAcyclic(rules) ==> forall s :: ValidStack(rules, s) ==>
      FinitelyExpandable(rules, s) && exists t :: AdvancesTo(rules, s, t)
  {
    CheckedIsLeft(rules);
    if LeftAcyclic(rules) {
      AcyclicSubgraph(CheckedGraph(rules), LeftGraph(rules));
      forall s | ValidStack(rules, s)
        ensures FinitelyExpandable(rules, s) && exists t :: AdvancesTo(rules, s, t)
      {
        AcyclicIsLively(rules, s);
        TameTerminates(rules, s);
        var t := StackProgress(rules, s);
      }
    }
    if NullabilityIsLiteral(rules) {
      CheckedIsAllLeft(rules);
    }
  }

  /** A ::= B A "x" | "y"   B ::= C   C ::= "z" |  */
  function HiddenLeftRecursion(): Rules {
    [
      [Element(RULE_REF, 1), Element(RULE_REF, 0), Element(CHAR, 120), Element(ALT, 0), Element(CHAR, 121),
        Element(END, 0)],
      [Element(RULE_REF, 2), Element(END, 0)],
      [Element(CHAR, 122), Element(ALT, 0), Element(END, 0)]
    ]
  }

  lemma HiddenIsWellFormed()
    ensures WellFormed(HiddenLeftRecursion())
  {
    var rules := HiddenLeftRecursion();
    assert |rules| == 3 && |rules[0]| == 6 && |rules[1]| == 2 && |rules[2]| == 3;
    forall r | 0 <= r < |rules|
      ensures WellShaped(rules[r]) && RefsBelow(rules[r], |rules|)
    {
      assert r == 0 || r == 1 || r == 2;
    }
  }

  lemma HiddenPassesCheck()
    ensures WellFormed(HiddenLeftRecursion())
    ensures Acyclic(CheckedGraph(HiddenLeftRecursion()))
  {
    var rules := HiddenLeftRecursion();
    HiddenIsWellFormed();
    EmptyAtOnceIff(rules, 1);
    LeadingStep(rules, rules[0], 0);
    forall r: nat, q: nat | (r, q) in CheckedGraph(rules)
      ensures r < q
    {
      var i: nat :| CheckedRef(rules, r, i, q);
      assert r == 0 ==> rules[0][i].kind.RULE_REF? ==> i == 0 || i == 1;
    }
    RisingIsAcyclic(CheckedGraph(rules));
  }

  lemma HiddenGrows()
    ensures WellFormed(HiddenLeftRecursion()) && Grows(HiddenLeftRecursion(), 0, 0)
  {
    var rules := HiddenLeftRecursion();
    HiddenIsWellFormed();
    NullableAlternate(rules, 2, 2);
    NullableRef(rules, Frame(1, 0));
    NullableAlternate(rules, 1, 0);
    assert AltStart(rules[0], 0) && NullableRun(rules, rules[0], 0, 1);
    assert GrowRef(rules, Frame(0, 1), 0);
    assert GrowEdge(rules, 0, 0);
    ReachesItself(rules, 0);
  }

  /**
    The check is not enough on its own: this grammar passes it, yet the worklist never runs dry on
    one of its stacks, because B derives the empty word through C.
    */
  lemma HiddenLeftRecursionPasses() returns (s: Stack)
    ensures WellFormed(HiddenLeftRecursion())
    ensures Acyclic(CheckedGraph(HiddenLeftRecursion()))
    ensures ValidStack(HiddenLeftRecursion(), s) && |s| == 1 && s[0].rule == 0
    ensures !FinitelyExpandable(HiddenLeftRecursion(), s)
  {
    HiddenPassesCheck();
    HiddenGrows();
    s := GrowthDiverges(HiddenLeftRecursion(), 0);
  }

  /** A ::= B A   B ::= C   C ::= */
  function StallingGrammar(): Rules {
    [
      [Element(RULE_REF, 1), Element(RULE_REF, 0), Element(END, 0)],
      [Element(RULE_REF, 2), Element(END, 0)],
      [Element(END, 0)]
    ]
  }

  lemma StallingIsWellFormed()
    ensures WellFormed(StallingGrammar())
  {
    var rules := StallingGrammar();
    forall r | 0 <= r < |rules|
      ensures WellShaped(rules[r]) && RefsBelow(rules[r], |rules|)
    {
      assert r == 0 || r == 1 || r == 2;
    }
  }

  lemma StallingPassesCheck()
    ensures WellFormed(StallingGrammar()) && Acyclic(CheckedGraph(StallingGrammar()))
  {
    var rules := StallingGrammar();
    StallingIsWellFormed();
    EmptyAtOnceIff(rules, 1);
    LeadingStep(rules, rules[0], 0);
    forall r: nat, q: nat | (r, q) in CheckedGraph(rules)
      ensures r < q
    {
      var i: nat :| CheckedRef(rules, r, i, q);
      assert r == 0 ==> rules[0][i].kind.RULE_REF? ==> i == 0 || i == 1;
    }
    RisingIsAcyclic(CheckedGraph(rules));
  }

  /** The stacks that a stack on A comes to. */
  ghost function StallingStacks(): iset<Stack> {
    iset{[Frame(0, 0)], [Frame(0, 1), Frame(1, 0)], [Frame(0, 1)]}
  }

  lemma StallingStep(x: Stack, y: Stack)
    requires WellFormed(StallingGrammar()) && x in StallingStacks() && Expands(StallingGrammar(), x, y)
    ensures y in StallingStacks()
  {
    var rules := StallingGrammar();
    var a :| AltStart(rules[RefOf(rules, x)], a) && y == Expansion(rules, x, a);
    assert a == 0;
    if x == [Frame(0, 0)] {
      assert Pop(x) == [] && y == [Frame(0, 1), Frame(1, 0)];
    } else if x == [Frame(0, 1)] {
      assert Pop(x) == [] && y == [Frame(0, 0)];
    } else {
      assert Pop(x) == [Frame(0, 1)] && y == [Frame(0, 1)];
    }
  }

  /** A grammar that passes the check, on which the worklist stops but finds no settled stack. */
  lemma StallingPasses()
    ensures WellFormed(StallingGrammar()) && Acyclic(CheckedGraph(StallingGrammar()))
    ensures ValidStack(StallingGrammar(), [Frame(0, 0)])
    ensures !exists t :: AdvancesTo(StallingGrammar(), [Frame(0, 0)], t)
  {
    var rules, s := StallingGrammar(), [Frame(0, 0)];
    StallingPassesCheck();
    forall t
      ensures !AdvancesTo(rules, s, t)
    {
      if Reaches(rules, s, t) {
        forall x, y | x in StallingStacks() && Expands(rules, x, y)
          ensures y in StallingStacks()
        {
          StallingStep(x, y);
        }
        ReachesInvariant(rules, s, t, StallingStacks());
      }
    }
  }
}
