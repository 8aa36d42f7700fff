/**
  The rules that a rule uses, directly or through others: no run leaves them.
  */
module RuleUse {
  import opened GrammarElements
  import opened Language
  import opened StackExpansion
  import opened Relations

  ghost predicate RefersTo(rules: Rules, r: nat, q: nat) {
    r < |rules| && exists i :: 0 <= i < |rules[r]| && rules[r][i] == Element(RULE_REF, q)
  }

  /** The graph of all references. */
  ghost function RefGraph(rules: Rules): Graph {
    iset e: (nat, nat) | RefersTo(rules, e.0, e.1)
  }

  /** `q` is `r` itself, or a rule that `r` uses. */
  ghost predicate Uses(rules: Rules, r: nat, q: nat) {
    Connected(RefGraph(rules), r, q)
  }

  /** References lead from rules of the set to rules of the set. */
  ghost predicate ClosedRules(rules: Rules, u: iset<nat>) {
    forall r: nat, q: nat :: r in u && RefersTo(rules, r, q) ==> q in u
  }

  /** All frames of the stack are in rules of the set. */
  ghost predicate Within(s: Stack, u: iset<nat>) {
    forall i :: 0 <= i < |s| ==> s[i].rule in u
  }

  ghost predicate AllWithin(stacks: seq<Stack>, u: iset<nat>) {
    forall s :: s in stacks ==> Within(s, u)
  }

  /** The rules that `r` uses. */
  ghost function UsedRules(rules: Rules, r: nat): iset<nat> {
    iset q: nat | Uses(rules, r, q)
  }

  lemma UsedRulesClosed(rules: Rules, r: nat)
    ensures ClosedRules(rules, UsedRules(rules, r))
  {
    forall m: nat, q: nat | m in UsedRules(rules, r) && RefersTo(rules, m, q)
      ensures q in UsedRules(rules, r)
    {
      assert (m, q) in RefGraph(rules);
      EdgeConnects(RefGraph(rules), m, q);
      ConnectedJoin(RefGraph(rules), r, m, q);
    }
  }

  lemma UsesItself(rules: Rules, r: nat)
    ensures Uses(rules, r, r)
  {
    ConnectedSelf(RefGraph(rules), r);
  }

  lemma UsesNext(rules: Rules, r: nat, m: nat, q: nat)
    requires RefersTo(rules, r, m) && Uses(rules, m, q)
    ensures Uses(rules, r, q)
  {
    assert (r, m) in RefGraph(rules);
    EdgeConnects(RefGraph(rules), r, m);
    ConnectedJoin(RefGraph(rules), r, m, q);
  }

  lemma ExpandsWithin(rules: Rules, s: Stack, t: Stack, u: iset<nat>)
    requires WellFormed(rules) && ClosedRules(rules, u) && Within(s, u) && Expands(rules, s, t)
    ensures Within(t, u)
  {
    var a :| AltStart(rules[RefOf(rules, s)], a) && t == Expansion(rules, s, a);
    assert rules[Top(s).rule][Top(s).idx] == Element(RULE_REF, RefOf(rules, s));
    assert RefersTo(rules, Top(s).rule, RefOf(rules, s));
  }

  /** Expanding references never leaves the set. */
  lemma ReachesWithin(rules: Rules, s: Stack, t: Stack, u: iset<nat>)
    requires WellFormed(rules) && ClosedRules(rules, u) && Within(s, u) && Reaches(rules, s, t)
    ensures Within(t, u)
  {
    var all := iset x | Within(x, u);
    forall x, y | x in all && Expands(rules, x, y)
      ensures y in all
    {
      ExpandsWithin(rules, x, y, u);
    }
    ReachesInvariant(rules, s, t, all);
  }
}
