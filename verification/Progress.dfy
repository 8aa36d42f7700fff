/**
  When the worklist finds at least one settled stack, which is what the filter asserts.
  */
module Progress {
  import opened GrammarElements
  import opened Language
  import opened StackExpansion
  import opened RuleUse
  import opened LeftReferences
  import opened Relations
  import opened Termination

  /** The frame on top of `base` comes to a terminal, or vanishes. */
  lemma {:induction false} FrameProgress(rules: Rules, base: Stack, f: Frame) returns (t: Stack)
    requires WellFormed(rules) && LeftAcyclic(rules) && ValidFrame(rules, f)
    ensures Reaches(rules, base + [f], t)
    ensures t == base || (|t| > |base| && Settled(rules, t))
    ensures t == base ==> NullableFrom(rules, f)
    decreases if Anchored(rules, f) then |AheadSet(rules, f.rule)| else |rules| + 1, |rules[f.rule]| - f.idx
  {
    var s, rule := base + [f], rules[f.rule];
    if !rule[f.idx].kind.RULE_REF? {
      t := s;
      ReachesSelf(rules, s);
      return;
    }
    var q := rule[f.idx].value;
    var rest := Push(rules, base, f.rule, f.idx + 1);
    var next := Expansion(rules, s, 0);
    assert Pop(s) == base;
    AfterSymbol(rules, f);
    AltStartIsSymbol(rules, q, 0);
    if IsEndOfSequence(rules[q][0]) {
      t := next;
      ReachesSelf(rules, next);
    } else {
      AltStartAnchored(rules, q, 0);
      AheadBound(rules, q);
      if Anchored(rules, f) {
        assert LeftRef(rules, Frame(f.rule, f.idx), q);
        AcyclicRank(rules, f.rule, q);
      }
      t := FrameProgress(rules, rest, Frame(q, 0));
    }
    assert Expands(rules, s, next);
    ReachesFirst(rules, s, next, t);
    if t == rest {
      NullableAlternate(rules, q, 0);
      if Anchored(rules, f) {
        AnchoredNext(rules, f);
      }
      if rest == base {
        NullableRef(rules, f);
      } else {
        var g := Frame(f.rule, f.idx + 1);
        AheadBound(rules, f.rule);
        t := FrameProgress(rules, base, g);
        ReachesTransitive(rules, s, rest, t);
        if t == base {
          NullableRef(rules, f);
        }
      }
    }
  }

  /** Without leftmost cycles every stack advances to at least one settled stack. */
  lemma {:induction false} StackProgress(rules: Rules, s: Stack) returns (t: Stack)
    requires WellFormed(rules) && LeftAcyclic(rules) && ValidStack(rules, s)
    ensures AdvancesTo(rules, s, t)
    decreases |s|
  {
    if s == [] {
      t := s;
      ReachesSelf(rules, s);
    } else {
      assert s == Pop(s) + [Top(s)];
      t := FrameProgress(rules, Pop(s), Top(s));
      if t == Pop(s) {
        t := StackProgress(rules, Pop(s));
        ReachesTransitive(rules, s, Pop(s), t);
      }
    }
  }

  // ---------------------------------------------------------------------------------------
  // Exactly when every stack settles
  // ---------------------------------------------------------------------------------------

  /** The frame waits for a character or a token, before anything of its alternate is matched. */
  ghost predicate LeadingTerminal(rules: Rules, f: Frame) {
    Anchored(rules, f) && ValidFrame(rules, f) && !ElementAt(rules, f).kind.RULE_REF?
  }

  /** Following leftmost references from `q`, one comes to a character or a token. */
  ghost predicate StartsWithTerminal(rules: Rules, q: nat) {
    exists f: Frame :: LeadsTo(rules, q, f)
  }

  ghost predicate LeadsTo(rules: Rules, q: nat, f: Frame) {
    LeftReaches(rules, q, f.rule) && LeadingTerminal(rules, f)
  }

  /** The rule can vanish, or comes to a character or a token. */
  ghost predicate CanStart(rules: Rules, q: nat) {
    NullableRule(rules, q) || StartsWithTerminal(rules, q)
  }

  /** All rules that `r` uses can start. */
  ghost predicate StartsFrom(rules: Rules, r: nat) {
    forall q: nat :: Uses(rules, r, q) && q < |rules| ==> CanStart(rules, q)
  }

  ghost function StartingRules(rules: Rules): iset<nat> {
    iset r: nat | StartsFrom(rules, r)
  }

  /** Whatever comes to the top of the stack in a run can start. */
  ghost predicate Lively(rules: Rules, s: Stack) {
    Within(s, StartingRules(rules))
  }

  ghost predicate AllLively(rules: Rules, stacks: seq<Stack>) {
    AllWithin(stacks, StartingRules(rules))
  }

  lemma StartingClosed(rules: Rules)
    ensures ClosedRules(rules, StartingRules(rules))
  {
    forall r: nat, m: nat | r in StartingRules(rules) && RefersTo(rules, r, m)
      ensures m in StartingRules(rules)
    {
      forall q: nat | Uses(rules, m, q) && q < |rules|
        ensures CanStart(rules, q)
      {
        UsesNext(rules, r, m, q);
      }
    }
  }

  lemma UsedAreLively(rules: Rules, start: nat, s: Stack)
    requires StartsFrom(rules, start) && Within(s, UsedRules(rules, start))
    ensures Lively(rules, s)
  {
    forall i | 0 <= i < |s|
      ensures s[i].rule in StartingRules(rules)
    {
      forall q: nat | Uses(rules, s[i].rule, q) && q < |rules|
        ensures CanStart(rules, q)
      {
        ConnectedJoin(RefGraph(rules), start, s[i].rule, q);
      }
    }
  }

  /** From some alternate of the rule the terminal comes to the top. */
  lemma StartSettles(rules: Rules, q: nat) returns (a: nat, t: Stack)
    requires WellFormed(rules) && q < |rules| && StartsWithTerminal(rules, q)
    ensures AltStart(rules[q], a) && ValidFrame(rules, Frame(q, a))
    ensures Reaches(rules, [Frame(q, a)], t) && t != [] && Settled(rules, t)
  {
    var f: Frame :| LeadsTo(rules, q, f);
    var b: nat :| b <= f.idx && AltStart(rules[f.rule], b) && NullableRun(rules, rules[f.rule], b, f.idx);
    RunVanishes(rules, f.rule, b, f.idx);
    assert ValidFrame(rules, Frame(f.rule, b));
    var n: nat :| Path(LeftGraph(rules), q, f.rule, n);
    if n == 0 {
      a, t := b, [f];
    } else {
      var u;
      a, u := PathCarries(rules, q, f.rule, n);
      t := u + [f];
      ReachesUnder(rules, u, [Frame(f.rule, b)], [f]);
      ReachesTransitive(rules, [Frame(q, a)], u + [Frame(f.rule, b)], t);
    }
  }

  /** A reference to a rule that comes to a terminal settles. */
  lemma RefSettles(rules: Rules, base: Stack, f: Frame) returns (t: Stack)
    requires WellFormed(rules) && ValidFrame(rules, f) && ElementAt(rules, f).kind.RULE_REF?
    requires StartsWithTerminal(rules, ElementAt(rules, f).value)
    ensures AdvancesTo(rules, base + [f], t)
  {
    var q := ElementAt(rules, f).value;
    var a, u := StartSettles(rules, q);
    AfterSymbol(rules, f);
    var rest := Push(rules, base, f.rule, f.idx + 1);
    RefExpands(rules, base, f, a);
    t := rest + u;
    ReachesUnder(rules, rest, [Frame(q, a)], u);
    ReachesFirst(rules, base + [f], rest + [Frame(q, a)], t);
  }

  /** An alternate of the rule referred to comes on top of what follows the reference. */
  lemma RefExpands(rules: Rules, base: Stack, f: Frame, a: nat)
    requires WellFormed(rules) && ValidFrame(rules, f) && ElementAt(rules, f).kind.RULE_REF? &&
      f.idx + 1 < |rules[f.rule]|
    requires AltStart(rules[ElementAt(rules, f).value], a) && ValidFrame(rules, Frame(ElementAt(rules, f).value, a))
    ensures Expands(rules, base + [f], Push(rules, base, f.rule, f.idx + 1) + [Frame(ElementAt(rules, f).value, a)])
  {
    var s := base + [f];
    assert Pop(s) == base && Top(s) == f;
    assert Expansion(rules, s, a) == Push(rules, base, f.rule, f.idx + 1) + [Frame(ElementAt(rules, f).value, a)];
  }

  /** A frame in a rule whose references can start settles, or vanishes. */
  lemma {:induction false} LivelyFrame(rules: Rules, base: Stack, f: Frame) returns (t: Stack)
    requires WellFormed(rules) && ValidFrame(rules, f) && StartsFrom(rules, f.rule)
    ensures AdvancesTo(rules, base + [f], t) || (t == base && Reaches(rules, base + [f], t))
    decreases |rules[f.rule]| - f.idx
  {
    var s, rule := base + [f], rules[f.rule];
    if !rule[f.idx].kind.RULE_REF? {
      t := s;
      ReachesSelf(rules, s);
      return;
    }
    var q := rule[f.idx].value;
    assert RefersTo(rules, f.rule, q);
    UsesItself(rules, q);
    UsesNext(rules, f.rule, q, q);
    if StartsWithTerminal(rules, q) {
      t := RefSettles(rules, base, f);
      return;
    }
    AfterSymbol(rules, f);
    RefPassed(rules, base, f);
    if IsEndOfSequence(rule[f.idx + 1]) {
      t := base;
    } else {
      t := LivelyFrame(rules, base, Frame(f.rule, f.idx + 1));
      ReachesTransitive(rules, s, base + [Frame(f.rule, f.idx + 1)], t);
    }
  }

  /** A reference to a nullable rule gives way to what follows it. */
  lemma RefPassed(rules: Rules, base: Stack, f: Frame)
    requires WellFormed(rules) && ValidFrame(rules, f) && ElementAt(rules, f).kind.RULE_REF? &&
      f.idx + 1 < |rules[f.rule]|
    requires NullableRule(rules, ElementAt(rules, f).value)
    ensures Reaches(rules, base + [f], Push(rules, base, f.rule, f.idx + 1))
  {
    if IsEndOfSequence(rules[f.rule][f.idx + 1]) {
      NullableRef(rules, f);
      var n: nat :| Derives(rules, rules[f.rule], f.idx, [], n);
      Vanishes(rules, f, n);
      ReachesUnder(rules, base, [f], []);
      assert base + [] == base;
    } else {
      RefVanishes(rules, f);
      ReachesUnder(rules, base, [f], [Frame(f.rule, f.idx + 1)]);
    }
  }

  /** A lively stack advances to at least one settled stack. */
  lemma {:induction false} LivelyProgress(rules: Rules, s: Stack) returns (t: Stack)
    requires WellFormed(rules) && Lively(rules, s) && ValidStack(rules, s)
    ensures AdvancesTo(rules, s, t)
    decreases |s|
  {
    if s == [] {
      t := s;
      ReachesSelf(rules, s);
    } else {
      assert s == Pop(s) + [Top(s)] && Top(s).rule in StartingRules(rules);
      t := LivelyFrame(rules, Pop(s), Top(s));
      if t == Pop(s) && !AdvancesTo(rules, s, t) {
        t := LivelyProgress(rules, Pop(s));
        ReachesTransitive(rules, s, Pop(s), t);
      }
    }
  }

  /** Frames above which everything vanishes were put there by leftmost references from `q`. */
  ghost predicate LeftBuilt(rules: Rules, q: nat, x: Stack) {
    ValidStack(rules, x) && forall j :: 0 <= j < |x| ==> LeftBuiltAt(rules, q, x, j)
  }

  ghost predicate LeftBuiltAt(rules: Rules, q: nat, x: Stack, j: nat)
    requires j < |x|
  {
    NullableAbove(rules, x, j) ==> Anchored(rules, x[j]) && LeftReaches(rules, q, x[j].rule)
  }

  lemma LeftBuiltNext(rules: Rules, q: nat, x: Stack, y: Stack)
    requires WellFormed(rules) && LeftBuilt(rules, q, x) && Expands(rules, x, y)
    ensures LeftBuilt(rules, q, y)
  {
    var a :| AltStart(rules[RefOf(rules, x)], a) && y == Expansion(rules, x, a);
    ExpansionIsValid(rules, x, a);
    forall j | 0 <= j < |y|
      ensures LeftBuiltAt(rules, q, y, j)
    {
      if NullableAbove(rules, y, j) {
        LeftBuiltStep(rules, q, x, a, j);
      }
    }
  }

  lemma LeftBuiltStep(rules: Rules, q: nat, x: Stack, a: nat, j: nat)
    requires WellFormed(rules) && LeftBuilt(rules, q, x) && Expandable(rules, x) && AltStart(rules[RefOf(rules, x)], a)
    requires j < |Expansion(rules, x, a)| && NullableAbove(rules, Expansion(rules, x, a), j)
    ensures Anchored(rules, Expansion(rules, x, a)[j]) && LeftReaches(rules, q, Expansion(rules, x, a)[j].rule)
  {
    var y, f, m := Expansion(rules, x, a), Top(x), RefOf(rules, x);
    if j < |x| - 1 {
      NullableAboveBefore(rules, x, a, j);
      assert LeftBuiltAt(rules, q, x, j) && y[j] == x[j];
    } else {
      assert LeftBuiltAt(rules, q, x, |x| - 1) && NullableAbove(rules, x, |x| - 1);
      if y[j] == Frame(m, a) {
        AltStartAnchored(rules, m, a);
        assert LeftRef(rules, Frame(f.rule, f.idx), m);
        EdgeReaches(rules, f.rule, m);
        LeftReachesJoin(rules, q, f.rule, m);
      } else {
        assert y[j] == Frame(f.rule, f.idx + 1);
        ResidualAnchored(rules, x, a);
      }
    }
  }

  /** A settled stack that an alternate of `q` comes to shows how `q` can start. */
  lemma SettledShows(rules: Rules, q: nat, t: Stack)
    requires WellFormed(rules) && q < |rules| && ValidFrame(rules, Frame(q, 0)) && AdvancesTo(rules, [Frame(q, 0)], t)
    ensures CanStart(rules, q)
  {
    var s := [Frame(q, 0)];
    if t == [] {
      assert StackDerives(rules, t, [], 0);
      ReachesSound(rules, s, t, []);
      var n: nat :| StackDerives(rules, s, [], n);
      var k, m := StackDerivesSplit(rules, s, [], n);
      assert NullableFrom(rules, Frame(q, 0));
      NullableAlternate(rules, q, 0);
    } else {
      AltStartAnchored(rules, q, 0);
      ReachesItself(rules, q);
      assert LeftBuilt(rules, q, s);
      var u := iset x | LeftBuilt(rules, q, x);
      forall x, y | x in u && Expands(rules, x, y)
        ensures y in u
      {
        LeftBuiltNext(rules, q, x, y);
      }
      ReachesInvariant(rules, s, t, u);
      assert LeftBuiltAt(rules, q, t, |t| - 1) && NullableAbove(rules, t, |t| - 1);
      assert LeadsTo(rules, q, Top(t));
    }
  }

  /** If the first alternate of a rule settles, or is empty, the rule can start. */
  lemma FirstShows(rules: Rules, q: nat)
    requires WellFormed(rules) && q < |rules|
    requires ValidFrame(rules, Frame(q, 0)) ==> exists t :: AdvancesTo(rules, [Frame(q, 0)], t)
    ensures CanStart(rules, q)
  {
    AltStartIsSymbol(rules, q, 0);
    if IsEndOfSequence(rules[q][0]) {
      NullableAlternate(rules, q, 0);
    } else {
      var t :| AdvancesTo(rules, [Frame(q, 0)], t);
      SettledShows(rules, q, t);
    }
  }

  /**
    Every stack of the rules that `start` uses advances to a settled one if and only if each of these rules
    can vanish or comes, by leftmost references, to a character or a token.
    */
  lemma SettlesFromIff(rules: Rules, start: nat)
    requires WellFormed(rules)
    ensures StartsFrom(rules, start) <==> forall s :: StackOf(rules, start, s) ==> exists t :: AdvancesTo(rules, s, t)
  {
    if StartsFrom(rules, start) {
      forall s | StackOf(rules, start, s)
        ensures exists t :: AdvancesTo(rules, s, t)
      {
        UsedAreLively(rules, start, s);
        var t := LivelyProgress(rules, s);
      }
    }
    if forall s :: StackOf(rules, start, s) ==> exists t :: AdvancesTo(rules, s, t) {
      forall q: nat | Uses(rules, start, q) && q < |rules|
        ensures CanStart(rules, q)
      {
        assert ValidFrame(rules, Frame(q, 0)) ==> StackOf(rules, start, [Frame(q, 0)]);
        FirstShows(rules, q);
      }
    }
  }

  /** The same for all rules and all stacks of a grammar. */
  lemma SettlesIff(rules: Rules)
    requires WellFormed(rules)
    ensures (forall q: nat :: q < |rules| ==> CanStart(rules, q)) <==>
      forall s :: ValidStack(rules, s) ==> exists t :: AdvancesTo(rules, s, t)
  {
    if forall q: nat :: q < |rules| ==> CanStart(rules, q) {
      forall s | ValidStack(rules, s)
        ensures exists t :: AdvancesTo(rules, s, t)
      {
        var t := LivelyProgress(rules, s);
      }
    }
    if forall s :: ValidStack(rules, s) ==> exists t :: AdvancesTo(rules, s, t) {
      forall q: nat | q < |rules|
        ensures CanStart(rules, q)
      {
        assert ValidFrame(rules, Frame(q, 0)) ==> ValidStack(rules, [Frame(q, 0)]);
        FirstShows(rules, q);
      }
    }
  }

  /** Without leftmost cycles all stacks are tame and lively. */
  lemma AcyclicIsLively(rules: Rules, s: Stack)
    requires WellFormed(rules) && LeftAcyclic(rules)
    ensures Tame(rules, s) && Lively(rules, s)
  {
    AcyclicIsGrowthFree(rules);
    GrowthFreeIsTame(rules, s);
    forall x | ValidStack(rules, x)
      ensures exists t :: AdvancesTo(rules, x, t)
    {
      var t := StackProgress(rules, x);
    }
    SettlesIff(rules);
  }
}
