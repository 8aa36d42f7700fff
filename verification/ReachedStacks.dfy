/**
  The stacks that runs from a start rule really come to, and exactly when the worklist stops on all of
  them: what stands behind something that nothing can match is never looked at.
  */
module ReachedStacks {
  import opened GrammarElements
  import opened Language
  import opened StackExpansion
  import opened Relations
  import opened RuleUse
  import opened LeftReferences
  import opened Worklist
  import opened Termination
  import opened CharStep

  // ---------------------------------------------------------------------------------------
  // What can be matched
  // ---------------------------------------------------------------------------------------

  /** The element can be matched, with references nested at most `n` deep: by some character, some token, or a rule. */
  ghost predicate Passable(rules: Rules, rule: Rule, j: nat, n: nat)
    requires j < |rule|
    decreases n, 2
  {
    if rule[j].kind.RULE_REF? then RuleMatches(rules, rule[j].value, n)
    else if IsClassStart(rule[j]) then exists c :: ClassAccepts(rule, j, c)
    else !IsEndOfSequence(rule[j])
  }

  /** The rule has an alternate of which all elements can be matched. */
  ghost predicate RuleMatches(rules: Rules, q: nat, n: nat)
    decreases n, 1
  {
    n > 0 && exists a: nat, e: nat :: AlternateMatches(rules, q, n, a, e)
  }

  ghost predicate AlternateMatches(rules: Rules, q: nat, n: nat, a: nat, e: nat)
    requires n > 0
    decreases n, 0
  {
    && q < |rules| && a <= e < |rules[q]| && AltStart(rules[q], a) && IsEndOfSequence(rules[q][e])
    && MatchedRun(rules, rules[q], a, e, n - 1)
  }

  /** Everything from `b` up to `i` can be matched. */
  ghost predicate MatchedRun(rules: Rules, rule: Rule, b: nat, i: nat, n: nat)
    decreases n, 3
  {
    b <= i <= |rule| && forall j :: b <= j < i ==> Passable(rules, rule, j, n)
  }

  lemma {:induction false} RuleMatchesMonotone(rules: Rules, q: nat, n: nat, n': nat)
    requires n <= n' && RuleMatches(rules, q, n)
    ensures RuleMatches(rules, q, n')
    decreases n, 0
  {
    var a: nat, e: nat :| AlternateMatches(rules, q, n, a, e);
    RunMatchesMonotone(rules, rules[q], a, e, n - 1, n' - 1);
    assert AlternateMatches(rules, q, n', a, e);
  }

  lemma {:induction false} RunMatchesMonotone(rules: Rules, rule: Rule, b: nat, i: nat, n: nat, n': nat)
    requires n <= n' && MatchedRun(rules, rule, b, i, n)
    ensures MatchedRun(rules, rule, b, i, n')
    decreases n, 1
  {
    forall j | b <= j < i
      ensures Passable(rules, rule, j, n')
    {
      assert Passable(rules, rule, j, n);
      if rule[j].kind.RULE_REF? {
        RuleMatchesMonotone(rules, rule[j].value, n, n');
      }
    }
  }

  lemma RunsJoin(rules: Rules, rule: Rule, b: nat, i: nat, n: nat, e: nat, m: nat)
    requires MatchedRun(rules, rule, b, i, n) && MatchedRun(rules, rule, i, e, m)
    ensures MatchedRun(rules, rule, b, e, n + m)
  {
    RunMatchesMonotone(rules, rule, b, i, n, n + m);
    RunMatchesMonotone(rules, rule, i, e, m, n + m);
  }

  /** What stands in front of the frame in its alternate can be matched. */
  ghost predicate Exposed(rules: Rules, f: Frame) {
    && InBounds(rules, f)
    && exists b: nat, n: nat :: AltStart(rules[f.rule], b) && MatchedRun(rules, rules[f.rule], b, f.idx, n)
  }

  /** The alternate can be matched from the frame to its end. */
  ghost predicate CanFinish(rules: Rules, f: Frame) {
    InBounds(rules, f) && exists e: nat, n: nat :: FinishesAt(rules, f, e, n)
  }

  ghost predicate FinishesAt(rules: Rules, f: Frame, e: nat, n: nat)
    requires InBounds(rules, f)
  {
    e < |rules[f.rule]| && IsEndOfSequence(rules[f.rule][e]) && MatchedRun(rules, rules[f.rule], f.idx, e, n)
  }

  /** Rule `r` refers to `q` behind elements that can be matched. */
  ghost predicate OpensRef(rules: Rules, r: nat, q: nat) {
    exists i: nat :: Exposed(rules, Frame(r, i)) && rules[r][i] == Element(RULE_REF, q)
  }

  ghost function EnterGraph(rules: Rules): Graph {
    iset e: (nat, nat) | OpensRef(rules, e.0, e.1)
  }

  /** A run from `start` can come to the rule. */
  ghost predicate Entered(rules: Rules, start: nat, q: nat) {
    Connected(EnterGraph(rules), start, q)
  }

  // ---------------------------------------------------------------------------------------
  // Runs
  // ---------------------------------------------------------------------------------------

  /** Some character or some token is taken by the terminal on top. */
  ghost predicate Moves(rules: Rules, s: Stack, t: Stack)
    requires WellFormed(rules)
  {
    && s != [] && ValidFrame(rules, Top(s)) && t == AfterTop(rules, s)
    && (IsToken(ElementAt(rules, Top(s))) || exists c :: CharAccepts(rules, s, c))
  }

  ghost function RunSteps(rules: Rules): Relation<Stack>
    requires WellFormed(rules)
  {
    iset p: (Stack, Stack) | Expands(rules, p.0, p.1) || Moves(rules, p.0, p.1)
  }

  ghost predicate RunsTo(rules: Rules, s: Stack, t: Stack)
    requires WellFormed(rules)
  {
    Connected(RunSteps(rules), s, t)
  }

  /** The stack comes up in some run from the start rule. */
  ghost predicate Reached(rules: Rules, start: nat, s: Stack)
    requires WellFormed(rules) && start < |rules|
  {
    exists a :: AltStart(rules[start], a) && RunsTo(rules, Push(rules, [], start, a), s)
  }

  lemma StepRuns(rules: Rules, s: Stack, t: Stack)
    requires WellFormed(rules) && (Expands(rules, s, t) || Moves(rules, s, t))
    ensures RunsTo(rules, s, t)
  {
    EdgeConnects(RunSteps(rules), s, t);
  }

  lemma RunsOn(rules: Rules, s: Stack, m: Stack, t: Stack)
    requires WellFormed(rules) && RunsTo(rules, s, m) && RunsTo(rules, m, t)
    ensures RunsTo(rules, s, t)
  {
    ConnectedJoin(RunSteps(rules), s, m, t);
  }

  /** All stacks that a code point leads to are reached. */
  lemma FollowersReached(rules: Rules, start: nat, s: Stack, c: CodePoint, t: Stack)
    requires WellFormed(rules) && start < |rules| && Reached(rules, start, s) && Follows(rules, s, c, t)
    ensures Reached(rules, start, t)
  {
    var a :| AltStart(rules[start], a) && RunsTo(rules, Push(rules, [], start, a), s);
    var m := AfterTop(rules, s);
    assert Moves(rules, s, m);
    StepRuns(rules, s, m);
    ExpansionRuns(rules, m, t);
    RunsOn(rules, s, m, t);
    RunsOn(rules, Push(rules, [], start, a), s, t);
  }

  lemma ExpansionRuns(rules: Rules, s: Stack, t: Stack)
    requires WellFormed(rules) && Reaches(rules, s, t)
    ensures RunsTo(rules, s, t)
  {
    var u := iset x | RunsTo(rules, s, x);
    ConnectedSelf(RunSteps(rules), s);
    forall x, y | x in u && Expands(rules, x, y)
      ensures y in u
    {
      StepRuns(rules, x, y);
      RunsOn(rules, s, x, y);
    }
    ReachesInvariant(rules, s, t, u);
  }

  // ---------------------------------------------------------------------------------------
  // Every rule that can be entered is entered
  // ---------------------------------------------------------------------------------------

  /** The symbol at `b` can be left behind. */
  lemma {:induction false} SymbolCrossed(rules: Rules, base: Stack, f: Frame, n: nat)
    requires WellFormed(rules) && ValidFrame(rules, f) && Passable(rules, rules[f.rule], f.idx, n)
    ensures SymbolEnd(rules[f.rule], f.idx) < |rules[f.rule]|
    ensures RunsTo(rules, base + [f], Push(rules, base, f.rule, SymbolEnd(rules[f.rule], f.idx)))
    decreases n, 0, 0
  {
    var s := base + [f];
    AfterSymbol(rules, f);
    assert Pop(s) == base;
    if ElementAt(rules, f).kind.RULE_REF? {
      var q := ElementAt(rules, f).value;
      var rest := Push(rules, base, f.rule, f.idx + 1);
      assert RuleMatches(rules, q, n);
      var a: nat, e: nat :| AlternateMatches(rules, q, n, a, e);
      var next := Push(rules, rest, q, a);
      assert next == Expansion(rules, s, a);
      StepRuns(rules, s, next);
      AltStartIsSymbol(rules, q, a);
      Crossed(rules, rest, q, a, e, n - 1);
      RunsOn(rules, s, next, rest);
    } else {
      if IsClassStart(ElementAt(rules, f)) {
        var c :| ClassAccepts(rules[f.rule], f.idx, c);
        assert CharAccepts(rules, s, c);
      }
      assert Moves(rules, s, AfterTop(rules, s));
      StepRuns(rules, s, AfterTop(rules, s));
    }
  }

  /** A run of symbols that can be matched is left behind, with the stack below untouched. */
  lemma {:induction false} Crossed(rules: Rules, base: Stack, r: nat, b: nat, i: nat, n: nat)
    requires WellFormed(rules) && r < |rules| && i < |rules[r]| && MatchedRun(rules, rules[r], b, i, n)
    requires !IsContinuation(rules[r][b]) && !IsContinuation(rules[r][i])
    ensures RunsTo(rules, Push(rules, base, r, b), Push(rules, base, r, i))
    decreases n, 1, i - b
  {
    if b == i {
      ConnectedSelf(RunSteps(rules), Push(rules, base, r, b));
    } else {
      var f := Frame(r, b);
      assert Passable(rules, rules[r], b, n);
      SymbolCrossed(rules, base, f, n);
      var k := SymbolEnd(rules[r], b);
      assert k <= i;
      Crossed(rules, base, r, k, i, n);
      RunsOn(rules, Push(rules, base, r, b), Push(rules, base, r, k), Push(rules, base, r, i));
    }
  }

  /** Every alternate of the rule comes to the top of `u`. */
  ghost predicate EnteredOn(rules: Rules, start: nat, q: nat, u: Stack)
    requires WellFormed(rules) && start < |rules|
  {
    q < |rules| && forall a :: AltStart(rules[q], a) ==> Reached(rules, start, Push(rules, u, q, a))
  }

  lemma ReachedRuns(rules: Rules, start: nat, s: Stack, t: Stack)
    requires WellFormed(rules) && start < |rules| && Reached(rules, start, s) && RunsTo(rules, s, t)
    ensures Reached(rules, start, t)
  {
    var a :| AltStart(rules[start], a) && RunsTo(rules, Push(rules, [], start, a), s);
    RunsOn(rules, Push(rules, [], start, a), s, t);
  }

  lemma AlternateReached(rules: Rules, start: nat, q: nat, u: Stack, a: nat)
    requires WellFormed(rules) && start < |rules| && EnteredOn(rules, start, q, u) && AltStart(rules[q], a)
    ensures Reached(rules, start, Push(rules, u, q, a))
  {
  }

  /** A symbol behind what can be matched comes to the top. */
  lemma RefReached(rules: Rules, start: nat, u: Stack, f: Frame)
    requires WellFormed(rules) && start < |rules| && EnteredOn(rules, start, f.rule, u) && Exposed(rules, f) &&
      ValidFrame(rules, f)
    ensures Reached(rules, start, u + [f])
  {
    var b: nat, n: nat :| AltStart(rules[f.rule], b) && MatchedRun(rules, rules[f.rule], b, f.idx, n);
    AlternateReached(rules, start, f.rule, u, b);
    ComesToTop(rules, u, f, b, n);
    ReachedRuns(rules, start, Push(rules, u, f.rule, b), u + [f]);
  }

  lemma ComesToTop(rules: Rules, u: Stack, f: Frame, b: nat, n: nat)
    requires WellFormed(rules) && ValidFrame(rules, f) && AltStart(rules[f.rule], b) &&
      MatchedRun(rules, rules[f.rule], b, f.idx, n)
    ensures RunsTo(rules, Push(rules, u, f.rule, b), u + [f])
  {
    AltStartIsSymbol(rules, f.rule, b);
    Crossed(rules, u, f.rule, b, f.idx, n);
    assert Push(rules, u, f.rule, f.idx) == u + [f];
  }

  lemma EnteredNext(rules: Rules, start: nat, r: nat, u: Stack, q: nat) returns (v: Stack)
    requires WellFormed(rules) && start < |rules| && EnteredOn(rules, start, r, u) && OpensRef(rules, r, q)
    ensures EnteredOn(rules, start, q, v)
  {
    var i: nat :| Exposed(rules, Frame(r, i)) && rules[r][i] == Element(RULE_REF, q);
    var f := Frame(r, i);
    RefReached(rules, start, u, f);
    AfterSymbol(rules, f);
    v := Push(rules, u, r, i + 1);
    forall c | AltStart(rules[q], c)
      ensures Reached(rules, start, Push(rules, v, q, c))
    {
      RefExpanded(rules, u, f, c);
      ReachedRuns(rules, start, u + [f], Push(rules, v, q, c));
    }
  }

  lemma RefExpanded(rules: Rules, u: Stack, f: Frame, c: nat)
    requires WellFormed(rules) && ValidFrame(rules, f) && ElementAt(rules, f).kind.RULE_REF? &&
      f.idx + 1 < |rules[f.rule]|
    requires AltStart(rules[ElementAt(rules, f).value], c)
    ensures RunsTo(rules, u + [f], Push(rules, Push(rules, u, f.rule, f.idx + 1), ElementAt(rules, f).value, c))
  {
    var s := u + [f];
    assert Pop(s) == u && Top(s) == f;
    StepRuns(rules, s, Expansion(rules, s, c));
  }

  ghost predicate EnteredSomewhere(rules: Rules, start: nat, q: nat)
    requires WellFormed(rules) && start < |rules|
  {
    exists u :: EnteredOn(rules, start, q, u)
  }

  lemma EnteredIsReached(rules: Rules, start: nat, q: nat) returns (u: Stack)
    requires WellFormed(rules) && start < |rules| && Entered(rules, start, q)
    ensures EnteredOn(rules, start, q, u)
  {
    forall a | AltStart(rules[start], a)
      ensures Reached(rules, start, Push(rules, [], start, a))
    {
      ConnectedSelf(RunSteps(rules), Push(rules, [], start, a));
    }
    assert EnteredOn(rules, start, start, []);
    var all := iset x: nat | EnteredSomewhere(rules, start, x);
    forall x, y | x in all && (x, y) in EnterGraph(rules)
      ensures y in all
    {
      var v :| EnteredOn(rules, start, x, v);
      var w := EnteredNext(rules, start, x, v, y);
    }
    ConnectedInvariant(EnterGraph(rules), start, q, all);
    u :| EnteredOn(rules, start, q, u);
  }

  // ---------------------------------------------------------------------------------------
  // No other is
  // ---------------------------------------------------------------------------------------

  /** If everything above a frame can be matched to its end, what stands before the frame can be matched too. */
  ghost predicate Poised(rules: Rules, start: nat, s: Stack) {
    ValidStack(rules, s) && forall j :: 0 <= j < |s| ==> Entered(rules, start, s[j].rule) && PoisedAt(rules, s, j)
  }

  ghost predicate PoisedAt(rules: Rules, s: Stack, j: nat)
    requires j < |s|
  {
    FinishAbove(rules, s, j) ==> Exposed(rules, s[j])
  }

  ghost predicate FinishAbove(rules: Rules, s: Stack, j: nat) {
    forall l :: j < l < |s| ==> CanFinish(rules, s[l])
  }

  ghost predicate FinishFrom(rules: Rules, s: Stack, k: nat) {
    forall l :: k <= l < |s| ==> CanFinish(rules, s[l])
  }

  lemma AlternateExposed(rules: Rules, q: nat, a: nat)
    requires q < |rules| && AltStart(rules[q], a)
    ensures Exposed(rules, Frame(q, a))
  {
    assert MatchedRun(rules, rules[q], a, a, 0);
  }

  /** Behind a symbol that can be matched the next one is exposed, and if the rest finishes, so does the whole. */
  lemma SymbolPassed(rules: Rules, f: Frame, n: nat)
    requires WellFormed(rules) && ValidFrame(rules, f) && Passable(rules, rules[f.rule], f.idx, n)
    ensures var g := Frame(f.rule, SymbolEnd(rules[f.rule], f.idx));
      && InBounds(rules, g) && (Exposed(rules, f) ==> Exposed(rules, g))
      && (IsEndOfSequence(ElementAt(rules, g)) || CanFinish(rules, g) ==> CanFinish(rules, f))
  {
    AfterSymbol(rules, f);
    var rule, k := rules[f.rule], SymbolEnd(rules[f.rule], f.idx);
    var g := Frame(f.rule, k);
    forall j | f.idx <= j < k
      ensures Passable(rules, rule, j, n)
    {
      assert j != f.idx ==> IsContinuation(rule[j]);
    }
    assert MatchedRun(rules, rule, f.idx, k, n);
    if Exposed(rules, f) {
      var b: nat, m: nat :| AltStart(rule, b) && MatchedRun(rules, rule, b, f.idx, m);
      RunsJoin(rules, rule, b, f.idx, m, k, n);
    }
    if IsEndOfSequence(rule[k]) {
      assert FinishesAt(rules, f, k, n);
    } else if CanFinish(rules, g) {
      var e: nat, m: nat :| FinishesAt(rules, g, e, m);
      RunsJoin(rules, rule, f.idx, k, n, e, m);
      assert FinishesAt(rules, f, e, n + m);
    }
  }

  /** An alternate that is empty or can be matched to its end makes the rule one that can be matched. */
  lemma AlternateFinishes(rules: Rules, q: nat, a: nat) returns (n: nat)
    requires q < |rules| && AltStart(rules[q], a) && (IsEndOfSequence(rules[q][a]) || CanFinish(rules, Frame(q, a)))
    ensures RuleMatches(rules, q, n)
  {
    if IsEndOfSequence(rules[q][a]) {
      n := 1;
      assert AlternateMatches(rules, q, 1, a, a);
    } else {
      var e: nat, m: nat :| FinishesAt(rules, Frame(q, a), e, m);
      n := m + 1;
      assert AlternateMatches(rules, q, n, a, e);
    }
  }

  /** The stack `t` is `s` without its top, with frames on it that, if all can be matched, stand for the top. */
  ghost predicate Replaces(rules: Rules, s: Stack, t: Stack) {
    && s != [] && |s| - 1 <= |t| && t[..|s| - 1] == Pop(s)
    && (FinishFrom(rules, t, |s| - 1) ==> CanFinish(rules, Top(s)))
  }

  lemma LowerStaysPoised(rules: Rules, s: Stack, t: Stack, j: nat)
    requires Replaces(rules, s, t) && j < |s| - 1 && PoisedAt(rules, s, j)
    ensures PoisedAt(rules, t, j) && t[j] == s[j]
  {
  }

  lemma ExpansionPoised(rules: Rules, start: nat, s: Stack, a: nat)
    requires WellFormed(rules) && Poised(rules, start, s) && Expandable(rules, s) && AltStart(rules[RefOf(rules, s)], a)
    ensures Poised(rules, start, Expansion(rules, s, a))
  {
    var f, q, t := Top(s), RefOf(rules, s), Expansion(rules, s, a);
    var g := Frame(f.rule, f.idx + 1);
    ExpansionIsValid(rules, s, a);
    AfterSymbol(rules, f);
    TopExposed(rules, start, s);
    EnterByRef(rules, start, f, q);
    AlternateExposed(rules, q, a);
    if IsEndOfSequence(rules[q][a]) || CanFinish(rules, Frame(q, a)) {
      var n := AlternateFinishes(rules, q, a);
      SymbolPassed(rules, f, n);
    }
    ExpansionReplaces(rules, s, a);
    forall j | 0 <= j < |t|
      ensures Entered(rules, start, t[j].rule) && PoisedAt(rules, t, j)
    {
      if j < |s| - 1 {
        LowerStaysPoised(rules, s, t, j);
      } else if j < |t| - 1 {
        assert t[j] == g && t[j + 1] == Frame(q, a);
      }
    }
  }

  lemma TopExposed(rules: Rules, start: nat, s: Stack)
    requires Poised(rules, start, s) && s != []
    ensures Exposed(rules, Top(s)) && Entered(rules, start, Top(s).rule)
  {
  }

  lemma EnterByRef(rules: Rules, start: nat, f: Frame, q: nat)
    requires Entered(rules, start, f.rule) && Exposed(rules, f) && ElementAt(rules, f) == Element(RULE_REF, q)
    ensures Entered(rules, start, q)
  {
    assert Exposed(rules, Frame(f.rule, f.idx));
    assert (f.rule, q) in EnterGraph(rules);
    EdgeConnects(EnterGraph(rules), f.rule, q);
    ConnectedJoin(EnterGraph(rules), start, f.rule, q);
  }

  lemma ExpansionReplaces(rules: Rules, s: Stack, a: nat)
    requires WellFormed(rules) && ValidStack(rules, s) && Expandable(rules, s) && AltStart(rules[RefOf(rules, s)], a)
    ensures Replaces(rules, s, Expansion(rules, s, a))
  {
    var f, q, t := Top(s), RefOf(rules, s), Expansion(rules, s, a);
    AfterSymbol(rules, f);
    if FinishFrom(rules, t, |s| - 1) {
      if !IsEndOfSequence(rules[q][a]) {
        assert t[|t| - 1] == Frame(q, a);
      }
      var n := AlternateFinishes(rules, q, a);
      if !IsEndOfSequence(rules[f.rule][f.idx + 1]) {
        assert t[|s| - 1] == Frame(f.rule, f.idx + 1);
      }
      SymbolPassed(rules, f, n);
    }
  }

  lemma MovePoised(rules: Rules, start: nat, s: Stack, t: Stack)
    requires WellFormed(rules) && Poised(rules, start, s) && Moves(rules, s, t)
    ensures Poised(rules, start, t)
  {
    var f := Top(s);
    AfterTopIsValid(rules, s);
    AfterSymbol(rules, f);
    TopExposed(rules, start, s);
    assert Passable(rules, rules[f.rule], f.idx, 0);
    SymbolPassed(rules, f, 0);
    if !IsEndOfSequence(rules[f.rule][SymbolEnd(rules[f.rule], f.idx)]) {
      assert t[|s| - 1] == Frame(f.rule, SymbolEnd(rules[f.rule], f.idx));
    }
    assert Replaces(rules, s, t);
    forall j | 0 <= j < |t|
      ensures Entered(rules, start, t[j].rule) && PoisedAt(rules, t, j)
    {
      if j < |s| - 1 {
        LowerStaysPoised(rules, s, t, j);
      }
    }
  }

  lemma StepPoised(rules: Rules, start: nat, s: Stack, t: Stack)
    requires WellFormed(rules) && Poised(rules, start, s) && (Expands(rules, s, t) || Moves(rules, s, t))
    ensures Poised(rules, start, t)
  {
    if Expands(rules, s, t) {
      var a :| AltStart(rules[RefOf(rules, s)], a) && t == Expansion(rules, s, a);
      ExpansionPoised(rules, start, s, a);
    } else {
      MovePoised(rules, start, s, t);
    }
  }

  lemma RunPoised(rules: Rules, start: nat, s: Stack, t: Stack)
    requires WellFormed(rules) && Poised(rules, start, s) && RunsTo(rules, s, t)
    ensures Poised(rules, start, t)
  {
    var u := iset x | Poised(rules, start, x);
    forall x, y | x in u && (x, y) in RunSteps(rules)
      ensures y in u
    {
      StepPoised(rules, start, x, y);
    }
    ConnectedInvariant(RunSteps(rules), s, t, u);
  }

  lemma ReachedPoised(rules: Rules, start: nat, s: Stack)
    requires WellFormed(rules) && start < |rules| && Reached(rules, start, s)
    ensures Poised(rules, start, s)
  {
    var a :| AltStart(rules[start], a) && RunsTo(rules, Push(rules, [], start, a), s);
    AltStartIsSymbol(rules, start, a);
    AlternateExposed(rules, start, a);
    ConnectedSelf(EnterGraph(rules), start);
    RunPoised(rules, start, Push(rules, [], start, a), s);
  }

  // ---------------------------------------------------------------------------------------
  // The table without what is never looked at
  // ---------------------------------------------------------------------------------------

  /** References that no run comes to become tokens. */
  ghost function PrunedElement(rules: Rules, f: Frame): (e: Element)
    requires InBounds(rules, f)
    ensures e == ElementAt(rules, f) || (ElementAt(rules, f).kind.RULE_REF? && IsToken(e))
  {
    if ElementAt(rules, f).kind.RULE_REF? && !Exposed(rules, f) then Element(TOKEN, 0) else ElementAt(rules, f)
  }

  ghost function PrunedRule(rules: Rules, r: nat): (rule: Rule)
    requires r < |rules|
    ensures |rule| == |rules[r]| && forall i :: 0 <= i < |rule| ==> rule[i] == PrunedElement(rules, Frame(r, i))
  {
    seq(|rules[r]|, i requires 0 <= i < |rules[r]| => PrunedElement(rules, Frame(r, i)))
  }

  ghost function Pruned(rules: Rules): (pruned: Rules)
    ensures |pruned| == |rules| && forall r :: 0 <= r < |rules| ==> pruned[r] == PrunedRule(rules, r)
  {
    seq(|rules|, r requires 0 <= r < |rules| => PrunedRule(rules, r))
  }

  lemma PrunedWellFormed(rules: Rules)
    requires WellFormed(rules)
    ensures WellFormed(Pruned(rules))
  {
    forall r | 0 <= r < |rules|
      ensures WellShaped(Pruned(rules)[r]) && RefsBelow(Pruned(rules)[r], |rules|)
    {
      var rule, pruned := rules[r], PrunedRule(rules, r);
      forall i | 0 <= i < |rule|
        ensures FollowsWell(pruned, i)
      {
        assert FollowsWell(rule, i);
        assert i > 0 ==> pruned[i - 1] == PrunedElement(rules, Frame(r, i - 1));
      }
    }
  }

  /** Expanding in the pruned table is expanding in the table; for poised stacks it is the same. */
  lemma PrunedExpands(rules: Rules, s: Stack, t: Stack)
    requires WellFormed(rules) && WellFormed(Pruned(rules))
    ensures Expands(Pruned(rules), s, t) ==> Expands(rules, s, t)
    ensures Expands(rules, s, t) && Exposed(rules, Top(s)) ==> Expands(Pruned(rules), s, t)
  {
    var pruned := Pruned(rules);
    if Expandable(pruned, s) && Expandable(rules, s) {
      var f, q := Top(s), RefOf(rules, s);
      assert RefOf(pruned, s) == q;
      forall a
        ensures AltStart(pruned[q], a) == AltStart(rules[q], a)
        ensures AltStart(rules[q], a) ==> Expansion(pruned, s, a) == Expansion(rules, s, a)
      {
      }
    }
  }

  lemma PrunedStep(rules: Rules, start: nat, x: Stack, y: Stack)
    requires WellFormed(rules) && WellFormed(Pruned(rules)) && Poised(rules, start, x) && Expands(rules, x, y)
    ensures Expands(Pruned(rules), x, y) && Poised(rules, start, y)
  {
    TopExposed(rules, start, x);
    PrunedExpands(rules, x, y);
    var b :| AltStart(rules[RefOf(rules, x)], b) && y == Expansion(rules, x, b);
    ExpansionPoised(rules, start, x, b);
  }

  ghost function PoisedOf(rules: Rules, start: nat, all: set<Stack>): set<Stack> {
    set x | x in all && Poised(rules, start, x)
  }

  lemma PrunedFinite(rules: Rules, start: nat, s: Stack)
    requires WellFormed(rules) && WellFormed(Pruned(rules)) && Poised(rules, start, s) &&
      FinitelyExpandable(Pruned(rules), s)
    ensures FinitelyExpandable(rules, s)
  {
    var all :| s in all && ClosedUnderExpansion(Pruned(rules), all);
    PoisedClosed(rules, start, all);
    assert s in PoisedOf(rules, start, all);
  }

  lemma PoisedClosed(rules: Rules, start: nat, all: set<Stack>)
    requires WellFormed(rules) && WellFormed(Pruned(rules)) && ClosedUnderExpansion(Pruned(rules), all)
    ensures ClosedUnderExpansion(rules, PoisedOf(rules, start, all))
  {
    forall x, y | x in PoisedOf(rules, start, all) && Expands(rules, x, y)
      ensures y in PoisedOf(rules, start, all)
    {
      PrunedStep(rules, start, x, y);
    }
  }

  lemma PrunedRefs(rules: Rules)
    ensures RefGraph(Pruned(rules)) == EnterGraph(rules)
  {
  }

  lemma {:induction false} PrunedNullable(rules: Rules, r: nat, i: nat, n: nat)
    requires r < |rules| && i <= |rules[r]| && Derives(Pruned(rules), Pruned(rules)[r], i, [], n)
    ensures Derives(rules, rules[r], i, [], n)
    decreases n, |rules[r]| - i
  {
    var els, pruned := rules[r], Pruned(rules)[r];
    if i < |els| && !IsEndOfSequence(els[i]) {
      assert pruned[i] == PrunedElement(rules, Frame(r, i));
      var k, m := DerivesRefSplit(Pruned(rules), pruned, i, [], n);
      var none: Word := [];
      assert none[..k] == none && none[k..] == none;
      var q := els[i].value;
      var a := RuleDerivesAlternate(Pruned(rules), q, none, m);
      PrunedNullable(rules, q, a, m - 1);
      RuleDerivesBy(rules, q, none, m - 1, a);
      PrunedNullable(rules, r, i + 1, n - m);
      DerivesRefJoin(rules, els, i, none, 0, m, n - m);
    }
  }

  lemma PrunedNullableRule(rules: Rules, q: nat)
    requires NullableRule(Pruned(rules), q)
    ensures NullableRule(rules, q)
  {
    var n: nat :| RuleDerives(Pruned(rules), q, [], n);
    var a := RuleDerivesAlternate(Pruned(rules), q, [], n);
    PrunedNullable(rules, q, a, n - 1);
    RuleDerivesBy(rules, q, [], n - 1, a);
  }

  lemma PrunedLeftRef(rules: Rules, f: Frame, q: nat)
    requires LeftRef(Pruned(rules), f, q)
    ensures LeftRef(rules, f, q) && (GrowRef(Pruned(rules), f, q) ==> GrowRef(rules, f, q))
  {
    var pruned, rule := Pruned(rules)[f.rule], rules[f.rule];
    var a: nat :| a <= f.idx && AltStart(pruned, a) && NullableRun(Pruned(rules), pruned, a, f.idx);
    forall j | a <= j < f.idx
      ensures rule[j].kind.RULE_REF? && NullableRule(rules, rule[j].value)
    {
      assert pruned[j] == PrunedElement(rules, Frame(f.rule, j));
      PrunedNullableRule(rules, pruned[j].value);
    }
    assert AltStart(rule, a) && NullableRun(rules, rule, a, f.idx);
    assert pruned[f.idx] == PrunedElement(rules, Frame(f.rule, f.idx));
  }

  lemma PrunedReaches(rules: Rules, r: nat, q: nat)
    requires LeftReaches(Pruned(rules), r, q)
    ensures LeftReaches(rules, r, q)
  {
    forall x: nat, y: nat | (x, y) in LeftGraph(Pruned(rules))
      ensures (x, y) in LeftGraph(rules)
    {
      var i :| LeftRef(Pruned(rules), Frame(x, i), y);
      PrunedLeftRef(rules, Frame(x, i), y);
    }
    ConnectedInLarger(LeftGraph(Pruned(rules)), LeftGraph(rules), r, q);
  }

  lemma GrowsBy(rules: Rules, q: nat) returns (a: nat, i: nat, b: nat)
    requires Grows(rules, q, q)
    ensures LeftReaches(rules, q, a) && GrowRef(rules, Frame(a, i), b) && LeftReaches(rules, b, q)
  {
    a, b :| LeftReaches(rules, q, a) && GrowEdge(rules, a, b) && LeftReaches(rules, b, q);
    i :| GrowRef(rules, Frame(a, i), b);
  }

  lemma PrunedGrows(rules: Rules, q: nat)
    requires Grows(Pruned(rules), q, q)
    ensures Grows(rules, q, q)
  {
    var a, i, b := GrowsBy(Pruned(rules), q);
    PrunedReaches(rules, q, a);
    PrunedReaches(rules, b, q);
    PrunedLeftRef(rules, Frame(a, i), b);
    assert GrowEdge(rules, a, b);
  }

  // ---------------------------------------------------------------------------------------
  // Both ways
  // ---------------------------------------------------------------------------------------

  /** What lies on `base` in the stacks of the set. */
  ghost function On(base: Stack, all: set<Stack>): (tops: set<Stack>)
    ensures forall x :: x in tops <==> base + x in all
  {
    var tops := set x | x in all && base <= x :: x[|base|..];
    assert forall x | base + x in all :: (base + x)[|base|..] == x;
    assert forall x | x in all && base <= x :: base + x[|base|..] == x;
    tops
  }

  /** A stack on which the worklist does not stop stays so on top of another. */
  lemma DivergesUnder(rules: Rules, base: Stack, s: Stack)
    requires WellFormed(rules) && FinitelyExpandable(rules, base + s)
    ensures FinitelyExpandable(rules, s)
  {
    var all :| base + s in all && ClosedUnderExpansion(rules, all);
    forall x, y | x in On(base, all) && Expands(rules, x, y)
      ensures y in On(base, all)
    {
      ExpandsUnder(rules, base, x, y);
    }
    assert ClosedUnderExpansion(rules, On(base, all));
  }

  /**
    In every run from the start rule the worklist stops on every stack if and only if no rule that a run
    can come to returns to itself, leftmost, leaving a frame behind.
    */
  lemma RunsTerminateIff(rules: Rules, start: nat)
    requires WellFormed(rules) && start < |rules|
    ensures (forall q: nat :: Entered(rules, start, q) ==> !Grows(rules, q, q)) <==>
      forall s :: Reached(rules, start, s) ==> FinitelyExpandable(rules, s)
  {
    if forall q: nat :: Entered(rules, start, q) ==> !Grows(rules, q, q) {
      forall s | Reached(rules, start, s)
        ensures FinitelyExpandable(rules, s)
      {
        ReachedStops(rules, start, s);
      }
    } else {
      var q: nat :| Entered(rules, start, q) && Grows(rules, q, q);
      var s := ReachedDiverges(rules, start, q);
    }
  }

  lemma ReachedDiverges(rules: Rules, start: nat, q: nat) returns (s: Stack)
    requires WellFormed(rules) && start < |rules| && Entered(rules, start, q) && Grows(rules, q, q)
    ensures Reached(rules, start, s) && !FinitelyExpandable(rules, s)
  {
    var u := EnteredIsReached(rules, start, q);
    var a := AlternateDiverges(rules, q);
    AlternateReached(rules, start, q, u, a);
    s := Push(rules, u, q, a);
    if FinitelyExpandable(rules, s) {
      DivergesUnder(rules, u, [Frame(q, a)]);
    }
  }

  lemma AlternateDiverges(rules: Rules, q: nat) returns (a: nat)
    requires WellFormed(rules) && Grows(rules, q, q)
    ensures q < |rules| && AltStart(rules[q], a) && !IsEndOfSequence(rules[q][a]) &&
      !FinitelyExpandable(rules, [Frame(q, a)])
  {
    var top := GrowthDiverges(rules, q);
    a := top[0].idx;
    assert top == [Frame(q, a)];
  }

  lemma ReachedStops(rules: Rules, start: nat, s: Stack)
    requires WellFormed(rules) && start < |rules| && Reached(rules, start, s)
    requires forall q: nat :: Entered(rules, start, q) ==> !Grows(rules, q, q)
    ensures FinitelyExpandable(rules, s)
  {
    var pruned := Pruned(rules);
    PrunedWellFormed(rules);
    PrunedRefs(rules);
    ReachedPoised(rules, start, s);
    forall q: nat | Uses(pruned, start, q)
      ensures !Grows(pruned, q, q)
    {
      assert Entered(rules, start, q);
      if Grows(pruned, q, q) {
        PrunedGrows(rules, q);
      }
    }
    assert StackOf(pruned, start, s);
    TerminatesFromIff(pruned, start);
    PrunedFinite(rules, start, s);
  }
}
