/**
  Filtering candidate tokens: the definition by recursion over code points, and the loop over an
  explicit list of levels that takes its place.
  */
module CandidateFilter {
  import opened Collections
  import opened GrammarElements
  import opened Language
  import opened StackExpansion
  import opened RuleUse
  import opened Worklist
  import opened LeftReferences
  import opened Termination
  import opened Progress
  import opened CharStep
  import opened Utf8
  import opened PartialChar

  /** A token: its code points up to a terminating 0, and a sequence cut off at its end. */
  datatype Candidate = Candidate(index: nat, codePoints: seq<nat>, partial: PartialUtf8, id: nat) {
    ghost predicate Valid() {
      0 in codePoints && Bounded(partial)
    }

    /** The position of the terminating 0. */
    ghost function End(): (n: nat)
      requires Valid()
      ensures n < |codePoints| && codePoints[n] == 0
      ensures forall i :: 0 <= i < n ==> codePoints[i] != 0
    {
      FirstZero(codePoints)
    }
  }

  function FirstZero(s: seq<nat>): (n: nat)
    requires 0 in s
    ensures n < |s| && s[n] == 0
    ensures forall i :: 0 <= i < n ==> s[i] != 0
  {
    if s[0] == 0 then 0 else 1 + FirstZero(s[1..])
  }

  type Candidates = seq<Candidate>

  ghost predicate ValidCandidates(cands: Candidates) {
    forall x :: 0 <= x < |cands| ==> cands[x].Valid()
  }

  // ---------------------------------------------------------------------------------------
  // The definition
  // ---------------------------------------------------------------------------------------

  /** The stack settles the fate of the token at this code point, against the token. */
  ghost predicate RejectedHere(rules: Rules, s: Stack, c: Candidate, depth: nat)
    requires c.Valid() && depth < |c.codePoints|
  {
    if s == [] then
      c.codePoints[depth] != 0 || c.partial.nRemain != 0
    else if !ValidFrame(rules, Top(s)) then
      true
    else if IsToken(ElementAt(rules, Top(s))) then
      if c.codePoints[depth] == 0 then c.partial.nRemain != 0 else !TokenMatches(ElementAt(rules, Top(s)), c.id)
    else if c.codePoints[depth] == 0 then
      c.partial.nRemain != 0 && !PartialAccepts(rules[Top(s).rule], Top(s).idx, c.partial)
    else
      !CharAccepts(rules, s, c.codePoints[depth])
  }

  /** The stack takes a code point of the token and goes on with the next one. */
  predicate Continues(rules: Rules, s: Stack, c: Candidate, depth: nat)
    requires depth < |c.codePoints|
  {
    c.codePoints[depth] != 0 && CharAccepts(rules, s, c.codePoints[depth])
  }

  /** The stack rejects the token at this code point, without going on. */
  ghost predicate Settles(rules: Rules, s: Stack, c: Candidate, depth: nat)
    requires c.Valid() && depth < |c.codePoints|
  {
    !Continues(rules, s, c, depth) && RejectedHere(rules, s, c, depth)
  }

  /** The stack rejects the token from `depth` on: here, or along every way to go on. */
  ghost predicate Rejected(rules: Rules, s: Stack, c: Candidate, depth: nat)
    requires WellFormed(rules) && c.Valid() && depth <= c.End()
    decreases c.End() - depth, 1
  {
    if Continues(rules, s, c, depth) then
      forall t :: RejectedVia(rules, s, c, depth, t)
    else
      RejectedHere(rules, s, c, depth)
  }

  /** If `t` is a stack behind the next code point, it rejects the rest of the token. */
  ghost predicate RejectedVia(rules: Rules, s: Stack, c: Candidate, depth: nat, t: Stack)
    requires WellFormed(rules) && c.Valid() && depth <= c.End() && Continues(rules, s, c, depth)
    decreases c.End() - depth, 0
  {
    AdvancesTo(rules, AfterTop(rules, s), t) ==> Rejected(rules, t, c, depth + 1)
  }

  ghost predicate RejectedByAll(rules: Rules, stacks: seq<Stack>, c: Candidate, depth: nat)
    requires WellFormed(rules) && c.Valid() && depth <= c.End()
  {
    forall s :: s in stacks ==> Rejected(rules, s, c, depth)
  }

  // ---------------------------------------------------------------------------------------
  // One stack, one code point
  // ---------------------------------------------------------------------------------------

  /** The candidates `xs`, none of which has ended before `depth`. */
  ghost predicate Reach(cands: Candidates, xs: seq<nat>, depth: nat)
    requires ValidCandidates(cands)
  {
    NoDuplicates(xs) && forall x :: x in xs ==> x < |cands| && depth <= cands[x].End()
  }

  ghost predicate Hopeful(rules: Rules, s: Stack) {
    s != [] && ValidFrame(rules, Top(s)) && IsClassStart(ElementAt(rules, Top(s)))
  }

  /**
    Checks the code point at `depth` of each candidate against the stack. With a class on top it
    answers true, and the candidates that match and the stacks that follow are for the next level.
    */
  method RejectStep(rules: Rules, stack: Stack, cands: Candidates, depth: nat, cur: seq<nat>)
    returns (descend: bool, rejects: seq<nat>, next: seq<nat>, nextStacks: seq<Stack>)
    requires WellFormed(rules) && Tame(rules, stack) && ValidStack(rules, stack) && Settled(rules, stack)
    requires ValidCandidates(cands) && Reach(cands, cur, depth)
    ensures descend <==> Hopeful(rules, stack)
    ensures NoDuplicates(rejects) && NoDuplicates(next)
    ensures forall x :: x in rejects <==> x in cur && Settles(rules, stack, cands[x], depth)
    ensures descend ==> forall x :: x in next <==> x in cur && Continues(rules, stack, cands[x], depth)
    ensures descend ==> NoDuplicates(nextStacks)
    ensures descend ==> forall t :: t in nextStacks <==> AdvancesTo(rules, AfterTop(rules, stack), t)
  {
    rejects, next, nextStacks := [], [], [];
    if stack == [] {
      for n := 0 to |cur|
        invariant NoDuplicates(rejects)
        invariant forall x :: x in rejects <==> x in cur && x in cur[..n] && Settles(rules, stack, cands[x], depth)
      {
        assert cur[n] in cur && cur[..n + 1] == cur[..n] + [cur[n]];
        var tok := cands[cur[n]];
        if tok.codePoints[depth] != 0 || tok.partial.nRemain != 0 {
          rejects := rejects + [cur[n]];
        }
      }
      assert cur[..|cur|] == cur;
      return false, rejects, next, nextStacks;
    }
    var pos := Top(stack);
    var elem := ElementAt(rules, pos);
    if IsToken(elem) {
      for n := 0 to |cur|
        invariant NoDuplicates(rejects)
        invariant forall x :: x in rejects <==> x in cur && x in cur[..n] && Settles(rules, stack, cands[x], depth)
      {
        assert cur[n] in cur && cur[..n + 1] == cur[..n] + [cur[n]];
        var tok := cands[cur[n]];
        if tok.codePoints[depth] == 0 {
          if tok.partial.nRemain != 0 {
            rejects := rejects + [cur[n]];
          }
        } else if !TokenMatches(elem, tok.id) {
          rejects := rejects + [cur[n]];
        }
      }
      assert cur[..|cur|] == cur;
      return false, rejects, next, nextStacks;
    }
    rejects, next := SortByClass(rules, stack, cands, depth, cur);
    var _, after := MatchChar(rules[pos.rule], pos.idx, 0);
    var stackAfter := stack[..|stack| - 1];
    if !IsEndOfSequence(rules[pos.rule][after]) {
      stackAfter := stackAfter + [Frame(pos.rule, after)];
    }
    assert stackAfter == AfterTop(rules, stack);
    AfterTopIsValid(rules, stack);
    AfterTopWithin(rules, stack, GrowthFreeRules(rules));
    TameTerminates(rules, stackAfter);
    nextStacks := AdvanceStack(rules, stackAfter, []);
    descend := true;
  }

  method SortByClass(rules: Rules, stack: Stack, cands: Candidates, depth: nat, cur: seq<nat>)
    returns (rejects: seq<nat>, next: seq<nat>)
    requires WellFormed(rules) && ValidStack(rules, stack) && Hopeful(rules, stack)
    requires ValidCandidates(cands) && Reach(cands, cur, depth)
    ensures NoDuplicates(rejects) && NoDuplicates(next)
    ensures forall x :: x in rejects <==> x in cur && Settles(rules, stack, cands[x], depth)
    ensures forall x :: x in next <==> x in cur && Continues(rules, stack, cands[x], depth)
  {
    rejects, next := [], [];
    var pos := Top(stack);
    for n := 0 to |cur|
      invariant NoDuplicates(rejects) && NoDuplicates(next)
      invariant forall x :: x in rejects <==>
        x in cur && x in cur[..n] && Settles(rules, stack, cands[x], depth)
      invariant forall x :: x in next <==> x in cur && x in cur[..n] && Continues(rules, stack, cands[x], depth)
    {
      assert cur[n] in cur && cur[..n + 1] == cur[..n] + [cur[n]];
      var tok := cands[cur[n]];
      if tok.codePoints[depth] == 0 {
        if tok.partial.nRemain != 0 {
          var fits := MatchPartialChar(rules[pos.rule], pos.idx, tok.partial);
          if !fits {
            rejects := rejects + [cur[n]];
          }
        }
      } else {
        var matched, _ := MatchChar(rules[pos.rule], pos.idx, tok.codePoints[depth]);
        if matched {
          next := next + [cur[n]];
        } else {
          rejects := rejects + [cur[n]];
        }
      }
    }
    assert cur[..|cur|] == cur;
  }

  // ---------------------------------------------------------------------------------------
  // The levels
  // ---------------------------------------------------------------------------------------

  /**
    One level per code point: the stacks to try, the one in progress, the candidates that the
    stacks before it rejected, and those that the one in progress rejects at this code point.
    */
  datatype Level = Level(stacks: seq<Stack>, i: nat, cur: seq<nat>, rejects: seq<nat>)

  /** The rules with which the worklist stops and finds something. */
  ghost function AbleRules(rules: Rules): iset<nat> {
    GrowthFreeRules(rules) * StartingRules(rules)
  }

  lemma AbleClosed(rules: Rules)
    ensures ClosedRules(rules, AbleRules(rules))
  {
    GrowthFreeClosed(rules);
    StartingClosed(rules);
  }

  /** The candidates still in play at level `k`: those it started with that the finished stacks reject. */
  ghost predicate LevelOk(rules: Rules, cands: Candidates, lv: Level, k: nat, from: seq<nat>)
    requires WellFormed(rules) && ValidCandidates(cands) && Reach(cands, from, k)
  {
    && lv.i <= |lv.stacks| && AllSettled(rules, lv.stacks) && AllWithin(lv.stacks, AbleRules(rules))
    && NoDuplicates(lv.cur)
    && forall x :: x in lv.cur <==> x in from && RejectedByAll(rules, lv.stacks[..lv.i], cands[x], k)
  }

  /** A level that waits for the next one: that one has the candidates that go on, and the stacks they go on with. */
  ghost predicate LevelWaits(rules: Rules, cands: Candidates, lv: Level, k: nat, from: seq<nat>, next: seq<nat>,
                             nextStacks: seq<Stack>)
    requires WellFormed(rules) && ValidCandidates(cands) && Reach(cands, from, k)
  {
    && LevelOk(rules, cands, lv, k, from)
    && lv.i < |lv.stacks| && Hopeful(rules, lv.stacks[lv.i])
    && NoDuplicates(lv.rejects)
    && (forall x :: x in lv.rejects <==>
        x in from && x in lv.cur && Settles(rules, lv.stacks[lv.i], cands[x], k))
    && (forall x :: x in next <==> x in from && x in lv.cur && Continues(rules, lv.stacks[lv.i], cands[x], k))
    && (forall t :: t in nextStacks <==> AdvancesTo(rules, AfterTop(rules, lv.stacks[lv.i]), t))
  }

  function AllPositions(cands: Candidates): seq<nat> {
    seq(|cands|, x requires 0 <= x < |cands| => x)
  }

  /** How high the stacks of level `k` can be. */
  ghost function HeightAt(rules: Rules, h: nat, k: nat): nat {
    h + k * (|rules| + 2)
  }

  lemma HeightNext(rules: Rules, h: nat, k: nat)
    ensures HeightAt(rules, h, k + 1) == HeightAt(rules, h, k) + |rules| + 2
  {
  }

  lemma HeightRises(rules: Rules, h: nat, k: nat, k': nat)
    requires k <= k'
    ensures HeightAt(rules, h, k) <= HeightAt(rules, h, k')
  {
    assert k * (|rules| + 2) <= k' * (|rules| + 2);
  }

  /** A level's share of the size of the computation. */
  ghost predicate LevelSmall(rules: Rules, stacks: seq<Stack>, k: nat, h: nat, n: nat) {
    Below(stacks, HeightAt(rules, h, k)) && (k > 0 ==> |stacks| <= n)
  }

  /** The levels that wait, up to the one that starts with `next` and `nextStacks`. */
  ghost predicate WaitsOk(rules: Rules, root: seq<Stack>, cands: Candidates, levels: seq<Level>, starts: seq<seq<nat>>,
                          next: seq<nat>, nextStacks: seq<Stack>)
    requires WellFormed(rules) && ValidCandidates(cands) && |levels| == |starts|
    decreases |levels|
  {
    if levels == [] then
      next == AllPositions(cands) && nextStacks == root
    else
      var k := |levels| - 1;
      && Reach(cands, starts[k], k)
      && LevelWaits(rules, cands, levels[k], k, starts[k], next, nextStacks)
      && WaitsOk(rules, root, cands, levels[..k], starts[..k], starts[k], levels[k].stacks)
  }

  ghost predicate WaitsSmall(rules: Rules, levels: seq<Level>, h: nat, n: nat)
    decreases |levels|
  {
    levels != [] ==>
      var k := |levels| - 1;
      LevelSmall(rules, levels[k].stacks, k, h, n) && WaitsSmall(rules, levels[..k], h, n)
  }

  /** A stack that settles everything at this code point narrows the candidates of its level. */
  lemma StepDecides(rules: Rules, cands: Candidates, lv: Level, k: nat, from: seq<nat>, rejects: seq<nat>)
    requires WellFormed(rules) && ValidCandidates(cands) && Reach(cands, from, k)
    requires LevelOk(rules, cands, lv, k, from) && lv.i < |lv.stacks| && !Hopeful(rules, lv.stacks[lv.i])
    requires NoDuplicates(rejects)
    requires forall x :: x in rejects <==> x in from && x in lv.cur && Settles(rules, lv.stacks[lv.i], cands[x], k)
    ensures LevelOk(rules, cands, lv.(cur := rejects, i := lv.i + 1), k, from)
  {
    var s := lv.stacks[lv.i];
    assert lv.stacks[..lv.i + 1] == lv.stacks[..lv.i] + [s];
    forall x | x in from
      ensures x in rejects <==> RejectedByAll(rules, lv.stacks[..lv.i + 1], cands[x], k)
    {
      AllNext(rules, lv.stacks, lv.i, cands[x], k);
      assert !Continues(rules, s, cands[x], k);
    }
  }

  lemma AllNext(rules: Rules, stacks: seq<Stack>, i: nat, c: Candidate, depth: nat)
    requires WellFormed(rules) && c.Valid() && depth <= c.End() && i < |stacks|
    ensures RejectedByAll(rules, stacks[..i + 1], c, depth) <==>
      RejectedByAll(rules, stacks[..i], c, depth) && Rejected(rules, stacks[i], c, depth)
  {
    assert stacks[..i + 1] == stacks[..i] + [stacks[i]];
  }

  /** When the next level is through, its candidates join the rejects of the stack in progress. */
  lemma ReturnDecides(rules: Rules, cands: Candidates, lv: Level, k: nat, from: seq<nat>, child: Level, next: seq<nat>)
    requires WellFormed(rules) && ValidCandidates(cands) && Reach(cands, from, k) && Reach(cands, next, k + 1)
    requires LevelWaits(rules, cands, lv, k, from, next, child.stacks)
    requires LevelOk(rules, cands, child, k + 1, next) && (child.i == |child.stacks| || child.cur == [])
    ensures LevelOk(rules, cands, Level(lv.stacks, lv.i + 1, lv.rejects + child.cur, []), k, from)
  {
    forall x | x in from
      ensures x in lv.rejects + child.cur <==> RejectedByAll(rules, lv.stacks[..lv.i + 1], cands[x], k)
    {
      ReturnDecidesFor(rules, cands, lv, k, from, child, next, x);
    }
    forall x | x in lv.rejects
      ensures x !in child.cur
    {
    }
    NoDuplicatesJoin(lv.rejects, child.cur);
  }

  lemma ReturnDecidesFor(rules: Rules, cands: Candidates, lv: Level, k: nat, from: seq<nat>, child: Level,
                         next: seq<nat>, x: nat)
    requires WellFormed(rules) && ValidCandidates(cands) && Reach(cands, from, k) && Reach(cands, next, k + 1)
    requires LevelWaits(rules, cands, lv, k, from, next, child.stacks) && x in from
    requires LevelOk(rules, cands, child, k + 1, next) && (child.i == |child.stacks| || child.cur == [])
    ensures x in lv.rejects + child.cur <==> RejectedByAll(rules, lv.stacks[..lv.i + 1], cands[x], k)
  {
    WaitsFor(rules, cands, lv, k, from, next, child.stacks, x);
    StartsFor(rules, cands, child, k + 1, next, x);
    if x in next {
      ChildDecides(rules, cands, child, k + 1, next, x);
      RejectedByNext(rules, lv.stacks[lv.i], cands[x], k, child.stacks);
    }
    ReturnVerdict(rules, lv, child.cur, cands[x], k, x, x in next);
  }

  lemma ReturnVerdict(rules: Rules, lv: Level, back: seq<nat>, c: Candidate, k: nat, x: nat, goesOn: bool)
    requires WellFormed(rules) && c.Valid() && k <= c.End() && lv.i < |lv.stacks|
    requires x in lv.cur <==> RejectedByAll(rules, lv.stacks[..lv.i], c, k)
    requires x in lv.rejects <==> x in lv.cur && Settles(rules, lv.stacks[lv.i], c, k)
    requires goesOn <==> x in lv.cur && Continues(rules, lv.stacks[lv.i], c, k)
    requires if goesOn then x in back <==> Rejected(rules, lv.stacks[lv.i], c, k) else x !in back
    ensures x in lv.rejects + back <==> RejectedByAll(rules, lv.stacks[..lv.i + 1], c, k)
  {
    AllNext(rules, lv.stacks, lv.i, c, k);
  }

  /** What a waiting level says of one of its candidates. */
  lemma WaitsFor(rules: Rules, cands: Candidates, lv: Level, k: nat, from: seq<nat>, next: seq<nat>,
                 nextStacks: seq<Stack>, x: nat)
    requires WellFormed(rules) && ValidCandidates(cands) && Reach(cands, from, k)
    requires LevelWaits(rules, cands, lv, k, from, next, nextStacks) && x in from
    ensures lv.i < |lv.stacks| && (x in lv.cur <==> RejectedByAll(rules, lv.stacks[..lv.i], cands[x], k))
    ensures x in lv.rejects <==> x in lv.cur && Settles(rules, lv.stacks[lv.i], cands[x], k)
    ensures x in next <==> x in lv.cur && Continues(rules, lv.stacks[lv.i], cands[x], k)
    ensures forall t :: t in nextStacks <==> AdvancesTo(rules, AfterTop(rules, lv.stacks[lv.i]), t)
  {
  }

  lemma StartsFor(rules: Rules, cands: Candidates, lv: Level, k: nat, from: seq<nat>, x: nat)
    requires WellFormed(rules) && ValidCandidates(cands) && Reach(cands, from, k) && LevelOk(rules, cands, lv, k, from)
    ensures x in lv.cur ==> x in from
  {
  }

  /** The stacks behind the next code point decide. */
  lemma RejectedByNext(rules: Rules, s: Stack, c: Candidate, depth: nat, stacks: seq<Stack>)
    requires WellFormed(rules) && c.Valid() && depth < c.End() && Continues(rules, s, c, depth)
    requires forall t :: t in stacks <==> AdvancesTo(rules, AfterTop(rules, s), t)
    ensures Rejected(rules, s, c, depth) <==> forall t :: t in stacks ==> Rejected(rules, t, c, depth + 1)
  {
    if Rejected(rules, s, c, depth) {
      forall t | t in stacks
        ensures Rejected(rules, t, c, depth + 1)
      {
        assert RejectedVia(rules, s, c, depth, t);
      }
    }
  }

  lemma ChildDecides(rules: Rules, cands: Candidates, child: Level, k: nat, from: seq<nat>, x: nat)
    requires WellFormed(rules) && ValidCandidates(cands) && Reach(cands, from, k)
    requires LevelOk(rules, cands, child, k, from) && (child.i == |child.stacks| || child.cur == []) && x in from
    ensures x in child.cur <==> forall t :: t in child.stacks ==> Rejected(rules, t, cands[x], k)
  {
    if child.i == |child.stacks| {
      assert child.stacks[..child.i] == child.stacks;
    } else {
      assert x !in child.cur;
      var s :| s in child.stacks[..child.i] && !Rejected(rules, s, cands[x], k);
      assert s in child.stacks;
    }
  }

  lemma NoDuplicatesJoin<T>(a: seq<T>, b: seq<T>)
    requires NoDuplicates(a) && NoDuplicates(b) && forall x :: x in a ==> x !in b
    ensures NoDuplicates(a + b)
  {
    var c := a + b;
    forall i, j | 0 <= i < j < |c|
      ensures c[i] != c[j]
    {
      if i < |a| <= j {
        assert c[i] in a && c[j] in b;
      }
    }
  }

  // ---------------------------------------------------------------------------------------
  // The loop ends
  // ---------------------------------------------------------------------------------------

  ghost function Power(b: nat, e: nat): (p: nat)
    ensures b > 0 ==> p > 0
    decreases e
  {
    if e == 0 then 1 else b * Power(b, e - 1)
  }

  /** What a stack at level `k` may still cost, when no level gets more than `n` stacks. */
  ghost function Weight(n: nat, depth: nat, k: nat): (w: nat)
    ensures w > 0
  {
    Power(n + 2, if k <= depth then depth - k else 0)
  }

  ghost function Times(a: nat, b: nat): nat {
    a * b
  }

  lemma TimesNext(a: nat, b: nat)
    ensures Times(a + 1, b) == Times(a, b) + b
  {
  }

  lemma TimesBelow(a: nat, n: nat, b: nat)
    requires a <= n && b > 0
    ensures Times(a, b) + 1 < (n + 2) * b
  {
    assert a * b <= n * b;
    assert (n + 2) * b == n * b + 2 * b;
  }

  /** The stacks of a level from `i` on. */
  function Left(lv: Level, i: nat): nat {
    if i <= |lv.stacks| then |lv.stacks| - i else 0
  }

  /** The cost of the levels that wait, and of the one in progress. */
  ghost function Waiting(levels: seq<Level>, n: nat, depth: nat): nat
    decreases |levels|
  {
    if levels == [] then 0
    else
      var k := |levels| - 1;
      Waiting(levels[..k], n, depth) + Times(Left(levels[k], levels[k].i + 1), Weight(n, depth, k)) + 1
  }

  ghost function Cost(levels: seq<Level>, n: nat, depth: nat): nat
    requires |levels| > 0
  {
    var k := |levels| - 1;
    Waiting(levels[..k], n, depth) + Times(Left(levels[k], levels[k].i), Weight(n, depth, k)) + 1
  }

  lemma StepCost(levels: seq<Level>, lv: Level, n: nat, depth: nat)
    requires |levels| > 0 && levels[|levels| - 1].i < |levels[|levels| - 1].stacks|
    requires lv.stacks == levels[|levels| - 1].stacks && lv.i == levels[|levels| - 1].i + 1
    ensures Cost(levels[..|levels| - 1] + [lv], n, depth) < Cost(levels, n, depth)
  {
    var k := |levels| - 1;
    var levels' := levels[..k] + [lv];
    assert levels'[..k] == levels[..k];
    TimesNext(|lv.stacks| - lv.i, Weight(n, depth, k));
  }

  lemma DescendCost(levels: seq<Level>, lv: Level, child: Level, n: nat, depth: nat)
    requires |levels| > 0 && levels[|levels| - 1].i < |levels[|levels| - 1].stacks|
    requires lv.stacks == levels[|levels| - 1].stacks && lv.i == levels[|levels| - 1].i
    requires child.i == 0 && |child.stacks| <= n && |levels| <= depth
    ensures Cost(levels[..|levels| - 1] + [lv, child], n, depth) < Cost(levels, n, depth)
  {
    var k := |levels| - 1;
    var levels' := levels[..k] + [lv, child];
    assert levels'[..k + 1] == levels[..k] + [lv] && levels'[..k + 1][..k] == levels[..k];
    TimesNext(|lv.stacks| - lv.i - 1, Weight(n, depth, k));
    assert Weight(n, depth, k) == (n + 2) * Weight(n, depth, k + 1);
    TimesBelow(|child.stacks|, n, Weight(n, depth, k + 1));
  }

  lemma ReturnCost(levels: seq<Level>, parent: Level, n: nat, depth: nat)
    requires |levels| > 1
    requires parent.stacks == levels[|levels| - 2].stacks && parent.i == levels[|levels| - 2].i + 1
    ensures Cost(levels[..|levels| - 2] + [parent], n, depth) < Cost(levels, n, depth)
  {
    var k := |levels| - 2;
    var levels' := levels[..k] + [parent];
    assert levels'[..k] == levels[..k] && levels[..k + 1][..k] == levels[..k];
  }

  // ---------------------------------------------------------------------------------------
  // How many stacks a level can have, and how many levels there can be
  // ---------------------------------------------------------------------------------------

  ghost function Deepest(cands: Candidates): (n: nat)
    requires ValidCandidates(cands)
    ensures forall x :: 0 <= x < |cands| ==> cands[x].End() < n
    decreases |cands|
  {
    if cands == [] then 0
    else
      var k := |cands| - 1;
      assert ValidCandidates(cands[..k]) by {
        forall x | 0 <= x < k ensures cands[..k][x].Valid() { assert cands[..k][x] == cands[x]; }
      }
      var n := Deepest(cands[..k]);
      assert forall x :: 0 <= x < k ==> cands[..k][x] == cands[x];
      if cands[k].End() < n then n else cands[k].End() + 1
  }

  ghost predicate Below(stacks: seq<Stack>, h: nat) {
    forall s :: s in stacks ==> |s| <= h
  }

  lemma {:induction false} SomeHeight(stacks: seq<Stack>) returns (h: nat)
    ensures Below(stacks, h)
    decreases |stacks|
  {
    if stacks == [] {
      h := 0;
    } else {
      h := SomeHeight(stacks[1..]);
      h := if h < |stacks[0]| then |stacks[0]| else h;
    }
  }

  lemma {:induction false} NoDuplicatesSize<T>(s: seq<T>, u: set<T>)
    requires NoDuplicates(s) && forall x :: x in s ==> x in u
    ensures |s| <= |u|
    decreases |s|
  {
    if s != [] {
      var k := |s| - 1;
      forall x | x in s[..k]
        ensures x in u - {s[k]}
      {
      }
      NoDuplicatesSize(s[..k], u - {s[k]});
    }
  }

  /** The stacks of a next level are not much higher than those of its parent, so there are not too many. */
  lemma NextStacksBound(rules: Rules, s: Stack, next: seq<Stack>, h: nat, max: nat)
    requires WellFormed(rules) && Tame(rules, s) && ValidStack(rules, s) && s != [] && NoDuplicates(next)
    requires forall t :: t in next ==> AdvancesTo(rules, AfterTop(rules, s), t)
    requires |s| <= h && h + |rules| + 2 <= max
    ensures Below(next, h + |rules| + 2) && |next| <= |StacksUpTo(AllFrames(rules), max)|
  {
    AfterTopIsValid(rules, s);
    AfterTopWithin(rules, s, GrowthFreeRules(rules));
    forall t | t in next
      ensures |t| <= h + |rules| + 2 && t in StacksUpTo(AllFrames(rules), max)
    {
      HeightBound(rules, AfterTop(rules, s), t);
      ValidStackListed(rules, t, max);
    }
    NoDuplicatesSize(next, StacksUpTo(AllFrames(rules), max));
  }

  // ---------------------------------------------------------------------------------------
  // The filter
  // ---------------------------------------------------------------------------------------

  /** The loop invariant: the deepest level is in progress, the others wait. */
  ghost predicate Running(rules: Rules, root: seq<Stack>, cands: Candidates, levels: seq<Level>, starts: seq<seq<nat>>,
                          h: nat, n: nat)
    requires WellFormed(rules) && ValidCandidates(cands)
  {
    && |levels| == |starts| > 0
    && var k := |levels| - 1;
    && Reach(cands, starts[k], k)
    && LevelOk(rules, cands, levels[k], k, starts[k])
    && LevelSmall(rules, levels[k].stacks, k, h, n)
    && WaitsOk(rules, root, cands, levels[..k], starts[..k], starts[k], levels[k].stacks)
    && WaitsSmall(rules, levels[..k], h, n)
  }

  /** A stack that decides at once. */
  lemma OnStep(rules: Rules, root: seq<Stack>, cands: Candidates, levels: seq<Level>, starts: seq<seq<nat>>,
               h: nat, n: nat, lv: Level)
    requires WellFormed(rules) && ValidCandidates(cands) && Running(rules, root, cands, levels, starts, h, n)
    requires lv.stacks == levels[|levels| - 1].stacks && LevelOk(rules, cands, lv, |levels| - 1, starts[|levels| - 1])
    ensures Running(rules, root, cands, levels[..|levels| - 1] + [lv], starts, h, n)
  {
    var k := |levels| - 1;
    var levels' := levels[..k] + [lv];
    assert levels'[..k] == levels[..k] && levels'[k] == lv;
  }

  /** The deepest level is through: its candidates go back to its parent. */
  lemma OnReturn(rules: Rules, root: seq<Stack>, cands: Candidates, levels: seq<Level>, starts: seq<seq<nat>>,
                 h: nat, n: nat, resumed: Level)
    requires WellFormed(rules) && ValidCandidates(cands) && Running(rules, root, cands, levels, starts, h, n)
    requires |levels| > 1
    requires levels[|levels| - 1].i == |levels[|levels| - 1].stacks| || levels[|levels| - 1].cur == []
    requires resumed == Level(levels[|levels| - 2].stacks, levels[|levels| - 2].i + 1,
                              levels[|levels| - 2].rejects + levels[|levels| - 1].cur, [])
    ensures Running(rules, root, cands, levels[..|levels| - 2] + [resumed], starts[..|levels| - 1], h, n)
  {
    var k := |levels| - 2;
    var levels', starts' := levels[..k] + [resumed], starts[..k + 1];
    assert levels[..k + 1][k] == levels[k] && levels[..k + 1][..k] == levels[..k];
    assert starts' [k] == starts[k] && starts'[..k] == starts[..k];
    ReturnDecides(rules, cands, levels[k], k, starts[k], levels[k + 1], starts[k + 1]);
    assert levels'[..k] == levels[..k] && levels'[k] == resumed;
  }

  /** A stack that goes on: one level more. */
  lemma OnDescend(rules: Rules, root: seq<Stack>, cands: Candidates, levels: seq<Level>, starts: seq<seq<nat>>,
                  h: nat, n: nat, lv: Level, child: Level)
    requires WellFormed(rules) && ValidCandidates(cands)
    requires Running(rules, root, cands, levels, starts, h, n)
    requires lv.stacks == levels[|levels| - 1].stacks && child.i == 0
    requires LevelWaits(rules, cands, lv, |levels| - 1, starts[|levels| - 1], child.cur, child.stacks)
    requires NoDuplicates(child.cur) && LevelSmall(rules, child.stacks, |levels|, h, n)
    ensures Running(rules, root, cands, levels[..|levels| - 1] + [lv, child], starts + [child.cur], h, n)
  {
    var k := |levels| - 1;
    var levels', starts' := levels[..k] + [lv, child], starts + [child.cur];
    ChildStarts(rules, cands, lv, k, starts[k], child);
    assert levels'[..k + 1] == levels[..k] + [lv] && starts'[..k + 1] == starts;
    assert levels'[..k + 1][..k] == levels[..k] && levels'[..k + 1][k] == lv;
    assert starts' [k + 1] == child.cur;
  }

  /** A new level starts with all its candidates. */
  lemma ChildStarts(rules: Rules, cands: Candidates, lv: Level, k: nat, from: seq<nat>, child: Level)
    requires WellFormed(rules) && ValidCandidates(cands) && Reach(cands, from, k)
    requires LevelWaits(rules, cands, lv, k, from, child.cur, child.stacks)
    requires NoDuplicates(child.cur) && child.i == 0
    ensures Reach(cands, child.cur, k + 1) && LevelOk(rules, cands, child, k + 1, child.cur)
  {
    var s := lv.stacks[lv.i];
    assert s in lv.stacks;
    AfterTopIsValid(rules, s);
    AbleClosed(rules);
    AfterTopWithin(rules, s, AbleRules(rules));
    forall t | t in child.stacks
      ensures ValidStack(rules, t) && Settled(rules, t) && Within(t, AbleRules(rules))
    {
      ReachesValid(rules, AfterTop(rules, s), t);
      ReachesWithin(rules, AfterTop(rules, s), t, AbleRules(rules));
    }
  }

  /** Where the deepest level may still descend, another level fits. */
  lemma ChildSmall(rules: Rules, cands: Candidates, lv: Level, k: nat, from: seq<nat>, child: Level, h: nat, n: nat)
    requires WellFormed(rules) && ValidCandidates(cands) && Reach(cands, from, k)
    requires LevelWaits(rules, cands, lv, k, from, child.cur, child.stacks) && LevelSmall(rules, lv.stacks, k, h, n)
    requires lv.cur != [] && NoDuplicates(child.stacks)
    requires n == |StacksUpTo(AllFrames(rules), HeightAt(rules, h, Deepest(cands)))|
    ensures k < Deepest(cands) && LevelSmall(rules, child.stacks, k + 1, h, n)
  {
    var s := lv.stacks[lv.i];
    assert lv.cur[0] in lv.cur && lv.cur[0] in from;
    assert cands[lv.cur[0]].End() < Deepest(cands);
    assert Within(s, AbleRules(rules));
    HeightNext(rules, h, k);
    HeightRises(rules, h, k + 1, Deepest(cands));
    WaitingTop(rules, cands, lv, k, from, child);
    NextStacksBound(rules, s, child.stacks, HeightAt(rules, h, k), HeightAt(rules, h, Deepest(cands)));
  }

  lemma WaitingTop(rules: Rules, cands: Candidates, lv: Level, k: nat, from: seq<nat>, child: Level)
    requires WellFormed(rules) && ValidCandidates(cands) && Reach(cands, from, k)
    requires LevelWaits(rules, cands, lv, k, from, child.cur, child.stacks)
    ensures lv.stacks[lv.i] in lv.stacks && ValidStack(rules, lv.stacks[lv.i]) && lv.stacks[lv.i] != []
    ensures forall t :: t in child.stacks <==> AdvancesTo(rules, AfterTop(rules, lv.stacks[lv.i]), t)
  {
  }

  /** At the end the first level holds the candidates that all stacks reject. */
  lemma OnEnd(rules: Rules, root: seq<Stack>, cands: Candidates, levels: seq<Level>, starts: seq<seq<nat>>, h: nat,
              n: nat)
    requires WellFormed(rules) && ValidCandidates(cands) && Running(rules, root, cands, levels, starts, h, n)
    requires |levels| == 1 && (levels[0].i == |levels[0].stacks| || levels[0].cur == [])
    ensures NoDuplicates(levels[0].cur)
    ensures forall x: nat :: x in levels[0].cur <==> x < |cands| && RejectedByAll(rules, root, cands[x], 0)
  {
    var all, top := AllPositions(cands), levels[0];
    assert starts[0] == all && top.stacks == root;
    forall x: nat
      ensures x in top.cur <==> x < |cands| && RejectedByAll(rules, root, cands[x], 0)
    {
      assert x < |cands| ==> all[x] == x;
      if x in all {
        ChildDecides(rules, cands, top, 0, all, x);
      }
    }
  }

  /** The stack in progress of the deepest level: it decides at once, or a further level is opened. */
  method TryStack(rules: Rules, ghost root: seq<Stack>, cands: Candidates, levels: seq<Level>,
                  ghost starts: seq<seq<nat>>, ghost h: nat, ghost n: nat)
    returns (levels': seq<Level>, ghost starts': seq<seq<nat>>)
    requires WellFormed(rules) && ValidCandidates(cands)
    requires Running(rules, root, cands, levels, starts, h, n)
    requires n == |StacksUpTo(AllFrames(rules), HeightAt(rules, h, Deepest(cands)))|
    requires levels[|levels| - 1].i < |levels[|levels| - 1].stacks| && levels[|levels| - 1].cur != []
    ensures Running(rules, root, cands, levels', starts', h, n)
    ensures Cost(levels', n, Deepest(cands)) < Cost(levels, n, Deepest(cands))
  {
    var k := |levels| - 1;
    var lv := levels[k];
    var stack := lv.stacks[lv.i];
    assert stack in lv.stacks && Reach(cands, lv.cur, k);
    var descend, rejects, next, nextStacks := RejectStep(rules, stack, cands, k, lv.cur);
    if !descend {
      var narrowed := lv.(cur := rejects, i := lv.i + 1);
      StepDecides(rules, cands, lv, k, starts[k], rejects);
      OnStep(rules, root, cands, levels, starts, h, n, narrowed);
      StepCost(levels, narrowed, n, Deepest(cands));
      return levels[..k] + [narrowed], starts;
    }
    AfterTopIsValid(rules, stack);
    AfterTopWithin(rules, stack, AbleRules(rules));
    ghost var reached := LivelyProgress(rules, AfterTop(rules, stack));
    assert nextStacks != [];
    var waiting, child := lv.(rejects := rejects), Level(nextStacks, 0, next, []);
    assert LevelWaits(rules, cands, waiting, k, starts[k], next, nextStacks);
    ChildSmall(rules, cands, waiting, k, starts[k], child, h, n);
    OnDescend(rules, root, cands, levels, starts, h, n, waiting, child);
    DescendCost(levels, waiting, child, n, Deepest(cands));
    return levels[..k] + [waiting, child], starts + [next];
  }

  /**
    The positions of the candidates that no stack accepts, each once. There is one level per code
    point in place of a recursion, and no code point behind the terminating 0 is looked at.
    */
  method RejectedPositions(rules: Rules, stacks: seq<Stack>, cands: Candidates) returns (res: seq<nat>)
    requires WellFormed(rules) && AllTame(rules, stacks) && AllLively(rules, stacks)
    requires stacks != [] && AllSettled(rules, stacks) && ValidCandidates(cands)
    ensures NoDuplicates(res)
    ensures forall x: nat :: x in res <==> x < |cands| && RejectedByAll(rules, stacks, cands[x], 0)
  {
    var levels := [Level(stacks, 0, AllPositions(cands), [])];
    ghost var starts := [AllPositions(cands)];
    ghost var h := SomeHeight(stacks);
    ghost var n := |StacksUpTo(AllFrames(rules), HeightAt(rules, h, Deepest(cands)))|;
    assert Reach(cands, AllPositions(cands), 0);
    while true
      invariant Running(rules, stacks, cands, levels, starts, h, n)
      decreases Cost(levels, n, Deepest(cands))
    {
      var k := |levels| - 1;
      var lv := levels[k];
      if lv.i == |lv.stacks| || lv.cur == [] {
        if k == 0 {
          break;
        }
        var parent := levels[k - 1];
        var resumed := Level(parent.stacks, parent.i + 1, parent.rejects + lv.cur, []);
        OnReturn(rules, stacks, cands, levels, starts, h, n, resumed);
        ReturnCost(levels, resumed, n, Deepest(cands));
        levels := levels[..k - 1] + [resumed];
        starts := starts[..k];
        continue;
      }
      levels, starts := TryStack(rules, stacks, cands, levels, starts, h, n);
    }
    OnEnd(rules, stacks, cands, levels, starts, h, n);
    res := levels[0].cur;
  }
}
