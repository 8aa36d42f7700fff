/**
  When the worklist terminates: on every stack of a grammar exactly if no rule returns to itself,
  leftmost, with something left behind.
  */
module Termination {
  import opened GrammarElements
  import opened Language
  import opened StackExpansion
  import opened RuleUse
  import opened LeftReferences
  import opened Relations
  import opened Worklist

  // ---------------------------------------------------------------------------------------
  // A bound on the height of the reachable stacks
  // ---------------------------------------------------------------------------------------

  ghost predicate NullableAbove(rules: Rules, t: Stack, j: nat) {
    forall l :: j < l < |t| ==> NullableFrom(rules, t[l])
  }

  /**
    Above position `m` the frames were left behind by leftmost references: their ranks fall, and
    each is anchored provided that everything above it vanishes.
    */
  ghost predicate Chain(rules: Rules, t: Stack, m: nat) {
    && ValidStack(rules, t)
    && (forall j :: m < j < |t| ==> |GrowSet(rules, t[j].rule)| <= |rules| - (j - m - 1))
    && (forall j :: m < j < |t| && NullableAbove(rules, t, j) ==> Anchored(rules, t[j]))
  }

  ghost predicate ChainBelow(rules: Rules, t: Stack, h: nat) {
    exists m: nat :: m <= h && Chain(rules, t, m)
  }

  lemma RankBound(rules: Rules, r: nat)
    ensures |GrowSet(rules, r)| <= |rules|
  {
    BelowSize(GrowSet(rules, r), |rules|);
  }

  /** If the pushed frames vanish, the frame they replaced vanishes. */
  lemma ExpansionNullable(rules: Rules, s: Stack, a: nat)
    requires WellFormed(rules) && Expandable(rules, s) && AltStart(rules[RefOf(rules, s)], a)
    requires forall l :: |s| - 1 <= l < |Expansion(rules, s, a)| ==> NullableFrom(rules, Expansion(rules, s, a)[l])
    ensures NullableRule(rules, RefOf(rules, s)) && NullableFrom(rules, Top(s))
  {
    var f, q, t := Top(s), RefOf(rules, s), Expansion(rules, s, a);
    if !IsEndOfSequence(rules[q][a]) {
      assert t[|t| - 1] == Frame(q, a);
    }
    NullableAlternate(rules, q, a);
    if !IsEndOfSequence(rules[f.rule][f.idx + 1]) {
      assert t[|s| - 1] == Frame(f.rule, f.idx + 1);
    }
    NullableRef(rules, f);
  }

  /** Below the chain there is nothing to keep: an expansion starts a new chain. */
  lemma ChainFresh(rules: Rules, s: Stack, a: nat)
    requires WellFormed(rules) && ValidStack(rules, s) && Expandable(rules, s)
    requires AltStart(rules[RefOf(rules, s)], a)
    ensures Chain(rules, Expansion(rules, s, a), |s| - 1)
  {
    ExpansionIsValid(rules, s, a);
    AltStartAnchored(rules, RefOf(rules, s), a);
    RankBound(rules, RefOf(rules, s));
  }

  /** The rule that a tame stack refers to does not grow. */
  lemma RefDoesNotGrow(rules: Rules, s: Stack)
    requires Tame(rules, s) && Expandable(rules, s)
    ensures !Grows(rules, RefOf(rules, s), RefOf(rules, s))
  {
    var r, q := Top(s).rule, RefOf(rules, s);
    assert rules[r][Top(s).idx] == Element(RULE_REF, q);
    assert RefersTo(rules, r, q);
    UsesItself(rules, q);
    UsesNext(rules, r, q, q);
    assert r in GrowthFreeRules(rules);
  }

  /** An expansion on top of a chain keeps the ranks falling. */
  lemma ChainRanks(rules: Rules, s: Stack, a: nat, m: nat, j: nat)
    requires WellFormed(rules) && Tame(rules, s) && Chain(rules, s, m) && m < |s| - 1
    requires Expandable(rules, s) && AltStart(rules[RefOf(rules, s)], a)
    requires m < j < |Expansion(rules, s, a)|
    ensures |GrowSet(rules, Expansion(rules, s, a)[j].rule)| <= |rules| - (j - m - 1)
  {
    var f, q := Top(s), RefOf(rules, s);
    assert NullableAbove(rules, s, |s| - 1);
    assert LeftRef(rules, Frame(f.rule, f.idx), q);
    EdgeRank(rules, f.rule, q);
    if !IsEndOfSequence(rules[f.rule][f.idx + 1]) {
      assert GrowRef(rules, Frame(f.rule, f.idx), q);
      RefDoesNotGrow(rules, s);
      GrowEdgeRank(rules, f.rule, q);
    }
  }

  /** What vanishes above a lower frame after an expansion vanished above it before. */
  lemma NullableAboveBefore(rules: Rules, s: Stack, a: nat, j: nat)
    requires WellFormed(rules) && Expandable(rules, s) && AltStart(rules[RefOf(rules, s)], a)
    requires j < |s| - 1 && NullableAbove(rules, Expansion(rules, s, a), j)
    ensures NullableAbove(rules, s, j)
  {
    var t := Expansion(rules, s, a);
    ExpansionNullable(rules, s, a);
    forall l | j < l < |s|
      ensures NullableFrom(rules, s[l])
    {
      if l < |s| - 1 {
        assert t[l] == s[l];
      }
    }
  }

  /** The frame left behind by an anchored reference is anchored if the pushed alternate vanishes. */
  lemma ResidualAnchored(rules: Rules, s: Stack, a: nat)
    requires WellFormed(rules) && Expandable(rules, s) && AltStart(rules[RefOf(rules, s)], a)
    requires Anchored(rules, Top(s)) && !IsEndOfSequence(rules[Top(s).rule][Top(s).idx + 1])
    requires NullableAbove(rules, Expansion(rules, s, a), |s| - 1)
    ensures Anchored(rules, Frame(Top(s).rule, Top(s).idx + 1))
  {
    var q, t := RefOf(rules, s), Expansion(rules, s, a);
    if !IsEndOfSequence(rules[q][a]) {
      assert t[|s|] == Frame(q, a);
    }
    NullableAlternate(rules, q, a);
    AnchoredNext(rules, Top(s));
  }

  /** An expansion on top of a chain keeps its frames anchored. */
  lemma ChainAnchors(rules: Rules, s: Stack, a: nat, m: nat, j: nat)
    requires WellFormed(rules) && Chain(rules, s, m) && m < |s| - 1
    requires Expandable(rules, s) && AltStart(rules[RefOf(rules, s)], a)
    requires m < j < |Expansion(rules, s, a)| && NullableAbove(rules, Expansion(rules, s, a), j)
    ensures Anchored(rules, Expansion(rules, s, a)[j])
  {
    var t := Expansion(rules, s, a);
    if j < |s| - 1 {
      NullableAboveBefore(rules, s, a, j);
      assert t[j] == s[j];
    } else if t[j] == Frame(RefOf(rules, s), a) {
      AltStartAnchored(rules, RefOf(rules, s), a);
    } else {
      assert NullableAbove(rules, s, |s| - 1);
      assert t[j] == Frame(Top(s).rule, Top(s).idx + 1);
      ResidualAnchored(rules, s, a);
    }
  }

  lemma ChainStep(rules: Rules, s: Stack, t: Stack, m: nat) returns (m': nat)
    requires WellFormed(rules) && Tame(rules, s) && Chain(rules, s, m) && Expands(rules, s, t)
    ensures m' <= m && Chain(rules, t, m')
  {
    var a :| AltStart(rules[RefOf(rules, s)], a) && t == Expansion(rules, s, a);
    if m < |s| - 1 {
      m' := m;
      ExpansionIsValid(rules, s, a);
      forall j | m < j < |t|
        ensures |GrowSet(rules, t[j].rule)| <= |rules| - (j - m - 1)
      {
        ChainRanks(rules, s, a, m, j);
      }
      forall j | m < j < |t| && NullableAbove(rules, t, j)
        ensures Anchored(rules, t[j])
      {
        ChainAnchors(rules, s, a, m, j);
      }
    } else {
      m' := |s| - 1;
      ChainFresh(rules, s, a);
    }
  }

  /** Without growing references an expanding stack gains at most |rules| + 2 frames. */
  lemma HeightBound(rules: Rules, s: Stack, t: Stack)
    requires WellFormed(rules) && Tame(rules, s) && ValidStack(rules, s) && Reaches(rules, s, t)
    ensures |t| <= |s| + |rules| + 2 && ValidStack(rules, t)
  {
    var u := iset x | ChainBelow(rules, x, |s|) && Tame(rules, x);
    GrowthFreeClosed(rules);
    forall x, y | x in u && Expands(rules, x, y)
      ensures y in u
    {
      var m: nat :| m <= |s| && Chain(rules, x, m);
      var m' := ChainStep(rules, x, y, m);
      ExpandsWithin(rules, x, y, GrowthFreeRules(rules));
    }
    assert Chain(rules, s, |s|);
    ReachesInvariant(rules, s, t, u);
    var m: nat :| m <= |s| && Chain(rules, t, m);
    if |t| > m + 1 {
      assert |GrowSet(rules, t[|t| - 1].rule)| <= |rules| - (|t| - 1 - m - 1);
    }
  }

  // ---------------------------------------------------------------------------------------
  // Finitely many stacks
  // ---------------------------------------------------------------------------------------

  ghost function AllFrames(rules: Rules): set<Frame> {
    set r: nat, i: nat | r < |rules| && i < |rules[r]| :: Frame(r, i)
  }

  ghost function StacksUpTo(frames: set<Frame>, n: nat): set<Stack> {
    if n == 0 then {[]}
    else {[]} + set s, f | s in StacksUpTo(frames, n - 1) && f in frames :: s + [f]
  }

  lemma {:induction false} StacksUpToComplete(frames: set<Frame>, n: nat, s: Stack)
    requires |s| <= n && forall i :: 0 <= i < |s| ==> s[i] in frames
    ensures s in StacksUpTo(frames, n)
    decreases n
  {
    if s != [] {
      StacksUpToComplete(frames, n - 1, Pop(s));
      assert s == Pop(s) + [Top(s)];
    }
  }

  /** A finite set that holds every valid stack of at most `n` frames. */
  lemma ValidStackListed(rules: Rules, s: Stack, n: nat)
    requires ValidStack(rules, s) && |s| <= n
    ensures s in StacksUpTo(AllFrames(rules), n)
  {
    forall i | 0 <= i < |s|
      ensures s[i] in AllFrames(rules)
    {
      assert ValidFrame(rules, s[i]) && s[i] == Frame(s[i].rule, s[i].idx);
    }
    StacksUpToComplete(AllFrames(rules), n, s);
  }

  lemma TameTerminates(rules: Rules, s: Stack)
    requires WellFormed(rules) && Tame(rules, s) && ValidStack(rules, s)
    ensures FinitelyExpandable(rules, s)
  {
    var u := ReachedSet(rules, s);
    ReachesSelf(rules, s);
    ReachedIsListed(rules, s, s);
    forall x, y | x in u && Expands(rules, x, y)
      ensures y in u
    {
      ReachesThen(rules, s, x, y);
      ReachedIsListed(rules, s, y);
    }
    assert ClosedUnderExpansion(rules, u);
  }

  /** The stacks that can be reached, as far as they are low enough. */
  ghost function ReachedSet(rules: Rules, s: Stack): set<Stack>
    requires WellFormed(rules)
  {
    set t | t in StacksUpTo(AllFrames(rules), |s| + |rules| + 2) && Reaches(rules, s, t)
  }

  lemma ReachedIsListed(rules: Rules, s: Stack, t: Stack)
    requires WellFormed(rules) && Tame(rules, s) && ValidStack(rules, s) && Reaches(rules, s, t)
    ensures t in ReachedSet(rules, s)
  {
    HeightBound(rules, s, t);
    LowIsListed(rules, s, t);
  }

  lemma LowIsListed(rules: Rules, s: Stack, t: Stack)
    requires WellFormed(rules) && ValidStack(rules, t) && |t| <= |s| + |rules| + 2 && Reaches(rules, s, t)
    ensures t in ReachedSet(rules, s)
  {
    ValidStackListed(rules, t, |s| + |rules| + 2);
  }

  // ---------------------------------------------------------------------------------------
  // A growing reference makes infinitely many
  // ---------------------------------------------------------------------------------------

  lemma ExpandsUnder(rules: Rules, base: Stack, s: Stack, t: Stack)
    requires WellFormed(rules) && Expands(rules, s, t)
    ensures Expands(rules, base + s, base + t)
  {
    var a :| AltStart(rules[RefOf(rules, s)], a) && t == Expansion(rules, s, a);
    assert Pop(base + s) == base + Pop(s) && Top(base + s) == Top(s);
    assert base + t == Expansion(rules, base + s, a);
  }

  lemma ReachesUnder(rules: Rules, base: Stack, s: Stack, t: Stack)
    requires WellFormed(rules) && Reaches(rules, s, t)
    ensures Reaches(rules, base + s, base + t)
  {
    var u := iset x | Reaches(rules, base + s, base + x);
    forall x, y | x in u && Expands(rules, x, y)
      ensures y in u
    {
      ExpandsUnder(rules, base, x, y);
      ReachesThen(rules, base + s, base + x, base + y);
    }
    ReachesSelf(rules, base + s);
    ReachesInvariant(rules, s, t, u);
  }

  /** A frame that derives the empty word can be expanded away. */
  lemma {:induction false} Vanishes(rules: Rules, f: Frame, n: nat)
    requires WellFormed(rules) && ValidFrame(rules, f) && Derives(rules, rules[f.rule], f.idx, [], n)
    ensures Reaches(rules, [f], [])
    decreases n, |rules[f.rule]| - f.idx
  {
    var rule := rules[f.rule];
    var k, m := DerivesRefSplit(rules, rule, f.idx, [], n);
    var none: Word := [];
    assert k == 0 && none[..k] == none && none[k..] == none;
    var q := rule[f.idx].value;
    var a := RuleDerivesAlternate(rules, q, [], m);
    var rest := Frame(f.rule, f.idx + 1);
    AfterSymbol(rules, f);
    AltStartIsSymbol(rules, q, a);
    var s1 := Push(rules, [], f.rule, f.idx + 1);
    if IsEndOfSequence(rules[q][a]) {
      ReachesSelf(rules, []);
    } else {
      Vanishes(rules, Frame(q, a), m - 1);
    }
    PushedVanishes(rules, s1, q, a);
    if s1 == [] {
      ReachesSelf(rules, []);
    } else {
      assert s1 == [rest];
      Vanishes(rules, rest, n - m);
    }
    VanishJoin(rules, f, a);
  }

  /** An alternate that vanishes on its own vanishes on top of a stack. */
  lemma PushedVanishes(rules: Rules, base: Stack, q: nat, a: nat)
    requires WellFormed(rules) && q < |rules| && a < |rules[q]|
    requires Reaches(rules, if IsEndOfSequence(rules[q][a]) then [] else [Frame(q, a)], [])
    ensures Reaches(rules, Push(rules, base, q, a), base)
  {
    if IsEndOfSequence(rules[q][a]) {
      ReachesSelf(rules, base);
    } else {
      ReachesUnder(rules, base, [Frame(q, a)], []);
      assert base + [] == base && Push(rules, base, q, a) == base + [Frame(q, a)];
    }
  }

  /** First the alternate of the reference vanishes, then what follows the reference. */
  lemma VanishJoin(rules: Rules, f: Frame, a: nat)
    requires WellFormed(rules) && ValidFrame(rules, f) && ElementAt(rules, f).kind.RULE_REF? &&
      f.idx + 1 < |rules[f.rule]|
    requires AltStart(rules[ElementAt(rules, f).value], a)
    requires Reaches(rules, Push(rules, Push(rules, [], f.rule, f.idx + 1), ElementAt(rules, f).value, a),
      Push(rules, [], f.rule, f.idx + 1))
    requires Reaches(rules, Push(rules, [], f.rule, f.idx + 1), [])
    ensures Reaches(rules, [f], [])
  {
    var s1 := Push(rules, [], f.rule, f.idx + 1);
    var s2 := Push(rules, s1, ElementAt(rules, f).value, a);
    assert Expansion(rules, [f], a) == s2;
    assert Expands(rules, [f], s2);
    ReachesTransitive(rules, s2, s1, []);
    ReachesFirst(rules, [f], s2, []);
  }

  /** A reference to a nullable rule can be expanded away when something follows it. */
  lemma RefVanishes(rules: Rules, f: Frame)
    requires WellFormed(rules) && ValidFrame(rules, f) && ElementAt(rules, f).kind.RULE_REF?
    requires NullableRule(rules, ElementAt(rules, f).value) && !IsEndOfSequence(rules[f.rule][f.idx + 1])
    ensures Reaches(rules, [f], [Frame(f.rule, f.idx + 1)])
  {
    var q, rest := ElementAt(rules, f).value, [Frame(f.rule, f.idx + 1)];
    var m: nat :| RuleDerives(rules, q, [], m);
    var b := RuleDerivesAlternate(rules, q, [], m);
    AltStartIsSymbol(rules, q, b);
    assert rest == Push(rules, Pop([f]), f.rule, f.idx + 1);
    var t := Expansion(rules, [f], b);
    assert Expands(rules, [f], t);
    if t == rest {
      ReachesSelf(rules, rest);
    } else {
      Vanishes(rules, Frame(q, b), m - 1);
      ReachesUnder(rules, rest, [Frame(q, b)], []);
      assert rest + [] == rest && t == rest + [Frame(q, b)];
    }
    ReachesFirst(rules, [f], t, rest);
  }

  /** A run of nullable references can be expanded away, up to a symbol behind it. */
  lemma {:induction false} RunVanishes(rules: Rules, r: nat, a: nat, i: nat)
    requires WellFormed(rules) && r < |rules| && a <= i < |rules[r]|
    requires NullableRun(rules, rules[r], a, i) && !IsEndOfSequence(rules[r][i])
    ensures Reaches(rules, [Frame(r, a)], [Frame(r, i)])
    decreases i - a
  {
    if a == i {
      ReachesSelf(rules, [Frame(r, a)]);
    } else {
      RefVanishes(rules, Frame(r, a));
      RunVanishes(rules, r, a + 1, i);
      ReachesTransitive(rules, [Frame(r, a)], [Frame(r, a + 1)], [Frame(r, i)]);
    }
  }

  /** From alternate `a` of `r` every alternate of `q` can come to the top of `u`. */
  ghost predicate Carries(rules: Rules, r: nat, a: nat, q: nat, u: Stack)
    requires WellFormed(rules)
  {
    && r < |rules| && AltStart(rules[r], a) && ValidFrame(rules, Frame(r, a)) && q < |rules|
    && forall b :: AltStart(rules[q], b) && ValidFrame(rules, Frame(q, b)) ==>
      Reaches(rules, [Frame(r, a)], u + [Frame(q, b)])
  }

  lemma EdgeCarries(rules: Rules, f: Frame, q: nat) returns (a: nat, u: Stack)
    requires WellFormed(rules) && LeftRef(rules, f, q)
    ensures Carries(rules, f.rule, a, q, u)
    ensures GrowRef(rules, f, q) ==> |u| > 0
  {
    var rule := rules[f.rule];
    a :| a <= f.idx && AltStart(rule, a) && NullableRun(rules, rule, a, f.idx);
    RunVanishes(rules, f.rule, a, f.idx);
    u := Push(rules, [], f.rule, f.idx + 1);
    forall b | AltStart(rules[q], b) && ValidFrame(rules, Frame(q, b))
      ensures Reaches(rules, [Frame(f.rule, a)], u + [Frame(q, b)])
    {
      assert Expansion(rules, [f], b) == u + [Frame(q, b)];
      assert Expands(rules, [f], u + [Frame(q, b)]);
      ReachesThen(rules, [Frame(f.rule, a)], [f], u + [Frame(q, b)]);
    }
    assert IsSymbolStart(rule[a]);
  }

  lemma CarriesJoin(rules: Rules, r: nat, a: nat, m: nat, u: Stack, b: nat, q: nat, v: Stack)
    requires WellFormed(rules) && Carries(rules, r, a, m, u) && Carries(rules, m, b, q, v)
    ensures Carries(rules, r, a, q, u + v)
  {
    forall c | AltStart(rules[q], c) && ValidFrame(rules, Frame(q, c))
      ensures Reaches(rules, [Frame(r, a)], u + v + [Frame(q, c)])
    {
      ReachesUnder(rules, u, [Frame(m, b)], v + [Frame(q, c)]);
      assert u + (v + [Frame(q, c)]) == u + v + [Frame(q, c)];
      ReachesTransitive(rules, [Frame(r, a)], u + [Frame(m, b)], u + v + [Frame(q, c)]);
    }
  }

  lemma {:induction false} PathCarries(rules: Rules, r: nat, q: nat, n: nat) returns (a: nat, u: Stack)
    requires WellFormed(rules) && n > 0 && Path(LeftGraph(rules), r, q, n)
    ensures Carries(rules, r, a, q, u)
    decreases n
  {
    var m: nat :| (r, m) in LeftGraph(rules) && Path(LeftGraph(rules), m, q, n - 1);
    var i :| LeftRef(rules, Frame(r, i), m);
    a, u := EdgeCarries(rules, Frame(r, i), m);
    if n > 1 {
      var b, v := PathCarries(rules, m, q, n - 1);
      CarriesJoin(rules, r, a, m, u, b, q, v);
      u := u + v;
    }
  }

  lemma GrowingCarries(rules: Rules, r: nat) returns (a: nat, u: Stack)
    requires WellFormed(rules) && Grows(rules, r, r)
    ensures Carries(rules, r, a, r, u) && |u| > 0
  {
    var x: nat, y: nat :| LeftReaches(rules, r, x) && GrowEdge(rules, x, y) && LeftReaches(rules, y, r);
    var i :| GrowRef(rules, Frame(x, i), y);
    a, u := EdgeCarries(rules, Frame(x, i), y);
    var k :| Path(LeftGraph(rules), y, r, k);
    if k > 0 {
      var b, v := PathCarries(rules, y, r, k);
      CarriesJoin(rules, x, a, y, u, b, r, v);
      u := u + v;
    }
    var n :| Path(LeftGraph(rules), r, x, n);
    if n > 0 {
      var b, v := PathCarries(rules, r, x, n);
      CarriesJoin(rules, r, b, x, v, a, r, u);
      a, u := b, v + u;
    }
  }

  lemma {:induction false} Pump(rules: Rules, f: Frame, u: Stack, n: nat) returns (t: Stack)
    requires WellFormed(rules) && Reaches(rules, [f], u + [f]) && |u| > 0
    ensures Reaches(rules, [f], t) && |t| > n
    decreases n
  {
    if n == 0 {
      t := u + [f];
    } else {
      var t' := Pump(rules, f, u, n - 1);
      t := u + t';
      ReachesUnder(rules, u, [f], t');
      ReachesTransitive(rules, [f], u + [f], t);
    }
  }

  lemma {:induction false} LongestStack(u: set<Stack>) returns (n: nat)
    ensures forall s :: s in u ==> |s| <= n
    decreases u
  {
    if u == {} {
      n := 0;
    } else {
      var x :| x in u;
      n := LongestStack(u - {x});
      n := if n < |x| then |x| else n;
      forall s | s in u
        ensures |s| <= n
      {
        assert s == x || s in u - {x};
      }
    }
  }

  lemma GrowthDiverges(rules: Rules, r: nat) returns (s: Stack)
    requires WellFormed(rules) && Grows(rules, r, r)
    ensures ValidStack(rules, s) && !FinitelyExpandable(rules, s) && |s| == 1 && s[0].rule == r &&
      AltStart(rules[r], s[0].idx)
  {
    var a, u := GrowingCarries(rules, r);
    var f := Frame(r, a);
    s := [f];
    if FinitelyExpandable(rules, s) {
      var all :| s in all && ClosedUnderExpansion(rules, all);
      var n := LongestStack(all);
      var t := Pump(rules, f, u, n);
      ReachesInvariant(rules, s, t, iset x | x in all);
    }
  }

  /** The valid stacks whose frames are in rules that `start` uses. */
  ghost predicate StackOf(rules: Rules, start: nat, s: Stack) {
    ValidStack(rules, s) && Within(s, UsedRules(rules, start))
  }

  /**
    The worklist terminates on every stack of the rules that `start` uses if and only if none of them
    returns to itself, leftmost, leaving a frame behind.
    */
  lemma TerminatesFromIff(rules: Rules, start: nat)
    requires WellFormed(rules)
    ensures GrowthFreeFrom(rules, start) <==> forall s :: StackOf(rules, start, s) ==> FinitelyExpandable(rules, s)
  {
    if GrowthFreeFrom(rules, start) {
      forall s | StackOf(rules, start, s)
        ensures FinitelyExpandable(rules, s)
      {
        UsedAreTame(rules, start, s);
        TameTerminates(rules, s);
      }
    } else {
      var q: nat :| Uses(rules, start, q) && Grows(rules, q, q);
      var s := GrowthDiverges(rules, q);
      assert StackOf(rules, start, s);
    }
  }

  lemma GrowthFreeIsTame(rules: Rules, s: Stack)
    requires GrowthFree(rules)
    ensures Tame(rules, s)
  {
  }

  /**
    The worklist terminates on every stack of a grammar if and only if no rule returns to itself,
    leftmost, leaving a frame behind.
    */
  lemma TerminatesIffGrowthFree(rules: Rules)
    requires WellFormed(rules)
    ensures GrowthFree(rules) <==> forall s :: ValidStack(rules, s) ==> FinitelyExpandable(rules, s)
  {
    if GrowthFree(rules) {
      forall s | ValidStack(rules, s)
        ensures FinitelyExpandable(rules, s)
      {
        GrowthFreeIsTame(rules, s);
        TameTerminates(rules, s);
      }
    } else {
      var r: nat :| Grows(rules, r, r);
      var s := GrowthDiverges(rules, r);
    }
  }
}
