/**
  What a code point does to a settled stack, and why the languages stay right.
  */
module CharStep {
  import opened GrammarElements
  import opened Language
  import opened StackExpansion
  import opened RuleUse

  /** The top of the stack is a character class that accepts `c`. */
  predicate CharAccepts(rules: Rules, s: Stack, c: CodePoint) {
    && s != []
    && ValidFrame(rules, Top(s))
    && IsClassStart(ElementAt(rules, Top(s)))
    && ClassAccepts(rules[Top(s).rule], Top(s).idx, c)
  }

  /** The stack behind the terminal on its top. */
  function AfterTop(rules: Rules, s: Stack): Stack
    requires WellFormed(rules) && s != [] && ValidFrame(rules, Top(s))
  {
    AfterSymbol(rules, Top(s));
    Push(rules, Pop(s), Top(s).rule, SymbolEnd(rules[Top(s).rule], Top(s).idx))
  }

  lemma AfterTopIsValid(rules: Rules, s: Stack)
    requires WellFormed(rules) && ValidStack(rules, s) && s != []
    ensures ValidStack(rules, AfterTop(rules, s))
  {
    AfterSymbol(rules, Top(s));
  }

  /** `t` is one of the settled stacks that `s` can become by `c`. */
  ghost predicate Follows(rules: Rules, s: Stack, c: CodePoint, t: Stack)
    requires WellFormed(rules)
  {
    CharAccepts(rules, s, c) && AdvancesTo(rules, AfterTop(rules, s), t)
  }

  ghost predicate FollowsOne(rules: Rules, stacks: seq<Stack>, c: CodePoint, t: Stack)
    requires WellFormed(rules)
  {
    exists s :: s in stacks && Follows(rules, s, c, t)
  }

  /** `next` holds exactly what the stacks can become by `c`. */
  ghost predicate AreFollowers(rules: Rules, stacks: seq<Stack>, c: CodePoint, next: seq<Stack>)
    requires WellFormed(rules)
  {
    forall t :: FollowerIn(rules, stacks, c, next, t)
  }

  ghost predicate FollowerIn(rules: Rules, stacks: seq<Stack>, c: CodePoint, next: seq<Stack>, t: Stack)
    requires WellFormed(rules)
  {
    t in next <==> FollowsOne(rules, stacks, c, t)
  }

  lemma CharStepSound(rules: Rules, s: Stack, c: CodePoint, w: Word, n: nat)
    requires WellFormed(rules) && ValidStack(rules, s) && CharAccepts(rules, s, c)
    requires StackDerives(rules, AfterTop(rules, s), w, n)
    ensures StackDerives(rules, s, [c] + w, n)
  {
    var f := Top(s);
    var j := SymbolEnd(rules[f.rule], f.idx);
    AfterSymbol(rules, f);
    var k, m := PushSplit(rules, Pop(s), f.rule, j, w, n);
    var cw := [c] + w;
    assert cw[..k + 1][1..] == w[..k] && cw[k + 1..] == w[k..];
    DerivesClass(rules, rules[f.rule], f.idx, cw[..k + 1], m);
    StackDerivesJoin(rules, s, cw, k + 1, m, n - m);
  }

  lemma CharStepComplete(rules: Rules, s: Stack, w: Word, n: nat)
    requires WellFormed(rules) && ValidStack(rules, s) && Settled(rules, s) && w != []
    requires StackDerives(rules, s, w, n)
    ensures CharAccepts(rules, s, w[0]) && StackDerives(rules, AfterTop(rules, s), w[1..], n)
  {
    var f := Top(s);
    var j := SymbolEnd(rules[f.rule], f.idx);
    AfterSymbol(rules, f);
    var k, m := StackDerivesSplit(rules, s, w, n);
    DerivesClass(rules, rules[f.rule], f.idx, w[..k], m);
    assert w[..k][1..] == w[1..][..k - 1] && w[1..][k - 1..] == w[k..] && w[..k][0] == w[0];
    PushJoin(rules, Pop(s), f.rule, j, w[1..], k - 1, m, n - m);
  }

  /** A settled stack derives a word by matching its first character. */
  lemma CharStepExact(rules: Rules, s: Stack, c: CodePoint, w: Word)
    requires WellFormed(rules) && ValidStack(rules, s) && Settled(rules, s)
    ensures InStack(rules, s, [c] + w) <==> CharAccepts(rules, s, c) && InStack(rules, AfterTop(rules, s), w)
  {
    var cw := [c] + w;
    assert cw[0] == c && cw[1..] == w;
    if InStack(rules, s, cw) {
      var n: nat :| StackDerives(rules, s, cw, n);
      CharStepComplete(rules, s, cw, n);
    }
    if CharAccepts(rules, s, c) && InStack(rules, AfterTop(rules, s), w) {
      var n: nat :| StackDerives(rules, AfterTop(rules, s), w, n);
      CharStepSound(rules, s, c, w, n);
    }
  }

  /** Of the settled stacks only the empty one derives the empty word. */
  lemma SettledEmptyWord(rules: Rules, s: Stack)
    requires WellFormed(rules) && ValidStack(rules, s) && Settled(rules, s)
    ensures InStack(rules, s, []) <==> s == []
  {
    if s == [] {
      assert StackDerives(rules, s, [], 0);
    } else if InStack(rules, s, []) {
      var n: nat :| StackDerives(rules, s, [], n);
      var k, m := StackDerivesSplit(rules, s, [], n);
    }
  }

  ghost predicate AllSettled(rules: Rules, stacks: seq<Stack>) {
    forall s :: s in stacks ==> ValidStack(rules, s) && Settled(rules, s)
  }

  /** Stacks that follow by `c` derive exactly what stood behind `c`. */
  lemma FollowersDerive(rules: Rules, stacks: seq<Stack>, c: CodePoint, next: seq<Stack>, w: Word)
    requires WellFormed(rules) && AllSettled(rules, stacks)
    requires AreFollowers(rules, stacks, c, next)
    ensures InStacks(rules, next, w) <==> InStacks(rules, stacks, [c] + w)
  {
    if InStacks(rules, next, w) {
      var t :| t in next && InStack(rules, t, w);
      assert FollowerIn(rules, stacks, c, next, t);
      var s :| s in stacks && Follows(rules, s, c, t);
      AfterTopIsValid(rules, s);
      AdvanceKeepsLanguage(rules, AfterTop(rules, s), w);
      CharStepExact(rules, s, c, w);
    }
    if InStacks(rules, stacks, [c] + w) {
      var s :| s in stacks && InStack(rules, s, [c] + w);
      CharStepExact(rules, s, c, w);
      AfterTopIsValid(rules, s);
      AdvanceKeepsLanguage(rules, AfterTop(rules, s), w);
      var t :| AdvancesTo(rules, AfterTop(rules, s), t) && InStack(rules, t, w);
      assert Follows(rules, s, c, t);
      assert FollowerIn(rules, stacks, c, next, t);
    }
  }

  lemma FollowersSettled(rules: Rules, stacks: seq<Stack>, c: CodePoint, t: Stack)
    requires WellFormed(rules) && AllSettled(rules, stacks) && FollowsOne(rules, stacks, c, t)
    ensures ValidStack(rules, t) && Settled(rules, t)
  {
    var s :| s in stacks && Follows(rules, s, c, t);
    AfterTopIsValid(rules, s);
    ReachesValid(rules, AfterTop(rules, s), t);
  }

  lemma AfterTopWithin(rules: Rules, s: Stack, u: iset<nat>)
    requires WellFormed(rules) && s != [] && ValidFrame(rules, Top(s)) && Within(s, u)
    ensures Within(AfterTop(rules, s), u)
  {
  }

  /** A code point never leaves the rules in use. */
  lemma FollowsWithin(rules: Rules, s: Stack, c: CodePoint, t: Stack, u: iset<nat>)
    requires WellFormed(rules) && ClosedRules(rules, u) && Within(s, u) && Follows(rules, s, c, t)
    ensures Within(t, u)
  {
    AfterTopWithin(rules, s, u);
    ReachesWithin(rules, AfterTop(rules, s), t, u);
  }

  lemma FollowersWithin(rules: Rules, stacks: seq<Stack>, c: CodePoint, next: seq<Stack>, u: iset<nat>)
    requires WellFormed(rules) && ClosedRules(rules, u) && AllWithin(stacks, u) && AreFollowers(rules, stacks, c, next)
    ensures AllWithin(next, u)
  {
    forall t | t in next
      ensures Within(t, u)
    {
      assert FollowerIn(rules, stacks, c, next, t);
      var s :| s in stacks && Follows(rules, s, c, t);
      FollowsWithin(rules, s, c, t, u);
    }
  }

  // ---------------------------------------------------------------------------------------
  // Words
  // ---------------------------------------------------------------------------------------

  /** `t` is one of the settled stacks that `s` can become by the word. */
  ghost predicate FollowsWord(rules: Rules, s: Stack, cs: Word, t: Stack)
    requires WellFormed(rules)
    decreases |cs|, 1
  {
    if cs == [] then s == t else exists m :: FollowsVia(rules, s, cs, m, t)
  }

  /** The first code point leads to `m`, the others from there to `t`. */
  ghost predicate FollowsVia(rules: Rules, s: Stack, cs: Word, m: Stack, t: Stack)
    requires WellFormed(rules) && cs != []
    decreases |cs|, 0
  {
    Follows(rules, s, cs[0], m) && FollowsWord(rules, m, cs[1..], t)
  }

  lemma FirstFollower(rules: Rules, s: Stack, cs: Word, t: Stack) returns (m: Stack)
    requires WellFormed(rules) && cs != [] && FollowsWord(rules, s, cs, t)
    ensures Follows(rules, s, cs[0], m) && FollowsWord(rules, m, cs[1..], t)
  {
    m :| FollowsVia(rules, s, cs, m, t);
  }

  lemma FollowsFirst(rules: Rules, s: Stack, cs: Word, m: Stack, t: Stack)
    requires WellFormed(rules) && cs != [] && Follows(rules, s, cs[0], m) && FollowsWord(rules, m, cs[1..], t)
    ensures FollowsWord(rules, s, cs, t)
  {
    assert FollowsVia(rules, s, cs, m, t);
  }

  lemma {:induction false} FollowsWordThen(rules: Rules, s: Stack, cs: Word, m: Stack, c: CodePoint, t: Stack)
    requires WellFormed(rules) && FollowsWord(rules, s, cs, m) && Follows(rules, m, c, t)
    ensures FollowsWord(rules, s, cs + [c], t)
    decreases |cs|
  {
    if cs == [] {
      assert ([c])[1..] == [] && FollowsWord(rules, t, [], t);
      FollowsFirst(rules, s, [c], t, t);
      assert cs + [c] == [c];
    } else {
      var x := FirstFollower(rules, s, cs, m);
      FollowsWordThen(rules, x, cs[1..], m, c, t);
      assert (cs + [c])[1..] == cs[1..] + [c];
      FollowsFirst(rules, s, cs + [c], x, t);
    }
  }

  lemma {:induction false} FollowsWordSplit(rules: Rules, s: Stack, cs: Word, c: CodePoint, t: Stack) returns (m: Stack)
    requires WellFormed(rules) && FollowsWord(rules, s, cs + [c], t)
    ensures FollowsWord(rules, s, cs, m) && Follows(rules, m, c, t)
    decreases |cs|
  {
    var all := cs + [c];
    var x := FirstFollower(rules, s, all, t);
    if cs == [] {
      m := s;
    } else {
      assert all[1..] == cs[1..] + [c];
      m := FollowsWordSplit(rules, x, cs[1..], c, t);
      FollowsFirst(rules, s, cs, x, m);
    }
  }

  lemma {:induction false} FollowsWordSettled(rules: Rules, s: Stack, cs: Word, t: Stack)
    requires WellFormed(rules) && ValidStack(rules, s) && Settled(rules, s) && FollowsWord(rules, s, cs, t)
    ensures ValidStack(rules, t) && Settled(rules, t)
    decreases |cs|
  {
    if cs != [] {
      var m := FirstFollower(rules, s, cs, t);
      FollowersSettled(rules, [s], cs[0], m);
      FollowsWordSettled(rules, m, cs[1..], t);
    }
  }

  lemma {:induction false} FollowsWordWithin(rules: Rules, s: Stack, cs: Word, t: Stack, u: iset<nat>)
    requires WellFormed(rules) && ClosedRules(rules, u) && Within(s, u) && FollowsWord(rules, s, cs, t)
    ensures Within(t, u)
    decreases |cs|
  {
    if cs != [] {
      var m := FirstFollower(rules, s, cs, t);
      FollowsWithin(rules, s, cs[0], m, u);
      FollowsWordWithin(rules, m, cs[1..], t, u);
    }
  }

  /** The stacks behind a word derive what the first stack derives behind that word. */
  lemma {:induction false} FollowsWordDerives(rules: Rules, s: Stack, cs: Word, w: Word)
    requires WellFormed(rules) && ValidStack(rules, s) && Settled(rules, s)
    ensures InStack(rules, s, cs + w) <==> exists t :: FollowsWord(rules, s, cs, t) && InStack(rules, t, w)
    decreases |cs|
  {
    if cs == [] {
      assert cs + w == w;
      assert FollowsWord(rules, s, cs, s);
    } else {
      var v := cs[1..] + w;
      assert cs + w == [cs[0]] + v;
      CharStepExact(rules, s, cs[0], v);
      if CharAccepts(rules, s, cs[0]) {
        AfterTopIsValid(rules, s);
        AdvanceKeepsLanguage(rules, AfterTop(rules, s), v);
      }
      if InStack(rules, s, cs + w) {
        var m :| AdvancesTo(rules, AfterTop(rules, s), m) && InStack(rules, m, v);
        assert Follows(rules, s, cs[0], m);
        FollowersSettled(rules, [s], cs[0], m);
        FollowsWordDerives(rules, m, cs[1..], w);
        var t :| FollowsWord(rules, m, cs[1..], t) && InStack(rules, t, w);
        FollowsFirst(rules, s, cs, m, t);
      }
      if exists t :: FollowsWord(rules, s, cs, t) && InStack(rules, t, w) {
        var t :| FollowsWord(rules, s, cs, t) && InStack(rules, t, w);
        var m := FirstFollower(rules, s, cs, t);
        FollowersSettled(rules, [s], cs[0], m);
        FollowsWordDerives(rules, m, cs[1..], w);
      }
    }
  }
}
