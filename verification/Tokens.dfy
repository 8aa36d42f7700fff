/**
  Whole tokens: masking the candidates that the grammar cannot take, and taking the one that was
  sampled; and why the two agree.
  */
module Tokens {
  import opened Collections
  import opened GrammarElements
  import opened Language
  import opened StackExpansion
  import opened RuleUse
  import opened Worklist
  import opened LeftReferences
  import opened Termination
  import opened Progress
  import opened CharStep
  import opened Utf8
  import opened PartialChar
  import opened CandidateFilter
  import opened Automaton

  /** What the vocabulary says about a token. */
  datatype Vocab = Vocab(piece: nat -> seq<Byte>, isEog: nat -> bool)

  // ---------------------------------------------------------------------------------------
  // Masking
  // ---------------------------------------------------------------------------------------

  /** The candidate that a token makes in a grammar that carries `partial`. */
  function CandidateOf(index: nat, piece: seq<Byte>, partial: PartialUtf8, id: nat): Candidate {
    var d := Decode(piece, partial);
    Candidate(index, d.codePoints, d.partial, id)
  }

  lemma CandidateIsValid(index: nat, piece: seq<Byte>, partial: PartialUtf8, id: nat)
    requires Bounded(partial)
    ensures CandidateOf(index, piece, partial, id).Valid()
  {
    DecodeEndsInZero(piece, partial);
    DecodeBounded(piece, partial);
    var s := Decode(piece, partial).codePoints;
    assert s[|s| - 1] == 0;
  }

  lemma {:induction false} CharsEndInZero(src: seq<Byte>, before: seq<nat>, value: nat, n: int)
    ensures var d := DecodeChars(src, before, value, n); d.codePoints != [] && d.codePoints[|d.codePoints| - 1] == 0
    decreases |src|
  {
    if !AtEnd(src) && LengthOf(src[0]) != 0 {
      var more := LengthOf(src[0]) - 1;
      var t := Collect(src[1..], LeadValue(src[0], more), more);
      CharsEndInZero(t.rest, if t.n == 0 then before + [t.value] else before, t.value, t.n);
    }
  }

  lemma DecodeEndsInZero(src: seq<Byte>, p: PartialUtf8)
    ensures var d := Decode(src, p); d.codePoints != [] && d.codePoints[|d.codePoints| - 1] == 0
  {
    var t := Resume(src, p.value, p.nRemain);
    if t.Tail? {
      CharsEndInZero(t.rest, if p.nRemain > 0 && t.n == 0 then [t.value] else [], t.value, t.n);
    }
  }

  /** Whether a token is masked: end tokens by whether the grammar may end, others by the filter. */
  ghost predicate Masked(rules: Rules, stacks: seq<Stack>, partial: PartialUtf8, vocab: Vocab, id: nat)
    requires WellFormed(rules) && Bounded(partial)
  {
    CandidateIsValid(0, vocab.piece(id), partial, id);
    if vocab.isEog(id) then [] !in stacks
    else AtEnd(vocab.piece(id)) || RejectedByAll(rules, stacks, CandidateOf(0, vocab.piece(id), partial, id), 0)
  }

  /** The index of a candidate plays no part in its fate. */
  lemma {:induction false} IndexIsIrrelevant(rules: Rules, s: Stack, a: Candidate, b: Candidate, depth: nat)
    requires WellFormed(rules) && a.Valid() && depth <= a.End()
    requires a.codePoints == b.codePoints && a.partial == b.partial && a.id == b.id
    ensures b.Valid() && Rejected(rules, s, a, depth) == Rejected(rules, s, b, depth)
    decreases a.End() - depth
  {
    if Continues(rules, s, a, depth) {
      forall t
        ensures RejectedVia(rules, s, a, depth, t) == RejectedVia(rules, s, b, depth, t)
      {
        if AdvancesTo(rules, AfterTop(rules, s), t) {
          IndexIsIrrelevant(rules, t, a, b, depth + 1);
        }
      }
    }
  }

  /** The tokens that go through the filter. */
  predicate Filtered(vocab: Vocab, id: nat) {
    !vocab.isEog(id) && !AtEnd(vocab.piece(id))
  }

  /** One candidate for each token below `limit` that goes through the filter, with its position as index. */
  ghost predicate Lists(cands: Candidates, vocab: Vocab, partial: PartialUtf8, ids: seq<nat>, limit: nat)
    requires limit <= |ids|
  {
    && (forall c :: c in cands ==>
        c.index < limit && Filtered(vocab, ids[c.index]) &&
          c == CandidateOf(c.index, vocab.piece(ids[c.index]), partial, ids[c.index]))
    && (forall k :: 0 <= k < limit && Filtered(vocab, ids[k]) ==>
        CandidateOf(k, vocab.piece(ids[k]), partial, ids[k]) in cands)
  }

  method AllowsEnd(stacks: seq<Stack>) returns (allow: bool)
    ensures allow <==> [] in stacks
  {
    allow := false;
    for n := 0 to |stacks|
      invariant allow <==> [] in stacks[..n]
    {
      assert stacks[..n + 1] == stacks[..n] + [stacks[n]];
      if stacks[n] == [] {
        allow := true;
      }
    }
    assert stacks[..|stacks|] == stacks;
  }

  /** Masks what needs no filter, and decodes the rest. */
  method DecodeCandidates(partial: PartialUtf8, allowEog: bool, vocab: Vocab, ids: seq<nat>, masked: array<bool>)
    returns (cands: Candidates)
    requires masked.Length == |ids|
    modifies masked
    ensures Lists(cands, vocab, partial, ids, |ids|)
    ensures forall k :: 0 <= k < |ids| ==>
      (masked[k] <==> old(masked[k]) || (!Filtered(vocab, ids[k]) && !(allowEog && vocab.isEog(ids[k]))))
  {
    cands := [];
    for i := 0 to |ids|
      invariant Lists(cands, vocab, partial, ids, i)
      invariant forall k :: 0 <= k < i ==>
        (masked[k] <==> old(masked[k]) || (!Filtered(vocab, ids[k]) && !(allowEog && vocab.isEog(ids[k]))))
      invariant forall k :: i <= k < |ids| ==> masked[k] == old(masked[k])
    {
      var id := ids[i];
      var piece := vocab.piece(id);
      if vocab.isEog(id) {
        if !allowEog {
          masked[i] := true;
        }
      } else if piece == [] || piece[0] == 0 {
        masked[i] := true;
      } else {
        var codePoints, next := DecodeUtf8(piece, partial);
        cands := cands + [Candidate(i, codePoints, next, id)];
      }
    }
  }

  /** Whether one of the candidates at the positions `xs` is that of token `k`. */
  ghost predicate Names(cands: Candidates, xs: seq<nat>, k: nat) {
    exists x :: x in xs && x < |cands| && cands[x].index == k
  }

  method MaskCandidates(cands: Candidates, xs: seq<nat>, masked: array<bool>)
    requires forall x :: x in xs ==> x < |cands| && cands[x].index < masked.Length
    modifies masked
    ensures forall k :: 0 <= k < masked.Length ==> (masked[k] <==> old(masked[k]) || Names(cands, xs, k))
  {
    for n := 0 to |xs|
      invariant forall k :: 0 <= k < masked.Length ==> (masked[k] <==> old(masked[k]) || Names(cands, xs[..n], k))
    {
      assert xs[n] in xs && xs[..n + 1] == xs[..n] + [xs[n]];
      masked[cands[xs[n]].index] := true;
    }
    assert xs[..|xs|] == xs;
  }

  /** A token that went through the filter is named by its rejects exactly if all stacks reject it. */
  lemma NamedIsRejected(rules: Rules, stacks: seq<Stack>, partial: PartialUtf8, vocab: Vocab, ids: seq<nat>,
                        cands: Candidates, rejects: seq<nat>, k: nat)
    requires WellFormed(rules) && Bounded(partial) && k < |ids|
    requires Lists(cands, vocab, partial, ids, |ids|) && ValidCandidates(cands)
    requires forall x: nat :: x in rejects <==> x < |cands| && RejectedByAll(rules, stacks, cands[x], 0)
    ensures Names(cands, rejects, k) <==> Filtered(vocab, ids[k]) && Masked(rules, stacks, partial, vocab, ids[k])
  {
    var id, piece := ids[k], vocab.piece(ids[k]);
    var c, c0 := CandidateOf(k, piece, partial, id), CandidateOf(0, piece, partial, id);
    CandidateIsValid(k, piece, partial, id);
    CandidateIsValid(0, piece, partial, id);
    forall s | s in stacks
      ensures Rejected(rules, s, c, 0) == Rejected(rules, s, c0, 0)
    {
      IndexIsIrrelevant(rules, s, c, c0, 0);
    }
    if Names(cands, rejects, k) {
      var x :| x in rejects && x < |cands| && cands[x].index == k;
      assert cands[x] in cands;
    }
    if Filtered(vocab, id) && Masked(rules, stacks, partial, vocab, id) {
      var x :| 0 <= x < |cands| && cands[x] == c;
      assert x in rejects;
    }
  }

  /** Masks the tokens that cannot come next; the verdicts of the others stay as they are. */
  method Apply(g: Grammar, vocab: Vocab, awaitingTrigger: bool, ids: seq<nat>, masked: array<bool>)
    requires g.Valid() && StartsFrom(g.rules, g.start) && masked.Length == |ids|
    requires !awaitingTrigger ==> g.stacks != []
    modifies masked
    ensures forall i :: 0 <= i < |ids| ==>
      (masked[i] <==> old(masked[i]) || (!awaitingTrigger && Masked(g.rules, g.stacks, g.partial, vocab, ids[i])))
  {
    if awaitingTrigger {
      return;
    }
    var allowEog := AllowsEnd(g.stacks);
    var cands := DecodeCandidates(g.partial, allowEog, vocab, ids, masked);
    forall x | 0 <= x < |cands|
      ensures cands[x].Valid()
    {
      assert cands[x] in cands;
      CandidateIsValid(cands[x].index, vocab.piece(ids[cands[x].index]), g.partial, ids[cands[x].index]);
    }
    forall s | s in g.stacks
      ensures Tame(g.rules, s) && Lively(g.rules, s)
    {
      UsedAreTame(g.rules, g.start, s);
      UsedAreLively(g.rules, g.start, s);
    }
    var rejects := RejectedPositions(g.rules, g.stacks, cands);
    assert forall x :: x in rejects ==> cands[x] in cands;
    MaskCandidates(cands, rejects, masked);
    forall k | 0 <= k < |ids|
      ensures Names(cands, rejects, k) <==>
        Filtered(vocab, ids[k]) && Masked(g.rules, g.stacks, g.partial, vocab, ids[k])
    {
      NamedIsRejected(g.rules, g.stacks, g.partial, vocab, ids, cands, rejects, k);
    }
  }

  /** The end of generation is masked exactly while what was generated is no word of the root rule. */
  lemma EndIsMasked(g: Grammar, vocab: Vocab, id: nat)
    requires g.Valid() && g.Tracks(0) && vocab.isEog(id)
    ensures Masked(g.rules, g.stacks, g.partial, vocab, id) <==> !InRule(g.rules, g.start, g.history)
  {
    g.EmptyStackMeansWord();
    CandidateIsValid(0, vocab.piece(id), g.partial, id);
  }

  /** A token without text is masked. */
  lemma EmptyIsMasked(rules: Rules, stacks: seq<Stack>, partial: PartialUtf8, vocab: Vocab, id: nat)
    requires WellFormed(rules) && Bounded(partial) && !vocab.isEog(id)
    requires vocab.piece(id) == [] || vocab.piece(id)[0] == 0
    ensures Masked(rules, stacks, partial, vocab, id)
  {
    CandidateIsValid(0, vocab.piece(id), partial, id);
  }

  // ---------------------------------------------------------------------------------------
  // Taking a token
  // ---------------------------------------------------------------------------------------

  predicate TokenFree(rules: Rules) {
    forall r, i :: 0 <= r < |rules| && 0 <= i < |rules[r]| ==> !IsToken(rules[r][i])
  }

  /** `t` is one of the stacks that `s` becomes by a whole token, by its id or by its code points. */
  ghost predicate TokenFollows(rules: Rules, s: Stack, token: nat, word: Word, t: Stack)
    requires WellFormed(rules)
  {
    && s != [] && ValidFrame(rules, Top(s))
    && if IsToken(ElementAt(rules, Top(s))) then
         TokenMatches(ElementAt(rules, Top(s)), token) && AdvancesTo(rules, AfterTop(rules, s), t)
       else
         FollowsWord(rules, s, word, t)
  }

  ghost predicate TokenFollowsOne(rules: Rules, stacks: seq<Stack>, token: nat, word: Word, t: Stack)
    requires WellFormed(rules)
  {
    exists s :: s in stacks && TokenFollows(rules, s, token, word, t)
  }

  /** `next` holds exactly what the stacks can become by the token. */
  ghost predicate AreTokenFollowers(rules: Rules, stacks: seq<Stack>, token: nat, word: Word, next: seq<Stack>)
    requires WellFormed(rules)
  {
    forall t :: TokenFollowerIn(rules, stacks, token, word, next, t)
  }

  ghost predicate TokenFollowerIn(rules: Rules, stacks: seq<Stack>, token: nat, word: Word, next: seq<Stack>, t: Stack)
    requires WellFormed(rules)
  {
    t in next <==> TokenFollowsOne(rules, stacks, token, word, t)
  }

  lemma TokenFollowersMore(rules: Rules, stacks: seq<Stack>, n: nat, token: nat, word: Word, before: seq<Stack>,
                           next: seq<Stack>)
    requires WellFormed(rules) && n < |stacks| && AreTokenFollowers(rules, stacks[..n], token, word, before)
    requires forall t :: t in next <==> t in before || TokenFollows(rules, stacks[n], token, word, t)
    ensures AreTokenFollowers(rules, stacks[..n + 1], token, word, next)
  {
    var taken := stacks[..n + 1];
    assert taken == stacks[..n] + [stacks[n]];
    forall t
      ensures TokenFollowerIn(rules, taken, token, word, next, t)
    {
      assert TokenFollowerIn(rules, stacks[..n], token, word, before, t);
    }
  }

  /** The code points of a piece without the terminating 0. */
  function WordOf(piece: seq<Byte>, partial: PartialUtf8): Word {
    var s := Decode(piece, partial).codePoints;
    if s == [] then [] else s[..|s| - 1]
  }

  lemma {:induction false} FollowsWordPrefix(rules: Rules, s: Stack, a: Word, b: Word, t: Stack) returns (m: Stack)
    requires WellFormed(rules) && FollowsWord(rules, s, a + b, t)
    ensures FollowsWord(rules, s, a, m)
    decreases |a|
  {
    if a == [] {
      m := s;
    } else {
      var x := FirstFollower(rules, s, a + b, t);
      assert (a + b)[1..] == a[1..] + b;
      m := FollowsWordPrefix(rules, x, a[1..], b, t);
      FollowsFirst(rules, s, a, x, m);
    }
  }

  /** Once no stack is left, none comes back. */
  lemma RunsOut(rules: Rules, s: Stack, a: Word, b: Word, survivors: seq<Stack>)
    requires WellFormed(rules) && survivors == []
    requires forall m :: m in survivors <==> FollowsWord(rules, s, a, m)
    ensures forall t :: !FollowsWord(rules, s, a + b, t)
  {
    forall t
      ensures !FollowsWord(rules, s, a + b, t)
    {
      if FollowsWord(rules, s, a + b, t) {
        var m := FollowsWordPrefix(rules, s, a, b, t);
      }
    }
  }

  lemma SurvivorsMore(rules: Rules, stack: Stack, w: Word, c: CodePoint, before: seq<Stack>, survivors: seq<Stack>)
    requires WellFormed(rules) && AreFollowers(rules, before, c, survivors)
    requires forall t :: t in before <==> FollowsWord(rules, stack, w, t)
    ensures forall t :: t in survivors <==> FollowsWord(rules, stack, w + [c], t)
  {
    forall t
      ensures t in survivors <==> FollowsWord(rules, stack, w + [c], t)
    {
      assert FollowerIn(rules, before, c, survivors, t);
      if t in survivors {
        var m :| m in before && Follows(rules, m, c, t);
        FollowsWordThen(rules, stack, w, m, c, t);
      }
      if FollowsWord(rules, stack, w + [c], t) {
        var m := FollowsWordSplit(rules, stack, w, c, t);
      }
    }
  }

  /** A single stack through all code points of a word; it may run out of stacks early. */
  method RunWord(rules: Rules, stack: Stack, word: Word) returns (survivors: seq<Stack>)
    requires WellFormed(rules) && Tame(rules, stack) && ValidStack(rules, stack) && Settled(rules, stack)
    ensures forall t :: t in survivors <==> FollowsWord(rules, stack, word, t)
    ensures AllSettled(rules, survivors)
  {
    survivors := [stack];
    GrowthFreeClosed(rules);
    for i := 0 to |word|
      invariant AllSettled(rules, survivors) && AllTame(rules, survivors)
      invariant forall t :: t in survivors <==> FollowsWord(rules, stack, word[..i], t)
    {
      assert word[..i + 1] == word[..i] + [word[i]];
      var before := survivors;
      survivors := AcceptAll(rules, survivors, word[i]);
      SurvivorsMore(rules, stack, word[..i], word[i], before, survivors);
      FollowersWithin(rules, before, word[i], survivors, GrowthFreeRules(rules));
      if survivors == [] {
        assert word == word[..i + 1] + word[i + 1..];
        RunsOut(rules, stack, word[..i + 1], word[i + 1..], survivors);
        return;
      }
    }
    assert word[..|word|] == word;
  }

  /** One stack through a whole token; what it becomes joins `newStacks`, each stack once. */
  method AcceptTokenStack(rules: Rules, stack: Stack, token: nat, word: Word, newStacks: seq<Stack>)
    returns (res: seq<Stack>)
    requires WellFormed(rules) && Tame(rules, stack) && ValidStack(rules, stack) && Settled(rules, stack)
    requires NoDuplicates(newStacks)
    ensures NoDuplicates(res)
    ensures forall t :: t in res <==> t in newStacks || TokenFollows(rules, stack, token, word, t)
  {
    res := newStacks;
    if stack == [] {
      return;
    }
    var pos := Top(stack);
    if IsToken(ElementAt(rules, pos)) {
      if TokenMatches(ElementAt(rules, pos), token) {
        AfterSymbol(rules, pos);
        var newStack := stack[..|stack| - 1];
        if !IsEndOfSequence(rules[pos.rule][pos.idx + 1]) {
          newStack := newStack + [Frame(pos.rule, pos.idx + 1)];
        }
        assert newStack == AfterTop(rules, stack);
        AfterTopIsValid(rules, stack);
        AfterTopWithin(rules, stack, GrowthFreeRules(rules));
        TameTerminates(rules, newStack);
        res := AdvanceStack(rules, newStack, newStacks);
      }
    } else {
      var survivors := RunWord(rules, stack, word);
      for n := 0 to |survivors|
        invariant NoDuplicates(res)
        invariant forall t :: t in res <==> t in newStacks || t in survivors[..n]
      {
        assert survivors[..n + 1] == survivors[..n] + [survivors[n]];
        res := AppendUnique(res, survivors[n]);
      }
      assert survivors[..|survivors|] == survivors;
    }
  }

  method AcceptTokenAll(rules: Rules, stacks: seq<Stack>, token: nat, word: Word) returns (next: seq<Stack>)
    requires WellFormed(rules) && AllTame(rules, stacks) && AllSettled(rules, stacks)
    ensures NoDuplicates(next) && AllSettled(rules, next)
    ensures AreTokenFollowers(rules, stacks, token, word, next)
  {
    next := [];
    for n := 0 to |stacks|
      invariant NoDuplicates(next)
      invariant AreTokenFollowers(rules, stacks[..n], token, word, next)
    {
      ghost var before := next;
      next := AcceptTokenStack(rules, stacks[n], token, word, next);
      TokenFollowersMore(rules, stacks, n, token, word, before, next);
    }
    assert stacks[..|stacks|] == stacks;
    forall t | t in next
      ensures ValidStack(rules, t) && Settled(rules, t)
    {
      assert TokenFollowerIn(rules, stacks, token, word, next, t);
      var s :| s in stacks && TokenFollows(rules, s, token, word, t);
      TokenFollowersSettled(rules, s, token, word, t);
    }
  }

  lemma TokenFollowersSettled(rules: Rules, s: Stack, token: nat, word: Word, t: Stack)
    requires WellFormed(rules) && ValidStack(rules, s) && Settled(rules, s) && TokenFollows(rules, s, token, word, t)
    ensures ValidStack(rules, t) && Settled(rules, t)
  {
    if IsToken(ElementAt(rules, Top(s))) {
      AfterTopIsValid(rules, s);
      ReachesValid(rules, AfterTop(rules, s), t);
    } else {
      FollowsWordSettled(rules, s, word, t);
    }
  }

  /** A token never leaves the rules in use. */
  lemma TokenFollowersWithin(rules: Rules, stacks: seq<Stack>, token: nat, word: Word, next: seq<Stack>, u: iset<nat>)
    requires WellFormed(rules) && ClosedRules(rules, u) && AllWithin(stacks, u)
    requires AreTokenFollowers(rules, stacks, token, word, next)
    ensures AllWithin(next, u)
  {
    forall t | t in next
      ensures Within(t, u)
    {
      assert TokenFollowerIn(rules, stacks, token, word, next, t);
      var s :| s in stacks && TokenFollows(rules, s, token, word, t);
      if IsToken(ElementAt(rules, Top(s))) {
        AfterTopWithin(rules, s, u);
        ReachesWithin(rules, AfterTop(rules, s), t, u);
      } else {
        FollowsWordWithin(rules, s, word, t, u);
      }
    }
  }

  /** Without token elements a token moves the language on by its code points. */
  lemma TokenDerives(rules: Rules, stacks: seq<Stack>, token: nat, word: Word, next: seq<Stack>, w: Word)
    requires WellFormed(rules) && TokenFree(rules) && AllSettled(rules, stacks) && word + w != []
    requires AreTokenFollowers(rules, stacks, token, word, next)
    ensures InStacks(rules, next, w) <==> InStacks(rules, stacks, word + w)
  {
    if InStacks(rules, next, w) {
      var t :| t in next && InStack(rules, t, w);
      assert TokenFollowerIn(rules, stacks, token, word, next, t);
      var s :| s in stacks && TokenFollows(rules, s, token, word, t);
      FollowsWordDerives(rules, s, word, w);
    }
    if InStacks(rules, stacks, word + w) {
      var s :| s in stacks && InStack(rules, s, word + w);
      FollowsWordDerives(rules, s, word, w);
      var t :| FollowsWord(rules, s, word, t) && InStack(rules, t, w);
      assert s != [] by {
        var n: nat :| StackDerives(rules, s, word + w, n);
      }
      assert TokenFollows(rules, s, token, word, t);
      assert TokenFollowerIn(rules, stacks, token, word, next, t);
    }
  }

  lemma TokenTracks(rules: Rules, start: nat, stacks: seq<Stack>, history: Word, token: nat, word: Word,
                    next: seq<Stack>, k: nat)
    requires WellFormed(rules) && TokenFree(rules) && AllSettled(rules, stacks) && k == (if word == [] then 1 else 0)
    requires AreTokenFollowers(rules, stacks, token, word, next)
    requires forall w: Word :: |w| >= 1 ==> StandFor(rules, start, stacks, history, w)
    ensures forall w: Word :: |w| >= k ==> StandFor(rules, start, next, history + word, w)
  {
    forall w: Word | |w| >= k
      ensures StandFor(rules, start, next, history + word, w)
    {
      assert StandFor(rules, start, stacks, history, word + w);
      TokenDerives(rules, stacks, token, word, next, w);
      assert history + word + w == history + (word + w);
    }
  }

  /**
    Takes a token: stacks that wait for a token go by its id, the others by its code points. False
    stands for the exception. Until another code point arrives, an empty stack is not kept.
    */
  method AcceptToken(g: Grammar, token: nat, piece: seq<Byte>) returns (ok: bool)
    requires g.Valid()
    modifies g
    ensures g.Valid() && (ok <==> g.stacks != [])
    ensures AreTokenFollowers(g.rules, old(g.stacks), token, WordOf(piece, old(g.partial)), g.stacks)
    ensures g.partial == Decode(piece, old(g.partial)).partial
    ensures g.history == old(g.history) + WordOf(piece, old(g.partial))
    ensures TokenFree(g.rules) && old(g.Tracks(1)) ==> g.Tracks(if WordOf(piece, old(g.partial)) == [] then 1 else 0)
  {
    var codePoints, partial := DecodeUtf8(piece, g.partial);
    DecodeBounded(piece, g.partial);
    var word := codePoints[..|codePoints| - 1];
    assert word == WordOf(piece, g.partial);
    forall s | s in g.stacks
      ensures Tame(g.rules, s)
    {
      UsedAreTame(g.rules, g.start, s);
    }
    var next := AcceptTokenAll(g.rules, g.stacks, token, word);
    UsedRulesClosed(g.rules, g.start);
    TokenFollowersWithin(g.rules, g.stacks, token, word, next, UsedRules(g.rules, g.start));
    if TokenFree(g.rules) && g.Tracks(1) {
      TokenTracks(g.rules, g.start, g.stacks, g.history, token, word, next, if word == [] then 1 else 0);
    }
    g.stacks := next;
    g.partial := partial;
    g.history := g.history + word;
    ok := g.stacks != [];
  }

  // ---------------------------------------------------------------------------------------
  // Masking and taking agree
  // ---------------------------------------------------------------------------------------

  /** What is left of a sequence that was cut off can still go on from the stack. */
  ghost predicate PartialFits(rules: Rules, t: Stack, partial: PartialUtf8)
    requires Bounded(partial)
  {
    partial.nRemain != 0 ==>
      t != [] && ValidFrame(rules, Top(t)) && IsClassStart(ElementAt(rules, Top(t)))
      && PartialAccepts(rules[Top(t).rule], Top(t).idx, partial)
  }

  lemma SettledTopIsClass(rules: Rules, s: Stack)
    requires TokenFree(rules) && ValidStack(rules, s) && Settled(rules, s) && s != []
    ensures IsClassStart(ElementAt(rules, Top(s)))
  {
  }

  /** Some way through the code points ends where the rest of the token fits. */
  ghost predicate Passes(rules: Rules, s: Stack, word: Word, partial: PartialUtf8)
    requires WellFormed(rules) && Bounded(partial)
  {
    exists t :: PassesTo(rules, s, word, partial, t)
  }

  ghost predicate PassesTo(rules: Rules, s: Stack, word: Word, partial: PartialUtf8, t: Stack)
    requires WellFormed(rules) && Bounded(partial)
  {
    FollowsWord(rules, s, word, t) && PartialFits(rules, t, partial)
  }

  /** The first code point leads to `m`, and there is a way on from there. */
  ghost predicate PassesBy(rules: Rules, s: Stack, word: Word, partial: PartialUtf8, m: Stack)
    requires WellFormed(rules) && Bounded(partial) && word != []
  {
    Follows(rules, s, word[0], m) && Passes(rules, m, word[1..], partial)
  }

  lemma PassesStep(rules: Rules, s: Stack, word: Word, partial: PartialUtf8)
    requires WellFormed(rules) && Bounded(partial) && word != []
    ensures Passes(rules, s, word, partial) <==> exists m :: PassesBy(rules, s, word, partial, m)
  {
    if Passes(rules, s, word, partial) {
      var t :| PassesTo(rules, s, word, partial, t);
      var m := FirstFollower(rules, s, word, t);
      assert PassesTo(rules, m, word[1..], partial, t);
      assert PassesBy(rules, s, word, partial, m);
    }
    if m :| PassesBy(rules, s, word, partial, m) {
      var t :| PassesTo(rules, m, word[1..], partial, t);
      FollowsFirst(rules, s, word, m, t);
      assert PassesTo(rules, s, word, partial, t);
    }
  }

  ghost predicate FollowerRejected(rules: Rules, s: Stack, c: Candidate, depth: nat, m: Stack)
    requires WellFormed(rules) && c.Valid() && depth < c.End()
  {
    Follows(rules, s, c.codePoints[depth], m) ==> Rejected(rules, m, c, depth + 1)
  }

  lemma RejectedAtEnd(rules: Rules, s: Stack, c: Candidate)
    requires WellFormed(rules) && TokenFree(rules) && c.Valid() && ValidStack(rules, s) && Settled(rules, s)
    ensures Rejected(rules, s, c, c.End()) <==> !PartialFits(rules, s, c.partial)
  {
    if s != [] {
      SettledTopIsClass(rules, s);
    }
  }

  lemma RejectedBefore(rules: Rules, s: Stack, c: Candidate, depth: nat)
    requires WellFormed(rules) && TokenFree(rules) && c.Valid() && depth < c.End()
    requires ValidStack(rules, s) && Settled(rules, s)
    ensures Rejected(rules, s, c, depth) <==> forall m :: FollowerRejected(rules, s, c, depth, m)
  {
    if s != [] {
      SettledTopIsClass(rules, s);
    }
    if Continues(rules, s, c, depth) {
      forall m
        ensures FollowerRejected(rules, s, c, depth, m) <==> RejectedVia(rules, s, c, depth, m)
      {
      }
    }
  }

  /** The filter rejects exactly when no way through the code points ends where the rest fits. */
  lemma {:induction false} RejectedMeans(rules: Rules, s: Stack, c: Candidate, depth: nat)
    requires WellFormed(rules) && TokenFree(rules) && c.Valid() && depth <= c.End()
    requires ValidStack(rules, s) && Settled(rules, s)
    ensures Rejected(rules, s, c, depth) <==> !Passes(rules, s, c.codePoints[depth..c.End()], c.partial)
    decreases c.End() - depth
  {
    var word := c.codePoints[depth..c.End()];
    if depth == c.End() {
      RejectedAtEnd(rules, s, c);
      assert FollowsWord(rules, s, word, s);
      assert PassesTo(rules, s, word, c.partial, s) <==> PartialFits(rules, s, c.partial);
    } else {
      RejectedBefore(rules, s, c, depth);
      PassesStep(rules, s, word, c.partial);
      forall m
        ensures FollowerRejected(rules, s, c, depth, m) <==> !PassesBy(rules, s, word, c.partial, m)
      {
        if Follows(rules, s, word[0], m) {
          FollowersSettled(rules, [s], word[0], m);
          assert word[1..] == c.codePoints[depth + 1..c.End()];
          RejectedMeans(rules, m, c, depth + 1);
        }
      }
    }
  }

  // A piece that is not empty gives a code point, or leaves something incomplete.

  lemma {:induction false} CharsKeep(src: seq<Byte>, before: seq<nat>, value: nat, n: int)
    requires before != []
    ensures var d := DecodeChars(src, before, value, n);
      |d.codePoints| > 1 || d.partial.nRemain != 0
    decreases |src|
  {
    if !AtEnd(src) && LengthOf(src[0]) != 0 {
      var more := LengthOf(src[0]) - 1;
      var t := Collect(src[1..], LeadValue(src[0], more), more);
      CharsKeep(t.rest, if t.n == 0 then before + [t.value] else before, t.value, t.n);
    }
  }

  lemma {:induction false} CharsDeliver(src: seq<Byte>, before: seq<nat>, value: nat, n: int)
    requires !AtEnd(src) || n != 0
    ensures var d := DecodeChars(src, before, value, n);
      |d.codePoints| > 1 || d.partial.nRemain != 0
    decreases |src|
  {
    if !AtEnd(src) && LengthOf(src[0]) != 0 {
      var more := LengthOf(src[0]) - 1;
      var t := Collect(src[1..], LeadValue(src[0], more), more);
      if t.n == 0 {
        CharsKeep(t.rest, before + [t.value], t.value, t.n);
      } else {
        CharsDeliver(t.rest, before, t.value, t.n);
      }
    }
  }

  lemma {:induction false} ResumeStops(src: seq<Byte>, value: nat, n: int)
    ensures var t := Resume(src, value, n); t.Tail? && n >= 0 ==> t.n >= 0 && (t.n > 0 ==> AtEnd(t.rest))
    ensures var t := Resume(src, value, n); t.Tail? && n <= 0 ==> t == Tail(src, value, n)
    decreases |src|
  {
    if !AtEnd(src) && n > 0 && src[0] / 64 == 2 {
      ResumeStops(src[1..], ShiftIn(value, src[0]), n - 1);
    }
  }

  lemma PieceDelivers(piece: seq<Byte>, p: PartialUtf8)
    requires !AtEnd(piece)
    ensures WordOf(piece, p) != [] || Decode(piece, p).partial.nRemain != 0
  {
    var t := Resume(piece, p.value, p.nRemain);
    ResumeStops(piece, p.value, p.nRemain);
    if t.Tail? {
      if p.nRemain > 0 && t.n == 0 {
        CharsKeep(t.rest, [t.value], t.value, t.n);
      } else {
        CharsDeliver(t.rest, [], t.value, t.n);
      }
    }
  }

  /** Taking the piece leaves a stack. */
  ghost predicate LeavesStack(rules: Rules, stacks: seq<Stack>, partial: PartialUtf8, piece: seq<Byte>, id: nat)
    requires WellFormed(rules)
  {
    exists t :: TokenFollowsOne(rules, stacks, id, WordOf(piece, partial), t)
  }

  /** Taking the piece leaves a stack that what is cut off at its end can still satisfy. */
  ghost predicate LeavesFit(rules: Rules, stacks: seq<Stack>, partial: PartialUtf8, piece: seq<Byte>, id: nat)
    requires WellFormed(rules) && Bounded(partial)
  {
    DecodeBounded(piece, partial);
    exists t :: TokenFollowsOne(rules, stacks, id, WordOf(piece, partial), t) &&
      PartialFits(rules, t, Decode(piece, partial).partial)
  }

  /** The fate of a token on one stack: its code points come first, all of them. */
  lemma StackVerdict(rules: Rules, s: Stack, c: Candidate, word: Word)
    requires WellFormed(rules) && TokenFree(rules) && ValidStack(rules, s) && Settled(rules, s) && c.Valid()
    requires c.codePoints == word + [0] && 0 !in word && (word != [] || c.partial.nRemain != 0)
    ensures Rejected(rules, s, c, 0) <==>
      !exists t :: TokenFollows(rules, s, c.id, word, t) && PartialFits(rules, t, c.partial)
  {
    assert forall i :: 0 <= i < |word| ==> c.codePoints[i] == word[i] && word[i] in word;
    assert c.codePoints[0..c.End()] == word;
    RejectedMeans(rules, s, c, 0);
    forall t
      ensures PassesTo(rules, s, word, c.partial, t) <==>
        TokenFollows(rules, s, c.id, word, t) && PartialFits(rules, t, c.partial)
    {
      PassesIsFollows(rules, s, c, word, t);
    }
  }

  lemma PassesIsFollows(rules: Rules, s: Stack, c: Candidate, word: Word, t: Stack)
    requires WellFormed(rules) && TokenFree(rules) && ValidStack(rules, s) && Settled(rules, s) && c.Valid()
    requires word != [] || c.partial.nRemain != 0
    ensures PassesTo(rules, s, word, c.partial, t) <==>
      TokenFollows(rules, s, c.id, word, t) && PartialFits(rules, t, c.partial)
  {
    if s != [] {
      SettledTopIsClass(rules, s);
    } else if word != [] && FollowsWord(rules, s, word, t) {
      var m := FirstFollower(rules, s, word, t);
    }
  }

  /**
    A token without a NUL code point passes the filter exactly if, once it is taken, a stack is left
    that what is cut off at its end can still satisfy. So what passes can be taken, and for a piece
    that ends with a whole character the converse holds.
    */
  lemma MaskedIffNotAcceptable(rules: Rules, stacks: seq<Stack>, partial: PartialUtf8, vocab: Vocab, id: nat)
    requires WellFormed(rules) && TokenFree(rules) && AllSettled(rules, stacks) && Bounded(partial)
    requires Filtered(vocab, id) && 0 !in WordOf(vocab.piece(id), partial)
    ensures Masked(rules, stacks, partial, vocab, id) <==> !LeavesFit(rules, stacks, partial, vocab.piece(id), id)
    ensures !Masked(rules, stacks, partial, vocab, id) ==> LeavesStack(rules, stacks, partial, vocab.piece(id), id)
    ensures Decode(vocab.piece(id), partial).partial.nRemain == 0 ==>
      LeavesStack(rules, stacks, partial, vocab.piece(id), id) ==> !Masked(rules, stacks, partial, vocab, id)
  {
    var piece, word := vocab.piece(id), WordOf(vocab.piece(id), partial);
    var c := CandidateOf(0, piece, partial, id);
    CandidateIsValid(0, piece, partial, id);
    DecodeEndsInZero(piece, partial);
    PieceDelivers(piece, partial);
    assert c.codePoints == word + [0];
    forall s | s in stacks
      ensures Rejected(rules, s, c, 0) <==>
        !exists t :: TokenFollows(rules, s, id, word, t) && PartialFits(rules, t, c.partial)
    {
      StackVerdict(rules, s, c, word);
    }
  }
}
