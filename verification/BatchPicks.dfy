/**
  What the split into sequence sets of equal length picks, as functions of the batch: the sets that
  take part, where they continue, how many tokens each of them gives, and which of them are kept.
  */
module BatchPicks {
  import opened BatchTokens
  import opened BatchCuts

  // ---------------------------------------------------------------------------------------
  // The sets
  // ---------------------------------------------------------------------------------------

  predicate Meets(sets: seq<SeqSet>, c: SeqSet) {
    exists s :: 0 <= s < |sets| && sets[s] * c != {}
  }

  function FirstId(t: BatchToken): int {
    if t.seqIds == [] then -1 else t.seqIds[0]
  }

  function SetsAt(seqSet: seq<SeqSet>, idxs: seq<nat>): (sets: seq<SeqSet>)
    requires Below(idxs, |seqSet|)
    ensures |sets| == |idxs| && forall s :: 0 <= s < |sets| ==> sets[s] == seqSet[idxs[s]]
  {
    seq(|idxs|, s requires 0 <= s < |idxs| => seqSet[idxs[s]])
  }

  /** Token `i` brings a set that overlaps none of those picked; in a sequential split its id comes next. */
  predicate Joins(batch: seq<BatchToken>, seqSet: seq<SeqSet>, used: seq<bool>, sequential: bool, picks: seq<nat>,
                  i: nat)
    requires |batch| == |seqSet| == |used| && Below(picks, |batch|) && i < |batch|
  {
    && !used[i] && !Meets(SetsAt(seqSet, picks), seqSet[i])
    && (sequential && picks != [] ==> FirstId(batch[i]) == FirstId(batch[picks[|picks| - 1]]) + 1)
  }

  /** The tokens among the first `n` whose sets take part. No more are picked once there are too many. */
  ghost function Picks(batch: seq<BatchToken>, seqSet: seq<SeqSet>, used: seq<bool>, nUbatch: nat, sequential: bool,
                       n: nat): (picks: seq<nat>)
    requires |batch| == |seqSet| == |used| && n <= |batch|
    ensures Below(picks, n) && |picks| <= nUbatch + 1
  {
    if n == 0 then []
    else
      var picks := Picks(batch, seqSet, used, nUbatch, sequential, n - 1);
      if |picks| <= nUbatch && Joins(batch, seqSet, used, sequential, picks, n - 1) then picks + [n - 1] else picks
  }

  lemma PicksNext(batch: seq<BatchToken>, seqSet: seq<SeqSet>, used: seq<bool>, nUbatch: nat, sequential: bool, i: nat)
    requires |batch| == |seqSet| == |used| && i < |batch|
    ensures var picks := Picks(batch, seqSet, used, nUbatch, sequential, i);
      && (|picks| <= nUbatch && Joins(batch, seqSet, used, sequential, picks, i) ==>
          && Picks(batch, seqSet, used, nUbatch, sequential, i + 1) == picks + [i]
          && SetsAt(seqSet, picks + [i]) == SetsAt(seqSet, picks) + [seqSet[i]])
      && (|picks| > nUbatch || !Joins(batch, seqSet, used, sequential, picks, i) ==>
          Picks(batch, seqSet, used, nUbatch, sequential, i + 1) == picks)
  {
  }

  lemma {:induction false} PicksStop(batch: seq<BatchToken>, seqSet: seq<SeqSet>, used: seq<bool>, nUbatch: nat,
                                     sequential: bool, i: nat, n: nat)
    requires |batch| == |seqSet| == |used| && i <= n <= |batch|
    requires |Picks(batch, seqSet, used, nUbatch, sequential, i)| > nUbatch
    ensures Picks(batch, seqSet, used, nUbatch, sequential, n) == Picks(batch, seqSet, used, nUbatch, sequential, i)
    decreases n - i
  {
    if i < n {
      PicksStop(batch, seqSet, used, nUbatch, sequential, i, n - 1);
    }
  }

  // ---------------------------------------------------------------------------------------
  // The picked tokens, by what they are
  // ---------------------------------------------------------------------------------------

  /**
    Behind the first `k` of the tokens, token `i` can be taken: it is unused and shares no sequence with them,
    and in a sequential split it goes on with the sequence behind that of the last one.
    */
  ghost predicate GoesOn(batch: seq<BatchToken>, seqSet: seq<SeqSet>, used: seq<bool>, sequential: bool,
                         firsts: seq<nat>, k: nat, i: nat) {
    && |batch| == |seqSet| == |used| && Below(firsts, |batch|) && 0 < k <= |firsts| && i < |batch|
    && !used[i] && (forall t :: 0 <= t < k ==> seqSet[firsts[t]] * seqSet[i] == {})
    && (sequential ==>
        && batch[i].seqIds != [] && batch[firsts[k - 1]].seqIds != []
        && batch[i].seqIds[0] == batch[firsts[k - 1]].seqIds[0] + 1)
  }

  /** The tokens before `n`, from the `k`-th taken one on, were passed over because none of them goes on. */
  ghost predicate NonePassed(batch: seq<BatchToken>, seqSet: seq<SeqSet>, used: seq<bool>, sequential: bool,
                             firsts: seq<nat>, k: nat, n: nat)
    requires 0 < k <= |firsts|
  {
    forall i :: firsts[k - 1] < i < n ==> !GoesOn(batch, seqSet, used, sequential, firsts, k, i)
  }

  /** From one taken token to the next, the next one is the first that goes on. */
  ghost predicate TakenInTurn(batch: seq<BatchToken>, seqSet: seq<SeqSet>, used: seq<bool>, sequential: bool,
                              firsts: seq<nat>) {
    && (firsts != [] ==> firsts[0] < |used| && !used[firsts[0]] && forall i :: 0 <= i < firsts[0] ==> used[i])
    && forall k: nat :: 0 < k < |firsts| ==> NextTaken(batch, seqSet, used, sequential, firsts, k)
  }

  ghost predicate NextTaken(batch: seq<BatchToken>, seqSet: seq<SeqSet>, used: seq<bool>, sequential: bool,
                            firsts: seq<nat>, k: nat)
    requires 0 < k < |firsts|
  {
    && firsts[k - 1] < firsts[k] && GoesOn(batch, seqSet, used, sequential, firsts, k, firsts[k])
    && NonePassed(batch, seqSet, used, sequential, firsts, k, firsts[k])
  }

  /** Among the first `n` tokens nothing is left to take. */
  ghost predicate NothingGoesOn(batch: seq<BatchToken>, seqSet: seq<SeqSet>, used: seq<bool>, sequential: bool,
                                firsts: seq<nat>, n: nat) {
    if firsts == [] then n <= |used| && forall i :: 0 <= i < n ==> used[i]
    else NonePassed(batch, seqSet, used, sequential, firsts, |firsts|, n)
  }

  /** What goes on depends only on the tokens taken before. */
  lemma GoesOnFront(batch: seq<BatchToken>, seqSet: seq<SeqSet>, used: seq<bool>, sequential: bool,
                    firsts: seq<nat>, more: seq<nat>, k: nat, i: nat)
    requires 0 < k <= |firsts| && firsts <= more && Below(more, |batch|)
    ensures GoesOn(batch, seqSet, used, sequential, firsts, k, i) <==>
      GoesOn(batch, seqSet, used, sequential, more, k, i)
  {
  }

  lemma TakenInTurnMore(batch: seq<BatchToken>, seqSet: seq<SeqSet>, used: seq<bool>, sequential: bool,
                        firsts: seq<nat>, i: nat)
    requires |batch| == |seqSet| == |used| && i < |batch| && Below(firsts, i)
    requires TakenInTurn(batch, seqSet, used, sequential, firsts)
    requires NothingGoesOn(batch, seqSet, used, sequential, firsts, i)
    requires if firsts == [] then !used[i] else GoesOn(batch, seqSet, used, sequential, firsts, |firsts|, i)
    ensures TakenInTurn(batch, seqSet, used, sequential, firsts + [i])
    ensures NothingGoesOn(batch, seqSet, used, sequential, firsts + [i], i + 1)
  {
    var more := firsts + [i];
    forall k: nat | 0 < k < |more|
      ensures NextTaken(batch, seqSet, used, sequential, more, k)
    {
      forall j: nat
        ensures GoesOn(batch, seqSet, used, sequential, firsts, k, j) <==>
          GoesOn(batch, seqSet, used, sequential, more, k, j)
      {
        GoesOnFront(batch, seqSet, used, sequential, firsts, more, k, j);
      }
      assert k < |firsts| ==> NextTaken(batch, seqSet, used, sequential, firsts, k);
    }
  }

  lemma JoinsGoesOn(batch: seq<BatchToken>, seqSet: seq<SeqSet>, used: seq<bool>, sequential: bool,
                    firsts: seq<nat>, i: nat)
    requires |batch| == |seqSet| == |used| && Below(firsts, |batch|) && i < |batch|
    requires forall j :: 0 <= j < |batch| ==> batch[j].seqIds != []
    ensures Joins(batch, seqSet, used, sequential, firsts, i) <==>
      if firsts == [] then !used[i] else GoesOn(batch, seqSet, used, sequential, firsts, |firsts|, i)
  {
    var sets := SetsAt(seqSet, firsts);
    assert forall t :: 0 <= t < |firsts| ==> sets[t] == seqSet[firsts[t]];
  }

  /** The picked tokens are taken in turn, until nothing goes on or there are too many. */
  lemma {:induction false} PicksInTurn(batch: seq<BatchToken>, seqSet: seq<SeqSet>, used: seq<bool>, nUbatch: nat,
                                       sequential: bool, n: nat)
    requires |batch| == |seqSet| == |used| && n <= |batch|
    requires forall j :: 0 <= j < |batch| ==> batch[j].seqIds != []
    ensures var picks := Picks(batch, seqSet, used, nUbatch, sequential, n);
      && TakenInTurn(batch, seqSet, used, sequential, picks)
      && (|picks| <= nUbatch ==> NothingGoesOn(batch, seqSet, used, sequential, picks, n))
    decreases n
  {
    if n > 0 {
      var before := Picks(batch, seqSet, used, nUbatch, sequential, n - 1);
      PicksInTurn(batch, seqSet, used, nUbatch, sequential, n - 1);
      JoinsGoesOn(batch, seqSet, used, sequential, before, n - 1);
      if |before| <= nUbatch && Joins(batch, seqSet, used, sequential, before, n - 1) {
        TakenInTurnMore(batch, seqSet, used, sequential, before, n - 1);
      }
    }
  }

  /** Two lists taken in turn agree as far as both go. */
  lemma {:induction false} InTurnAgree(batch: seq<BatchToken>, seqSet: seq<SeqSet>, used: seq<bool>, sequential: bool,
                                       a: seq<nat>, b: seq<nat>, k: nat)
    requires TakenInTurn(batch, seqSet, used, sequential, a) && TakenInTurn(batch, seqSet, used, sequential, b)
    requires Below(a, |batch|) && Below(b, |batch|) && k <= |a| && k <= |b|
    ensures a[..k] == b[..k]
    decreases k
  {
    if k > 0 {
      InTurnAgree(batch, seqSet, used, sequential, a, b, k - 1);
      var i, j := a[k - 1], b[k - 1];
      if k > 1 {
        assert NextTaken(batch, seqSet, used, sequential, a, k - 1);
        assert NextTaken(batch, seqSet, used, sequential, b, k - 1);
        SameGoesOn(batch, seqSet, used, sequential, a, b, k - 1, i);
        SameGoesOn(batch, seqSet, used, sequential, a, b, k - 1, j);
      }
      assert a[..k] == a[..k - 1] + [i] && b[..k] == b[..k - 1] + [j];
    }
  }

  lemma SameGoesOn(batch: seq<BatchToken>, seqSet: seq<SeqSet>, used: seq<bool>, sequential: bool,
                   a: seq<nat>, b: seq<nat>, k: nat, i: nat)
    requires 0 < k <= |a| && k <= |b| && a[..k] == b[..k] && Below(a, |batch|) && Below(b, |batch|)
    ensures a[k - 1] == b[k - 1]
    ensures GoesOn(batch, seqSet, used, sequential, a, k, i) <==> GoesOn(batch, seqSet, used, sequential, b, k, i)
  {
    GoesOnFront(batch, seqSet, used, sequential, a[..k], a, k, i);
    GoesOnFront(batch, seqSet, used, sequential, b[..k], b, k, i);
    assert a[k - 1] == a[..k][k - 1] && b[k - 1] == b[..k][k - 1];
  }

  /** The list goes as far as it can: to where nothing goes on, or until there is one too many. */
  ghost predicate AllTaken(batch: seq<BatchToken>, seqSet: seq<SeqSet>, used: seq<bool>, nUbatch: nat,
                           sequential: bool, firsts: seq<nat>) {
    && Below(firsts, |batch|) && TakenInTurn(batch, seqSet, used, sequential, firsts)
    && (|firsts| == nUbatch + 1
        || (|firsts| <= nUbatch && NothingGoesOn(batch, seqSet, used, sequential, firsts, |batch|)))
  }

  lemma NotLongerInTurn(batch: seq<BatchToken>, seqSet: seq<SeqSet>, used: seq<bool>, nUbatch: nat, sequential: bool,
                        a: seq<nat>, b: seq<nat>)
    requires AllTaken(batch, seqSet, used, nUbatch, sequential, a)
    requires AllTaken(batch, seqSet, used, nUbatch, sequential, b)
    ensures |b| <= |a|
  {
    if |a| < |b| {
      InTurnAgree(batch, seqSet, used, sequential, a, b, |a|);
      assert a[..|a|] == a;
      if a != [] {
        var i := b[|a|];
        assert NextTaken(batch, seqSet, used, sequential, b, |a|);
        SameGoesOn(batch, seqSet, used, sequential, a, b, |a|, i);
        assert false;
      }
    }
  }

  /**
    The picked tokens are exactly these: the first unused one, then always the first behind it that is unused,
    shares no sequence with those before, and in a sequential split goes on with the next sequence; until
    there is none, or one more than there is room for.
    */
  lemma PickedIff(batch: seq<BatchToken>, seqSet: seq<SeqSet>, used: seq<bool>, nUbatch: nat, sequential: bool,
                  firsts: seq<nat>)
    requires |batch| == |seqSet| == |used| && forall j :: 0 <= j < |batch| ==> batch[j].seqIds != []
    ensures firsts == Picks(batch, seqSet, used, nUbatch, sequential, |batch|) <==>
      AllTaken(batch, seqSet, used, nUbatch, sequential, firsts)
  {
    var picks := Picks(batch, seqSet, used, nUbatch, sequential, |batch|);
    PicksInTurn(batch, seqSet, used, nUbatch, sequential, |batch|);
    if AllTaken(batch, seqSet, used, nUbatch, sequential, firsts) {
      NotLongerInTurn(batch, seqSet, used, nUbatch, sequential, firsts, picks);
      NotLongerInTurn(batch, seqSet, used, nUbatch, sequential, picks, firsts);
      InTurnAgree(batch, seqSet, used, sequential, firsts, picks, |picks|);
      assert firsts[..|picks|] == firsts && picks[..|picks|] == picks;
    }
  }

  // ---------------------------------------------------------------------------------------
  // Where they continue, and how far they go
  // ---------------------------------------------------------------------------------------

  /** The number of used tokens at the front of the list. */
  ghost function StartOf(used: seq<bool>, list: seq<nat>): (k: nat)
    ensures k <= |list|
  {
    if list == [] || list[0] >= |used| || !used[list[0]] then 0 else 1 + StartOf(used, list[1..])
  }

  lemma {:induction false} CutIsStart(used: seq<bool>, list: seq<nat>, k: nat)
    requires CutAt(used, list, k)
    ensures StartOf(used, list) == k
    decreases |list|
  {
    if list != [] && used[list[0]] {
      assert CutAt(used, list[1..], k - 1);
      CutIsStart(used, list[1..], k - 1);
    }
  }

  ghost function Starts(used: seq<bool>, lists: seq<seq<nat>>): (from: seq<nat>)
    ensures |from| == |lists| && forall s :: 0 <= s < |lists| ==> from[s] == StartOf(used, lists[s])
  {
    seq(|lists|, s requires 0 <= s < |lists| => StartOf(used, lists[s]))
  }

  lemma CutsAreStarts(used: seq<bool>, lists: seq<seq<nat>>, cur: seq<nat>)
    requires Cuts(used, lists, cur)
    ensures cur == Starts(used, lists)
  {
    forall s | 0 <= s < |lists|
      ensures cur[s] == Starts(used, lists)[s]
    {
      CutIsStart(used, lists[s], cur[s]);
    }
  }

  /**
    `len` is the number of tokens that each list gives: as many as all have, and as there is room for, but one
    at least.
    */
  ghost predicate IsEqualLen(lists: seq<seq<nat>>, from: seq<nat>, nUbatch: nat, len: nat)
    requires |from| == |lists|
  {
    && len >= 1 && (len == 1 || len * |lists| <= nUbatch)
    && (forall s :: 0 <= s < |lists| ==> from[s] + len <= |lists[s]|)
    && ((exists s :: 0 <= s < |lists| && from[s] + len == |lists[s]|) || (len + 1) * |lists| > nUbatch)
  }

  lemma EqualLenUnique(lists: seq<seq<nat>>, from: seq<nat>, nUbatch: nat, a: nat, b: nat)
    requires |from| == |lists| && IsEqualLen(lists, from, nUbatch, a) && IsEqualLen(lists, from, nUbatch, b)
    ensures a == b
  {
    NotLonger(lists, from, nUbatch, a, b);
    NotLonger(lists, from, nUbatch, b, a);
  }

  lemma NotLonger(lists: seq<seq<nat>>, from: seq<nat>, nUbatch: nat, a: nat, b: nat)
    requires |from| == |lists| && IsEqualLen(lists, from, nUbatch, a) && IsEqualLen(lists, from, nUbatch, b)
    ensures b <= a
  {
    if b > a {
      TimesRises(a + 1, b, |lists|);
    }
  }

  lemma TimesRises(a: nat, b: nat, n: nat)
    requires a <= b
    ensures a * n <= b * n
  {
  }

  /** The place that every list reaches. */
  ghost function MovedOn(from: seq<nat>, len: nat): (cur: seq<nat>)
    ensures |cur| == |from| && forall s :: 0 <= s < |from| ==> cur[s] == from[s] + len
  {
    seq(|from|, s requires 0 <= s < |from| => from[s] + len)
  }

  // ---------------------------------------------------------------------------------------
  // Which are kept
  // ---------------------------------------------------------------------------------------

  /** The list is left with some tokens, but fewer than a tail. */
  predicate Cramped(list: seq<nat>, cur: nat, nKeepTail: nat) {
    0 < |list| - cur < nKeepTail
  }

  /** The length of the longest front of lists that are not cramped. */
  ghost function LongestFront(lists: seq<seq<nat>>, cur: seq<nat>, nKeepTail: nat): (k: nat)
    requires |cur| == |lists|
    ensures k <= |lists| && forall s :: 0 <= s < k ==> !Cramped(lists[s], cur[s], nKeepTail)
    ensures k < |lists| ==> Cramped(lists[k], cur[k], nKeepTail)
  {
    if lists == [] || Cramped(lists[0], cur[0], nKeepTail) then 0 else 1 + LongestFront(lists[1..], cur[1..], nKeepTail)
  }

  /** How many sets stay: all without tails to keep, otherwise the longest front, but one at least. */
  ghost function KeptCount(lists: seq<seq<nat>>, cur: seq<nat>, nKeepTail: nat): nat
    requires |cur| == |lists|
  {
    var k := LongestFront(lists, cur, nKeepTail);
    if nKeepTail == 0 then |lists| else if k == 0 then 1 else k
  }

  /** Where the sets that stay end: a first set that is cramped is finished, if there is room, or keeps its tail. */
  ghost function Ends(lists: seq<seq<nat>>, from: seq<nat>, cur: seq<nat>, nUbatch: nat, nKeepTail: nat): seq<int>
    requires |from| == |cur| == |lists| > 0
  {
    var k := LongestFront(lists, cur, nKeepTail);
    if nKeepTail == 0 then cur
    else if k > 0 then cur[..k]
    else [if |lists[0]| - from[0] <= nUbatch then |lists[0]| else |lists[0]| - nKeepTail]
  }
}
