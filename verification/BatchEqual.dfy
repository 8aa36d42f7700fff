/**
  The steps of the split into sequence sets of equal length: which sets take part, where each of
  them continues, how many tokens of each are taken, and which are given back for their tails.
  */
module BatchEqual {
  import opened BatchTokens
  import opened Collections
  import opened BatchCuts
  import opened BatchPicks

  // ---------------------------------------------------------------------------------------
  // Which sequence sets take part
  // ---------------------------------------------------------------------------------------

  ghost predicate Disjoint(sets: seq<SeqSet>) {
    forall s, t :: 0 <= s < t < |sets| ==> sets[s] * sets[t] == {}
  }

  /** Each set is that of an unused token. */
  ghost predicate Chosen(seqSet: seq<SeqSet>, used: seq<bool>, sets: seq<SeqSet>, firsts: seq<nat>)
    requires |used| == |seqSet|
  {
    && |firsts| == |sets| && Disjoint(sets)
    && forall s :: 0 <= s < |sets| ==> firsts[s] < |used| && !used[firsts[s]] && seqSet[firsts[s]] == sets[s]
  }

  /** The first sequence ids of the chosen tokens are consecutive. */
  ghost predicate Consecutive(batch: seq<BatchToken>, firsts: seq<nat>) {
    && (forall s :: 0 <= s < |firsts| ==> firsts[s] < |batch| && batch[firsts[s]].seqIds != [])
    && forall s :: 0 <= s < |firsts| ==> batch[firsts[s]].seqIds[0] == batch[firsts[0]].seqIds[0] + s
  }

  /** Every unused token before `n` meets one of the sets. */
  ghost predicate Maximal(seqSet: seq<SeqSet>, used: seq<bool>, sets: seq<SeqSet>, n: nat)
    requires |used| == |seqSet|
  {
    forall i :: 0 <= i < n && i < |seqSet| && !used[i] ==> Meets(sets, seqSet[i])
  }

  lemma ChosenMore(seqSet: seq<SeqSet>, used: seq<bool>, sets: seq<SeqSet>, firsts: seq<nat>, i: nat)
    requires |used| == |seqSet| && Chosen(seqSet, used, sets, firsts)
    requires i < |used| && !used[i] && !Meets(sets, seqSet[i])
    ensures Chosen(seqSet, used, sets + [seqSet[i]], firsts + [i])
  {
  }

  lemma ConsecutiveMore(batch: seq<BatchToken>, firsts: seq<nat>, i: nat)
    requires Consecutive(batch, firsts) && i < |batch| && batch[i].seqIds != []
    requires firsts != [] ==> batch[i].seqIds[0] == batch[firsts[|firsts| - 1]].seqIds[0] + 1
    ensures Consecutive(batch, firsts + [i])
  {
  }

  ghost predicate UsedBelow(used: seq<bool>, n: nat) {
    n <= |used| && forall i :: 0 <= i < n ==> used[i]
  }

  lemma MaximalMore(seqSet: seq<SeqSet>, used: seq<bool>, sets: seq<SeqSet>, i: nat)
    requires |used| == |seqSet| && Maximal(seqSet, used, sets, i) && i < |seqSet| && seqSet[i] != {}
    ensures Maximal(seqSet, used, sets + [seqSet[i]], i + 1)
    ensures used[i] || Meets(sets, seqSet[i]) ==> Maximal(seqSet, used, sets, i + 1)
  {
    var more := sets + [seqSet[i]];
    assert more[|sets|] * seqSet[i] != {};
    forall j | 0 <= j < i && !used[j]
      ensures Meets(more, seqSet[j])
    {
      assert Meets(sets, seqSet[j]);
      var s :| 0 <= s < |sets| && sets[s] * seqSet[j] != {};
      assert more[s] * seqSet[j] != {};
    }
  }

  /** Does the set overlap one of the sets? */
  method CheckMeets(sets: seq<SeqSet>, c: SeqSet) returns (meets: bool)
    ensures meets <==> Meets(sets, c)
  {
    for s := 0 to |sets|
      invariant forall t :: 0 <= t < s ==> sets[t] * c == {}
    {
      if sets[s] * c != {} {
        return true;
      }
    }
    return false;
  }

  /** Does the set of token `i` take part? */
  method CheckJoins(batch: seq<BatchToken>, seqSet: seq<SeqSet>, used: seq<bool>, sequential: bool, sets: seq<SeqSet>,
                    lastSeqId: int, ghost picks: seq<nat>, i: nat) returns (add: bool)
    requires |batch| == |seqSet| == |used| && i < |batch| && batch[i].seqIds != []
    requires Below(picks, |batch|) && sets == SetsAt(seqSet, picks)
    requires picks != [] ==> lastSeqId == FirstId(batch[picks[|picks| - 1]])
    ensures add <==> Joins(batch, seqSet, used, sequential, picks, i)
  {
    if used[i] {
      return false;
    }
    var meets := CheckMeets(sets, seqSet[i]);
    add := !meets;
    if sequential {
      add := add && (sets == [] || batch[i].seqIds[0] == lastSeqId + 1);
    }
  }

  /** The sets picked among the first `i` tokens, and the id that came last. */
  ghost predicate Picked(batch: seq<BatchToken>, seqSet: seq<SeqSet>, used: seq<bool>, nUbatch: nat, sequential: bool,
                         i: nat, sets: seq<SeqSet>, picks: seq<nat>, lastSeqId: int)
    requires |batch| == |seqSet| == |used| && i <= |batch|
  {
    && picks == Picks(batch, seqSet, used, nUbatch, sequential, i) && sets == SetsAt(seqSet, picks)
    && (picks != [] ==> lastSeqId == FirstId(batch[picks[|picks| - 1]]))
  }

  /** Looks at token `i`. */
  method CollectOne(batch: seq<BatchToken>, seqSet: seq<SeqSet>, used: seq<bool>, nUbatch: nat, sequential: bool,
                    i: nat, sets: seq<SeqSet>, ghost picks: seq<nat>, lastSeqId: int)
    returns (sets': seq<SeqSet>, ghost picks': seq<nat>, last: int)
    requires |batch| == |seqSet| == |used| && i < |batch| && batch[i].seqIds != []
    requires Picked(batch, seqSet, used, nUbatch, sequential, i, sets, picks, lastSeqId) && |picks| <= nUbatch
    ensures Picked(batch, seqSet, used, nUbatch, sequential, i + 1, sets', picks', last)
  {
    sets', picks', last := sets, picks, lastSeqId;
    var add := CheckJoins(batch, seqSet, used, sequential, sets, lastSeqId, picks, i);
    PicksNext(batch, seqSet, used, nUbatch, sequential, i);
    if add {
      sets' := sets + [seqSet[i]];
      picks' := picks + [i];
      last := batch[i].seqIds[0];
    }
  }

  /** Collects sequence sets that do not overlap. Only with more than `nUbatch` of them the search stops. */
  method CollectSets(batch: seq<BatchToken>, seqSet: seq<SeqSet>, ghost nSeqMax: nat, used: seq<bool>, nUbatch: nat,
                     sequential: bool) returns (sets: seq<SeqSet>, ghost firsts: seq<nat>)
    requires |batch| == |seqSet| == |used| && forall i: nat :: TokenOk(batch, seqSet, nSeqMax, i)
    ensures sets == SetsAt(seqSet, Picks(batch, seqSet, used, nUbatch, sequential, |batch|))
    ensures firsts == Picks(batch, seqSet, used, nUbatch, sequential, |batch|)
    ensures AllTaken(batch, seqSet, used, nUbatch, sequential, firsts)
  {
    NonEmptySets(batch, seqSet, nSeqMax);
    PickedIff(batch, seqSet, used, nUbatch, sequential, Picks(batch, seqSet, used, nUbatch, sequential, |batch|));
    sets, firsts := [], [];
    var lastSeqId: int := -1;
    for i := 0 to |batch|
      invariant Picked(batch, seqSet, used, nUbatch, sequential, i, sets, firsts, lastSeqId) && |firsts| <= nUbatch
    {
      assert TokenOk(batch, seqSet, nSeqMax, i);
      sets, firsts, lastSeqId := CollectOne(batch, seqSet, used, nUbatch, sequential, i, sets, firsts, lastSeqId);
      if |sets| > nUbatch {
        PicksStop(batch, seqSet, used, nUbatch, sequential, i + 1, |batch|);
        break;
      }
    }
  }

  /** The picked sets are disjoint and those of unused tokens. */
  lemma {:induction false} PicksAreChosen(batch: seq<BatchToken>, seqSet: seq<SeqSet>, used: seq<bool>, nUbatch: nat,
                                          sequential: bool, n: nat)
    requires |batch| == |seqSet| == |used| && n <= |batch|
    ensures var picks := Picks(batch, seqSet, used, nUbatch, sequential, n);
      Chosen(seqSet, used, SetsAt(seqSet, picks), picks)
    decreases n
  {
    if n > 0 {
      PicksAreChosen(batch, seqSet, used, nUbatch, sequential, n - 1);
      PicksNext(batch, seqSet, used, nUbatch, sequential, n - 1);
      var picks := Picks(batch, seqSet, used, nUbatch, sequential, n - 1);
      if Joins(batch, seqSet, used, sequential, picks, n - 1) {
        ChosenMore(seqSet, used, SetsAt(seqSet, picks), picks, n - 1);
      }
    }
  }

  /** The first picked token is the first unused one. */
  lemma {:induction false} PicksStart(batch: seq<BatchToken>, seqSet: seq<SeqSet>, used: seq<bool>, nUbatch: nat,
                                      sequential: bool, n: nat)
    requires |batch| == |seqSet| == |used| && n <= |batch|
    ensures var picks := Picks(batch, seqSet, used, nUbatch, sequential, n);
      UsedBelow(used, if picks == [] then n else picks[0])
    decreases n
  {
    if n > 0 {
      PicksStart(batch, seqSet, used, nUbatch, sequential, n - 1);
      PicksNext(batch, seqSet, used, nUbatch, sequential, n - 1);
    }
  }

  /** In a sequential split the picked ids follow each other. */
  lemma {:induction false} PicksConsecutive(batch: seq<BatchToken>, seqSet: seq<SeqSet>, used: seq<bool>, nUbatch: nat,
                                            n: nat)
    requires |batch| == |seqSet| == |used| && n <= |batch| && forall i :: 0 <= i < n ==> batch[i].seqIds != []
    ensures Consecutive(batch, Picks(batch, seqSet, used, nUbatch, true, n))
    decreases n
  {
    if n > 0 {
      PicksConsecutive(batch, seqSet, used, nUbatch, n - 1);
      var picks := Picks(batch, seqSet, used, nUbatch, true, n - 1);
      if |picks| <= nUbatch && Joins(batch, seqSet, used, true, picks, n - 1) {
        ConsecutiveMore(batch, picks, n - 1);
      }
    }
  }

  /** Unless there were too many, every unused token meets one of the picked sets. */
  lemma {:induction false} PicksAreMaximal(batch: seq<BatchToken>, seqSet: seq<SeqSet>, used: seq<bool>, nUbatch: nat,
                                           n: nat)
    requires |batch| == |seqSet| == |used| && n <= |batch| && forall i :: 0 <= i < n ==> seqSet[i] != {}
    requires |Picks(batch, seqSet, used, nUbatch, false, n)| <= nUbatch
    ensures Maximal(seqSet, used, SetsAt(seqSet, Picks(batch, seqSet, used, nUbatch, false, n)), n)
    decreases n
  {
    if n > 0 {
      PicksNext(batch, seqSet, used, nUbatch, false, n - 1);
      PicksAreMaximal(batch, seqSet, used, nUbatch, n - 1);
      MaximalMore(seqSet, used, SetsAt(seqSet, Picks(batch, seqSet, used, nUbatch, false, n - 1)), n - 1);
    }
  }

  // ---------------------------------------------------------------------------------------
  // Where the sets continue
  // ---------------------------------------------------------------------------------------

  /** The lists of the chosen sets. */
  ghost predicate ListsOf(seqSet: seq<SeqSet>, sets: seq<SeqSet>, lists: seq<seq<nat>>) {
    |lists| == |sets| && forall s :: 0 <= s < |sets| ==> IsListOf(seqSet, sets[s], lists[s])
  }

  /** Every list has an unused token left. */
  ghost predicate Unfinished(lists: seq<seq<nat>>, cur: seq<nat>) {
    |cur| == |lists| && forall s :: 0 <= s < |lists| ==> cur[s] < |lists[s]|
  }

  method FindStart(seqSet: seq<SeqSet>, used: seq<bool>, set_: SeqSet, list: seq<nat>, ghost first: nat)
    returns (k: nat)
    requires UsedInOrder(seqSet, used) && IsListOf(seqSet, set_, list)
    requires first < |used| && !used[first] && seqSet[first] == set_
    ensures k < |list| && CutAt(used, list, k)
  {
    assert Listed(seqSet, set_, list, first);
    ghost var j: nat :| j < |list| && list[j] == first;
    k := 0;
    while used[list[k]]
      invariant k <= j && forall i :: 0 <= i < k ==> used[list[i]]
      decreases j - k
    {
      k := k + 1;
    }
    OrderGivesCut(seqSet, used, set_, list, k);
  }

  method FindStarts(seqSet: seq<SeqSet>, used: seq<bool>, sets: seq<SeqSet>, lists: seq<seq<nat>>,
                    ghost firsts: seq<nat>) returns (curIdx: seq<nat>)
    requires UsedInOrder(seqSet, used) && Chosen(seqSet, used, sets, firsts) && ListsOf(seqSet, sets, lists)
    ensures Unfinished(lists, curIdx) && Cuts(used, lists, curIdx) && curIdx == Starts(used, lists)
  {
    curIdx := [];
    for s := 0 to |sets|
      invariant |curIdx| == s && forall t :: 0 <= t < s ==> curIdx[t] < |lists[t]| && CutAt(used, lists[t], curIdx[t])
    {
      var k := FindStart(seqSet, used, sets[s], lists[s], firsts[s]);
      curIdx := curIdx + [k];
    }
    CutsAreStarts(used, lists, curIdx);
  }

  // ---------------------------------------------------------------------------------------
  // How many tokens are taken
  // ---------------------------------------------------------------------------------------

  /** What has been taken of every list. */
  ghost predicate Collected(lists: seq<seq<nat>>, from: seq<nat>, cur: seq<nat>, idxs: seq<seq<nat>>) {
    && |from| == |cur| == |idxs| == |lists|
    && forall s :: 0 <= s < |lists| ==> from[s] <= cur[s] <= |lists[s]| && idxs[s] == lists[s][from[s]..cur[s]]
  }

  /** The tokens used beyond `base` are those taken. */
  ghost predicate Taking(base: seq<bool>, used: seq<bool>, n: nat, lists: seq<seq<nat>>, cur: seq<nat>) {
    Cuts(used, lists, cur) && SameElsewhere(base, used, lists) && n == CountTrue(used) && Separate(lists)
  }

  /** Every list has been moved on by `len`. */
  ghost predicate Even(from: seq<nat>, cur: seq<nat>, len: nat) {
    |from| == |cur| && forall s :: 0 <= s < |from| ==> cur[s] == from[s] + len
  }

  lemma CollectedMore(lists: seq<seq<nat>>, from: seq<nat>, cur: seq<nat>, idxs: seq<seq<nat>>, s: nat)
    requires Collected(lists, from, cur, idxs) && s < |lists| && cur[s] < |lists[s]|
    ensures Collected(lists, from, cur[s := cur[s] + 1], idxs[s := idxs[s] + [lists[s][cur[s]]]])
  {
    assert lists[s][from[s]..cur[s] + 1] == lists[s][from[s]..cur[s]] + [lists[s][cur[s]]];
  }

  /** The next token of one list. */
  method TakeNext(lists: seq<seq<nat>>, ghost base: seq<bool>, used: seq<bool>, nUsed: nat, ghost from: seq<nat>,
                  cur: seq<nat>, idxsPerSeq: seq<seq<nat>>, s: nat)
    returns (marked: seq<bool>, n: nat, next: seq<nat>, idxs: seq<seq<nat>>)
    requires Taking(base, used, nUsed, lists, cur) && Collected(lists, from, cur, idxsPerSeq)
    requires s < |lists| && cur[s] < |lists[s]|
    ensures Taking(base, marked, n, lists, next) && Collected(lists, from, next, idxs) && next == cur[s := cur[s] + 1]
  {
    Mark(base, used, lists, cur, s);
    CollectedMore(lists, from, cur, idxsPerSeq, s);
    var idx := lists[s][cur[s]];
    idxs := idxsPerSeq[s := idxsPerSeq[s] + [idx]];
    marked := used[idx := true];
    n := nUsed + 1;
    next := cur[s := cur[s] + 1];
  }

  /** The next token of every list. */
  method TakeColumn(lists: seq<seq<nat>>, ghost base: seq<bool>, used: seq<bool>, nUsed: nat, ghost from: seq<nat>,
                    cur: seq<nat>, idxsPerSeq: seq<seq<nat>>)
    returns (marked: seq<bool>, n: nat, next: seq<nat>, idxs: seq<seq<nat>>)
    requires Taking(base, used, nUsed, lists, cur) && Unfinished(lists, cur) && Collected(lists, from, cur, idxsPerSeq)
    ensures Taking(base, marked, n, lists, next) && Collected(lists, from, next, idxs) && Even(cur, next, 1)
  {
    marked, n, next, idxs := used, nUsed, cur, idxsPerSeq;
    for s := 0 to |lists|
      invariant Taking(base, marked, n, lists, next) && Collected(lists, from, next, idxs)
      invariant |next| == |cur| && forall t :: 0 <= t < |cur| ==> next[t] == if t < s then cur[t] + 1 else cur[t]
    {
      marked, n, next, idxs := TakeNext(lists, base, marked, n, from, next, idxs, s);
    }
  }

  method CanExpand(lists: seq<seq<nat>>, cur: seq<nat>) returns (can: bool)
    requires |cur| == |lists|
    ensures can <==> Unfinished(lists, cur)
  {
    for s := 0 to |lists|
      invariant forall t :: 0 <= t < s ==> cur[t] < |lists[t]|
    {
      if cur[s] >= |lists[s]| {
        return false;
      }
    }
    return true;
  }

  /** Takes tokens from all lists as long as all have some and the micro-batch has room. */
  method Expand(lists: seq<seq<nat>>, used: seq<bool>, nUsed: nat, from: seq<nat>, nUbatch: nat)
    returns (marked: seq<bool>, n: nat, cur: seq<nat>, idxsPerSeq: seq<seq<nat>>, ghost len: nat)
    requires Taking(used, used, nUsed, lists, from) && Unfinished(lists, from) && |lists| > 0
    ensures Taking(used, marked, n, lists, cur) && Collected(lists, from, cur, idxsPerSeq)
    ensures len >= 1 && Even(from, cur, len) && (len == 1 || len * |lists| <= nUbatch)
    ensures !Unfinished(lists, cur) || (len + 1) * |lists| > nUbatch
    ensures IsEqualLen(lists, from, nUbatch, len) && cur == MovedOn(from, len)
  {
    marked, n, cur, len := used, nUsed, from, 0;
    idxsPerSeq := seq(|lists|, _ => []);
    while true
      invariant Taking(used, marked, n, lists, cur) && Collected(lists, from, cur, idxsPerSeq)
      invariant Even(from, cur, len) && (len > 0 ==> (len + 1) * |lists| <= nUbatch)
      decreases |lists[0]| - cur[0]
    {
      var canExpand := CanExpand(lists, cur);
      if !canExpand {
        MulBelow(len, |lists|);
        break;
      }
      ghost var before := cur;
      marked, n, cur, idxsPerSeq := TakeColumn(lists, used, marked, n, from, cur, idxsPerSeq);
      EvenMore(from, before, cur, len);
      len := len + 1;
      if (|idxsPerSeq[0]| + 1) * |lists| > nUbatch {
        break;
      }
    }
  }

  lemma MulBelow(a: nat, b: nat)
    ensures a * b <= (a + 1) * b
  {
  }

  lemma EvenMore(from: seq<nat>, before: seq<nat>, cur: seq<nat>, len: nat)
    requires Even(from, before, len) && Even(before, cur, 1)
    ensures Even(from, cur, len + 1)
  {
  }

  // ---------------------------------------------------------------------------------------
  // Which tokens are given back
  // ---------------------------------------------------------------------------------------

  /** The tokens of one list, from the front. */
  method GiveBack(list: seq<nat>, used: seq<bool>, nUsed: nat, ghost from: nat, ghost cur: nat, idxs: seq<nat>)
    returns (marked: seq<bool>, n: nat)
    requires CutAt(used, list, cur) && NoDuplicates(list) && from <= cur && idxs == list[from..cur] &&
      nUsed == CountTrue(used)
    ensures CutAt(marked, list, from) && n == CountTrue(marked)
    ensures |marked| == |used| && forall i :: 0 <= i < |used| && i !in list ==> marked[i] == used[i]
  {
    marked, n := used, nUsed;
    for k := 0 to |idxs|
      invariant |marked| == |used| && n == CountTrue(marked)
      invariant forall j :: 0 <= j < |list| ==> (marked[list[j]] <==> j < from || from + k <= j < cur)
      invariant forall i :: 0 <= i < |used| && i !in list ==> marked[i] == used[i]
    {
      var idx := idxs[k];
      assert idx == list[from + k];
      CountUpdate(marked, idx, false);
      marked := marked[idx := false];
      n := n - 1;
    }
  }

  lemma GivenBack(base: seq<bool>, used: seq<bool>, marked: seq<bool>, n: nat, lists: seq<seq<nat>>, to: seq<nat>,
                  s: nat, k: nat)
    requires Cuts(used, lists, to) && SameElsewhere(base, used, lists) && Separate(lists) && s < |lists|
    requires |marked| == |used| && CutAt(marked, lists[s], k) && n == CountTrue(marked)
    requires forall i :: 0 <= i < |used| && i !in lists[s] ==> marked[i] == used[i]
    ensures Taking(base, marked, n, lists, to[s := k])
  {
    forall t | 0 <= t < |lists|
      ensures CutAt(marked, lists[t], to[s := k][t])
    {
      if t != s {
        assert CutAt(used, lists[t], to[t]);
        forall j | 0 <= j < |lists[t]|
          ensures marked[lists[t][j]] == used[lists[t][j]]
        {
          OtherList(lists, t, s, lists[t][j]);
        }
      }
    }
    forall i | 0 <= i < |base| && InNone(lists, i)
      ensures marked[i] == base[i]
    {
      assert i !in lists[s];
    }
  }

  /** Lists from `nKeep` on give their tokens back. */
  method Defer(lists: seq<seq<nat>>, ghost base: seq<bool>, used: seq<bool>, nUsed: nat, ghost from: seq<nat>,
               ghost cur: seq<nat>, idxsPerSeq: seq<seq<nat>>, nKeep: nat) returns (marked: seq<bool>, n: nat)
    requires Taking(base, used, nUsed, lists, cur) && Collected(lists, from, cur, idxsPerSeq) && nKeep <= |lists|
    requires Cuts(base, lists, from)
    ensures n == CountTrue(marked) && Moved(base, marked, lists[..nKeep], from[..nKeep], cur[..nKeep])
  {
    marked, n := used, nUsed;
    ghost var to := cur;
    for s := nKeep to |lists|
      invariant Taking(base, marked, n, lists, to)
      invariant |to| == |cur| && forall t :: 0 <= t < |cur| ==> to[t] == if nKeep <= t < s then from[t] else cur[t]
    {
      ghost var before := marked;
      assert CutAt(marked, lists[s], to[s]);
      marked, n := GiveBack(lists[s], marked, n, from[s], cur[s], idxsPerSeq[s]);
      GivenBack(base, before, marked, n, lists, to, s, from[s]);
      to := to[s := from[s]];
    }
    OnlyKept(base, marked, lists, from, to, nKeep);
    assert to[..nKeep] == cur[..nKeep];
  }

  /** The used tokens moved from one place to another in these lists, and in no others. */
  ghost predicate Moved(base: seq<bool>, used: seq<bool>, lists: seq<seq<nat>>, from: seq<nat>, to: seq<nat>) {
    && Cuts(base, lists, from) && Cuts(used, lists, to) && SameElsewhere(base, used, lists) && Separate(lists)
    && forall s :: 0 <= s < |lists| ==> from[s] <= to[s] <= |lists[s]|
  }

  lemma OnlyKept(base: seq<bool>, used: seq<bool>, lists: seq<seq<nat>>, from: seq<nat>, to: seq<nat>, nKeep: nat)
    requires Cuts(base, lists, from) && Cuts(used, lists, to) && SameElsewhere(base, used, lists) && Separate(lists)
    requires nKeep <= |lists| && forall s :: 0 <= s < |lists| ==> from[s] <= to[s] <= |lists[s]|
    requires forall s :: nKeep <= s < |lists| ==> to[s] == from[s]
    ensures Moved(base, used, lists[..nKeep], from[..nKeep], to[..nKeep])
  {
    var kept := lists[..nKeep];
    forall i | 0 <= i < |base| && InNone(kept, i)
      ensures used[i] == base[i]
    {
      forall s | 0 <= s < nKeep
        ensures i !in lists[s]
      {
        assert kept[s] == lists[s];
      }
      if !InNone(lists, i) {
        var s :| 0 <= s < |lists| && i in lists[s];
        var j :| 0 <= j < |lists[s]| && lists[s][j] == i;
        assert CutAt(base, lists[s], from[s]) && CutAt(used, lists[s], to[s]);
      }
    }
    forall s | 0 <= s < nKeep
      ensures CutAt(base, kept[s], from[..nKeep][s]) && CutAt(used, kept[s], to[..nKeep][s]) && NoDuplicates(kept[s])
    {
      assert CutAt(base, lists[s], from[s]) && CutAt(used, lists[s], to[s]);
    }
    forall s, t, i | 0 <= s < nKeep && 0 <= t < nKeep && s != t && i in kept[s]
      ensures i !in kept[t]
    {
      OtherList(lists, s, t, i);
    }
  }

  /** The longest front of the lists that are finished or keep a whole tail for later. */
  method CountKept(lists: seq<seq<nat>>, cur: seq<nat>, nKeepTail: nat) returns (nKeep: nat)
    requires |cur| == |lists| && nKeepTail > 0 && forall s :: 0 <= s < |lists| ==> cur[s] <= |lists[s]|
    ensures nKeep == LongestFront(lists, cur, nKeepTail)
    ensures forall s :: 0 <= s < nKeep ==> TailSafeAt(lists[s], cur[s], nKeepTail)
  {
    nKeep := 0;
    while nKeep < |lists|
      invariant nKeep <= |lists| && forall s :: 0 <= s < nKeep ==> TailSafeAt(lists[s], cur[s], nKeepTail)
      invariant forall s :: 0 <= s < nKeep ==> !Cramped(lists[s], cur[s], nKeepTail)
    {
      var remaining := |lists[nKeep]| - cur[nKeep];
      if remaining != 0 && remaining < nKeepTail {
        break;
      }
      nKeep := nKeep + 1;
    }
    FrontIsLongest(lists, cur, nKeepTail, nKeep);
  }

  lemma FrontIsLongest(lists: seq<seq<nat>>, cur: seq<nat>, nKeepTail: nat, k: nat)
    requires |cur| == |lists| && k <= |lists| && forall s :: 0 <= s < k ==> !Cramped(lists[s], cur[s], nKeepTail)
    requires k < |lists| ==> Cramped(lists[k], cur[k], nKeepTail)
    ensures k == LongestFront(lists, cur, nKeepTail)
  {
    var n := LongestFront(lists, cur, nKeepTail);
    if n < k {
      assert false;
    }
  }

  /** Takes the rest of the first list. */
  method FinishFirst(lists: seq<seq<nat>>, ghost base: seq<bool>, used: seq<bool>, nUsed: nat, ghost from: seq<nat>,
                     cur: seq<nat>, idxsPerSeq: seq<seq<nat>>)
    returns (marked: seq<bool>, n: nat, next: seq<nat>, idxs: seq<seq<nat>>)
    requires Taking(base, used, nUsed, lists, cur) && Collected(lists, from, cur, idxsPerSeq) && |lists| > 0
    ensures Taking(base, marked, n, lists, next) && Collected(lists, from, next, idxs)
    ensures next == cur[0 := |lists[0]|]
  {
    marked, n, next, idxs := used, nUsed, cur, idxsPerSeq;
    while |lists[0]| - next[0] > 0
      invariant Taking(base, marked, n, lists, next) && Collected(lists, from, next, idxs)
      invariant next == cur[0 := next[0]]
      decreases |lists[0]| - next[0]
    {
      marked, n, next, idxs := TakeNext(lists, base, marked, n, from, next, idxs, 0);
    }
  }

  /** Gives back from the end of the first list until a whole tail remains. */
  method TruncateFirst(lists: seq<seq<nat>>, ghost base: seq<bool>, used: seq<bool>, nUsed: nat, ghost from: seq<nat>,
                       cur: seq<nat>, idxsPerSeq: seq<seq<nat>>, nKeepTail: nat)
    returns (marked: seq<bool>, n: nat, next: seq<nat>, idxs: seq<seq<nat>>)
    requires Taking(base, used, nUsed, lists, cur) && Collected(lists, from, cur, idxsPerSeq) && |lists| > 0
    requires from[0] + nKeepTail < |lists[0]| && from[0] < cur[0] && |lists[0]| - cur[0] < nKeepTail
    ensures Taking(base, marked, n, lists, next) && Collected(lists, from, next, idxs)
    ensures next == cur[0 := |lists[0]| - nKeepTail]
  {
    marked, n, next, idxs := used, nUsed, cur, idxsPerSeq;
    while |lists[0]| - next[0] < nKeepTail
      invariant Taking(base, marked, n, lists, next) && Collected(lists, from, next, idxs)
      invariant next == cur[0 := next[0]] && |lists[0]| - next[0] <= nKeepTail
      decreases next[0]
    {
      Unmark(base, marked, lists, next, 0);
      CollectedLess(lists, from, next, idxs, 0);
      marked := marked[idxs[0][|idxs[0]| - 1] := false];
      n := n - 1;
      idxs := idxs[0 := idxs[0][..|idxs[0]| - 1]];
      next := next[0 := next[0] - 1];
    }
  }

  /** The first list is finished, if there is room, or is cut back to before its tail. */
  method ResolveFirst(lists: seq<seq<nat>>, ghost base: seq<bool>, used: seq<bool>, nUsed: nat, ghost from: seq<nat>,
                      cur: seq<nat>, idxsPerSeq: seq<seq<nat>>, nUbatch: nat, nKeepTail: nat)
    returns (marked: seq<bool>, n: nat, next: seq<nat>, idxs: seq<seq<nat>>)
    requires Taking(base, used, nUsed, lists, cur) && Collected(lists, from, cur, idxsPerSeq) && |lists| > 0
    requires nUbatch > nKeepTail && from[0] < cur[0] && 0 < |lists[0]| - cur[0] < nKeepTail
    ensures Taking(base, marked, n, lists, next) && Collected(lists, from, next, idxs)
    ensures from[0] < next[0] && (next[0] - from[0] <= nUbatch || next[0] <= cur[0])
    ensures TailSafeAt(lists[0], next[0], nKeepTail)
    ensures next == cur[0 := if |lists[0]| - from[0] <= nUbatch then |lists[0]| else |lists[0]| - nKeepTail]
  {
    if |idxsPerSeq[0]| + (|lists[0]| - cur[0]) <= nUbatch {
      marked, n, next, idxs := FinishFirst(lists, base, used, nUsed, from, cur, idxsPerSeq);
    } else {
      marked, n, next, idxs := TruncateFirst(lists, base, used, nUsed, from, cur, idxsPerSeq, nKeepTail);
    }
  }

  lemma CollectedLess(lists: seq<seq<nat>>, from: seq<nat>, cur: seq<nat>, idxs: seq<seq<nat>>, s: nat)
    requires Collected(lists, from, cur, idxs) && s < |lists| && from[s] < cur[s]
    ensures |idxs[s]| > 0 && idxs[s][|idxs[s]| - 1] == lists[s][cur[s] - 1]
    ensures Collected(lists, from, cur[s := cur[s] - 1], idxs[s := idxs[s][..|idxs[s]| - 1]])
  {
    assert lists[s][from[s]..cur[s]][..cur[s] - from[s] - 1] == lists[s][from[s]..cur[s] - 1];
  }

  /** Keeps whole tails together: some lists are deferred, or only the first one is emitted. */
  method KeepTails(lists: seq<seq<nat>>, ghost base: seq<bool>, used: seq<bool>, nUsed: nat, ghost from: seq<nat>,
                   cur: seq<nat>, idxsPerSeq: seq<seq<nat>>, ghost len: nat, nUbatch: nat, nKeepTail: nat)
    returns (marked: seq<bool>, n: nat, idxs: seq<seq<nat>>, ghost to: seq<nat>, ghost len': nat)
    requires Taking(base, used, nUsed, lists, cur) && Collected(lists, from, cur, idxsPerSeq) && |lists| > 0
    requires Cuts(base, lists, from) && Even(from, cur, len) && len >= 1 && nUbatch > nKeepTail > 0
    requires SizeBound(nUbatch, |lists|, len)
    ensures 0 < |idxs| <= |lists| && n == CountTrue(marked) && len' >= 1 && SizeBound(nUbatch, |idxs|, len')
    ensures Moved(base, marked, lists[..|idxs|], from[..|idxs|], to) && Even(from[..|idxs|], to, len')
    ensures Collected(lists[..|idxs|], from[..|idxs|], to, idxs)
    ensures |idxs| == KeptCount(lists, cur, nKeepTail) && to == Ends(lists, from, cur, nUbatch, nKeepTail)
    ensures forall s :: 0 <= s < |idxs| ==> TailSafeAt(lists[s], to[s], nKeepTail)
  {
    var nKeep := CountKept(lists, cur, nKeepTail);
    marked, n, idxs, to, len' := used, nUsed, idxsPerSeq, cur, len;
    if nKeep == 0 {
      marked, n, to, idxs := ResolveFirst(lists, base, used, nUsed, from, cur, idxsPerSeq, nUbatch, nKeepTail);
      nKeep := 1;
      len' := to[0] - from[0];
      FirstSize(nUbatch, |lists|, len, len');
    } else {
      FewerSets(nUbatch, |lists|, nKeep, len);
    }
    marked, n := Defer(lists, base, marked, n, from, to, idxs, nKeep);
    idxs, to := idxs[..nKeep], to[..nKeep];
  }

  /** At most `nUbatch` tokens, or one more: one token each of `nUbatch + 1` sets. */
  predicate SizeBound(nUbatch: nat, nSets: nat, len: nat) {
    len * nSets <= nUbatch || (len == 1 && nSets == nUbatch + 1)
  }

  lemma FewerSets(nUbatch: nat, nSets: nat, nKeep: nat, len: nat)
    requires SizeBound(nUbatch, nSets, len) && nKeep <= nSets
    ensures SizeBound(nUbatch, nKeep, len)
  {
    assert len * nSets == len * nKeep + len * (nSets - nKeep);
  }

  lemma FirstSize(nUbatch: nat, nSets: nat, len: nat, len': nat)
    requires SizeBound(nUbatch, nSets, len) && nSets >= 1 && nUbatch >= 1 && (len' <= nUbatch || len' <= len)
    ensures SizeBound(nUbatch, 1, len')
  {
    assert len * nSets == len + len * (nSets - 1);
  }

  // ---------------------------------------------------------------------------------------
  // The whole step
  // ---------------------------------------------------------------------------------------

  function ListsIn(m: map<SeqSet, seq<nat>>, sets: seq<SeqSet>): (lists: seq<seq<nat>>)
    requires forall s :: 0 <= s < |sets| ==> sets[s] in m
    ensures |lists| == |sets| && forall s :: 0 <= s < |sets| ==> lists[s] == m[sets[s]]
  {
    seq(|sets|, s requires 0 <= s < |sets| => m[sets[s]])
  }

  /** `len` tokens of each of the sets, from where the set continues, one set after the other. */
  ghost predicate EqualTaken(m: map<SeqSet, seq<nat>>, used: seq<bool>, marked: seq<bool>,
                             sets: seq<SeqSet>, from: seq<nat>, to: seq<nat>, len: nat, idxs: seq<nat>) {
    && |sets| >= 1 && Disjoint(sets) && len >= 1 && Even(from, to, len)
    && (forall s :: 0 <= s < |sets| ==> sets[s] in m && sets[s] != {})
    && Moved(used, marked, ListsIn(m, sets), from, to)
    && idxs == Flatten(Slices(ListsIn(m, sets), from, to))
  }

  /** The first `n` lists stay, and end at `to`. */
  ghost predicate Resolved(lists: seq<seq<nat>>, from: seq<nat>, nUbatch: nat, nKeepTail: nat, n: nat, to: seq<nat>) {
    exists len: nat :: ResolvedBy(lists, from, nUbatch, nKeepTail, n, to, len)
  }

  ghost predicate ResolvedBy(lists: seq<seq<nat>>, from: seq<nat>, nUbatch: nat, nKeepTail: nat, n: nat, to: seq<nat>,
                             len: nat) {
    && |from| == |lists| > 0 && IsEqualLen(lists, from, nUbatch, len)
    && n == KeptCount(lists, MovedOn(from, len), nKeepTail) &&
        to == Ends(lists, from, MovedOn(from, len), nUbatch, nKeepTail)
  }

  /** With `len` more tokens each, list `s` is left with some tokens, but fewer than a tail. */
  predicate TooFewLeft(lists: seq<seq<nat>>, from: seq<nat>, len: nat, nKeepTail: nat, s: nat)
    requires |from| == |lists| && s < |lists|
  {
    0 < |lists[s]| - from[s] - len < nKeepTail
  }

  /**
    What happens to the lists when each has given `len` tokens: without tails to keep they all stay. If the
    first is left with too few, it alone stays: it is finished where there is room for that, and otherwise
    keeps a tail. If not, those in front of the first one that is left with too few stay as they are.
    */
  ghost predicate Stays(lists: seq<seq<nat>>, from: seq<nat>, nUbatch: nat, nKeepTail: nat, n: nat, to: seq<int>,
                        len: nat)
    requires |from| == |lists| > 0
  {
    && 0 < n == |to| <= |lists|
    && if nKeepTail > 0 && TooFewLeft(lists, from, len, nKeepTail, 0) then
         && n == 1 && (to[0] == |lists[0]| || to[0] == |lists[0]| - nKeepTail)
         && (to[0] == |lists[0]| <==> |lists[0]| - from[0] <= nUbatch)
       else
         && (forall s :: 0 <= s < n ==> to[s] == from[s] + len)
         && (nKeepTail == 0 ==> n == |lists|)
         && (nKeepTail > 0 ==> forall s :: 0 <= s < n ==> !TooFewLeft(lists, from, len, nKeepTail, s))
         && (nKeepTail > 0 && n < |lists| ==> TooFewLeft(lists, from, len, nKeepTail, n))
  }

  /** The count and the ends of the sets that stay are exactly these. */
  lemma StaysIff(lists: seq<seq<nat>>, from: seq<nat>, nUbatch: nat, nKeepTail: nat, n: nat, to: seq<nat>, len: nat)
    requires |from| == |lists| > 0 && forall s :: 0 <= s < |lists| ==> from[s] + len <= |lists[s]|
    ensures ResolvedBy(lists, from, nUbatch, nKeepTail, n, to, len) <==>
      IsEqualLen(lists, from, nUbatch, len) && Stays(lists, from, nUbatch, nKeepTail, n, to, len)
  {
    var cur := MovedOn(from, len);
    assert forall s :: 0 <= s < |lists| ==>
      (TooFewLeft(lists, from, len, nKeepTail, s) <==> Cramped(lists[s], cur[s], nKeepTail));
    if Stays(lists, from, nUbatch, nKeepTail, n, to, len) && nKeepTail > 0 {
      FrontIsLongest(lists, cur, nKeepTail, if TooFewLeft(lists, from, len, nKeepTail, 0) then 0 else n);
    }
    if Stays(lists, from, nUbatch, nKeepTail, n, to, len) {
      assert to == Ends(lists, from, cur, nUbatch, nKeepTail);
    }
  }

  /** Which sets the split takes, where they continue and where they end, in full. */
  ghost predicate IsEqualSplit(batch: seq<BatchToken>, seqSet: seq<SeqSet>, m: map<SeqSet, seq<nat>>, used: seq<bool>,
                               sets: seq<SeqSet>, from: seq<nat>, to: seq<nat>, nUbatch: nat, sequential: bool,
                               nKeepTail: nat) {
    && |batch| == |seqSet| == |used|
    && var all := SetsAt(seqSet, Picks(batch, seqSet, used, nUbatch, sequential, |batch|));
    && 0 < |sets| <= |all| && (forall s :: 0 <= s < |all| ==> all[s] in m)
    && var lists := ListsIn(m, all);
    && sets == all[..|sets|] && from == Starts(used, lists)[..|sets|]
    && Resolved(lists, Starts(used, lists), nUbatch, nKeepTail, |sets|, to)
  }

  /** What can be said about the choice of sets and of the length. */
  ghost predicate WellChosen(batch: seq<BatchToken>, seqSet: seq<SeqSet>, m: map<SeqSet, seq<nat>>, used: seq<bool>,
                             sets: seq<SeqSet>, firsts: seq<nat>, to: seq<nat>, len: nat,
                             nUbatch: nat, sequential: bool, nKeepTail: nat) {
    && |used| == |seqSet| == |batch| && |to| == |sets| >= 1
    && (forall s :: 0 <= s < |sets| ==> sets[s] in m)
    && Chosen(seqSet, used, sets, firsts) && UsedBelow(used, firsts[0])
    && SizeBound(nUbatch, |sets|, len)
    && (sequential ==> Consecutive(batch, firsts))
    && TakenInTurn(batch, seqSet, used, sequential, firsts)
    && (nKeepTail == 0 ==> AllTaken(batch, seqSet, used, nUbatch, sequential, firsts))
    && (nKeepTail == 0 && !sequential && |sets| <= nUbatch ==> Maximal(seqSet, used, sets, |used|))
    && (nKeepTail == 0 ==> !Unfinished(ListsIn(m, sets), to) || (len + 1) * |sets| > nUbatch)
    && (nKeepTail > 0 ==> forall s :: 0 <= s < |sets| ==> TailSafeAt(m[sets[s]], to[s], nKeepTail))
  }

  /** The lists of the chosen sets. */
  lemma ChosenLists(seqSet: seq<SeqSet>, m: map<SeqSet, seq<nat>>, used: seq<bool>, sets: seq<SeqSet>, firsts: seq<nat>)
    requires |used| == |seqSet| && IsSetMap(seqSet, m) && Chosen(seqSet, used, sets, firsts)
    requires forall s :: 0 <= s < |sets| ==> sets[s] != {}
    ensures forall s :: 0 <= s < |sets| ==> sets[s] in m
    ensures ListsOf(seqSet, sets, ListsIn(m, sets)) && Separate(ListsIn(m, sets))
  {
    forall s | 0 <= s < |sets|
      ensures sets[s] in m && IsListOf(seqSet, sets[s], m[sets[s]])
    {
      assert HasList(seqSet, m, firsts[s]);
      assert EntryOk(seqSet, m, sets[s]);
    }
    SetsDiffer(sets);
    ListsSeparate(seqSet, sets, ListsIn(m, sets));
  }

  lemma NonEmptySets(batch: seq<BatchToken>, seqSet: seq<SeqSet>, nSeqMax: nat)
    requires |seqSet| == |batch| && forall i: nat :: TokenOk(batch, seqSet, nSeqMax, i)
    ensures forall i :: 0 <= i < |batch| ==> seqSet[i] != {} && batch[i].seqIds != []
  {
    forall i | 0 <= i < |batch|
      ensures seqSet[i] != {} && batch[i].seqIds != []
    {
      assert TokenOk(batch, seqSet, nSeqMax, i);
      assert batch[i].seqIds[0] in seqSet[i];
    }
  }

  /** Keeping only the first sets keeps what is known of the choice. */
  lemma ChosenFront(batch: seq<BatchToken>, seqSet: seq<SeqSet>, used: seq<bool>, sets: seq<SeqSet>, firsts: seq<nat>,
                    n: nat)
    requires |used| == |seqSet| && Chosen(seqSet, used, sets, firsts) && n <= |sets|
    ensures Chosen(seqSet, used, sets[..n], firsts[..n])
    ensures Consecutive(batch, firsts) ==> Consecutive(batch, firsts[..n])
  {
  }

  lemma InTurnFront(batch: seq<BatchToken>, seqSet: seq<SeqSet>, used: seq<bool>, sequential: bool, firsts: seq<nat>,
                    n: nat)
    requires TakenInTurn(batch, seqSet, used, sequential, firsts) && Below(firsts, |batch|) && n <= |firsts|
    ensures TakenInTurn(batch, seqSet, used, sequential, firsts[..n])
  {
    forall k: nat | 0 < k < n
      ensures NextTaken(batch, seqSet, used, sequential, firsts[..n], k)
    {
      assert NextTaken(batch, seqSet, used, sequential, firsts, k);
      forall i: nat
        ensures GoesOn(batch, seqSet, used, sequential, firsts[..n], k, i) <==>
          GoesOn(batch, seqSet, used, sequential, firsts, k, i)
      {
        GoesOnFront(batch, seqSet, used, sequential, firsts[..n], firsts, k, i);
      }
    }
  }

  method ConcatAll(xs: seq<seq<nat>>) returns (idxs: seq<nat>)
    ensures idxs == Flatten(xs)
  {
    idxs := [];
    for s := 0 to |xs|
      invariant idxs == Flatten(xs[..s])
    {
      assert xs[..s + 1][..s] == xs[..s];
      idxs := idxs + xs[s];
    }
    assert xs[..|xs|] == xs;
  }

  /** The sets are picked, and each of them continues at its first unused token. */
  ghost predicate Started(batch: seq<BatchToken>, seqSet: seq<SeqSet>, m: map<SeqSet, seq<nat>>, used: seq<bool>,
                          nUbatch: nat, sequential: bool, sets: seq<SeqSet>, firsts: seq<nat>, lists: seq<seq<nat>>,
                          curIdx: seq<nat>) {
    && |batch| == |seqSet| == |used|
    && firsts == Picks(batch, seqSet, used, nUbatch, sequential, |batch|) && sets == SetsAt(seqSet, firsts)
    && Chosen(seqSet, used, sets, firsts) && UsedBelow(used, if sets == [] then |used| else firsts[0])
    && (sequential ==> Consecutive(batch, firsts)) && AllTaken(batch, seqSet, used, nUbatch, sequential, firsts)
    && (!sequential && |sets| <= nUbatch ==> Maximal(seqSet, used, sets, |used|))
    && (forall s :: 0 <= s < |sets| ==> sets[s] in m && sets[s] != {})
    && lists == ListsIn(m, sets) && Separate(lists)
    && curIdx == Starts(used, lists) && Unfinished(lists, curIdx) && Cuts(used, lists, curIdx)
  }

  /** Chooses the sets and finds where each of them continues. */
  method StartSets(batch: seq<BatchToken>, seqSet: seq<SeqSet>, ghost nSeqMax: nat, m: map<SeqSet, seq<nat>>,
                   used: seq<bool>, nUbatch: nat, sequential: bool)
    returns (sets: seq<SeqSet>, lists: seq<seq<nat>>, curIdx: seq<nat>, ghost firsts: seq<nat>)
    requires |batch| == |seqSet| && forall i: nat :: TokenOk(batch, seqSet, nSeqMax, i)
    requires IsSetMap(seqSet, m) && UsedInOrder(seqSet, used)
    ensures Started(batch, seqSet, m, used, nUbatch, sequential, sets, firsts, lists, curIdx)
  {
    sets, firsts := CollectSets(batch, seqSet, nSeqMax, used, nUbatch, sequential);
    NonEmptySets(batch, seqSet, nSeqMax);
    PicksAreChosen(batch, seqSet, used, nUbatch, sequential, |batch|);
    PicksStart(batch, seqSet, used, nUbatch, sequential, |batch|);
    if sequential {
      PicksConsecutive(batch, seqSet, used, nUbatch, |batch|);
    } else if |sets| <= nUbatch {
      PicksAreMaximal(batch, seqSet, used, nUbatch, |batch|);
    }
    ChosenLists(seqSet, m, used, sets, firsts);
    lists := ListsIn(m, sets);
    curIdx := FindStarts(seqSet, used, sets, lists, firsts);
  }

  /** The first lists gave some tokens each; the others, if any, gave none. */
  ghost predicate Filled(lists: seq<seq<nat>>, used: seq<bool>, from: seq<nat>, nUbatch: nat, nKeepTail: nat,
                         marked: seq<bool>, idxsPerSeq: seq<seq<nat>>, to: seq<nat>, len: nat) {
    && |from| == |lists| && 0 < |idxsPerSeq| <= |lists| && (nKeepTail == 0 ==> |idxsPerSeq| == |lists|)
    && Moved(used, marked, lists[..|idxsPerSeq|], from[..|idxsPerSeq|], to)
    && len >= 1 && Even(from[..|idxsPerSeq|], to, len) && SizeBound(nUbatch, |idxsPerSeq|, len)
    && idxsPerSeq == Slices(lists[..|idxsPerSeq|], from[..|idxsPerSeq|], to)
    && (nKeepTail == 0 ==> !Unfinished(lists, to) || (len + 1) * |lists| > nUbatch)
    && (nKeepTail > 0 ==> forall s :: 0 <= s < |idxsPerSeq| ==> TailSafeAt(lists[s], to[s], nKeepTail))
    && Resolved(lists, from, nUbatch, nKeepTail, |idxsPerSeq|, to)
  }

  /** Takes the tokens; some of the lists may be left out in the end. */
  method TakeTokens(lists: seq<seq<nat>>, used: seq<bool>, nUsed: nat, from: seq<nat>, nUbatch: nat, nKeepTail: nat)
    returns (marked: seq<bool>, n: nat, idxsPerSeq: seq<seq<nat>>, ghost to: seq<nat>, ghost len: nat)
    requires Separate(lists) && Cuts(used, lists, from) && Unfinished(lists, from) && nUsed == CountTrue(used)
    requires |lists| > 0 && (nKeepTail > 0 ==> nUbatch > nKeepTail)
    requires |lists| <= nUbatch + 1
    ensures n == CountTrue(marked) && Filled(lists, used, from, nUbatch, nKeepTail, marked, idxsPerSeq, to, len)
  {
    var curIdx;
    marked, n, curIdx, idxsPerSeq, len := Expand(lists, used, nUsed, from, nUbatch);
    to := curIdx;
    ghost var len0 := len;
    if nKeepTail > 0 {
      marked, n, idxsPerSeq, to, len := KeepTails(lists, used, marked, n, from, curIdx, idxsPerSeq, len, nUbatch,
        nKeepTail);
    } else {
      assert lists[..|lists|] == lists && from[..|lists|] == from;
    }
    assert ResolvedBy(lists, from, nUbatch, nKeepTail, |idxsPerSeq|, to, len0);
  }

  /** The choice and the taking of one micro-batch; no set means that all tokens are used. */
  method TakeEqual(batch: seq<BatchToken>, seqSet: seq<SeqSet>, ghost nSeqMax: nat, m: map<SeqSet, seq<nat>>,
                   used: seq<bool>, nUsed: nat, nUbatch: nat, sequential: bool, nKeepTail: nat)
    returns (nSeqs: nat, marked: seq<bool>, n: nat, idxs: seq<nat>,
             ghost sets: seq<SeqSet>, ghost firsts: seq<nat>, ghost from: seq<nat>, ghost to: seq<nat>, ghost len: nat)
    requires |batch| == |seqSet| && forall i: nat :: TokenOk(batch, seqSet, nSeqMax, i)
    requires IsSetMap(seqSet, m) && UsedInOrder(seqSet, used) && nUsed == CountTrue(used)
    requires nKeepTail > 0 ==> nUbatch > nKeepTail
    ensures nSeqs == |sets| && n == CountTrue(marked)
    ensures nSeqs == 0 ==> marked == used && UsedBelow(used, |used|) && idxs == []
    ensures nSeqs > 0 ==> EqualTaken(m, used, marked, sets, from, to, len, idxs)
    ensures nSeqs > 0 ==> WellChosen(batch, seqSet, m, used, sets, firsts, to, len, nUbatch, sequential, nKeepTail)
    ensures nSeqs > 0 ==> IsEqualSplit(batch, seqSet, m, used, sets, from, to, nUbatch, sequential, nKeepTail)
  {
    var curSeqSet, lists, curIdx;
    curSeqSet, lists, curIdx, firsts := StartSets(batch, seqSet, nSeqMax, m, used, nUbatch, sequential);
    nSeqs, marked, n, idxs := |curSeqSet|, used, nUsed, [];
    sets, from, to, len := curSeqSet, curIdx, curIdx, 0;
    if nSeqs > 0 {
      nSeqs, marked, n, idxs, to, len :=
        FillSets(batch, seqSet, m, used, nUsed, curSeqSet, firsts, lists, curIdx, nUbatch, sequential, nKeepTail);
      sets, firsts, from := sets[..nSeqs], firsts[..nSeqs], from[..nSeqs];
    }
  }

  /** The taking, from where the sets continue. */
  method FillSets(ghost batch: seq<BatchToken>, ghost seqSet: seq<SeqSet>, ghost m: map<SeqSet, seq<nat>>,
                  used: seq<bool>, nUsed: nat, ghost sets: seq<SeqSet>, ghost firsts: seq<nat>, lists: seq<seq<nat>>,
                  curIdx: seq<nat>, nUbatch: nat, ghost sequential: bool, nKeepTail: nat)
    returns (nSeqs: nat, marked: seq<bool>, n: nat, idxs: seq<nat>, ghost to: seq<nat>, ghost len: nat)
    requires Started(batch, seqSet, m, used, nUbatch, sequential, sets, firsts, lists, curIdx) && |sets| > 0
    requires nUsed == CountTrue(used) && (nKeepTail > 0 ==> nUbatch > nKeepTail)
    ensures 0 < nSeqs <= |sets| && n == CountTrue(marked)
    ensures EqualTaken(m, used, marked, sets[..nSeqs], curIdx[..nSeqs], to, len, idxs)
    ensures WellChosen(batch, seqSet, m, used, sets[..nSeqs], firsts[..nSeqs], to, len, nUbatch, sequential, nKeepTail)
    ensures IsEqualSplit(batch, seqSet, m, used, sets[..nSeqs], curIdx[..nSeqs], to, nUbatch, sequential, nKeepTail)
  {
    var idxsPerSeq;
    marked, n, idxsPerSeq, to, len := TakeTokens(lists, used, nUsed, curIdx, nUbatch, nKeepTail);
    nSeqs := |idxsPerSeq|;
    idxs := ConcatAll(idxsPerSeq);
    SplitFound(batch, seqSet, m, used, sets, firsts, lists, curIdx, nUbatch, sequential, nKeepTail, marked, idxsPerSeq,
      to, len);
    TakenFound(batch, seqSet, m, used, sets, firsts, lists, curIdx, nUbatch, sequential, nKeepTail, marked, idxsPerSeq,
      to, len);
    ChoiceFound(batch, seqSet, m, used, sets, firsts, lists, curIdx, nUbatch, sequential, nKeepTail, marked, idxsPerSeq,
      to, len);
  }

  lemma TakenFront(m: map<SeqSet, seq<nat>>, used: seq<bool>, marked: seq<bool>,
                   sets: seq<SeqSet>, from: seq<nat>, n: nat, to: seq<nat>, len: nat)
    requires |from| == |sets| && 0 < n <= |sets| && Disjoint(sets) && len >= 1 && Even(from[..n], to, len)
    requires forall s :: 0 <= s < |sets| ==> sets[s] in m && sets[s] != {}
    requires Moved(used, marked, ListsIn(m, sets)[..n], from[..n], to)
    ensures EqualTaken(m, used, marked, sets[..n], from[..n], to, len,
      Flatten(Slices(ListsIn(m, sets)[..n], from[..n], to)))
  {
    FrontLists(m, sets, n);
  }

  lemma ChoiceFront(batch: seq<BatchToken>, seqSet: seq<SeqSet>, m: map<SeqSet, seq<nat>>, used: seq<bool>,
                    sets: seq<SeqSet>, firsts: seq<nat>, n: nat, to: seq<nat>, len: nat,
                    nUbatch: nat, sequential: bool, nKeepTail: nat)
    requires |used| == |seqSet| == |batch| && |to| == n && 0 < n <= |sets| && (nKeepTail == 0 ==> n == |sets|)
    requires forall s :: 0 <= s < |sets| ==> sets[s] in m
    requires Chosen(seqSet, used, sets, firsts) && UsedBelow(used, firsts[0]) && SizeBound(nUbatch, n, len)
    requires (sequential ==> Consecutive(batch, firsts)) &&
      AllTaken(batch, seqSet, used, nUbatch, sequential, firsts)
    requires !sequential && |sets| <= nUbatch ==> Maximal(seqSet, used, sets, |used|)
    requires nKeepTail == 0 ==> !Unfinished(ListsIn(m, sets), to) || (len + 1) * |sets| > nUbatch
    requires nKeepTail > 0 ==> forall s :: 0 <= s < n ==> TailSafeAt(m[sets[s]], to[s], nKeepTail)
    ensures WellChosen(batch, seqSet, m, used, sets[..n], firsts[..n], to, len, nUbatch, sequential, nKeepTail)
  {
    ChosenFront(batch, seqSet, used, sets, firsts, n);
    InTurnFront(batch, seqSet, used, sequential, firsts, n);
    if nKeepTail == 0 {
      assert sets[..n] == sets && firsts[..n] == firsts;
    }
  }

  lemma SplitFound(batch: seq<BatchToken>, seqSet: seq<SeqSet>, m: map<SeqSet, seq<nat>>, used: seq<bool>,
                   sets: seq<SeqSet>, firsts: seq<nat>, lists: seq<seq<nat>>, from: seq<nat>, nUbatch: nat,
                   sequential: bool, nKeepTail: nat, marked: seq<bool>, idxsPerSeq: seq<seq<nat>>, to: seq<nat>,
                   len: nat)
    requires Started(batch, seqSet, m, used, nUbatch, sequential, sets, firsts, lists, from)
    requires Filled(lists, used, from, nUbatch, nKeepTail, marked, idxsPerSeq, to, len)
    ensures var n := |idxsPerSeq|;
      IsEqualSplit(batch, seqSet, m, used, sets[..n], from[..n], to, nUbatch, sequential, nKeepTail)
  {
  }

  lemma TakenFound(batch: seq<BatchToken>, seqSet: seq<SeqSet>, m: map<SeqSet, seq<nat>>, used: seq<bool>,
                   sets: seq<SeqSet>, firsts: seq<nat>, lists: seq<seq<nat>>, from: seq<nat>, nUbatch: nat,
                   sequential: bool, nKeepTail: nat, marked: seq<bool>, idxsPerSeq: seq<seq<nat>>, to: seq<nat>,
                   len: nat)
    requires Started(batch, seqSet, m, used, nUbatch, sequential, sets, firsts, lists, from)
    requires Filled(lists, used, from, nUbatch, nKeepTail, marked, idxsPerSeq, to, len)
    ensures var n := |idxsPerSeq|;
      EqualTaken(m, used, marked, sets[..n], from[..n], to, len, Flatten(idxsPerSeq))
  {
    TakenFront(m, used, marked, sets, from, |idxsPerSeq|, to, len);
  }

  lemma FilledParts(lists: seq<seq<nat>>, used: seq<bool>, from: seq<nat>, nUbatch: nat, nKeepTail: nat,
                    marked: seq<bool>, idxsPerSeq: seq<seq<nat>>, to: seq<nat>, len: nat)
    requires Filled(lists, used, from, nUbatch, nKeepTail, marked, idxsPerSeq, to, len)
    ensures |to| == |idxsPerSeq| <= |lists| && SizeBound(nUbatch, |idxsPerSeq|, len)
    ensures nKeepTail == 0 ==> !Unfinished(lists, to) || (len + 1) * |lists| > nUbatch
    ensures nKeepTail > 0 ==> forall s :: 0 <= s < |idxsPerSeq| ==> TailSafeAt(lists[s], to[s], nKeepTail)
  {
  }

  lemma ChoiceFound(batch: seq<BatchToken>, seqSet: seq<SeqSet>, m: map<SeqSet, seq<nat>>, used: seq<bool>,
                    sets: seq<SeqSet>, firsts: seq<nat>, lists: seq<seq<nat>>, from: seq<nat>, nUbatch: nat,
                    sequential: bool, nKeepTail: nat, marked: seq<bool>, idxsPerSeq: seq<seq<nat>>, to: seq<nat>,
                    len: nat)
    requires Started(batch, seqSet, m, used, nUbatch, sequential, sets, firsts, lists, from)
    requires Filled(lists, used, from, nUbatch, nKeepTail, marked, idxsPerSeq, to, len)
    ensures var n := |idxsPerSeq|;
      WellChosen(batch, seqSet, m, used, sets[..n], firsts[..n], to, len, nUbatch, sequential, nKeepTail)
  {
    FilledParts(lists, used, from, nUbatch, nKeepTail, marked, idxsPerSeq, to, len);
    assert lists == ListsIn(m, sets);
    ChoiceFront(batch, seqSet, m, used, sets, firsts, |idxsPerSeq|, to, len, nUbatch, sequential, nKeepTail);
  }

  lemma FrontLists(m: map<SeqSet, seq<nat>>, sets: seq<SeqSet>, n: nat)
    requires n <= |sets| && forall s :: 0 <= s < |sets| ==> sets[s] in m
    ensures forall s :: 0 <= s < n ==> sets[..n][s] in m
    ensures ListsIn(m, sets)[..n] == ListsIn(m, sets[..n])
  {
  }

  /** The step keeps the order of used tokens and emits what it takes. */
  lemma EqualEmitted(seqSet: seq<SeqSet>, m: map<SeqSet, seq<nat>>, used: seq<bool>, marked: seq<bool>,
                     sets: seq<SeqSet>, from: seq<nat>, to: seq<nat>, len: nat, idxs: seq<nat>, emitted: seq<nat>)
    requires EqualTaken(m, used, marked, sets, from, to, len, idxs) && IsSetMap(seqSet, m)
    requires UsedInOrder(seqSet, used) && Emitted(used, emitted)
    requires EmittedInOrder(seqSet, emitted)
    ensures UsedInOrder(seqSet, marked) && Emitted(marked, emitted + idxs) && Below(idxs, |seqSet|)
    ensures EmittedInOrder(seqSet, emitted + idxs)
    ensures |idxs| == |sets| * len && |idxs| > 0
  {
    var lists := ListsIn(m, sets);
    forall s | 0 <= s < |sets|
      ensures IsListOf(seqSet, sets[s], lists[s])
    {
      assert EntryOk(seqSet, m, sets[s]);
    }
    CutsKeepOrder(seqSet, used, marked, sets, lists, to);
    SlicesNoDup(lists, from, to);
    SlicesBelow(seqSet, sets, lists, from, to);
    forall i: nat | i < |used|
      ensures marked[i] <==> used[i] || i in idxs
      ensures i in idxs ==> !used[i]
    {
      NewlyUsed(used, marked, lists, from, to, i);
    }
    assert forall k :: 0 <= k < |idxs| ==> idxs[k] in idxs;
    EmittedMore(used, marked, emitted, idxs);
    SetsDiffer(sets);
    SlicesInOrder(seqSet, sets, lists, from, to);
    EmittedInOrderMore(seqSet, used, emitted, idxs);
    FlattenLength(Slices(lists, from, to), len);
    Positive(|sets|, len);
  }

  /** Every token of the slices is of one of the sets. */
  lemma ConcatSet(seqSet: seq<SeqSet>, sets: seq<SeqSet>, lists: seq<seq<nat>>, from: seq<nat>, to: seq<nat>, i: nat)
    requires |lists| == |sets| == |from| == |to|
    requires forall s :: 0 <= s < |sets| ==> IsListOf(seqSet, sets[s], lists[s]) && from[s] <= to[s] <= |lists[s]|
    requires i in Flatten(Slices(lists, from, to))
    ensures i < |seqSet| && exists s :: 0 <= s < |sets| && seqSet[i] == sets[s]
  {
    var xs := Slices(lists, from, to);
    InFlatten(xs, i);
    var s :| 0 <= s < |xs| && i in xs[s];
    SliceWithin(lists[s], from[s], to[s], i);
  }

  lemma {:induction false} SlicesInOrder(seqSet: seq<SeqSet>, sets: seq<SeqSet>, lists: seq<seq<nat>>, from: seq<nat>,
                                         to: seq<nat>)
    requires |lists| == |sets| == |from| == |to|
    requires forall s :: 0 <= s < |sets| ==> IsListOf(seqSet, sets[s], lists[s]) && from[s] <= to[s] <= |lists[s]|
    requires forall s, t :: 0 <= s < t < |sets| ==> sets[s] != sets[t]
    ensures Below(Flatten(Slices(lists, from, to)), |seqSet|)
    ensures EmittedInOrder(seqSet, Flatten(Slices(lists, from, to)))
    decreases |sets|
  {
    SlicesBelow(seqSet, sets, lists, from, to);
    if sets != [] {
      var n := |sets| - 1;
      var xs := Slices(lists, from, to);
      var front := Slices(lists[..n], from[..n], to[..n]);
      assert xs[..n] == front;
      SlicesInOrder(seqSet, sets[..n], lists[..n], from[..n], to[..n]);
      forall k | 0 <= k < |Flatten(front)|
        ensures seqSet[Flatten(front)[k]] != sets[n]
      {
        assert Flatten(front)[k] in Flatten(front);
        ConcatSet(seqSet, sets[..n], lists[..n], from[..n], to[..n], Flatten(front)[k]);
      }
      InOrderJoin(seqSet, Flatten(front), xs[n], sets[n]);
    }
  }

  /** The tokens of one more set, in order, behind those of others. */
  lemma InOrderJoin(seqSet: seq<SeqSet>, a: seq<nat>, b: seq<nat>, s: SeqSet)
    requires Below(a, |seqSet|) && Below(b, |seqSet|) && EmittedInOrder(seqSet, a) && Ascending(b)
    requires forall k :: 0 <= k < |b| ==> seqSet[b[k]] == s
    requires forall k :: 0 <= k < |a| ==> seqSet[a[k]] != s
    ensures Below(a + b, |seqSet|) && EmittedInOrder(seqSet, a + b)
  {
    var c := a + b;
    forall i: nat, j: nat | i < j < |c| && seqSet[c[i]] == seqSet[c[j]]
      ensures c[i] < c[j]
    {
      if j < |a| {
        assert PairInOrder(seqSet, a, i, j);
      }
    }
  }

  /** The sets are disjoint and none of them is empty, so they differ. */
  lemma SetsDiffer(sets: seq<SeqSet>)
    requires Disjoint(sets) && forall s :: 0 <= s < |sets| ==> sets[s] != {}
    ensures forall s, t :: 0 <= s < t < |sets| ==> sets[s] != sets[t]
  {
    forall s, t | 0 <= s < t < |sets|
      ensures sets[s] != sets[t]
    {
      assert sets[s] * sets[t] == {};
      assert sets[s] * sets[s] == sets[s];
    }
  }

  lemma Positive(a: nat, b: nat)
    requires a >= 1 && b >= 1
    ensures a * b > 0
  {
  }

  lemma SlicesBelow(seqSet: seq<SeqSet>, sets: seq<SeqSet>, lists: seq<seq<nat>>, from: seq<nat>, to: seq<nat>)
    requires |lists| == |sets| == |from| == |to|
    requires forall s :: 0 <= s < |sets| ==> IsListOf(seqSet, sets[s], lists[s]) && from[s] <= to[s] <= |lists[s]|
    ensures Below(Flatten(Slices(lists, from, to)), |seqSet|)
  {
    var c := Flatten(Slices(lists, from, to));
    forall k | 0 <= k < |c|
      ensures c[k] < |seqSet|
    {
      ConcatSet(seqSet, sets, lists, from, to, c[k]);
    }
  }

  /** Row `s * len + k` of the micro-batch is the token `k` places on in the list of set `s`. */
  lemma EqualRows(m: map<SeqSet, seq<nat>>, used: seq<bool>, marked: seq<bool>,
                  sets: seq<SeqSet>, from: seq<nat>, to: seq<nat>, len: nat, idxs: seq<nat>, s: nat, k: nat)
    requires EqualTaken(m, used, marked, sets, from, to, len, idxs) && s < |sets| && k < len
    ensures 0 <= s * len + k < |idxs| && from[s] + k < |m[sets[s]]|
    ensures idxs[s * len + k] == m[sets[s]][from[s] + k]
  {
    FlattenAt(Slices(ListsIn(m, sets), from, to), len, s, k);
  }

  /** The tails of all sets stay whole. */
  lemma EqualKeepsTails(batch: seq<BatchToken>, seqSet: seq<SeqSet>, m: map<SeqSet, seq<nat>>, used: seq<bool>,
                        marked: seq<bool>, sets: seq<SeqSet>, firsts: seq<nat>, from: seq<nat>, to: seq<nat>, len: nat,
                        idxs: seq<nat>, nUbatch: nat, sequential: bool, nKeepTail: nat)
    requires EqualTaken(m, used, marked, sets, from, to, len, idxs) && IsSetMap(seqSet, m) &&
      TailSafe(m, used, nKeepTail)
    requires WellChosen(batch, seqSet, m, used, sets, firsts, to, len, nUbatch, sequential, nKeepTail)
    ensures TailSafe(m, marked, nKeepTail)
  {
    CutsKeepTails(seqSet, m, used, marked, sets, ListsIn(m, sets), to, nKeepTail);
  }
}
