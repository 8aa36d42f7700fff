/**
  When a micro-batch gets more tokens than it should: the search for sequence sets stops only above
  `nUbatch` of them, so there can be one too many.
  */
module BatchSize {
  import opened BatchTokens
  import opened Collections
  import opened Relations
  import opened BatchCuts
  import opened BatchPicks
  import opened BatchEqual

  /** One token of the list is unused, or more than a tail. */
  ghost predicate LeavesTail(list: seq<nat>, used: seq<bool>, nKeepTail: nat) {
    var left := |list| - StartOf(used, list);
    left == 1 || left > nKeepTail
  }

  /** More than `nUbatch` sets are picked, and after one token each none of them would have to wait for its tail. */
  ghost predicate Overfull(batch: seq<BatchToken>, seqSet: seq<SeqSet>, m: map<SeqSet, seq<nat>>, used: seq<bool>,
                           nUbatch: nat, sequential: bool, nKeepTail: nat)
    requires |batch| == |seqSet| == |used|
  {
    var picks := Picks(batch, seqSet, used, nUbatch, sequential, |batch|);
    && |picks| > nUbatch
    && forall s :: 0 <= s < |picks| && seqSet[picks[s]] in m ==> LeavesTail(m[seqSet[picks[s]]], used, nKeepTail)
  }

  /** With too many sets each of them gives one token. */
  lemma OneEach(lists: seq<seq<nat>>, from: seq<nat>, nUbatch: nat, len: nat)
    requires |from| == |lists| > nUbatch && IsEqualLen(lists, from, nUbatch, len)
    ensures len == 1
  {
    if len > 1 {
      TimesRises(1, len, |lists|);
    }
  }

  /** All lists stay exactly if each has one unused token, or more than a tail. */
  lemma AllStay(lists: seq<seq<nat>>, used: seq<bool>, nUbatch: nat, nKeepTail: nat, len: nat)
    requires |lists| == nUbatch + 1 && (nKeepTail > 0 ==> nUbatch > nKeepTail) &&
      IsEqualLen(lists, Starts(used, lists), nUbatch, len)
    ensures KeptCount(lists, MovedOn(Starts(used, lists), len), nKeepTail) == |lists| <==>
      forall s :: 0 <= s < |lists| ==> LeavesTail(lists[s], used, nKeepTail)
  {
    var from := Starts(used, lists);
    OneEach(lists, from, nUbatch, len);
    var cur := MovedOn(from, len);
    forall s | 0 <= s < |lists|
      ensures LeavesTail(lists[s], used, nKeepTail) <==> !Cramped(lists[s], cur[s], nKeepTail)
    {
      assert from[s] + 1 <= |lists[s]|;
    }
    var k := LongestFront(lists, cur, nKeepTail);
  }

  /** A micro-batch holds more than `nUbatch` tokens exactly if too many sets were picked and all of them stay. */
  lemma SizeIff(batch: seq<BatchToken>, seqSet: seq<SeqSet>, m: map<SeqSet, seq<nat>>, used: seq<bool>,
                sets: seq<SeqSet>, from: seq<nat>, to: seq<nat>, len: nat, size: nat,
                nUbatch: nat, sequential: bool, nKeepTail: nat)
    requires IsEqualSplit(batch, seqSet, m, used, sets, from, to, nUbatch, sequential, nKeepTail)
    requires len >= 1 && SizeBound(nUbatch, |sets|, len) && size == |sets| * len &&
      (nKeepTail > 0 ==> nUbatch > nKeepTail)
    ensures size > nUbatch <==> Overfull(batch, seqSet, m, used, nUbatch, sequential, nKeepTail)
  {
    var picks := Picks(batch, seqSet, used, nUbatch, sequential, |batch|);
    var all := SetsAt(seqSet, picks);
    var lists := ListsIn(m, all);
    var len0: nat :| ResolvedBy(lists, Starts(used, lists), nUbatch, nKeepTail, |sets|, to, len0);
    TooLarge(nUbatch, |sets|, len, size);
    if |picks| == nUbatch + 1 {
      AllStay(lists, used, nUbatch, nKeepTail, len0);
      assert |sets| == nUbatch + 1 <==> forall s :: 0 <= s < |picks| ==> LeavesTail(lists[s], used, nKeepTail);
    }
  }

  lemma TooLarge(nUbatch: nat, nSets: nat, len: nat, size: nat)
    requires len >= 1 && SizeBound(nUbatch, nSets, len) && size == nSets * len
    ensures size > nUbatch <==> nSets == nUbatch + 1
  {
    TimesRises(1, len, nSets);
  }

  // ---------------------------------------------------------------------------------------
  // Uncoupled batches
  // ---------------------------------------------------------------------------------------

  /** The sequences of the unused tokens, when each token has one. */
  ghost function UnusedSeqs(batch: seq<BatchToken>, used: seq<bool>): set<int>
    requires |used| == |batch|
  {
    set i | 0 <= i < |batch| && !used[i] :: FirstId(batch[i])
  }

  ghost function IdsAt(batch: seq<BatchToken>, picks: seq<nat>): (ids: seq<int>)
    requires Below(picks, |batch|)
    ensures |ids| == |picks| && forall s :: 0 <= s < |ids| ==> ids[s] == FirstId(batch[picks[s]])
  {
    seq(|picks|, s requires 0 <= s < |picks| => FirstId(batch[picks[s]]))
  }

  lemma {:induction false} DistinctCount(q: seq<int>)
    requires NoDuplicates(q)
    ensures |set x | x in q| == |q|
    decreases |q|
  {
    if q != [] {
      var front, last := q[..|q| - 1], q[|q| - 1];
      DistinctCount(front);
      assert (set x | x in q) == (set x | x in front) + {last};
    }
  }

  lemma SingleId(batch: seq<BatchToken>, seqSet: seq<SeqSet>, nSeqMax: nat, i: nat)
    requires |seqSet| == |batch| && !Coupled(batch) && TokenOk(batch, seqSet, nSeqMax, i) && i < |batch|
    ensures FirstId(batch[i]) >= 0 && seqSet[i] == {FirstId(batch[i])}
  {
    assert |batch[i].seqIds| <= 1;
  }

  lemma PickedIdsDiffer(batch: seq<BatchToken>, seqSet: seq<SeqSet>, nSeqMax: nat, used: seq<bool>, picks: seq<nat>)
    requires |batch| == |seqSet| == |used| && !Coupled(batch) && forall i: nat :: TokenOk(batch, seqSet, nSeqMax, i)
    requires Below(picks, |batch|) && Chosen(seqSet, used, SetsAt(seqSet, picks), picks)
    ensures NoDuplicates(IdsAt(batch, picks))
  {
    var ids := IdsAt(batch, picks);
    forall s, t | 0 <= s < t < |ids|
      ensures ids[s] != ids[t]
    {
      SingleId(batch, seqSet, nSeqMax, picks[s]);
      SingleId(batch, seqSet, nSeqMax, picks[t]);
      var a, b := SetsAt(seqSet, picks)[s], SetsAt(seqSet, picks)[t];
      assert a * b == {};
      assert ids[s] in a && ids[t] in b && ids[s] !in a * b;
    }
  }

  lemma MeetsById(batch: seq<BatchToken>, seqSet: seq<SeqSet>, nSeqMax: nat, picks: seq<nat>, i: nat)
    requires |batch| == |seqSet| && !Coupled(batch) && forall i: nat :: TokenOk(batch, seqSet, nSeqMax, i)
    requires Below(picks, |batch|) && i < |batch| && Meets(SetsAt(seqSet, picks), seqSet[i])
    ensures FirstId(batch[i]) in IdsAt(batch, picks)
  {
    var s :| 0 <= s < |picks| && SetsAt(seqSet, picks)[s] * seqSet[i] != {};
    SingleId(batch, seqSet, nSeqMax, picks[s]);
    SingleId(batch, seqSet, nSeqMax, i);
    assert IdsAt(batch, picks)[s] == FirstId(batch[i]);
  }

  /** No more sets are picked than there are sequences, in any equal split. */
  lemma PicksAreSequences(batch: seq<BatchToken>, seqSet: seq<SeqSet>, nSeqMax: nat, used: seq<bool>, nUbatch: nat,
                          sequential: bool)
    requires |batch| == |seqSet| == |used| && !Coupled(batch) && forall i: nat :: TokenOk(batch, seqSet, nSeqMax, i)
    ensures |Picks(batch, seqSet, used, nUbatch, sequential, |batch|)| <= |UnusedSeqs(batch, used)|
  {
    var picks := Picks(batch, seqSet, used, nUbatch, sequential, |batch|);
    var ids := IdsAt(batch, picks);
    var picked := set x | x in ids;
    PicksAreChosen(batch, seqSet, used, nUbatch, sequential, |batch|);
    PickedIdsDiffer(batch, seqSet, nSeqMax, used, picks);
    DistinctCount(ids);
    forall x | x in picked
      ensures x in UnusedSeqs(batch, used)
    {
      var s :| 0 <= s < |ids| && ids[s] == x;
      assert !used[picks[s]];
    }
    SubsetSize(picked, UnusedSeqs(batch, used));
  }

  /** Too many sets are picked exactly if there are too many sequences. */
  lemma PicksCountSequences(batch: seq<BatchToken>, seqSet: seq<SeqSet>, nSeqMax: nat, used: seq<bool>, nUbatch: nat)
    requires |batch| == |seqSet| == |used| && !Coupled(batch) && forall i: nat :: TokenOk(batch, seqSet, nSeqMax, i)
    ensures |Picks(batch, seqSet, used, nUbatch, false, |batch|)| > nUbatch <==> |UnusedSeqs(batch, used)| > nUbatch
  {
    var picks := Picks(batch, seqSet, used, nUbatch, false, |batch|);
    PicksAreSequences(batch, seqSet, nSeqMax, used, nUbatch, false);
    if |picks| <= nUbatch {
      var ids := IdsAt(batch, picks);
      var picked := set x | x in ids;
      PicksAreChosen(batch, seqSet, used, nUbatch, false, |batch|);
      PickedIdsDiffer(batch, seqSet, nSeqMax, used, picks);
      DistinctCount(ids);
      NonEmptySets(batch, seqSet, nSeqMax);
      PicksAreMaximal(batch, seqSet, used, nUbatch, |batch|);
      forall x | x in UnusedSeqs(batch, used)
        ensures x in picked
      {
        var i :| 0 <= i < |batch| && !used[i] && FirstId(batch[i]) == x;
        MeetsById(batch, seqSet, nSeqMax, picks, i);
      }
      SubsetSize(UnusedSeqs(batch, used), picked);
    }
  }

  /** Without tails to keep, in an uncoupled batch, the number of sequences decides. */
  lemma OverfullMeans(batch: seq<BatchToken>, seqSet: seq<SeqSet>, nSeqMax: nat, m: map<SeqSet, seq<nat>>,
                      used: seq<bool>, nUbatch: nat)
    requires |batch| == |seqSet| == |used| && !Coupled(batch) && forall i: nat :: TokenOk(batch, seqSet, nSeqMax, i)
    requires IsSetMap(seqSet, m) && UsedInOrder(seqSet, used)
    ensures Overfull(batch, seqSet, m, used, nUbatch, false, 0) <==> |UnusedSeqs(batch, used)| > nUbatch
  {
    var picks := Picks(batch, seqSet, used, nUbatch, false, |batch|);
    PicksCountSequences(batch, seqSet, nSeqMax, used, nUbatch);
    PicksAreChosen(batch, seqSet, used, nUbatch, false, |batch|);
    forall s | 0 <= s < |picks| && seqSet[picks[s]] in m
      ensures LeavesTail(m[seqSet[picks[s]]], used, 0)
    {
      UnusedLeft(seqSet, m, used, picks[s]);
    }
  }

  /** The list of an unused token is not used up. */
  lemma UnusedLeft(seqSet: seq<SeqSet>, m: map<SeqSet, seq<nat>>, used: seq<bool>, i: nat)
    requires IsSetMap(seqSet, m) && UsedInOrder(seqSet, used) && i < |used| && !used[i] && seqSet[i] in m
    ensures StartOf(used, m[seqSet[i]]) < |m[seqSet[i]]|
  {
    var list := m[seqSet[i]];
    assert EntryOk(seqSet, m, seqSet[i]);
    var k := CutExists(seqSet, used, seqSet[i], list, 0);
    CutIsStart(used, list, k);
    assert Listed(seqSet, seqSet[i], list, i);
    var j :| 0 <= j < |list| && list[j] == i;
  }

  /** Fewer tokens are unused, fewer sequences are. */
  lemma FewerUnused(batch: seq<BatchToken>, used: seq<bool>, later: seq<bool>)
    requires |used| == |later| == |batch| && forall i :: 0 <= i < |batch| && used[i] ==> later[i]
    ensures |UnusedSeqs(batch, later)| <= |UnusedSeqs(batch, used)|
  {
    SubsetSize(UnusedSeqs(batch, later), UnusedSeqs(batch, used));
  }
}
