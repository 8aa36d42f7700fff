/**
  Cutting a whole batch: micro-batches are taken until nothing is left.
  */
module BatchRun {
  import opened BatchTokens
  import opened Collections
  import opened BatchCuts
  import opened BatchPicks
  import opened BatchEqual
  import opened BatchSize
  import opened BatchInit
  import opened BatchSplit

  datatype SplitMode = Simple | Equal(sequential: bool, nKeepTail: nat) | BySequence

  /** The sequential split refuses batches with coupled sequences. */
  predicate Refused(mode: SplitMode, hasCpl: bool) {
    mode.Equal? && mode.sequential && hasCpl
  }

  function TailOf(mode: SplitMode): nat {
    if mode.Equal? then mode.nKeepTail else 0
  }

  /** Row `s * nSeqTokens + k` belongs to the `s`-th of consecutive sequences, and to no other. */
  ghost predicate RowsConsecutive(ub: UBatch) {
    && |ub.tokens| == ub.nSeqs * ub.nSeqTokens && |ub.tokens| > 0 && ub.tokens[0].seqIds != []
    && forall s: nat, k: nat :: RowInSequence(ub, s, k)
  }

  ghost predicate RowInSequence(ub: UBatch, s: nat, k: nat)
    requires |ub.tokens| > 0 && ub.tokens[0].seqIds != []
  {
    s < ub.nSeqs && k < ub.nSeqTokens ==>
      && 0 <= s * ub.nSeqTokens + k < |ub.tokens|
      && ub.tokens[s * ub.nSeqTokens + k].seqIds == [ub.tokens[0].seqIds[0] + s]
  }

  /** What holds of every micro-batch of a run. */
  ghost predicate WellCut(mode: SplitMode, batch: seq<BatchToken>, seqSet: seq<SeqSet>, nUbatch: nat, ub: UBatch) {
    && CopiedFrom(batch, ub) && ub.idxs != [] && |seqSet| == |batch|
    && match mode
       case Simple => |ub.idxs| <= Max(1, nUbatch) && ub.idxs == Interval(ub.idxs[0], ub.idxs[0] + |ub.idxs|)
       case BySequence => |ub.idxs| <= Max(1, nUbatch) && Descending(seqSet, ub.idxs)
       case Equal(sequential, _) =>
         && |ub.idxs| == ub.nSeqs * ub.nSeqTokens && SizeBound(nUbatch, ub.nSeqs, ub.nSeqTokens)
         && (sequential ==> RowsConsecutive(ub))
  }

  /** The next micro-batch of the mode, with these tokens used. */
  ghost predicate IsStep(mode: SplitMode, batch: seq<BatchToken>, seqSet: seq<SeqSet>, m: map<SeqSet, seq<nat>>,
                         used: seq<bool>, nUbatch: nat, idxs: seq<nat>) {
    && |batch| == |seqSet| == |used|
    && match mode
       case Simple => idxs == Interval(CountTrue(used),
         Max(CountTrue(used), Min(CountTrue(used) + Max(1, nUbatch), |batch|)))
       case BySequence => IsSequenceStep(seqSet, used, nUbatch, idxs)
       case Equal(sequential, nKeepTail) =>
         IsSizedStep(batch, seqSet, m, used, nUbatch, sequential, nKeepTail, idxs)
  }

  ghost predicate IsSequenceStep(seqSet: seq<SeqSet>, used: seq<bool>, nUbatch: nat, idxs: seq<nat>)
    requires |seqSet| == |used|
  {
    && 0 < |idxs| <= Max(1, nUbatch) && Descending(seqSet, idxs) && Greedy(seqSet, used, idxs, nUbatch)
    && forall k :: 0 <= k < |idxs| ==> !used[idxs[k]]
  }

  /** An equal split, too large exactly if it must be. */
  ghost predicate IsSizedStep(batch: seq<BatchToken>, seqSet: seq<SeqSet>, m: map<SeqSet, seq<nat>>, used: seq<bool>,
                              nUbatch: nat, sequential: bool, nKeepTail: nat, idxs: seq<nat>)
    requires |batch| == |seqSet| == |used|
  {
    && (|idxs| > nUbatch <==> Overfull(batch, seqSet, m, used, nUbatch, sequential, nKeepTail))
    && exists sets, from, to :: IsEqualStep(batch, seqSet, m, used, sets, from, to, nUbatch, sequential, nKeepTail,
        idxs)
  }

  ghost predicate IsEqualStep(batch: seq<BatchToken>, seqSet: seq<SeqSet>, m: map<SeqSet, seq<nat>>, used: seq<bool>,
                              sets: seq<SeqSet>, from: seq<nat>, to: seq<nat>, nUbatch: nat, sequential: bool,
                              nKeepTail: nat, idxs: seq<nat>) {
    && IsEqualSplit(batch, seqSet, m, used, sets, from, to, nUbatch, sequential, nKeepTail)
    && (forall s :: 0 <= s < |sets| ==> sets[s] in m)
    && |from| == |to| == |sets| && (forall s :: 0 <= s < |sets| ==> from[s] <= to[s] <= |m[sets[s]]|)
    && idxs == Flatten(Slices(ListsIn(m, sets), from, to))
  }

  /** The tokens that have been emitted are used. */
  ghost function UsedBy(n: nat, emitted: seq<nat>): (used: seq<bool>)
    ensures |used| == n && forall i :: 0 <= i < n ==> (used[i] <==> i in emitted)
  {
    seq(n, i requires 0 <= i < n => i in emitted)
  }

  lemma EmittedIsUsed(used: seq<bool>, emitted: seq<nat>)
    requires Emitted(used, emitted)
    ensures used == UsedBy(|used|, emitted)
  {
    forall i: nat | i < |used|
      ensures used[i] == UsedBy(|used|, emitted)[i]
    {
      assert EmittedIfUsed(used, emitted, i);
    }
  }

  /** Every micro-batch is the next one behind those before it. */
  ghost predicate Stepwise(mode: SplitMode, batch: seq<BatchToken>, seqSet: seq<SeqSet>, m: map<SeqSet, seq<nat>>,
                           nUbatch: nat, ubatches: seq<UBatch>) {
    forall u: nat :: StepAt(mode, batch, seqSet, m, nUbatch, ubatches, u)
  }

  ghost predicate StepAt(mode: SplitMode, batch: seq<BatchToken>, seqSet: seq<SeqSet>, m: map<SeqSet, seq<nat>>,
                         nUbatch: nat, ubatches: seq<UBatch>, u: nat) {
    u < |ubatches| ==>
      IsStep(mode, batch, seqSet, m, UsedBy(|batch|, Flatten(Indices(ubatches[..u]))), nUbatch, ubatches[u].idxs)
  }

  lemma StepwiseMore(mode: SplitMode, batch: seq<BatchToken>, seqSet: seq<SeqSet>, m: map<SeqSet, seq<nat>>,
                     nUbatch: nat, ubatches: seq<UBatch>, ub: UBatch)
    requires Stepwise(mode, batch, seqSet, m, nUbatch, ubatches)
    requires IsStep(mode, batch, seqSet, m, UsedBy(|batch|, Flatten(Indices(ubatches))), nUbatch, ub.idxs)
    ensures Stepwise(mode, batch, seqSet, m, nUbatch, ubatches + [ub])
  {
    forall u: nat
      ensures StepAt(mode, batch, seqSet, m, nUbatch, ubatches + [ub], u)
    {
      assert StepAt(mode, batch, seqSet, m, nUbatch, ubatches, u);
      if u <= |ubatches| {
        assert (ubatches + [ub])[..u] == ubatches[..u];
      }
      assert ubatches[..|ubatches|] == ubatches;
    }
  }

  /** The indices of the micro-batches. */
  function Indices(ubatches: seq<UBatch>): (xs: seq<seq<nat>>)
    ensures |xs| == |ubatches| && forall u :: 0 <= u < |xs| ==> xs[u] == ubatches[u].idxs
  {
    seq(|ubatches|, u requires 0 <= u < |ubatches| => ubatches[u].idxs)
  }

  lemma IndicesMore(ubatches: seq<UBatch>, ub: UBatch)
    ensures Flatten(Indices(ubatches + [ub])) == Flatten(Indices(ubatches)) + ub.idxs
  {
    var xs := Indices(ubatches + [ub]);
    assert xs[..|ubatches|] == Indices(ubatches);
  }

  /** The last `n` tokens of the list are in one micro-batch. */
  ghost predicate TailTogether(ubatches: seq<UBatch>, list: seq<nat>, n: nat) {
    exists u :: 0 <= u < |ubatches| && HoldsTail(ubatches[u], list, n)
  }

  ghost predicate HoldsTail(ub: UBatch, list: seq<nat>, n: nat) {
    forall j :: 0 <= j < |list| && |list| - n <= j ==> list[j] in ub.idxs
  }

  /** Sets that are finished have their tail in one micro-batch. */
  ghost predicate TailsLanded(m: map<SeqSet, seq<nat>>, used: seq<bool>, ubatches: seq<UBatch>, n: nat) {
    forall s :: s in m ==> TailLanded(m, used, ubatches, n, s)
  }

  ghost predicate TailLanded(m: map<SeqSet, seq<nat>>, used: seq<bool>, ubatches: seq<UBatch>, n: nat, s: SeqSet)
    requires s in m
  {
    CutAt(used, m[s], |m[s]|) ==> TailTogether(ubatches, m[s], n)
  }

  lemma TailsLandedMore(seqSet: seq<SeqSet>, m: map<SeqSet, seq<nat>>, used: seq<bool>, marked: seq<bool>,
                        sets: seq<SeqSet>, from: seq<nat>, to: seq<nat>, len: nat, ubatches: seq<UBatch>, ub: UBatch,
                        n: nat)
    requires IsSetMap(seqSet, m) && UsedInOrder(seqSet, used) && TailSafe(m, used, n) &&
      TailsLanded(m, used, ubatches, n)
    requires EqualTaken(m, used, marked, sets, from, to, len, ub.idxs)
    ensures TailsLanded(m, marked, ubatches + [ub], n)
  {
    forall s | s in m
      ensures TailLanded(m, marked, ubatches + [ub], n, s)
    {
      var list := m[s];
      if CutAt(marked, list, |list|) {
        assert EntryOk(seqSet, m, s);
        var k := CutExists(seqSet, used, s, list, 0);
        if k == |list| {
          assert TailLanded(m, used, ubatches, n, s);
          var u :| 0 <= u < |ubatches| && HoldsTail(ubatches[u], list, n);
          assert HoldsTail((ubatches + [ub])[u], list, n);
        } else {
          LandsNow(m, used, marked, sets, from, to, len, ub, list, k, n);
          assert HoldsTail((ubatches + [ub])[|ubatches|], list, n);
        }
      }
    }
  }

  lemma LandsNow(m: map<SeqSet, seq<nat>>, used: seq<bool>, marked: seq<bool>,
                 sets: seq<SeqSet>, from: seq<nat>, to: seq<nat>, len: nat, ub: UBatch, list: seq<nat>, k: nat, n: nat)
    requires EqualTaken(m, used, marked, sets, from, to, len, ub.idxs)
    requires CutAt(used, list, k) && CutAt(marked, list, |list|) && k < |list| && TailSafeAt(list, k, n)
    ensures HoldsTail(ub, list, n)
  {
    forall j | 0 <= j < |list| && |list| - n <= j
      ensures list[j] in ub.idxs
    {
      NewlyUsed(used, marked, ListsIn(m, sets), from, to, list[j]);
    }
  }

  /** In a sequential split of an uncoupled batch each sequence has its rows, and ids follow each other. */
  lemma SequentialRows(batch: seq<BatchToken>, seqSet: seq<SeqSet>, nSeqMax: nat, m: map<SeqSet, seq<nat>>,
                       used: seq<bool>, marked: seq<bool>, sets: seq<SeqSet>, firsts: seq<nat>, from: seq<nat>,
                       to: seq<nat>, nUbatch: nat, nKeepTail: nat, ub: UBatch)
    requires EqualTaken(m, used, marked, sets, from, to, ub.nSeqTokens, ub.idxs) && IsSetMap(seqSet, m)
    requires WellChosen(batch, seqSet, m, used, sets, firsts, to, ub.nSeqTokens, nUbatch, true, nKeepTail)
    requires |seqSet| == |batch| && !Coupled(batch) && forall i: nat :: TokenOk(batch, seqSet, nSeqMax, i)
    requires CopiedFrom(batch, ub) && ub.nSeqs == |sets| && |ub.idxs| == ub.nSeqs * ub.nSeqTokens
    ensures RowsConsecutive(ub)
  {
    var first := IdOfFirst(batch, firsts);
    forall s: nat, k: nat | s < ub.nSeqs && k < ub.nSeqTokens
      ensures RowIs(ub, first, s, k)
    {
      SequentialRow(batch, seqSet, nSeqMax, m, used, marked, sets, firsts, from, to, ub, s, k);
    }
    RowsByIds(ub, first);
  }

  function IdOfFirst(batch: seq<BatchToken>, firsts: seq<nat>): int {
    if firsts == [] || firsts[0] >= |batch| then -1 else FirstId(batch[firsts[0]])
  }

  /** Row `s * nSeqTokens + k` belongs to the `s`-th sequence from `first` on, and to no other. */
  ghost predicate RowIs(ub: UBatch, first: int, s: nat, k: nat) {
    0 <= s * ub.nSeqTokens + k < |ub.tokens| && ub.tokens[s * ub.nSeqTokens + k].seqIds == [first + s]
  }

  lemma RowsByIds(ub: UBatch, first: int)
    requires |ub.tokens| == ub.nSeqs * ub.nSeqTokens && ub.nSeqs > 0 && ub.nSeqTokens > 0
    requires forall s: nat, k: nat :: s < ub.nSeqs && k < ub.nSeqTokens ==> RowIs(ub, first, s, k)
    ensures RowsConsecutive(ub)
  {
    assert RowIs(ub, first, 0, 0);
    ZeroTimes(ub.nSeqTokens);
    assert ub.tokens[0].seqIds == [first + 0];
    forall s: nat, k: nat
      ensures RowInSequence(ub, s, k)
    {
      assert s < ub.nSeqs && k < ub.nSeqTokens ==> RowIs(ub, first, s, k);
    }
  }

  lemma ZeroTimes(n: nat)
    ensures 0 * n + 0 == 0
  {
  }

  lemma SequentialRow(batch: seq<BatchToken>, seqSet: seq<SeqSet>, nSeqMax: nat, m: map<SeqSet, seq<nat>>,
                      used: seq<bool>, marked: seq<bool>, sets: seq<SeqSet>, firsts: seq<nat>, from: seq<nat>,
                      to: seq<nat>, ub: UBatch, s: nat, k: nat)
    requires EqualTaken(m, used, marked, sets, from, to, ub.nSeqTokens, ub.idxs) && IsSetMap(seqSet, m)
    requires |used| == |seqSet| && Chosen(seqSet, used, sets, firsts) && Consecutive(batch, firsts)
    requires |seqSet| == |batch| && !Coupled(batch) && forall i: nat :: TokenOk(batch, seqSet, nSeqMax, i)
    requires CopiedFrom(batch, ub) && s < |sets| && k < ub.nSeqTokens
    ensures RowIs(ub, IdOfFirst(batch, firsts), s, k)
  {
    EqualRows(m, used, marked, sets, from, to, ub.nSeqTokens, ub.idxs, s, k);
    var i := m[sets[s]][from[s] + k];
    ListedSet(seqSet, m, sets[s], from[s] + k);
    RowIds(batch, seqSet, nSeqMax, firsts, s, i);
    RowAt(batch, ub, IdOfFirst(batch, firsts), s, k, i);
  }

  lemma RowAt(batch: seq<BatchToken>, ub: UBatch, first: int, s: nat, k: nat, i: nat)
    requires CopiedFrom(batch, ub) && 0 <= s * ub.nSeqTokens + k < |ub.idxs| && ub.idxs[s * ub.nSeqTokens + k] == i
    requires i < |batch| && batch[i].seqIds == [first + s]
    ensures RowIs(ub, first, s, k)
  {
  }

  lemma ListedSet(seqSet: seq<SeqSet>, m: map<SeqSet, seq<nat>>, s: SeqSet, j: nat)
    requires IsSetMap(seqSet, m) && s in m && j < |m[s]|
    ensures m[s][j] < |seqSet| && seqSet[m[s][j]] == s
  {
    assert EntryOk(seqSet, m, s);
  }

  lemma RowIds(batch: seq<BatchToken>, seqSet: seq<SeqSet>, nSeqMax: nat, firsts: seq<nat>, s: nat, i: nat)
    requires |seqSet| == |batch| && !Coupled(batch) && forall i: nat :: TokenOk(batch, seqSet, nSeqMax, i)
    requires Consecutive(batch, firsts) && s < |firsts| && i < |batch| && seqSet[i] == seqSet[firsts[s]]
    ensures batch[i].seqIds == [batch[firsts[0]].seqIds[0] + s]
  {
    UncoupledSet(batch, seqSet, nSeqMax, i);
    UncoupledSet(batch, seqSet, nSeqMax, firsts[s]);
    assert batch[i].seqIds[0] in seqSet[i];
  }

  lemma UncoupledSet(batch: seq<BatchToken>, seqSet: seq<SeqSet>, nSeqMax: nat, i: nat)
    requires |seqSet| == |batch| && !Coupled(batch) && TokenOk(batch, seqSet, nSeqMax, i) && i < |batch|
    ensures |batch[i].seqIds| == 1 && seqSet[i] == {batch[i].seqIds[0]}
  {
    assert |batch[i].seqIds| <= 1;
  }

  /** One micro-batch in the given mode; none if there is nothing left, or if the mode refuses the batch. */
  method Split(a: BatchAllocr, mode: SplitMode, nUbatch: nat, ghost before: seq<UBatch>) returns (ub: UBatch)
    requires a.Valid() && (mode.Simple? ==> UsedUpTo(a.used, a.nUsed)) && (TailOf(mode) > 0 ==> nUbatch > TailOf(mode))
    requires mode.Equal? ==> TailSafe(a.seqSetMap, a.used, TailOf(mode))
    requires mode.Equal? ==> TailsLanded(a.seqSetMap, a.used, before, TailOf(mode))
    modifies a`outIds, a`nUsed, a`used, a`emitted
    ensures a.Valid() && (mode.Simple? ==> UsedUpTo(a.used, a.nUsed)) && a.emitted == old(a.emitted) + ub.idxs
    ensures ub.idxs == [] <==> Refused(mode, a.hasCpl) || old(AllUsed(a.used))
    ensures ub.idxs == [] ==> a.used == old(a.used)
    ensures ub.idxs != [] ==> WellCut(mode, a.batch, a.seqSet, nUbatch, ub)
    ensures ub.idxs != [] ==> IsStep(mode, a.batch, a.seqSet, a.seqSetMap, old(a.used), nUbatch, ub.idxs)
    ensures mode.Equal? ==> TailSafe(a.seqSetMap, a.used, TailOf(mode))
    ensures mode.Equal? && ub.idxs != [] ==> TailsLanded(a.seqSetMap, a.used, before + [ub], TailOf(mode))
  {
    match mode
    case Simple =>
      ub := SplitSimpleStep(a, nUbatch);
    case BySequence =>
      ub := SplitSeqStep(a, nUbatch);
    case Equal(sequential, nKeepTail) =>
      ub := SplitEqualStep(a, nUbatch, sequential, nKeepTail, before);
  }

  method SplitSimpleStep(a: BatchAllocr, nUbatch: nat) returns (ub: UBatch)
    requires a.Valid() && UsedUpTo(a.used, a.nUsed)
    modifies a`outIds, a`nUsed, a`used, a`emitted
    ensures a.Valid() && UsedUpTo(a.used, a.nUsed) && a.emitted == old(a.emitted) + ub.idxs
    ensures ub.idxs == [] <==> old(AllUsed(a.used))
    ensures ub.idxs == [] ==> a.used == old(a.used)
    ensures ub.idxs != [] ==> WellCut(Simple, a.batch, a.seqSet, nUbatch, ub)
    ensures ub.idxs != [] ==> IsStep(Simple, a.batch, a.seqSet, a.seqSetMap, old(a.used), nUbatch, ub.idxs)
  {
    ghost var used := a.used;
    CountAll(used);
    ghost var n := a.nUsed;
    ub := a.SplitSimple(nUbatch);
    PrefixRun(used, n, nUbatch, ub.idxs, a.used);
    SimpleStep(a.batch, a.seqSet, a.seqSetMap, used, nUbatch, ub);
  }

  /** When the first `n` tokens are used, the run is that of the next ones, and it is free. */
  lemma PrefixRun(used: seq<bool>, n: nat, nUbatch: nat, idxs: seq<nat>, marked: seq<bool>)
    requires UsedUpTo(used, n) && IsRun(used, nUbatch, idxs, marked)
    ensures RunFree(used, idxs) && UsedUpTo(marked, n + |idxs|)
    ensures idxs == Interval(n, Max(n, Min(n + Max(1, nUbatch), |used|)))
  {
    FirstFreeIs(used, n);
  }

  lemma SimpleStep(batch: seq<BatchToken>, seqSet: seq<SeqSet>, m: map<SeqSet, seq<nat>>, used: seq<bool>, nUbatch: nat,
                   ub: UBatch)
    requires |batch| == |seqSet| == |used| && CopiedFrom(batch, ub)
    requires CountTrue(used) <= |batch|
    requires ub.idxs == Interval(CountTrue(used), Min(CountTrue(used) + Max(1, nUbatch), |batch|))
    ensures ub.idxs == [] <==> CountTrue(used) == |batch|
    ensures ub.idxs != [] ==>
      WellCut(Simple, batch, seqSet, nUbatch, ub) && IsStep(Simple, batch, seqSet, m, used, nUbatch, ub.idxs)
  {
    var n := CountTrue(used);
    var end := Min(n + Max(1, nUbatch), |batch|);
    assert n <= end && Max(n, end) == end && |ub.idxs| == end - n;
    if n < end {
      assert ub.idxs[0] == n && ub.idxs[0] + |ub.idxs| == end;
    }
  }

  method SplitSeqStep(a: BatchAllocr, nUbatch: nat) returns (ub: UBatch)
    requires a.Valid()
    modifies a`outIds, a`nUsed, a`used, a`emitted
    ensures a.Valid() && a.emitted == old(a.emitted) + ub.idxs
    ensures ub.idxs == [] <==> old(AllUsed(a.used))
    ensures ub.idxs == [] ==> a.used == old(a.used)
    ensures ub.idxs != [] ==> WellCut(BySequence, a.batch, a.seqSet, nUbatch, ub)
    ensures ub.idxs != [] ==> IsStep(BySequence, a.batch, a.seqSet, a.seqSetMap, old(a.used), nUbatch, ub.idxs)
  {
    ub := a.SplitSeq(nUbatch);
  }

  method SplitEqualStep(a: BatchAllocr, nUbatch: nat, sequential: bool, nKeepTail: nat, ghost before: seq<UBatch>)
    returns (ub: UBatch)
    requires a.Valid() && (nKeepTail > 0 ==> nUbatch > nKeepTail)
    requires TailSafe(a.seqSetMap, a.used, nKeepTail) && TailsLanded(a.seqSetMap, a.used, before, nKeepTail)
    modifies a`outIds, a`nUsed, a`used, a`emitted
    ensures a.Valid() && a.emitted == old(a.emitted) + ub.idxs
    ensures ub.idxs == [] <==> (sequential && a.hasCpl) || old(AllUsed(a.used))
    ensures ub.idxs == [] ==> a.used == old(a.used)
    ensures ub.idxs != [] ==> WellCut(Equal(sequential, nKeepTail), a.batch, a.seqSet, nUbatch, ub)
    ensures ub.idxs != [] ==> IsStep(Equal(sequential, nKeepTail), a.batch, a.seqSet, a.seqSetMap, old(a.used), nUbatch,
      ub.idxs)
    ensures TailSafe(a.seqSetMap, a.used, nKeepTail)
    ensures ub.idxs != [] ==> TailsLanded(a.seqSetMap, a.used, before + [ub], nKeepTail)
  {
    ghost var used := a.used;
    ghost var sets, firsts, from, to;
    ub, sets, firsts, from, to := a.SplitEqual(nUbatch, sequential, nKeepTail);
    if ub.idxs != [] {
      SizeIff(a.batch, a.seqSet, a.seqSetMap, used, sets, from, to, ub.nSeqTokens, |ub.idxs|, nUbatch, sequential,
        nKeepTail);
      assert IsEqualStep(a.batch, a.seqSet, a.seqSetMap, used, sets, from, to, nUbatch, sequential, nKeepTail, ub.idxs);
      EqualStep(a.batch, a.seqSet, a.nSeqMax, a.seqSetMap, used, a.used, sets, firsts, from, to, nUbatch, sequential,
        nKeepTail, before, ub);
    }
  }

  lemma EqualStep(batch: seq<BatchToken>, seqSet: seq<SeqSet>, nSeqMax: nat, m: map<SeqSet, seq<nat>>, used: seq<bool>,
                  marked: seq<bool>, sets: seq<SeqSet>, firsts: seq<nat>, from: seq<nat>, to: seq<nat>, nUbatch: nat,
                  sequential: bool, nKeepTail: nat, before: seq<UBatch>, ub: UBatch)
    requires EqualTaken(m, used, marked, sets, from, to, ub.nSeqTokens, ub.idxs) && IsSetMap(seqSet, m) &&
      UsedInOrder(seqSet, used)
    requires WellChosen(batch, seqSet, m, used, sets, firsts, to, ub.nSeqTokens, nUbatch, sequential, nKeepTail)
    requires |seqSet| == |batch| && (sequential ==> !Coupled(batch)) &&
      forall i: nat :: TokenOk(batch, seqSet, nSeqMax, i)
    requires CopiedFrom(batch, ub) && ub.nSeqs == |sets| && |ub.idxs| == ub.nSeqs * ub.nSeqTokens && ub.idxs != []
    requires TailSafe(m, used, nKeepTail) && TailsLanded(m, used, before, nKeepTail)
    ensures WellCut(Equal(sequential, nKeepTail), batch, seqSet, nUbatch, ub)
    ensures TailSafe(m, marked, nKeepTail) && TailsLanded(m, marked, before + [ub], nKeepTail)
  {
    EqualKeepsTails(batch, seqSet, m, used, marked, sets, firsts, from, to, ub.nSeqTokens, ub.idxs, nUbatch, sequential,
      nKeepTail);
    TailsLandedMore(seqSet, m, used, marked, sets, from, to, ub.nSeqTokens, before, ub, nKeepTail);
    if sequential {
      SequentialRows(batch, seqSet, nSeqMax, m, used, marked, sets, firsts, from, to, nUbatch, nKeepTail, ub);
    }
  }

  lemma NothingUsed(seqSet: seq<SeqSet>, m: map<SeqSet, seq<nat>>, used: seq<bool>, n: nat)
    requires IsSetMap(seqSet, m) && UsedUpTo(used, 0) && |used| == |seqSet|
    ensures TailSafe(m, used, n) && TailsLanded(m, used, [], n)
  {
    forall s | s in m
      ensures TailLanded(m, used, [], n, s)
      ensures forall k: nat :: CutAt(used, m[s], k) ==> k == 0
    {
      assert EntryOk(seqSet, m, s);
      assert !used[m[s][0]];
    }
  }

  /** Everything is used exactly once, and the outputs are those of the batch. */
  lemma Complete(a: BatchAllocr)
    requires a.Valid() && AllUsed(a.used)
    ensures NoDuplicates(a.emitted) && forall i :: i in a.emitted <==> 0 <= i < |a.batch|
    ensures NoDuplicates(a.outIds) && |a.outIds| == a.nOutputs
    ensures forall i :: i in a.outIds <==> 0 <= i < |a.batch| && a.batch[i].output
    ensures a.nUsed == |a.batch|
  {
    forall i: nat | i < |a.batch|
      ensures i in a.emitted
    {
      assert EmittedIfUsed(a.used, a.emitted, i);
    }
    CountAll(a.used);
    OutputsOfMember(a.batch, a.emitted);
    OutputsOfAll(a.batch, a.emitted);
  }

  ghost predicate AllWellCut(mode: SplitMode, batch: seq<BatchToken>, seqSet: seq<SeqSet>, nUbatch: nat,
                             ubatches: seq<UBatch>) {
    forall u: nat :: WellCutAt(mode, batch, seqSet, nUbatch, ubatches, u)
  }

  ghost predicate WellCutAt(mode: SplitMode, batch: seq<BatchToken>, seqSet: seq<SeqSet>, nUbatch: nat,
                            ubatches: seq<UBatch>, u: nat) {
    u < |ubatches| ==> WellCut(mode, batch, seqSet, nUbatch, ubatches[u])
  }

  lemma AllWellCutMore(mode: SplitMode, batch: seq<BatchToken>, seqSet: seq<SeqSet>, nUbatch: nat,
                       ubatches: seq<UBatch>, ub: UBatch)
    requires AllWellCut(mode, batch, seqSet, nUbatch, ubatches) && WellCut(mode, batch, seqSet, nUbatch, ub)
    ensures AllWellCut(mode, batch, seqSet, nUbatch, ubatches + [ub])
  {
    forall u: nat
      ensures WellCutAt(mode, batch, seqSet, nUbatch, ubatches + [ub], u)
    {
      assert WellCutAt(mode, batch, seqSet, nUbatch, ubatches, u);
    }
  }

  /** The sequences of a batch in which each token has one. */
  ghost function SeqsOf(batch: seq<BatchToken>): set<int> {
    set i | 0 <= i < |batch| :: FirstId(batch[i])
  }

  ghost predicate AllFit(nUbatch: nat, ubatches: seq<UBatch>) {
    forall u :: 0 <= u < |ubatches| ==> |ubatches[u].idxs| <= nUbatch
  }

  /** No micro-batch is too large, or already the first one is. */
  ghost predicate SizesDecided(nUbatch: nat, fits: bool, ubatches: seq<UBatch>) {
    && (fits ==> AllFit(nUbatch, ubatches))
    && (!fits && ubatches != [] ==> |ubatches[0].idxs| > nUbatch)
  }

  /** The split that takes tokens evenly, in any order of ids and without tails to keep, of an uncoupled batch. */
  predicate PlainEqual(mode: SplitMode, hasCpl: bool) {
    mode == Equal(false, 0) && !hasCpl
  }

  lemma SizesDecidedMore(batch: seq<BatchToken>, seqSet: seq<SeqSet>, nSeqMax: nat, m: map<SeqSet, seq<nat>>,
                         used: seq<bool>, emitted: seq<nat>, nUbatch: nat, ubatches: seq<UBatch>, ub: UBatch)
    requires |batch| == |seqSet| == |used| && !Coupled(batch) && forall i: nat :: TokenOk(batch, seqSet, nSeqMax, i)
    requires IsSetMap(seqSet, m) && UsedInOrder(seqSet, used) && Emitted(used, emitted) &&
      emitted == Flatten(Indices(ubatches))
    requires SizesDecided(nUbatch, |SeqsOf(batch)| <= nUbatch, ubatches)
    requires |ub.idxs| > nUbatch <==> Overfull(batch, seqSet, m, used, nUbatch, false, 0)
    ensures SizesDecided(nUbatch, |SeqsOf(batch)| <= nUbatch, ubatches + [ub])
  {
    OverfullMeans(batch, seqSet, nSeqMax, m, used, nUbatch);
    var none := seq(|batch|, _ => false);
    FewerUnused(batch, none, used);
    assert UnusedSeqs(batch, none) == SeqsOf(batch);
    if ubatches == [] {
      forall i: nat | i < |used|
        ensures !used[i]
      {
        assert EmittedIfUsed(used, emitted, i);
      }
      assert used == none;
    }
  }

  /** Behind the first `u` micro-batches the next one has to be too large. */
  ghost predicate OverfullBehind(mode: SplitMode, batch: seq<BatchToken>, seqSet: seq<SeqSet>, m: map<SeqSet, seq<nat>>,
                                 nUbatch: nat, ubatches: seq<UBatch>, u: nat)
    requires mode.Equal? && |batch| == |seqSet| && u <= |ubatches|
  {
    var used := UsedBy(|batch|, Flatten(Indices(ubatches[..u])));
    Overfull(batch, seqSet, m, used, nUbatch, mode.sequential, mode.nKeepTail)
  }

  /** In any equal split the micro-batches are too large exactly where the tokens that are left make them so. */
  lemma RunSizesIff(mode: SplitMode, batch: seq<BatchToken>, seqSet: seq<SeqSet>, m: map<SeqSet, seq<nat>>,
                    nUbatch: nat, ubatches: seq<UBatch>)
    requires mode.Equal? && |batch| == |seqSet| && Stepwise(mode, batch, seqSet, m, nUbatch, ubatches)
    ensures AllFit(nUbatch, ubatches) <==>
      forall u :: 0 <= u < |ubatches| ==> !OverfullBehind(mode, batch, seqSet, m, nUbatch, ubatches, u)
  {
    forall u | 0 <= u < |ubatches|
      ensures |ubatches[u].idxs| > nUbatch <==> OverfullBehind(mode, batch, seqSet, m, nUbatch, ubatches, u)
    {
      assert StepAt(mode, batch, seqSet, m, nUbatch, ubatches, u);
    }
  }

  /** As long as there are no more sequences than there is room for, no micro-batch of any equal split is too large. */
  lemma FewSequencesFit(mode: SplitMode, batch: seq<BatchToken>, seqSet: seq<SeqSet>, nSeqMax: nat,
                        m: map<SeqSet, seq<nat>>, nUbatch: nat, ubatches: seq<UBatch>)
    requires |batch| == |seqSet| && !Coupled(batch) && forall i: nat :: TokenOk(batch, seqSet, nSeqMax, i)
    requires mode.Equal? && |SeqsOf(batch)| <= nUbatch && Stepwise(mode, batch, seqSet, m, nUbatch, ubatches)
    ensures AllFit(nUbatch, ubatches)
  {
    var none := seq(|batch|, _ => false);
    assert UnusedSeqs(batch, none) == SeqsOf(batch);
    forall u | 0 <= u < |ubatches|
      ensures |ubatches[u].idxs| <= nUbatch
    {
      var used := UsedBy(|batch|, Flatten(Indices(ubatches[..u])));
      assert StepAt(mode, batch, seqSet, m, nUbatch, ubatches, u);
      PicksAreSequences(batch, seqSet, nSeqMax, used, nUbatch, mode.sequential);
      FewerUnused(batch, none, used);
    }
  }

  /** What has been emitted, in how large pieces. */
  ghost predicate CutSoFar(mode: SplitMode, batch: seq<BatchToken>, seqSet: seq<SeqSet>, m: map<SeqSet, seq<nat>>,
                           hasCpl: bool, nUbatch: nat, emitted: seq<nat>, ubatches: seq<UBatch>) {
    && emitted == Flatten(Indices(ubatches))
    && AllWellCut(mode, batch, seqSet, nUbatch, ubatches)
    && Stepwise(mode, batch, seqSet, m, nUbatch, ubatches)
    && (PlainEqual(mode, hasCpl) ==> SizesDecided(nUbatch, |SeqsOf(batch)| <= nUbatch, ubatches))
  }

  lemma CutMore(mode: SplitMode, batch: seq<BatchToken>, seqSet: seq<SeqSet>, nSeqMax: nat, m: map<SeqSet, seq<nat>>,
                hasCpl: bool, used: seq<bool>, emitted: seq<nat>, nUbatch: nat, ubatches: seq<UBatch>, ub: UBatch)
    requires |batch| == |seqSet| == |used| && (hasCpl <==> Coupled(batch)) &&
      forall i: nat :: TokenOk(batch, seqSet, nSeqMax, i)
    requires IsSetMap(seqSet, m) && UsedInOrder(seqSet, used) && Emitted(used, emitted)
    requires IsStep(mode, batch, seqSet, m, used, nUbatch, ub.idxs)
    requires CutSoFar(mode, batch, seqSet, m, hasCpl, nUbatch, emitted, ubatches) &&
      WellCut(mode, batch, seqSet, nUbatch, ub)
    ensures CutSoFar(mode, batch, seqSet, m, hasCpl, nUbatch, emitted + ub.idxs, ubatches + [ub])
  {
    IndicesMore(ubatches, ub);
    AllWellCutMore(mode, batch, seqSet, nUbatch, ubatches, ub);
    EmittedIsUsed(used, emitted);
    StepwiseMore(mode, batch, seqSet, m, nUbatch, ubatches, ub);
    if PlainEqual(mode, hasCpl) {
      SizesDecidedMore(batch, seqSet, nSeqMax, m, used, emitted, nUbatch, ubatches, ub);
    }
  }

  /** The micro-batches cut so far. */
  ghost predicate Cutting(a: BatchAllocr, mode: SplitMode, nUbatch: nat, ubatches: seq<UBatch>)
    reads a
  {
    && a.Valid() && (mode.Simple? ==> UsedUpTo(a.used, a.nUsed))
    && CutSoFar(mode, a.batch, a.seqSet, a.seqSetMap, a.hasCpl, nUbatch, a.emitted, ubatches)
    && (mode.Equal? ==> TailSafe(a.seqSetMap, a.used, TailOf(mode)))
    && (mode.Equal? ==> TailsLanded(a.seqSetMap, a.used, ubatches, TailOf(mode)))
    && (Refused(mode, a.hasCpl) ==> ubatches == [] && a.nUsed == 0)
  }

  method StartCutting(a: BatchAllocr, mode: SplitMode, nUbatch: nat)
    requires a.Loaded()
    modifies a`outIds, a`nUsed, a`used, a`emitted
    ensures Cutting(a, mode, nUbatch, [])
  {
    a.SplitReset();
    PrefixInOrder(a.seqSet, a.used, 0);
    NothingUsed(a.seqSet, a.seqSetMap, a.used, TailOf(mode));
  }

  /** One micro-batch more, if there is one. */
  method CutNext(a: BatchAllocr, mode: SplitMode, nUbatch: nat, ubatches: seq<UBatch>)
    returns (more: bool, next: seq<UBatch>)
    requires Cutting(a, mode, nUbatch, ubatches) && (TailOf(mode) > 0 ==> nUbatch > TailOf(mode))
    modifies a`outIds, a`nUsed, a`used, a`emitted
    ensures Cutting(a, mode, nUbatch, next)
    ensures more ==> |old(a.emitted)| < |a.emitted| <= |a.batch|
    ensures !more ==> Refused(mode, a.hasCpl) || AllUsed(a.used)
  {
    ghost var used, emitted := a.used, a.emitted;
    var ub := Split(a, mode, nUbatch, ubatches);
    if ub.idxs == [] {
      return false, ubatches;
    }
    CutMore(mode, a.batch, a.seqSet, a.nSeqMax, a.seqSetMap, a.hasCpl, used, emitted, nUbatch, ubatches, ub);
    NoDupBound(a.emitted, |a.batch|);
    return true, ubatches + [ub];
  }

  /** The loop: it stops at the first empty micro-batch. */
  method CutAll(a: BatchAllocr, mode: SplitMode, nUbatch: nat) returns (ubatches: seq<UBatch>)
    requires a.Loaded() && (TailOf(mode) > 0 ==> nUbatch > TailOf(mode))
    modifies a`outIds, a`nUsed, a`used, a`emitted
    ensures Cutting(a, mode, nUbatch, ubatches) && (Refused(mode, a.hasCpl) || AllUsed(a.used))
  {
    StartCutting(a, mode, nUbatch);
    ubatches := [];
    var more := true;
    while more
      invariant Cutting(a, mode, nUbatch, ubatches)
      invariant !more ==> Refused(mode, a.hasCpl) || AllUsed(a.used)
      decreases more, |a.batch| - |a.emitted|
    {
      more, ubatches := CutNext(a, mode, nUbatch, ubatches);
    }
  }

  /**
    Cuts the batch from the start. The run ends; unless the mode refuses the batch, every token is in
    exactly one micro-batch, tokens of one sequence set stay in order, and the output list holds
    exactly the marked tokens.
    */
  method InitBatch(a: BatchAllocr, mode: SplitMode, nUbatch: nat) returns (ok: bool, ubatches: seq<UBatch>)
    requires a.Loaded() && a.batch != [] && (TailOf(mode) > 0 ==> nUbatch > TailOf(mode))
    modifies a`outIds, a`nUsed, a`used, a`emitted
    ensures a.Valid() && (ok <==> !Refused(mode, a.hasCpl)) && (!ok ==> ubatches == [])
    ensures a.emitted == Flatten(Indices(ubatches)) && EmittedInOrder(a.seqSet, a.emitted)
    ensures AllWellCut(mode, a.batch, a.seqSet, nUbatch, ubatches)
    ensures Stepwise(mode, a.batch, a.seqSet, a.seqSetMap, nUbatch, ubatches)
    ensures ok ==> NoDuplicates(a.emitted) && forall i :: i in a.emitted <==> 0 <= i < |a.batch|
    ensures ok ==> NoDuplicates(a.outIds) && |a.outIds| == a.nOutputs
    ensures ok ==> a.outIds == OutputsOf(a.batch, a.emitted)
    ensures ok ==> forall i :: i in a.outIds <==> 0 <= i < |a.batch| && a.batch[i].output
    ensures ok && mode.Equal? ==> forall s :: s in a.seqSetMap ==> TailTogether(ubatches, a.seqSetMap[s], TailOf(mode))
    ensures mode.Equal? && !a.hasCpl && |SeqsOf(a.batch)| <= nUbatch ==> AllFit(nUbatch, ubatches)
    ensures PlainEqual(mode, a.hasCpl) ==> (AllFit(nUbatch, ubatches) <==> |SeqsOf(a.batch)| <= nUbatch)
  {
    ubatches := CutAll(a, mode, nUbatch);
    ok := a.nUsed >= |a.batch|;
    if mode.Equal? && !a.hasCpl && |SeqsOf(a.batch)| <= nUbatch {
      FewSequencesFit(mode, a.batch, a.seqSet, a.nSeqMax, a.seqSetMap, nUbatch, ubatches);
    }
    if !Refused(mode, a.hasCpl) {
      Complete(a);
      if mode.Equal? {
        AllLanded(a.seqSet, a.seqSetMap, a.used, ubatches, TailOf(mode));
      }
    }
  }

  lemma AllLanded(seqSet: seq<SeqSet>, m: map<SeqSet, seq<nat>>, used: seq<bool>, ubatches: seq<UBatch>, n: nat)
    requires IsSetMap(seqSet, m) && AllUsed(used) && |used| == |seqSet| && TailsLanded(m, used, ubatches, n)
    ensures forall s :: s in m ==> TailTogether(ubatches, m[s], n)
  {
    forall s | s in m
      ensures TailTogether(ubatches, m[s], n)
    {
      assert EntryOk(seqSet, m, s);
      assert TailLanded(m, used, ubatches, n, s);
    }
  }

  /** Two tokens of different sequences. */
  function TwoTokens(): BatchInput {
    BatchInput(2, Some([0, 0]), None, Some([[0], [1]]), None)
  }

  lemma TwoTokensPass(batch: seq<BatchToken>)
    requires IsFilled(batch, TwoTokens(), NoMemory, 2, true)
    ensures Acceptable(batch, NoMemory, 2) && !Coupled(batch) && |batch| == 2 && |SeqsOf(batch)| == 2
  {
    var seqIds := SeqIdsOf(TwoTokens(), 2);
    assert seqIds[0] == [0] && seqIds[1] == [1];
    OmittedPositionsPass(batch, TwoTokens(), NoMemory, 1, 2, true);
    assert batch[0].seqIds == [0] && batch[1].seqIds == [1];
    assert FirstId(batch[0]) == 0 && FirstId(batch[1]) == 1;
    assert SeqsOf(batch) == {0, 1};
  }

  /** A fresh allocator accepts such a batch, and with room for one token its first micro-batch holds both. */
  method OneTooMany(a: BatchAllocr, nVocab: nat) returns (ub: UBatch)
    requires nVocab > 0
    modifies a
    ensures |ub.idxs| == 2
  {
    var inp := TwoTokens();
    assert IdsValid(inp, nVocab, 2);
    var ok := a.Init(inp, nVocab, NoMemory, 2, true);
    TwoTokensPass(a.batch);
    ub := TwoAtOnce(a);
  }

  method TwoAtOnce(a: BatchAllocr) returns (ub: UBatch)
    requires a.Valid() && UsedUpTo(a.used, 0) && !Coupled(a.batch) && |a.batch| == 2 && |SeqsOf(a.batch)| == 2
    modifies a`outIds, a`nUsed, a`used, a`emitted
    ensures |ub.idxs| == 2
  {
    ghost var used := a.used;
    ghost var sets, firsts, from, to;
    OverfullMeans(a.batch, a.seqSet, a.nSeqMax, a.seqSetMap, used, 1);
    assert UnusedSeqs(a.batch, used) == SeqsOf(a.batch);
    assert !used[0];
    ub, sets, firsts, from, to := a.SplitEqual(1, false, 0);
    SizeIff(a.batch, a.seqSet, a.seqSetMap, used, sets, from, to, ub.nSeqTokens, |ub.idxs|, 1, false, 0);
    NoDupBound(a.emitted, 2);
  }
}
