/**
  The batch allocator: cuts a batch into micro-batches. Every splitter keeps count of the used
  tokens and lists the outputs in the order in which they are emitted.
  */
module BatchSplit {
  import opened BatchTokens
  import opened BatchEqual
  import opened BatchInit
  import opened AcceptedBatch

  function Max(a: nat, b: nat): nat {
    if a < b then b else a
  }

  function Min(a: nat, b: nat): nat {
    if a < b then a else b
  }

  /** The rows of a micro-batch are tokens of the batch. */
  ghost predicate CopiedFrom(batch: seq<BatchToken>, ub: UBatch) {
    && Below(ub.idxs, |batch|) && |ub.tokens| == |ub.idxs|
    && forall k :: 0 <= k < |ub.idxs| ==> ub.tokens[k] == batch[ub.idxs[k]]
  }

  /** One of the tokens belongs to the sequence. */
  ghost predicate HasId(toks: seq<BatchToken>, s: nat) {
    exists i :: 0 <= i < |toks| && s in toks[i].seqIds
  }

  lemma HasIdMore(toks: seq<BatchToken>, t: BatchToken, s: nat)
    ensures HasId(toks + [t], s) <==> HasId(toks, s) || s in t.seqIds
  {
    var more := toks + [t];
    if i :| 0 <= i < |toks| && s in toks[i].seqIds {
      assert s in more[i].seqIds;
    }
    if s in t.seqIds {
      assert s in more[|toks|].seqIds;
    }
  }

  /** The sequence ids of the tokens, in increasing order. */
  ghost predicate IsIdsOf(ids: seq<nat>, toks: seq<BatchToken>) {
    Ascending(ids) && forall s :: s in ids <==> HasId(toks, s)
  }

  /** Where a sequence id is among the ids, or -1. */
  ghost predicate IsIndexOf(idx: seq<int>, ids: seq<nat>) {
    && (forall s :: 0 <= s < |idx| && idx[s] != -1 ==> 0 <= idx[s] < |ids| && ids[idx[s]] == s)
    && (forall s :: 0 <= s < |idx| && s in ids ==> idx[s] != -1)
  }

  /** `first` starts the list of unused tokens. */
  ghost predicate IsFirstUnused(used: seq<bool>, first: nat) {
    first < |used| && !used[first] && forall i :: 0 <= i < first ==> used[i]
  }

  ghost predicate AllUsed(used: seq<bool>) {
    UsedBelow(used, |used|)
  }

  class BatchAllocr {
    var batch: seq<BatchToken>
    var nSeqMax: nat
    var nOutputs: nat
    var hasCpl: bool
    var seqSet: seq<SeqSet>
    var seqSetMap: map<SeqSet, seq<nat>>
    var outIds: seq<nat>
    var nUsed: nat
    var used: seq<bool>
    ghost var emitted: seq<nat>  // the indices of all micro-batches since the last reset

    /** What initialisation sets up and no splitter changes. */
    ghost predicate Loaded()
      reads this`batch, this`nSeqMax, this`hasCpl, this`seqSet, this`seqSetMap, this`nOutputs
    {
      && |seqSet| == |batch|
      && (forall i: nat :: TokenOk(batch, seqSet, nSeqMax, i))
      && (hasCpl <==> Coupled(batch))
      && nOutputs == CountOutputs(batch)
      && IsSetMap(seqSet, seqSetMap)
    }

    ghost predicate Valid()
      reads this
    {
      && Loaded()
      && UsedInOrder(seqSet, used)
      && nUsed == CountTrue(used)
      && Emitted(used, emitted)
      && EmittedInOrder(seqSet, emitted)
      && outIds == OutputsOf(batch, emitted)
    }

    constructor ()
    {
      batch, nSeqMax, nOutputs, hasCpl := [], 0, 0, false;
      seqSet, seqSetMap, outIds, nUsed, used, emitted := [], map[], [], 0, [], [];
    }

    /** Takes in a batch. It is accepted exactly if its ids are valid and its positions fit each other and memory. */
    method Init(inp: BatchInput, nVocab: nat, memory: MemoryBounds, nSeqMax: nat, outputAll: bool) returns (ok: bool)
      requires WellSized(inp) && nSeqMax > 0 && MemoryFits(memory, nSeqMax)
      modifies this
      ensures ok ==> nSeqMax <= MAX_SEQ && IdsValid(inp, nVocab, nSeqMax) && this.nSeqMax == nSeqMax
      ensures ok ==> IsFilled(batch, inp, memory, nSeqMax, outputAll) && Acceptable(batch, memory, nSeqMax)
      ensures !ok && nSeqMax <= MAX_SEQ && IdsValid(inp, nVocab, nSeqMax) ==>
        IsFilled(batch, inp, memory, nSeqMax, outputAll) && !Acceptable(batch, memory, nSeqMax)
      ensures Admitted(ok, batch, inp, memory, nVocab, nSeqMax, outputAll)
      ensures ok ==> Valid() && emitted == [] && UsedUpTo(used, 0)
    {
      ok := Load(inp, nVocab, memory, nSeqMax, outputAll);
      if ok {
        SplitReset();
      }
    }

    /** Takes in a batch, without starting to split it. */
    method Load(inp: BatchInput, nVocab: nat, memory: MemoryBounds, nSeqMax: nat, outputAll: bool) returns (ok: bool)
      requires WellSized(inp) && nSeqMax > 0 && MemoryFits(memory, nSeqMax)
      modifies this`batch, this`nSeqMax, this`nOutputs, this`hasCpl, this`seqSet, this`seqSetMap
      ensures ok ==> nSeqMax <= MAX_SEQ && IdsValid(inp, nVocab, nSeqMax) && this.nSeqMax == nSeqMax && Loaded()
      ensures nSeqMax <= MAX_SEQ && IdsValid(inp, nVocab, nSeqMax) ==>
        IsFilled(batch, inp, memory, nSeqMax, outputAll) && (ok <==> Acceptable(batch, memory, nSeqMax))
      ensures Admitted(ok, batch, inp, memory, nVocab, nSeqMax, outputAll)
    {
      this.nSeqMax := nSeqMax;
      ok, batch, nOutputs, hasCpl, seqSet, seqSetMap := TakeIn(inp, nVocab, memory, nSeqMax, outputAll);
    }

    method SplitReset()
      requires Loaded()
      modifies this`outIds, this`nUsed, this`used, this`emitted
      ensures Valid() && emitted == [] && outIds == [] && UsedUpTo(used, 0)
    {
      outIds := [];
      nUsed := 0;
      used := seq(|batch|, _ => false);
      emitted := [];
      PrefixInOrder(seqSet, used, 0);
    }

    method FirstUnused() returns (curIdx: nat)
      ensures curIdx == FirstFree(used)
      ensures if curIdx < |used| then IsFirstUnused(used, curIdx) else AllUsed(used)
    {
      curIdx := 0;
      while curIdx < |used| && used[curIdx]
        invariant curIdx <= |used| && forall i :: 0 <= i < curIdx ==> used[i]
      {
        curIdx := curIdx + 1;
      }
      FirstFreeIs(used, curIdx);
    }

    /** Copies the tokens of a micro-batch and records its outputs. */
    method UbatchAdd(idxs: seq<nat>, nSeqs: nat, equalSeqs: bool) returns (ub: UBatch)
      requires Loaded() && Below(idxs, |batch|) && nSeqs > 0 && |idxs| % nSeqs == 0
      requires Below(emitted, |batch|) && outIds == OutputsOf(batch, emitted)
      modifies this`outIds, this`emitted
      ensures emitted == old(emitted) + idxs && Below(emitted, |batch|) && outIds == OutputsOf(batch, emitted)
      ensures ub.idxs == idxs && CopiedFrom(batch, ub)
      ensures ub.nSeqs == nSeqs && ub.nSeqTokens == |idxs| / nSeqs && ub.equalSeqs == equalSeqs
      ensures IsIdsOf(ub.seqIdUnq, ub.tokens) && |ub.seqIdx| == nSeqMax && IsIndexOf(ub.seqIdx, ub.seqIdUnq)
      ensures forall s :: s in ub.seqIdUnq <==> exists k :: 0 <= k < |idxs| && s in batch[idxs[k]].seqIds
    {
      ub, outIds := BuildUbatch(batch, seqSet, nSeqMax, idxs, outIds, emitted, nSeqs, equalSeqs);
      emitted := emitted + idxs;
    }

    /** Stores the marks of a splitter and builds its micro-batch. */
    method Emit(marked: seq<bool>, n: nat, idxs: seq<nat>, nSeqs: nat, equalSeqs: bool) returns (ub: UBatch)
      requires Valid() && UsedInOrder(seqSet, marked) && n == CountTrue(marked)
      requires Emitted(marked, emitted + idxs) && EmittedInOrder(seqSet, emitted + idxs)
      requires Below(idxs, |batch|) && nSeqs > 0 && |idxs| % nSeqs == 0
      modifies this`outIds, this`nUsed, this`used, this`emitted
      ensures Valid() && emitted == old(emitted) + idxs && used == marked && nUsed == n
      ensures ub.idxs == idxs && CopiedFrom(batch, ub)
      ensures ub.nSeqs == nSeqs && ub.nSeqTokens == |idxs| / nSeqs && ub.equalSeqs == equalSeqs
    {
      used := marked;
      nUsed := n;
      ub := UbatchAdd(idxs, nSeqs, equalSeqs);
    }

    // -------------------------------------------------------------------------------------
    // Simple split
    // -------------------------------------------------------------------------------------

    /**
      A run of tokens from the first unused one on. It does not look whether they are unused, so the allocator
      stays in order exactly if they are.
      */
    method SplitSimple(nUbatch: nat) returns (ub: UBatch)
      requires Valid()
      modifies this`outIds, this`nUsed, this`used, this`emitted
      ensures IsRun(old(used), nUbatch, ub.idxs, used)
      ensures nUsed == old(nUsed) + |ub.idxs| && emitted == old(emitted) + ub.idxs
      ensures Below(emitted, |batch|) && outIds == OutputsOf(batch, emitted) && Loaded()
      ensures Valid() <==> RunFree(old(used), ub.idxs)
      ensures !ub.equalSeqs && (ub.idxs != [] ==> ub.nSeqs == |ub.idxs|) && CopiedFrom(batch, ub)
    {
      var curIdx := FirstUnused();
      if curIdx >= |used| {
        NoRun(used, nUbatch);
        return NoUbatch();
      }
      var idxs, marked, n := TakeRun(used, nUsed, curIdx, nUbatch);
      RunTaken(seqSet, used, nUbatch, idxs, marked, nUsed, emitted);
      ub := EmitRun(marked, n, idxs);
    }

    /** Stores the marks of a run and builds its micro-batch. */
    method EmitRun(marked: seq<bool>, n: nat, idxs: seq<nat>) returns (ub: UBatch)
      requires Valid() && idxs != [] && Below(idxs, |batch|)
      modifies this`outIds, this`nUsed, this`used, this`emitted
      ensures used == marked && nUsed == n && emitted == old(emitted) + idxs
      ensures Below(emitted, |batch|) && outIds == OutputsOf(batch, emitted) && Loaded()
      ensures Valid() <==> Kept(seqSet, marked, n, emitted)
      ensures ub.idxs == idxs && CopiedFrom(batch, ub) && !ub.equalSeqs && ub.nSeqs == |idxs|
    {
      used, nUsed := marked, n;
      ub := UbatchAdd(idxs, |idxs|, false);
    }

    // -------------------------------------------------------------------------------------
    // Split by sequence set
    // -------------------------------------------------------------------------------------

    /** Tokens from the first unused one on, as long as their sequence sets get no larger. */
    method SplitSeq(nUbatch: nat) returns (ub: UBatch)
      requires Valid()
      modifies this`outIds, this`nUsed, this`used, this`emitted
      ensures Valid() && emitted == old(emitted) + ub.idxs
      ensures if ub.idxs == [] then old(AllUsed(used)) else SubsetsTaken(seqSet, old(used), used, ub.idxs, nUbatch)
      ensures ub.idxs != [] ==> TakenInChain(batch, old(used), ub.idxs, nUbatch)
      ensures ub.idxs != [] ==> ub.nSeqs == 1 && ub.equalSeqs
      ensures CopiedFrom(batch, ub) && (ub.idxs == [] ==> used == old(used))
    {
      var curIdx := FirstUnused();
      if curIdx >= |used| {
        return NoUbatch();
      }
      var idxs, marked, n := TakeSubsets(seqSet, used, nUsed, curIdx, nUbatch);
      SubsetsEmitted(seqSet, used, marked, idxs, nUbatch, emitted);
      SubsetsInChain(batch, seqSet, nSeqMax, used, marked, idxs, nUbatch);
      ub := Emit(marked, n, idxs, 1, true);
    }

    // -------------------------------------------------------------------------------------
    // Split into sequence sets of equal length
    // -------------------------------------------------------------------------------------

    /**
      The same number of tokens from each of several sequence sets. With `nKeepTail` the last tokens
      of every set are kept together.
      */
    method SplitEqual(nUbatch: nat, sequential: bool, nKeepTail: nat)
      returns (ub: UBatch, ghost sets: seq<SeqSet>, ghost firsts: seq<nat>, ghost from: seq<nat>, ghost to: seq<nat>)
      requires Valid() && (nKeepTail > 0 ==> nUbatch > nKeepTail)
      modifies this`outIds, this`nUsed, this`used, this`emitted
      ensures Valid() && emitted == old(emitted) + ub.idxs
      ensures ub.idxs == [] <==> (sequential && hasCpl) || old(AllUsed(used))
      ensures ub.idxs == [] ==> used == old(used)
      ensures ub.idxs != [] ==> EqualTaken(seqSetMap, old(used), used, sets, from, to, ub.nSeqTokens, ub.idxs)
      ensures ub.idxs != [] ==> ub.nSeqs == |sets| && |ub.idxs| == ub.nSeqs * ub.nSeqTokens && ub.equalSeqs
      ensures ub.idxs != [] ==>
        WellChosen(batch, seqSet, seqSetMap, old(used), sets, firsts, to, ub.nSeqTokens, nUbatch, sequential, nKeepTail)
      ensures ub.idxs != [] ==>
        IsEqualSplit(batch, seqSet, seqSetMap, old(used), sets, from, to, nUbatch, sequential, nKeepTail)
      ensures CopiedFrom(batch, ub)
    {
      ub, sets, firsts, from, to := NoUbatch(), [], [], [], [];
      if sequential && hasCpl {
        return;
      }
      ghost var len;
      var nSeqs, marked, n, idxs;
      nSeqs, marked, n, idxs, sets, firsts, from, to, len :=
        EmitEqual(batch, seqSet, nSeqMax, seqSetMap, used, nUsed, emitted, nUbatch, sequential, nKeepTail);
      if nSeqs == 0 {
        return;
      }
      ub := Emit(marked, n, idxs, nSeqs, true);
    }
  }

  // ---------------------------------------------------------------------------------------
  // The loops of the splitters
  // ---------------------------------------------------------------------------------------

  lemma IdsOfTokens(batch: seq<BatchToken>, seqSet: seq<SeqSet>, nSeqMax: nat, idxs: seq<nat>, tokens: seq<BatchToken>,
                    seqSetUnq: SeqSet, ids: seq<nat>)
    requires |seqSet| == |batch| && forall i: nat :: TokenOk(batch, seqSet, nSeqMax, i)
    requires Below(idxs, |batch|) && |tokens| == |idxs| && forall k :: 0 <= k < |idxs| ==> tokens[k] == batch[idxs[k]]
    requires forall s :: s in seqSetUnq <==> HasId(tokens, s)
    requires Ascending(ids) && forall s :: s in ids <==> s in seqSetUnq && s < nSeqMax
    ensures IsIdsOf(ids, tokens)
  {
    forall s
      ensures s in ids <==> HasId(tokens, s)
    {
      if i :| 0 <= i < |tokens| && s in tokens[i].seqIds {
        assert TokenOk(batch, seqSet, nSeqMax, idxs[i]);
      }
    }
  }

  lemma EvenParts(total: nat, n: nat, len: nat)
    requires total == n * len && n > 0
    ensures total % n == 0 && total / n == len
  {
    var q := total / n;
    var r := total % n;
    assert total == n * q + r && n * (len - q) == r;
    if len - q >= 1 {
      AtLeastOnce(n, len - q);
    } else if len - q <= -1 {
      AtLeastOnce(n, q - len);
    }
  }

  lemma AtLeastOnce(n: nat, d: nat)
    requires d >= 1
    ensures n * d >= n
  {
    assert n * d == n + n * (d - 1);
  }

  lemma FirstIsUnused(batch: seq<BatchToken>, seqSet: seq<SeqSet>, m: map<SeqSet, seq<nat>>, used: seq<bool>,
                      sets: seq<SeqSet>, firsts: seq<nat>, to: seq<nat>, len: nat, nUbatch: nat, sequential: bool,
                      nKeepTail: nat)
    requires WellChosen(batch, seqSet, m, used, sets, firsts, to, len, nUbatch, sequential, nKeepTail)
    ensures !AllUsed(used)
  {
    assert !used[firsts[0]];
  }

  /** The step, and what it means for what has been emitted. */
  method EmitEqual(batch: seq<BatchToken>, seqSet: seq<SeqSet>, ghost nSeqMax: nat, m: map<SeqSet, seq<nat>>,
                   used: seq<bool>, nUsed: nat, ghost emitted: seq<nat>, nUbatch: nat, sequential: bool, nKeepTail: nat)
    returns (nSeqs: nat, marked: seq<bool>, n: nat, idxs: seq<nat>,
             ghost sets: seq<SeqSet>, ghost firsts: seq<nat>, ghost from: seq<nat>, ghost to: seq<nat>, ghost len: nat)
    requires |batch| == |seqSet| && forall i: nat :: TokenOk(batch, seqSet, nSeqMax, i)
    requires IsSetMap(seqSet, m) && UsedInOrder(seqSet, used) && nUsed == CountTrue(used)
    requires Emitted(used, emitted) && EmittedInOrder(seqSet, emitted)
    requires nKeepTail > 0 ==> nUbatch > nKeepTail
    ensures nSeqs == |sets| && n == CountTrue(marked) && (nSeqs == 0 <==> AllUsed(used))
    ensures nSeqs > 0 ==> EqualTaken(m, used, marked, sets, from, to, len, idxs)
    ensures nSeqs > 0 ==> WellChosen(batch, seqSet, m, used, sets, firsts, to, len, nUbatch, sequential, nKeepTail)
    ensures nSeqs > 0 ==> IsEqualSplit(batch, seqSet, m, used, sets, from, to, nUbatch, sequential, nKeepTail)
    ensures nSeqs > 0 ==>
      UsedInOrder(seqSet, marked) && Emitted(marked, emitted + idxs) && EmittedInOrder(seqSet, emitted + idxs)
    ensures nSeqs > 0 ==>
      Below(idxs, |batch|) && |idxs| > 0 && |idxs| == nSeqs * len && |idxs| % nSeqs == 0 && |idxs| / nSeqs == len
  {
    nSeqs, marked, n, idxs, sets, firsts, from, to, len :=
      TakeEqual(batch, seqSet, nSeqMax, m, used, nUsed, nUbatch, sequential, nKeepTail);
    if nSeqs > 0 {
      FirstIsUnused(batch, seqSet, m, used, sets, firsts, to, len, nUbatch, sequential, nKeepTail);
      EqualEmitted(seqSet, m, used, marked, sets, from, to, len, idxs, emitted);
      EvenParts(|idxs|, nSeqs, len);
    }
  }

  method BuildUbatch(batch: seq<BatchToken>, ghost seqSet: seq<SeqSet>, nSeqMax: nat, idxs: seq<nat>, outIds: seq<nat>,
                     ghost emitted: seq<nat>, nSeqs: nat, equalSeqs: bool) returns (ub: UBatch, outs: seq<nat>)
    requires |seqSet| == |batch| && forall i: nat :: TokenOk(batch, seqSet, nSeqMax, i)
    requires Below(idxs, |batch|) && nSeqs > 0 && Below(emitted, |batch|) && outIds == OutputsOf(batch, emitted)
    ensures Below(emitted + idxs, |batch|) && outs == OutputsOf(batch, emitted + idxs)
    ensures ub.idxs == idxs && CopiedFrom(batch, ub)
    ensures ub.nSeqs == nSeqs && ub.nSeqTokens == |idxs| / nSeqs && ub.equalSeqs == equalSeqs
    ensures IsIdsOf(ub.seqIdUnq, ub.tokens) && |ub.seqIdx| == nSeqMax && IsIndexOf(ub.seqIdx, ub.seqIdUnq)
    ensures forall s :: s in ub.seqIdUnq <==> exists k :: 0 <= k < |idxs| && s in batch[idxs[k]].seqIds
  {
    var tokens, seqSetUnq;
    tokens, seqSetUnq, outs := CopyTokens(batch, idxs, outIds, emitted);
    var seqIdUnq, seqIdx := CollectIds(seqSetUnq, nSeqMax);
    IdsOfTokens(batch, seqSet, nSeqMax, idxs, tokens, seqSetUnq, seqIdUnq);
    ub := UBatch(idxs, tokens, nSeqs, |idxs| / nSeqs, equalSeqs, seqIdUnq, seqIdx);
  }

  method CopyTokens(batch: seq<BatchToken>, idxs: seq<nat>, outIds: seq<nat>, ghost emitted: seq<nat>)
    returns (tokens: seq<BatchToken>, seqSetUnq: SeqSet, outs: seq<nat>)
    requires Below(idxs, |batch|) && Below(emitted, |batch|) && outIds == OutputsOf(batch, emitted)
    ensures |tokens| == |idxs| && forall k :: 0 <= k < |idxs| ==> tokens[k] == batch[idxs[k]]
    ensures forall s :: s in seqSetUnq <==> HasId(tokens, s)
    ensures Below(emitted + idxs, |batch|) && outs == OutputsOf(batch, emitted + idxs)
  {
    tokens, seqSetUnq, outs := [], {}, outIds;
    for i := 0 to |idxs|
      invariant |tokens| == i && forall k :: 0 <= k < i ==> tokens[k] == batch[idxs[k]]
      invariant forall s :: s in seqSetUnq <==> HasId(tokens, s)
      invariant outs == OutputsOf(batch, emitted) + OutputsOf(batch, idxs[..i])
    {
      var t := batch[idxs[i]];
      assert idxs[..i + 1][..i] == idxs[..i];
      forall s
        ensures HasId(tokens + [t], s) <==> HasId(tokens, s) || s in t.seqIds
      {
        HasIdMore(tokens, t, s);
      }
      tokens := tokens + [t];
      seqSetUnq := seqSetUnq + SeqSetOf(t);
      if t.output {
        outs := outs + [idxs[i]];
      }
    }
    assert idxs[..|idxs|] == idxs;
    OutputsOfJoin(batch, emitted, idxs);
  }

  /** The first unused token, or the end of the list. */
  function FirstFree(used: seq<bool>): (n: nat)
    ensures n <= |used| && (n < |used| ==> !used[n]) && forall i :: 0 <= i < n ==> used[i]
  {
    if used == [] || !used[0] then 0 else 1 + FirstFree(used[1..])
  }

  lemma FirstFreeIs(used: seq<bool>, n: nat)
    requires n <= |used| && (n < |used| ==> !used[n]) && forall i :: 0 <= i < n ==> used[i]
    ensures FirstFree(used) == n
  {
  }

  /** Where a run of at most `nUbatch` tokens, but one at least, ends. */
  function RunEnd(used: seq<bool>, nUbatch: nat): (n: nat)
    ensures FirstFree(used) <= n <= |used|
  {
    if FirstFree(used) == |used| then |used| else Min(FirstFree(used) + Max(1, nUbatch), |used|)
  }

  function MarkRun(used: seq<bool>, a: nat, b: nat): (marked: seq<bool>)
    ensures |marked| == |used| && forall i :: 0 <= i < |used| ==> (marked[i] <==> used[i] || a <= i < b)
  {
    seq(|used|, i requires 0 <= i < |used| => used[i] || a <= i < b)
  }

  /** The run of tokens that is next, and what is used behind it. */
  ghost predicate IsRun(used: seq<bool>, nUbatch: nat, idxs: seq<nat>, marked: seq<bool>) {
    && idxs == Interval(FirstFree(used), RunEnd(used, nUbatch))
    && marked == MarkRun(used, FirstFree(used), RunEnd(used, nUbatch))
  }

  ghost predicate RunFree(used: seq<bool>, idxs: seq<nat>) {
    forall k :: 0 <= k < |idxs| ==> idxs[k] < |used| && !used[idxs[k]]
  }

  lemma NoRun(used: seq<bool>, nUbatch: nat)
    requires FirstFree(used) == |used|
    ensures IsRun(used, nUbatch, [], used)
  {
    assert MarkRun(used, |used|, |used|) == used;
  }

  method TakeRun(used: seq<bool>, nUsed: nat, first: nat, nUbatch: nat)
    returns (idxs: seq<nat>, marked: seq<bool>, n: nat)
    requires first == FirstFree(used) < |used|
    ensures IsRun(used, nUbatch, idxs, marked) && n == nUsed + |idxs| && idxs != [] && Below(idxs, |used|)
  {
    var curIdx := first;
    idxs, marked, n := [], used, nUsed;
    while true
      invariant first <= curIdx < |used| && idxs == Interval(first, curIdx) && n == nUsed + |idxs|
      invariant |idxs| == 0 || |idxs| < nUbatch
      invariant marked == MarkRun(used, first, curIdx)
      decreases |used| - curIdx
    {
      idxs := idxs + [curIdx];
      marked := marked[curIdx := true];
      n := n + 1;
      curIdx := curIdx + 1;
      if curIdx >= |used| || |idxs| >= nUbatch {
        break;
      }
    }
  }

  lemma {:induction false} CountRun(used: seq<bool>, a: nat, b: nat)
    requires a <= b <= |used| && forall i :: a <= i < b ==> !used[i]
    ensures CountTrue(MarkRun(used, a, b)) == CountTrue(used) + (b - a)
    decreases b
  {
    if a == b {
      assert MarkRun(used, a, b) == used;
    } else {
      CountRun(used, a, b - 1);
      CountUpdate(MarkRun(used, a, b - 1), b - 1, true);
      assert MarkRun(used, a, b) == MarkRun(used, a, b - 1)[b - 1 := true];
    }
  }

  /** The books are in order: what is used, how much of it, and what has gone out. */
  ghost predicate Kept(seqSet: seq<SeqSet>, used: seq<bool>, nUsed: nat, emitted: seq<nat>) {
    && UsedInOrder(seqSet, used) && nUsed == CountTrue(used)
    && Emitted(used, emitted) && EmittedInOrder(seqSet, emitted)
  }

  /** They stay in order exactly if the run is free. */
  lemma RunTaken(seqSet: seq<SeqSet>, used: seq<bool>, nUbatch: nat, idxs: seq<nat>, marked: seq<bool>,
                 nUsed: nat, emitted: seq<nat>)
    requires Kept(seqSet, used, nUsed, emitted) && IsRun(used, nUbatch, idxs, marked)
    ensures Kept(seqSet, marked, nUsed + |idxs|, emitted + idxs) <==> RunFree(used, idxs)
  {
    if RunFree(used, idxs) {
      FreeRunMarked(seqSet, used, FirstFree(used), RunEnd(used, nUbatch));
      EmittedMore(used, marked, emitted, idxs);
      AscendingInOrder(seqSet, idxs);
      EmittedInOrderMore(seqSet, used, emitted, idxs);
    } else {
      UsedTwice(used, idxs, emitted);
    }
  }

  lemma FreeRunMarked(seqSet: seq<SeqSet>, used: seq<bool>, first: nat, end: nat)
    requires first == FirstFree(used) <= end <= |used| && UsedInOrder(seqSet, used) &&
      RunFree(used, Interval(first, end))
    ensures CountTrue(MarkRun(used, first, end)) == CountTrue(used) + (end - first)
    ensures UsedInOrder(seqSet, MarkRun(used, first, end))
  {
    forall i | first <= i < end
      ensures !used[i]
    {
      assert Interval(first, end)[i - first] == i;
    }
    CountRun(used, first, end);
    forall a: nat, b: nat
      ensures InOrder(seqSet, MarkRun(used, first, end), a, b)
    {
      assert InOrder(seqSet, used, a, b);
    }
  }

  /** A used token that is taken goes out twice. */
  lemma UsedTwice(used: seq<bool>, idxs: seq<nat>, emitted: seq<nat>)
    requires Below(idxs, |used|) && Emitted(used, emitted) && !RunFree(used, idxs)
    ensures forall marked :: !Emitted(marked, emitted + idxs)
  {
    var i :| 0 <= i < |idxs| && used[idxs[i]];
    assert EmittedIfUsed(used, emitted, idxs[i]);
    var k :| 0 <= k < |emitted| && emitted[k] == idxs[i];
    var e := emitted + idxs;
    assert e[k] == e[|emitted| + i];
  }

  /** No unused token before `n` is within the set. */
  ghost predicate SkippedBelow(seqSet: seq<SeqSet>, marked: seq<bool>, curSeqSet: SeqSet, n: nat)
    requires |marked| == |seqSet|
  {
    forall i :: 0 <= i < n && i < |seqSet| ==> marked[i] || !(seqSet[i] <= curSeqSet)
  }

  lemma OrderMore(seqSet: seq<SeqSet>, marked: seq<bool>, curSeqSet: SeqSet, curIdx: nat)
    requires UsedInOrder(seqSet, marked) && curIdx < |marked| && SkippedBelow(seqSet, marked, curSeqSet, curIdx)
    requires seqSet[curIdx] <= curSeqSet
    ensures UsedInOrder(seqSet, marked[curIdx := true])
  {
    var marked' := marked[curIdx := true];
    forall a: nat, b: nat
      ensures InOrder(seqSet, marked', a, b)
    {
      assert InOrder(seqSet, marked, a, b);
    }
  }

  lemma SkippedMore(seqSet: seq<SeqSet>, used: seq<bool>, marked: seq<bool>, idxs: seq<nat>, curSeqSet: SeqSet,
                    last: nat, next: nat)
    requires |used| == |marked| == |seqSet| && last < |seqSet| && seqSet[last] == curSeqSet && marked[last] &&
      last < next <= |seqSet|
    requires Below(idxs, last + 1)
    requires forall i :: 0 <= i < |used| ==> (marked[i] <==> used[i] || i in idxs)
    requires forall i :: last < i < next ==> marked[i] || !(seqSet[i] <= curSeqSet)
    requires SkippedBelow(seqSet, marked, curSeqSet, last)
    ensures SkippedBetween(seqSet, used, last, next)
    ensures next < |seqSet| && seqSet[next] <= curSeqSet ==> SkippedBelow(seqSet, marked, seqSet[next], next)
  {
  }

  /** The contract of the split by sequence set. */
  ghost predicate SubsetsTaken(seqSet: seq<SeqSet>, used: seq<bool>, marked: seq<bool>, idxs: seq<nat>, nUbatch: nat) {
    && |marked| == |used| == |seqSet| && 0 < |idxs| <= Max(1, nUbatch)
    && Descending(seqSet, idxs) && Greedy(seqSet, used, idxs, nUbatch)
    && (forall k :: 0 <= k < |idxs| ==> !used[idxs[k]])
    && (forall i :: 0 <= i < |used| ==> (marked[i] <==> used[i] || i in idxs))
  }

  lemma SubsetsEmitted(seqSet: seq<SeqSet>, used: seq<bool>, marked: seq<bool>, idxs: seq<nat>, nUbatch: nat,
                       emitted: seq<nat>)
    requires SubsetsTaken(seqSet, used, marked, idxs, nUbatch) && Emitted(used, emitted)
    requires UsedInOrder(seqSet, used) && EmittedInOrder(seqSet, emitted)
    ensures Emitted(marked, emitted + idxs) && EmittedInOrder(seqSet, emitted + idxs) && Below(idxs, |seqSet|)
  {
    EmittedMore(used, marked, emitted, idxs);
    AscendingInOrder(seqSet, idxs);
    EmittedInOrderMore(seqSet, used, emitted, idxs);
  }

  /** What has been taken: the tokens before the last one that were left out could not be taken. */
  ghost predicate SubsetsSoFar(seqSet: seq<SeqSet>, used: seq<bool>, first: nat, marked: seq<bool>, n: nat,
                               idxs: seq<nat>) {
    && |used| == |marked| == |seqSet| && UsedInOrder(seqSet, marked) && n == CountTrue(marked)
    && idxs != [] && idxs[0] == first && Descending(seqSet, idxs) && Linked(seqSet, used, idxs)
    && (forall k :: 0 <= k < |idxs| ==> !used[idxs[k]])
    && (forall i :: 0 <= i < |used| ==> (marked[i] <==> used[i] || i in idxs))
    && SkippedBelow(seqSet, marked, seqSet[idxs[|idxs| - 1]], idxs[|idxs| - 1])
  }

  /** The token `next` is the first one, or follows the last one taken. */
  ghost predicate CanTake(seqSet: seq<SeqSet>, used: seq<bool>, first: nat, marked: seq<bool>, n: nat, idxs: seq<nat>,
                          next: nat) {
    if idxs == [] then
      && |used| == |seqSet| && UsedInOrder(seqSet, used) && n == CountTrue(used) && marked == used
      && next == first && IsFirstUnused(used, first)
    else
      && SubsetsSoFar(seqSet, used, first, marked, n, idxs)
      && var last := idxs[|idxs| - 1];
      && last < next < |seqSet| && !marked[next] && seqSet[next] <= seqSet[last]
      && forall i :: last < i < next ==> marked[i] || !(seqSet[i] <= seqSet[last])
  }

  lemma SubsetTaken(seqSet: seq<SeqSet>, used: seq<bool>, first: nat, marked: seq<bool>, n: nat, idxs: seq<nat>,
                    next: nat)
    requires CanTake(seqSet, used, first, marked, n, idxs, next)
    ensures next < |marked| && SubsetsSoFar(seqSet, used, first, marked[next := true], n + 1, idxs + [next])
  {
    if idxs == [] {
      FirstSubset(seqSet, used, n, first);
      assert idxs + [next] == [first];
    } else {
      LaterSubset(seqSet, used, first, marked, n, idxs, next);
    }
  }

  lemma FirstSubset(seqSet: seq<SeqSet>, used: seq<bool>, n: nat, first: nat)
    requires |used| == |seqSet| && UsedInOrder(seqSet, used) && n == CountTrue(used) && IsFirstUnused(used, first)
    ensures SubsetsSoFar(seqSet, used, first, used[first := true], n + 1, [first])
  {
    CountUpdate(used, first, true);
    OrderMore(seqSet, used, seqSet[first], first);
  }

  lemma LaterSubset(seqSet: seq<SeqSet>, used: seq<bool>, first: nat, marked: seq<bool>, n: nat, idxs: seq<nat>,
                    next: nat)
    requires SubsetsSoFar(seqSet, used, first, marked, n, idxs) && idxs[|idxs| - 1] < next < |seqSet| && !marked[next]
    requires seqSet[next] <= seqSet[idxs[|idxs| - 1]]
    requires forall i :: idxs[|idxs| - 1] < i < next ==> marked[i] || !(seqSet[i] <= seqSet[idxs[|idxs| - 1]])
    ensures SubsetsSoFar(seqSet, used, first, marked[next := true], n + 1, idxs + [next])
  {
    var last := idxs[|idxs| - 1];
    CountUpdate(marked, next, true);
    SkippedMore(seqSet, used, marked, idxs, seqSet[last], last, next);
    OrderMore(seqSet, marked, seqSet[next], next);
    LinkedMore(seqSet, used, idxs, next);
    MarkedMore(used, marked, idxs, next);
  }

  lemma MarkedMore(used: seq<bool>, marked: seq<bool>, idxs: seq<nat>, next: nat)
    requires |marked| == |used| && next < |used| && !marked[next]
    requires forall i :: 0 <= i < |used| ==> (marked[i] <==> used[i] || i in idxs)
    ensures !used[next] && forall i :: 0 <= i < |used| ==> (marked[next := true][i] <==> used[i] || i in idxs + [next])
  {
  }

  method TakeSubsets(seqSet: seq<SeqSet>, used: seq<bool>, nUsed: nat, first: nat, nUbatch: nat)
    returns (idxs: seq<nat>, marked: seq<bool>, n: nat)
    requires |used| == |seqSet| && UsedInOrder(seqSet, used) && nUsed == CountTrue(used) && IsFirstUnused(used, first)
    ensures UsedInOrder(seqSet, marked) && n == CountTrue(marked)
    ensures SubsetsTaken(seqSet, used, marked, idxs, nUbatch)
  {
    var curIdx := first;
    var curSeqSet := seqSet[curIdx];
    idxs, marked, n := [], used, nUsed;
    while true
      invariant CanTake(seqSet, used, first, marked, n, idxs, curIdx) && curSeqSet == seqSet[curIdx]
      invariant idxs == [] || |idxs| < nUbatch
      decreases |used| - curIdx
    {
      SubsetTaken(seqSet, used, first, marked, n, idxs, curIdx);
      idxs := idxs + [curIdx];
      marked := marked[curIdx := true];
      n := n + 1;
      if |idxs| >= nUbatch {
        break;
      }
      ghost var last := curIdx;
      curIdx := NextSubset(seqSet, marked, curIdx, curSeqSet);
      if curIdx == |seqSet| {
        SkippedMore(seqSet, used, marked, idxs, curSeqSet, last, curIdx);
        break;
      }
      curSeqSet := seqSet[curIdx];
    }
  }

  /** The next unused token whose sequence set is within the given one. */
  method NextSubset(seqSet: seq<SeqSet>, marked: seq<bool>, from: nat, curSeqSet: SeqSet) returns (curIdx: nat)
    requires |marked| == |seqSet| && from < |seqSet|
    ensures from < curIdx <= |seqSet|
    ensures forall i :: from < i < curIdx ==> marked[i] || !(seqSet[i] <= curSeqSet)
    ensures curIdx < |seqSet| ==> !marked[curIdx] && seqSet[curIdx] <= curSeqSet
  {
    curIdx := from + 1;
    while curIdx < |seqSet| && (marked[curIdx] || curSeqSet * seqSet[curIdx] != seqSet[curIdx])
      invariant from < curIdx <= |seqSet|
      invariant forall i :: from < i < curIdx ==> marked[i] || !(seqSet[i] <= curSeqSet)
    {
      assert curSeqSet * seqSet[curIdx] == seqSet[curIdx] <==> seqSet[curIdx] <= curSeqSet;
      curIdx := curIdx + 1;
    }
    assert curIdx < |seqSet| ==> curSeqSet * seqSet[curIdx] == seqSet[curIdx];
  }

  lemma AscendingMore(s: seq<nat>, n: nat)
    requires Ascending(s) && forall t :: t in s ==> t < n
    ensures Ascending(s + [n])
  {
    assert forall a :: 0 <= a < |s| ==> s[a] in s;
  }

  /** The ids of a set in order, and where each of them is. */
  method CollectIds(ids: SeqSet, nSeqMax: nat) returns (unq: seq<nat>, idx: seq<int>)
    ensures Ascending(unq) && forall s :: s in unq <==> s in ids && s < nSeqMax
    ensures |idx| == nSeqMax && IsIndexOf(idx, unq)
  {
    unq := [];
    idx := seq(nSeqMax, _ => -1);
    for s := 0 to nSeqMax
      invariant Ascending(unq) && forall t :: t in unq <==> t in ids && t < s
      invariant |idx| == nSeqMax && IsIndexOf(idx, unq) && forall t :: s <= t < nSeqMax ==> idx[t] == -1
    {
      if s in ids {
        AscendingMore(unq, s);
        idx := idx[s := |unq|];
        unq := unq + [s];
      }
    }
  }

  /** Increasing indices whose sequence sets only shrink. */
  ghost predicate Descending(seqSets: seq<SeqSet>, idxs: seq<nat>) {
    && Below(idxs, |seqSets|)
    && forall a, b :: 0 <= a < b < |idxs| ==> idxs[a] < idxs[b] && seqSets[idxs[b]] <= seqSets[idxs[a]]
  }

  /** The tokens between two indices could not have been taken. */
  ghost predicate SkippedBetween(seqSets: seq<SeqSet>, used: seq<bool>, a: nat, b: nat)
    requires |used| == |seqSets| && a < |seqSets|
  {
    forall i :: a < i < b && i < |seqSets| ==> used[i] || !(seqSets[i] <= seqSets[a])
  }

  /** `b` can follow `a`. */
  ghost predicate Continues(seqSets: seq<SeqSet>, used: seq<bool>, a: nat, b: nat)
    requires |used| == |seqSets|
  {
    a < b < |seqSets| && seqSets[b] <= seqSets[a] && SkippedBetween(seqSets, used, a, b)
  }

  ghost predicate Linked(seqSets: seq<SeqSet>, used: seq<bool>, idxs: seq<nat>)
    requires |used| == |seqSets|
  {
    forall k, m :: 0 <= k && m == k + 1 && m < |idxs| ==> Continues(seqSets, used, idxs[k], idxs[m])
  }

  lemma LinkedMore(seqSets: seq<SeqSet>, used: seq<bool>, idxs: seq<nat>, next: nat)
    requires |used| == |seqSets| && Linked(seqSets, used, idxs) && Descending(seqSets, idxs) && next < |seqSets|
    requires idxs != [] ==> Continues(seqSets, used, idxs[|idxs| - 1], next)
    ensures Linked(seqSets, used, idxs + [next]) && Descending(seqSets, idxs + [next])
  {
    var e := idxs + [next];
    forall a, b | 0 <= a < b < |e|
      ensures e[a] < e[b] && seqSets[e[b]] <= seqSets[e[a]]
    {
      if b == |idxs| && a < |idxs| - 1 {
        assert idxs[a] < idxs[|idxs| - 1] && seqSets[idxs[|idxs| - 1]] <= seqSets[idxs[a]];
      }
    }
  }

  /** The micro-batch starts at the first unused token and leaves out only what it must. */
  ghost predicate Greedy(seqSets: seq<SeqSet>, used: seq<bool>, idxs: seq<nat>, nUbatch: nat)
    requires |used| == |seqSets| && idxs != [] && Below(idxs, |seqSets|)
  {
    && IsFirstUnused(used, idxs[0])
    && Linked(seqSets, used, idxs)
    && (|idxs| < nUbatch ==> SkippedBetween(seqSets, used, idxs[|idxs| - 1], |seqSets|))
  }

  // ---------------------------------------------------------------------------------------
  // What the two simpler splitters take, token by token
  // ---------------------------------------------------------------------------------------

  /**
    Consecutive tokens from the first unused one on: as many as a micro-batch holds, one at least, or, if there
    are fewer, all up to the end of the batch.
    */
  ghost predicate IsFullRun(used: seq<bool>, nUbatch: nat, idxs: seq<nat>) {
    if AllUsed(used) then idxs == []
    else
      && idxs != [] && IsFirstUnused(used, idxs[0])
      && (forall k :: 0 <= k < |idxs| ==> idxs[k] == idxs[0] + k)
      && (|idxs| == nUbatch || (|idxs| == 1 && nUbatch == 0) || (|idxs| < nUbatch && idxs[0] + |idxs| == |used|))
  }

  lemma RunIsFull(used: seq<bool>, nUbatch: nat, idxs: seq<nat>, marked: seq<bool>)
    requires IsRun(used, nUbatch, idxs, marked)
    ensures IsFullRun(used, nUbatch, idxs)
    ensures forall i :: 0 <= i < |used| ==> (marked[i] <==> used[i] || i in idxs)
  {
    if FirstFree(used) < |used| {
      assert !used[FirstFree(used)];
    }
  }

  /** Every sequence of token `i` is one of token `j`. */
  predicate IdsWithin(batch: seq<BatchToken>, i: nat, j: nat)
    requires i < |batch| && j < |batch|
  {
    forall s :: s in batch[i].seqIds ==> s in batch[j].seqIds
  }

  /**
    From the first unused token on, each time the next unused token all of whose sequences are sequences of the
    token before it; until the micro-batch is full, or there is none.
    */
  ghost predicate TakenInChain(batch: seq<BatchToken>, used: seq<bool>, idxs: seq<nat>, nUbatch: nat)
    requires |used| == |batch|
  {
    && idxs != [] && Below(idxs, |batch|) && IsFirstUnused(used, idxs[0])
    && (forall k, m :: 0 <= k && m == k + 1 && m < |idxs| ==> NextInChain(batch, used, idxs[k], idxs[m]))
    && (forall k :: 0 <= k < |idxs| ==> !used[idxs[k]])
    && (|idxs| == nUbatch || (|idxs| == 1 && nUbatch == 0) ||
        (|idxs| < nUbatch && NoneInChain(batch, used, idxs[|idxs| - 1], |batch|)))
  }

  ghost predicate NextInChain(batch: seq<BatchToken>, used: seq<bool>, a: nat, b: nat)
    requires |used| == |batch| && a < |batch| && b < |batch|
  {
    a < b && IdsWithin(batch, b, a) && NoneInChain(batch, used, a, b)
  }

  ghost predicate NoneInChain(batch: seq<BatchToken>, used: seq<bool>, a: nat, end: nat)
    requires |used| == |batch| && a < |batch| && end <= |batch|
  {
    forall i :: a < i < end ==> used[i] || !IdsWithin(batch, i, a)
  }

  lemma WithinIsSubset(batch: seq<BatchToken>, seqSet: seq<SeqSet>, nSeqMax: nat, i: nat, j: nat)
    requires |seqSet| == |batch| && i < |batch| && j < |batch|
    requires TokenOk(batch, seqSet, nSeqMax, i) && TokenOk(batch, seqSet, nSeqMax, j)
    ensures IdsWithin(batch, i, j) <==> seqSet[i] <= seqSet[j]
  {
    assert forall s :: s in batch[i].seqIds <==> s in seqSet[i];
    assert forall s :: s in batch[j].seqIds <==> s in seqSet[j];
  }

  lemma SkippedIsNone(batch: seq<BatchToken>, seqSet: seq<SeqSet>, nSeqMax: nat, used: seq<bool>, a: nat, end: nat)
    requires |seqSet| == |batch| == |used| && a < |batch| && end <= |batch|
    requires (forall i: nat :: TokenOk(batch, seqSet, nSeqMax, i)) && SkippedBetween(seqSet, used, a, end)
    ensures NoneInChain(batch, used, a, end)
  {
    forall i | a < i < end
      ensures used[i] || !IdsWithin(batch, i, a)
    {
      assert TokenOk(batch, seqSet, nSeqMax, i) && TokenOk(batch, seqSet, nSeqMax, a);
      WithinIsSubset(batch, seqSet, nSeqMax, i, a);
    }
  }

  lemma SubsetsInChain(batch: seq<BatchToken>, seqSet: seq<SeqSet>, nSeqMax: nat, used: seq<bool>, marked: seq<bool>,
                       idxs: seq<nat>, nUbatch: nat)
    requires |seqSet| == |batch| && (forall i: nat :: TokenOk(batch, seqSet, nSeqMax, i))
    requires SubsetsTaken(seqSet, used, marked, idxs, nUbatch)
    ensures TakenInChain(batch, used, idxs, nUbatch)
  {
    forall k, m | 0 <= k && m == k + 1 && m < |idxs|
      ensures NextInChain(batch, used, idxs[k], idxs[m])
    {
      assert Continues(seqSet, used, idxs[k], idxs[m]);
      assert TokenOk(batch, seqSet, nSeqMax, idxs[k]) && TokenOk(batch, seqSet, nSeqMax, idxs[m]);
      WithinIsSubset(batch, seqSet, nSeqMax, idxs[m], idxs[k]);
      SkippedIsNone(batch, seqSet, nSeqMax, used, idxs[k], idxs[m]);
    }
    if |idxs| < nUbatch {
      SkippedIsNone(batch, seqSet, nSeqMax, used, idxs[|idxs| - 1], |batch|);
    }
  }
}
