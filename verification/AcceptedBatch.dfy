/**
  Why a batch is refused: the token at fault, and what is wrong with it.
  */
module AcceptedBatch {
  import opened BatchTokens
  import opened BatchInit
  import opened FilledBatch

  /** The token or one of its sequences does not exist. */
  ghost predicate BadId(inp: BatchInput, nVocab: nat, nSeqMax: nat, i: nat)
    requires WellSized(inp) && i < inp.nTokens
  {
    || (inp.ids.Some? && (inp.ids.value[i] < 0 || inp.ids.value[i] >= nVocab))
    || (inp.seqIds.Some? && exists s :: s in inp.seqIds.value[i] && (s < 0 || s >= nSeqMax))
  }

  predicate Remembers(memory: MemoryBounds, s: nat)
    requires memory.Memory? ==> s < |memory.posMax|
  {
    memory.Memory? && memory.posMax[s] >= 0
  }

  /**
    The token has no predecessor: no token of the sequence stands one position earlier, and it is neither the
    first one behind what memory holds of the sequence nor, where memory holds nothing, the first of all.
    */
  ghost predicate Gap(toks: seq<BatchToken>, memory: MemoryBounds, i: nat, s: nat)
    requires memory.Memory? ==> s < |memory.posMax|
  {
    && i < |toks| && s in toks[i].seqIds
    && (forall j :: 0 <= j < |toks| && s in toks[j].seqIds ==> toks[j].pos != toks[i].pos - 1)
    && if Remembers(memory, s) then toks[i].pos != memory.posMax[s] + 1
       else exists j :: 0 <= j < |toks| && s in toks[j].seqIds && toks[j].pos < toks[i].pos
  }

  /** Memory is already past the position of the token. */
  ghost predicate Stale(toks: seq<BatchToken>, memory: MemoryBounds, i: nat, s: nat)
    requires memory.Memory? ==> s < |memory.posMax|
  {
    i < |toks| && s in toks[i].seqIds && Remembers(memory, s) && toks[i].pos <= memory.posMax[s]
  }

  /** The token stands before the one in front of it in the sequence. */
  ghost predicate GoesBack(toks: seq<BatchToken>, i: nat, j: nat, s: nat) {
    i < |toks| && s in toks[i].seqIds && LastBefore(toks, s, j, i) && toks[i].pos < toks[j].pos
  }

  /** Two sequences of the token differ in memory. */
  ghost predicate Diverged(toks: seq<BatchToken>, memory: MemoryBounds, i: nat, s: nat, t: nat)
    requires memory.Memory? ==> s < |memory.posMax| == |memory.posMin| && t < |memory.posMax|
  {
    && i < |toks| && s in toks[i].seqIds && t in toks[i].seqIds && memory.Memory?
    && (memory.posMin[s] != memory.posMin[t] || memory.posMax[s] != memory.posMax[t])
  }

  ghost predicate Flawed(toks: seq<BatchToken>, memory: MemoryBounds, nSeqMax: nat)
    requires MemoryFits(memory, nSeqMax)
  {
    || (exists i: nat, s: nat :: s < nSeqMax && Gap(toks, memory, i, s))
    || (exists i: nat, s: nat :: s < nSeqMax && Stale(toks, memory, i, s))
    || (exists i: nat, j: nat, s: nat :: GoesBack(toks, i, j, s))
    || (exists i: nat, s: nat, t: nat :: s < nSeqMax && t < nSeqMax && Diverged(toks, memory, i, s, t))
    || exists i :: 0 <= i < |toks| && toks[i].pos < -1
  }

  lemma IdsBadIff(inp: BatchInput, nVocab: nat, nSeqMax: nat)
    requires WellSized(inp)
    ensures IdsValid(inp, nVocab, nSeqMax) <==> forall i :: 0 <= i < inp.nTokens ==> !BadId(inp, nVocab, nSeqMax, i)
  {
    if IdsValid(inp, nVocab, nSeqMax) {
      forall i | 0 <= i < inp.nTokens
        ensures !BadId(inp, nVocab, nSeqMax, i)
      {
        assert inp.seqIds.Some? ==> AllWithin(inp.seqIds.value[i], nSeqMax);
      }
    }
    if forall i :: 0 <= i < inp.nTokens ==> !BadId(inp, nVocab, nSeqMax, i) {
      forall i | 0 <= i < inp.nTokens
        ensures inp.ids.Some? ==> 0 <= inp.ids.value[i] < nVocab
        ensures inp.seqIds.Some? ==> AllWithin(inp.seqIds.value[i], nSeqMax)
      {
        assert !BadId(inp, nVocab, nSeqMax, i);
        if inp.seqIds.Some? {
          assert forall k :: 0 <= k < |inp.seqIds.value[i]| ==> inp.seqIds.value[i][k] in inp.seqIds.value[i];
        }
      }
    }
  }

  // ---------------------------------------------------------------------------------------
  // Gaps
  // ---------------------------------------------------------------------------------------

  ghost predicate InPlace(toks: seq<BatchToken>, memory: MemoryBounds, s: nat)
    requires memory.Memory? ==> s < |memory.posMax|
  {
    forall i: nat :: !Gap(toks, memory, i, s) && !Stale(toks, memory, i, s)
  }

  /** From a position down to a smaller one of the sequence, no position is missing. */
  lemma {:induction false} Downwards(toks: seq<BatchToken>, memory: MemoryBounds, s: nat, p: int, q: int, r: int)
    requires memory.Memory? ==> s < |memory.posMax|
    requires InPlace(toks, memory, s) && HoldsPos(toks, s, p) && HoldsPos(toks, s, r) && p <= q <= r
    ensures HoldsPos(toks, s, q)
    decreases r - q
  {
    if q < r {
      Predecessor(toks, memory, s, p, r);
      Downwards(toks, memory, s, p, q, r - 1);
    }
  }

  lemma Predecessor(toks: seq<BatchToken>, memory: MemoryBounds, s: nat, p: int, r: int)
    requires memory.Memory? ==> s < |memory.posMax|
    requires InPlace(toks, memory, s) && HoldsPos(toks, s, p) && HoldsPos(toks, s, r) && p < r
    ensures HoldsPos(toks, s, r - 1)
  {
    var i :| 0 <= i < |toks| && s in toks[i].seqIds && toks[i].pos == r;
    var j :| 0 <= j < |toks| && s in toks[j].seqIds && toks[j].pos == p;
    assert !Gap(toks, memory, i, s) && !Stale(toks, memory, j, s);
  }

  /** Where memory holds the sequence, its first position behind memory is in the batch. */
  lemma {:induction false} DownToMemory(toks: seq<BatchToken>, memory: MemoryBounds, s: nat, r: int)
    requires memory.Memory? && s < |memory.posMax| && Remembers(memory, s)
    requires InPlace(toks, memory, s) && HoldsPos(toks, s, r)
    ensures HoldsPos(toks, s, memory.posMax[s] + 1)
    decreases r - memory.posMax[s]
  {
    var i :| 0 <= i < |toks| && s in toks[i].seqIds && toks[i].pos == r;
    assert !Gap(toks, memory, i, s) && !Stale(toks, memory, i, s);
    if r != memory.posMax[s] + 1 {
      assert HoldsPos(toks, s, r - 1);
      DownToMemory(toks, memory, s, r - 1);
    }
  }

  lemma InPlaceIff(toks: seq<BatchToken>, memory: MemoryBounds, s: nat)
    requires memory.Memory? ==> s < |memory.posMax| && memory.posMax[s] >= -1
    ensures InPlace(toks, memory, s) <==> NoGap(toks, s) && StartsAfter(toks, s, LastPos(memory, s))
  {
    if InPlace(toks, memory, s) {
      forall p, q, r | HoldsPos(toks, s, p) && HoldsPos(toks, s, r) && p <= q <= r
        ensures HoldsPos(toks, s, q)
      {
        Downwards(toks, memory, s, p, q, r);
      }
      forall p | Remembers(memory, s) && HoldsPos(toks, s, p)
        ensures HoldsPos(toks, s, memory.posMax[s] + 1) && p > memory.posMax[s]
      {
        DownToMemory(toks, memory, s, p);
        var i :| 0 <= i < |toks| && s in toks[i].seqIds && toks[i].pos == p;
        assert !Stale(toks, memory, i, s);
      }
    }
    if NoGap(toks, s) && StartsAfter(toks, s, LastPos(memory, s)) {
      forall i: nat
        ensures !Gap(toks, memory, i, s) && !Stale(toks, memory, i, s)
      {
        NotMissing(toks, memory, s, i);
      }
    }
  }

  lemma NotMissing(toks: seq<BatchToken>, memory: MemoryBounds, s: nat, i: nat)
    requires memory.Memory? ==> s < |memory.posMax| && memory.posMax[s] >= -1
    requires NoGap(toks, s) && StartsAfter(toks, s, LastPos(memory, s))
    ensures !Gap(toks, memory, i, s) && !Stale(toks, memory, i, s)
  {
    if i < |toks| && s in toks[i].seqIds {
      var p := toks[i].pos;
      assert HoldsPos(toks, s, p);
      if Remembers(memory, s) {
        if p != memory.posMax[s] + 1 {
          assert HoldsPos(toks, s, memory.posMax[s] + 1);
          assert HoldsPos(toks, s, p - 1);
        }
      } else if j :| 0 <= j < |toks| && s in toks[j].seqIds && toks[j].pos < p {
        assert HoldsPos(toks, s, toks[j].pos);
        assert HoldsPos(toks, s, p - 1);
      }
    }
  }

  // ---------------------------------------------------------------------------------------
  // Order
  // ---------------------------------------------------------------------------------------

  ghost predicate StepsForward(toks: seq<BatchToken>) {
    forall i: nat, j: nat, s: nat :: !GoesBack(toks, i, j, s)
  }

  lemma {:induction false} OrderFromSteps(toks: seq<BatchToken>, i: nat, j: nat, s: nat)
    requires StepsForward(toks) && i < j < |toks| && s in toks[i].seqIds && s in toks[j].seqIds
    ensures toks[i].pos <= toks[j].pos
    decreases j
  {
    var k := LastOne(toks, s, j);
    assert !GoesBack(toks, j, k, s);
    if k != i {
      OrderFromSteps(toks, i, k, s);
    }
  }

  lemma OrderIff(toks: seq<BatchToken>)
    ensures NeverDecreasing(toks) <==> StepsForward(toks) && forall i :: 0 <= i < |toks| ==> toks[i].pos >= -1
  {
    if StepsForward(toks) {
      forall i, j, s | 0 <= i < j < |toks| && s in toks[i].seqIds && s in toks[j].seqIds
        ensures toks[i].pos <= toks[j].pos
      {
        OrderFromSteps(toks, i, j, s);
      }
    }
  }

  // ---------------------------------------------------------------------------------------
  // Shared tokens
  // ---------------------------------------------------------------------------------------

  ghost predicate NoneDiverged(toks: seq<BatchToken>, memory: MemoryBounds, nSeqMax: nat)
    requires MemoryFits(memory, nSeqMax)
  {
    forall i: nat, s: nat, t: nat :: s < nSeqMax && t < nSeqMax ==> !Diverged(toks, memory, i, s, t)
  }

  lemma DivergedIff(toks: seq<BatchToken>, memory: MemoryBounds, nSeqMax: nat)
    requires MemoryFits(memory, nSeqMax) && forall i :: 0 <= i < |toks| ==> Below(toks[i].seqIds, nSeqMax)
    ensures CoupledAlike(toks, memory, nSeqMax) <==> NoneDiverged(toks, memory, nSeqMax)
  {
    if CoupledAlike(toks, memory, nSeqMax) && memory.Memory? {
      forall i, s, t | 0 <= i < |toks| && s in toks[i].seqIds && t in toks[i].seqIds
        ensures Alike(memory, nSeqMax, s, t)
      {
        LikeFirst(toks, memory, nSeqMax, i, s);
        LikeFirst(toks, memory, nSeqMax, i, t);
      }
    }
    if NoneDiverged(toks, memory, nSeqMax) && memory.Memory? {
      forall i, k | 0 <= i < |toks| && 0 < k < |toks[i].seqIds|
        ensures Alike(memory, nSeqMax, toks[i].seqIds[k], toks[i].seqIds[0])
      {
        assert toks[i].seqIds[k] in toks[i].seqIds && toks[i].seqIds[0] in toks[i].seqIds;
        assert !Diverged(toks, memory, i, toks[i].seqIds[k], toks[i].seqIds[0]);
      }
    }
  }

  lemma LikeFirst(toks: seq<BatchToken>, memory: MemoryBounds, nSeqMax: nat, i: nat, s: nat)
    requires MemoryFits(memory, nSeqMax) && i < |toks| && Below(toks[i].seqIds, nSeqMax) && s in toks[i].seqIds
    requires CoupledAlike(toks, memory, nSeqMax) && memory.Memory?
    ensures Alike(memory, nSeqMax, s, toks[i].seqIds[0])
  {
    var k :| 0 <= k < |toks[i].seqIds| && toks[i].seqIds[k] == s;
  }

  /** A batch is refused exactly if one of its tokens is at fault. */
  lemma RefusedIff(toks: seq<BatchToken>, memory: MemoryBounds, nSeqMax: nat)
    requires MemoryFits(memory, nSeqMax) && forall i :: 0 <= i < |toks| ==> Below(toks[i].seqIds, nSeqMax)
    ensures !Acceptable(toks, memory, nSeqMax) <==> Flawed(toks, memory, nSeqMax)
  {
    OrderIff(toks);
    DivergedIff(toks, memory, nSeqMax);
    PlacesIff(toks, memory, nSeqMax);
    if Acceptable(toks, memory, nSeqMax) {
      forall i: nat, s: nat | s < nSeqMax
        ensures !Gap(toks, memory, i, s) && !Stale(toks, memory, i, s)
      {
        assert InPlace(toks, memory, s);
      }
      assert StepsForward(toks) && NoneDiverged(toks, memory, nSeqMax);
    }
    if !Flawed(toks, memory, nSeqMax) {
      forall s: nat | s < nSeqMax
        ensures InPlace(toks, memory, s)
      {
      }
      assert StepsForward(toks) && NoneDiverged(toks, memory, nSeqMax);
    }
  }

  lemma PlacesIff(toks: seq<BatchToken>, memory: MemoryBounds, nSeqMax: nat)
    requires MemoryFits(memory, nSeqMax)
    ensures (forall s: nat :: s < nSeqMax ==> InPlace(toks, memory, s)) <==>
      forall s: nat :: s < nSeqMax ==> NoGap(toks, s) && StartsAfter(toks, s, LastPos(memory, s))
  {
    forall s: nat | s < nSeqMax
      ensures InPlace(toks, memory, s) <==> NoGap(toks, s) && StartsAfter(toks, s, LastPos(memory, s))
    {
      InPlaceIff(toks, memory, s);
    }
  }

  /** Both: the batch that an initialisation leaves, and when it is refused. */
  lemma FilledMeans(toks: seq<BatchToken>, inp: BatchInput, memory: MemoryBounds, nVocab: nat, nSeqMax: nat,
                    outputAll: bool)
    requires WellSized(inp) && IdsValid(inp, nVocab, nSeqMax) && MemoryFits(memory, nSeqMax)
    requires IsFilled(toks, inp, memory, nSeqMax, outputAll)
    ensures Completes(toks, inp, memory, nSeqMax, outputAll)
    ensures Acceptable(toks, memory, nSeqMax) <==> !Flawed(toks, memory, nSeqMax)
  {
    FilledCompletes(toks, inp, memory, nVocab, nSeqMax, outputAll);
    RefusedIff(toks, memory, nSeqMax);
  }

  /** The input has no invalid ids, and the batch that it makes is complete and accepted exactly if it has no flaw. */
  ghost predicate Admitted(ok: bool, toks: seq<BatchToken>, inp: BatchInput, memory: MemoryBounds, nVocab: nat,
                           nSeqMax: nat, outputAll: bool)
    requires WellSized(inp) && MemoryFits(memory, nSeqMax)
  {
    var sound := nSeqMax <= 256 && forall i :: 0 <= i < inp.nTokens ==> !BadId(inp, nVocab, nSeqMax, i);
    if sound then Completes(toks, inp, memory, nSeqMax, outputAll) && (ok <==> !Flawed(toks, memory, nSeqMax))
    else !ok
  }

  lemma AdmittedIs(ok: bool, toks: seq<BatchToken>, inp: BatchInput, memory: MemoryBounds, nVocab: nat, nSeqMax: nat,
                   outputAll: bool)
    requires WellSized(inp) && MemoryFits(memory, nSeqMax) && nSeqMax <= MAX_SEQ && IdsValid(inp, nVocab, nSeqMax)
    requires IsFilled(toks, inp, memory, nSeqMax, outputAll) && (ok <==> Acceptable(toks, memory, nSeqMax))
    ensures Admitted(ok, toks, inp, memory, nVocab, nSeqMax, outputAll)
  {
    IdsBadIff(inp, nVocab, nSeqMax);
    FilledMeans(toks, inp, memory, nVocab, nSeqMax, outputAll);
  }

  /** Fills in the batch and checks it. */
  method TakeIn(inp: BatchInput, nVocab: nat, memory: MemoryBounds, nSeqMax: nat, outputAll: bool)
    returns (ok: bool, toks: seq<BatchToken>, nOutputs: nat, hasCpl: bool, seqSet: seq<SeqSet>,
      m: map<SeqSet, seq<nat>>)
    requires WellSized(inp) && nSeqMax > 0 && MemoryFits(memory, nSeqMax)
    ensures nSeqMax <= MAX_SEQ && IdsValid(inp, nVocab, nSeqMax) ==>
      IsFilled(toks, inp, memory, nSeqMax, outputAll) && (ok <==> Acceptable(toks, memory, nSeqMax))
    ensures Admitted(ok, toks, inp, memory, nVocab, nSeqMax, outputAll)
    ensures ok ==> nSeqMax <= MAX_SEQ && IdsValid(inp, nVocab, nSeqMax)
    ensures ok ==> |seqSet| == |toks| && (forall i: nat :: TokenOk(toks, seqSet, nSeqMax, i)) && IsSetMap(seqSet, m)
    ensures ok ==> nOutputs == CountOutputs(toks) && (hasCpl <==> Coupled(toks))
  {
    ok, toks, nOutputs, hasCpl, seqSet, m := false, [], 0, false, [], map[];
    IdsBadIff(inp, nVocab, nSeqMax);
    if nSeqMax > MAX_SEQ {
      return;
    }
    ok := CheckIds(inp, nVocab, nSeqMax);
    if !ok {
      return;
    }
    toks := FillIn(inp, memory, nVocab, nSeqMax, outputAll);
    FilledFit(toks, inp, memory, nSeqMax, outputAll);
    nOutputs := CountMarked(toks);
    ok, hasCpl, seqSet, m := Check(toks, memory, nSeqMax);
    AdmittedIs(ok, toks, inp, memory, nVocab, nSeqMax, outputAll);
  }
}
