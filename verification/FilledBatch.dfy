/**
  What the batch looks like when its missing fields are filled in, token by token and in terms of the input
  and of memory only.
  */
module FilledBatch {
  import opened BatchTokens
  import opened Collections
  import opened BatchInit

  /** Where a sequence goes on: behind its last position in memory, or at 0 where memory holds nothing of it. */
  function BehindMemory(memory: MemoryBounds, s: nat): int
    requires memory.Memory? ==> s < |memory.posMax|
  {
    if memory.NoMemory? || memory.posMax[s] == -1 then 0 else memory.posMax[s] + 1
  }

  /** Token `j` is the last one of sequence `s` in front of token `i`. */
  predicate LastBefore(toks: seq<BatchToken>, s: nat, j: nat, i: nat) {
    j < i <= |toks| && s in toks[j].seqIds && forall k :: j < k < i ==> s !in toks[k].seqIds
  }

  /**
    A token goes on behind the last earlier token of its first sequence, whichever other sequences that one
    belongs to; if there is none, behind what memory holds of the sequence.
    */
  ghost predicate GoesOnAt(toks: seq<BatchToken>, memory: MemoryBounds, i: nat)
    requires i < |toks| && toks[i].seqIds != []
    requires memory.Memory? ==> toks[i].seqIds[0] < |memory.posMax|
  {
    var s := toks[i].seqIds[0];
    && (forall j: nat :: LastBefore(toks, s, j, i) ==> toks[i].pos == toks[j].pos + 1)
    && ((forall j :: 0 <= j < i ==> s !in toks[j].seqIds) ==> toks[i].pos == BehindMemory(memory, s))
  }

  /** Given fields are taken over; what is not given is sequence 0, the next position, and the last token as output. */
  ghost predicate Completes(toks: seq<BatchToken>, inp: BatchInput, memory: MemoryBounds, nSeqMax: nat, outputAll: bool)
    requires WellSized(inp) && MemoryFits(memory, nSeqMax)
  {
    && |toks| == inp.nTokens
    && (forall i :: 0 <= i < |toks| ==> toks[i].seqIds != [] && Below(toks[i].seqIds, nSeqMax))
    && (inp.ids.Some? ==> forall i :: 0 <= i < |toks| ==> toks[i].id == inp.ids.value[i])
    && (inp.seqIds.Some? ==> forall i :: 0 <= i < |toks| ==> SameIds(toks[i].seqIds, inp.seqIds.value[i]))
    && (inp.seqIds.None? ==> forall i :: 0 <= i < |toks| ==> toks[i].seqIds == [0])
    && (inp.pos.Some? ==> forall i :: 0 <= i < |toks| ==> toks[i].pos == inp.pos.value[i])
    && (inp.pos.None? ==> forall i :: 0 <= i < |toks| ==> GoesOnAt(toks, memory, i))
    && (outputAll ==> forall i :: 0 <= i < |toks| ==> toks[i].output)
    && (!outputAll && inp.logits.Some? ==> forall i :: 0 <= i < |toks| ==> toks[i].output == inp.logits.value[i])
    && (!outputAll && inp.logits.None? ==> toks[|toks| - 1].output && CountOutputs(toks) == 1)
  }

  predicate SameIds(ids: seq<nat>, given: seq<int>) {
    |ids| == |given| && forall k :: 0 <= k < |ids| ==> ids[k] == given[k]
  }

  lemma {:induction false} CounterKeeps(seqIds: seq<seq<nat>>, start: seq<int>, s: nat, j: nat, i: nat)
    requires j <= i <= |seqIds| && IdsFit(seqIds, |start|) && s < |start|
    requires forall k :: j <= k < i ==> s !in seqIds[k]
    ensures Counters(seqIds, start, i)[s] == Counters(seqIds, start, j)[s]
    decreases i - j
  {
    if j < i {
      CounterKeeps(seqIds, start, s, j, i - 1);
    }
  }

  /** Behind its last earlier token the counter of a sequence is one more than the position of that token. */
  lemma CounterBehind(seqIds: seq<seq<nat>>, start: seq<int>, s: nat, j: nat, i: nat)
    requires j < i <= |seqIds| && IdsFit(seqIds, |start|) && s < |start| && s in seqIds[j]
    requires forall k :: j < k < i ==> s !in seqIds[k]
    ensures Counters(seqIds, start, i)[s] == GeneratedPos(seqIds, start, j) + 1
  {
    CounterKeeps(seqIds, start, s, j + 1, i);
  }

  lemma GeneratedGoesOn(toks: seq<BatchToken>, seqIds: seq<seq<nat>>, memory: MemoryBounds, nSeqMax: nat, i: nat)
    requires MemoryFits(memory, nSeqMax) && IdsFit(seqIds, nSeqMax) && |toks| == |seqIds| && i < |toks|
    requires forall k :: 0 <= k < |toks| ==> toks[k].seqIds == seqIds[k]
    requires forall k :: 0 <= k < |toks| ==> toks[k].pos == GeneratedPos(seqIds, StartCounters(memory, nSeqMax), k)
    ensures GoesOnAt(toks, memory, i)
  {
    var s, start := seqIds[i][0], StartCounters(memory, nSeqMax);
    forall j: nat | LastBefore(toks, s, j, i)
      ensures toks[i].pos == toks[j].pos + 1
    {
      CounterBehind(seqIds, start, s, j, i);
    }
    if forall j :: 0 <= j < i ==> s !in toks[j].seqIds {
      NothingBefore(toks, seqIds, s, i);
      CounterKeeps(seqIds, start, s, 0, i);
    }
  }

  lemma NothingBefore(toks: seq<BatchToken>, seqIds: seq<seq<nat>>, s: nat, i: nat)
    requires |toks| == |seqIds| && i <= |toks| && forall j :: 0 <= j < i ==> s !in toks[j].seqIds
    requires forall k :: 0 <= k < |toks| ==> toks[k].seqIds == seqIds[k]
    ensures forall k :: 0 <= k < i ==> s !in seqIds[k]
  {
  }

  lemma {:induction false} NoOutputs(toks: seq<BatchToken>)
    requires forall i :: 0 <= i < |toks| ==> !toks[i].output
    ensures CountOutputs(toks) == 0
    decreases |toks|
  {
    if toks != [] {
      NoOutputs(toks[..|toks| - 1]);
    }
  }

  /** The completed batch of an initialisation is this one. */
  lemma FilledCompletes(toks: seq<BatchToken>, inp: BatchInput, memory: MemoryBounds, nVocab: nat, nSeqMax: nat,
                        outputAll: bool)
    requires WellSized(inp) && IdsValid(inp, nVocab, nSeqMax) && MemoryFits(memory, nSeqMax)
    requires IsFilled(toks, inp, memory, nSeqMax, outputAll)
    ensures Completes(toks, inp, memory, nSeqMax, outputAll)
  {
    var seqIds := SeqIdsOf(inp, nSeqMax);
    if inp.pos.None? {
      forall i | 0 <= i < |toks|
        ensures GoesOnAt(toks, memory, i)
      {
        GeneratedGoesOn(toks, seqIds, memory, nSeqMax, i);
      }
    }
    if !outputAll && inp.logits.None? {
      NoOutputs(toks[..|toks| - 1]);
    }
  }

  // ---------------------------------------------------------------------------------------
  // Without shared tokens
  // ---------------------------------------------------------------------------------------

  /** The tokens of sequence `s` in front of token `i`. */
  function Earlier(toks: seq<BatchToken>, s: nat, i: nat): set<nat>
    requires i <= |toks|
  {
    set j | 0 <= j < i && s in toks[j].seqIds
  }

  /** Where no token is in two sequences, each sequence goes on behind memory, one position for each of its tokens. */
  lemma {:induction false} UnsharedCounts(toks: seq<BatchToken>, memory: MemoryBounds, nSeqMax: nat, i: nat)
    requires MemoryFits(memory, nSeqMax) && i < |toks|
    requires forall k :: 0 <= k < |toks| ==> |toks[k].seqIds| == 1 && toks[k].seqIds[0] < nSeqMax
    requires forall k :: 0 <= k < |toks| ==> GoesOnAt(toks, memory, k)
    ensures toks[i].pos == BehindMemory(memory, toks[i].seqIds[0]) + |Earlier(toks, toks[i].seqIds[0], i)|
    decreases i
  {
    var s := toks[i].seqIds[0];
    assert GoesOnAt(toks, memory, i);
    if forall j :: 0 <= j < i ==> s !in toks[j].seqIds {
      assert Earlier(toks, s, i) == {};
    } else {
      var j := LastOne(toks, s, i);
      UnsharedCounts(toks, memory, nSeqMax, j);
      EarlierMore(toks, s, j, i);
      assert toks[j].seqIds == [toks[j].seqIds[0]];
    }
  }

  lemma EarlierMore(toks: seq<BatchToken>, s: nat, j: nat, i: nat)
    requires LastBefore(toks, s, j, i)
    ensures |Earlier(toks, s, i)| == |Earlier(toks, s, j)| + 1
  {
    assert Earlier(toks, s, i) == Earlier(toks, s, j) + {j};
  }

  lemma {:induction false} LastOne(toks: seq<BatchToken>, s: nat, i: nat) returns (j: nat)
    requires i <= |toks| && exists j :: 0 <= j < i && s in toks[j].seqIds
    ensures LastBefore(toks, s, j, i)
    decreases i
  {
    if s in toks[i - 1].seqIds {
      j := i - 1;
    } else {
      j := LastOne(toks, s, i - 1);
    }
  }
}
