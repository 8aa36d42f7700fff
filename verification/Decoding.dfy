/**
  Decoding a batch: it is taken in, cut, run micro-batch by micro-batch, and its outputs are put in
  order. A micro-batch that fails is removed from memory again.
  */
module Decoding {
  import opened BatchTokens
  import opened Collections
  import opened BatchInit
  import opened BatchSplit
  import opened BatchRun
  import opened OutputOrder
  import opened Outputs
  import opened Rollback

  /** Success, an invalid batch, no way to cut it or no room for it, or a micro-batch that failed. */
  datatype Status = Success | Invalid | NoSlot | Failed

  /** No token in two sequences; positions, if given, are not negative and increase in each sequence. */
  ghost predicate Plain(inp: BatchInput) {
    && WellSized(inp)
    && (inp.seqIds.Some? ==> forall i :: 0 <= i < inp.nTokens ==> |inp.seqIds.value[i]| == 1)
    && (inp.pos.Some? ==> forall i :: 0 <= i < inp.nTokens ==> inp.pos.value[i] >= 0)
    && (inp.pos.Some? ==> forall i, j :: 0 <= i < j < inp.nTokens && FirstSeq(inp, i) == FirstSeq(inp, j) ==>
        inp.pos.value[i] < inp.pos.value[j])
  }

  /** The batch is not empty and its ids are valid. */
  ghost predicate Checked(inp: BatchInput, nVocab: nat, memory: MemoryBounds, nSeqMax: nat) {
    WellSized(inp) && MemoryFits(memory, nSeqMax) && nSeqMax <= MAX_SEQ && IdsValid(inp, nVocab, nSeqMax)
  }

  ghost function FirstSeq(inp: BatchInput, i: nat): int
    requires WellSized(inp) && i < inp.nTokens
  {
    if inp.seqIds.Some? then inp.seqIds.value[i][0] else 0
  }

  /** Every micro-batch of the batch can be taken out of memory again. */
  ghost predicate CanUndo(batch: seq<BatchToken>, memory: MemoryBounds, mem: Mem) {
    Reports(memory, mem) && Acceptable(batch, memory, |mem|) && SingleSequence(batch) && Increasing(batch)
  }

  /** A plain input makes a batch whose micro-batches can be undone. */
  lemma PlainBatch(toks: seq<BatchToken>, inp: BatchInput, memory: MemoryBounds, nVocab: nat, mem: Mem, outputAll: bool)
    requires WellSized(inp) && IdsValid(inp, nVocab, |mem|) && MemoryFits(memory, |mem|) && Plain(inp) &&
      Reports(memory, mem)
    requires IsFilled(toks, inp, memory, |mem|, outputAll)
    ensures SingleSequence(toks) && Increasing(toks) && forall i :: 0 <= i < |toks| ==> toks[i].pos >= 0
  {
    var seqIds := SeqIdsOf(inp, |mem|);
    if inp.pos.None? {
      GeneratedIncreasing(toks, seqIds, memory, mem);
    } else {
      forall i, j, s | 0 <= i < j < |toks| && s in toks[i].seqIds && s in toks[j].seqIds
        ensures toks[i].pos < toks[j].pos
      {
        assert toks[i].seqIds == seqIds[i] && toks[j].seqIds == seqIds[j];
        assert |seqIds[i]| == |seqIds[j]| == 1;
        assert FirstSeq(inp, i) == FirstSeq(inp, j);
      }
    }
  }

  lemma PlainCanUndo(toks: seq<BatchToken>, inp: BatchInput, memory: MemoryBounds, nVocab: nat, mem: Mem,
                     outputAll: bool)
    requires Checked(inp, nVocab, memory, |mem|) && IsFilled(toks, inp, memory, |mem|, outputAll) &&
      Acceptable(toks, memory, |mem|)
    ensures Plain(inp) && Reports(memory, mem) ==> CanUndo(toks, memory, mem)
  {
    if Plain(inp) && Reports(memory, mem) {
      PlainBatch(toks, inp, memory, nVocab, mem, outputAll);
    }
  }

  lemma AllMarked(batch: seq<BatchToken>, idxs: seq<nat>)
    requires CountOutputs(batch) == |batch| && Below(idxs, |batch|)
    ensures |OutputsOf(batch, idxs)| == |idxs|
  {
    EveryTokenMarked(batch);
    EveryIndexMarked(batch, idxs);
  }

  lemma {:induction false} CountOutputsBound(batch: seq<BatchToken>)
    ensures CountOutputs(batch) <= |batch|
    decreases |batch|
  {
    if batch != [] {
      CountOutputsBound(batch[..|batch| - 1]);
    }
  }

  lemma {:induction false} EveryTokenMarked(batch: seq<BatchToken>)
    requires CountOutputs(batch) == |batch|
    ensures forall i :: 0 <= i < |batch| ==> batch[i].output
    decreases |batch|
  {
    if batch != [] {
      CountOutputsBound(batch[..|batch| - 1]);
      EveryTokenMarked(batch[..|batch| - 1]);
    }
  }

  lemma {:induction false} EveryIndexMarked(batch: seq<BatchToken>, idxs: seq<nat>)
    requires Below(idxs, |batch|) && forall i :: 0 <= i < |batch| ==> batch[i].output
    ensures |OutputsOf(batch, idxs)| == |idxs|
    decreases |idxs|
  {
    if idxs != [] {
      EveryIndexMarked(batch, idxs[..|idxs| - 1]);
    }
  }

  /** How many rows a micro-batch makes: all of its tokens are outputs, or the marked ones are counted. */
  method CountRows(ghost batch: seq<BatchToken>, ub: UBatch, nOutputsAll: nat, nTokensAll: nat) returns (n: nat)
    requires CopiedFrom(batch, ub) && nOutputsAll == CountOutputs(batch) && nTokensAll == |batch|
    ensures n == |OutputsOf(batch, ub.idxs)|
  {
    if nOutputsAll == nTokensAll {
      AllMarked(batch, ub.idxs);
      return |ub.tokens|;
    }
    n := 0;
    for i := 0 to |ub.tokens|
      invariant n == |OutputsOf(batch, ub.idxs[..i])|
    {
      assert ub.idxs[..i + 1][..i] == ub.idxs[..i];
      if ub.tokens[i].output {
        n := n + 1;
      }
    }
    assert ub.idxs[..|ub.tokens|] == ub.idxs;
  }

  /** The indices of the first micro-batches. */
  ghost function Completed(ubatches: seq<UBatch>, n: nat): seq<nat>
    requires n <= |ubatches|
  {
    Flatten(Indices(ubatches[..n]))
  }

  lemma CompletedMore(ubatches: seq<UBatch>, n: nat)
    requires n < |ubatches|
    ensures Completed(ubatches, n + 1) == Completed(ubatches, n) + ubatches[n].idxs
  {
    assert ubatches[..n + 1] == ubatches[..n] + [ubatches[n]];
    IndicesMore(ubatches[..n], ubatches[n]);
  }

  lemma {:induction false} CompletedIsPrefix(ubatches: seq<UBatch>, n: nat)
    requires n <= |ubatches|
    ensures Completed(ubatches, n) <= Flatten(Indices(ubatches))
    decreases |ubatches| - n
  {
    if n == |ubatches| {
      assert ubatches[..n] == ubatches;
    } else {
      CompletedMore(ubatches, n);
      CompletedIsPrefix(ubatches, n + 1);
    }
  }

  lemma PrefixInBatch(seqSet: seq<SeqSet>, emitted: seq<nat>, front: seq<nat>)
    requires EmittedInOrder(seqSet, emitted) && front <= emitted
    ensures EmittedInOrder(seqSet, front)
  {
    assert forall k :: 0 <= k < |front| ==> front[k] == emitted[k];
    forall a: nat, b: nat
      ensures PairInOrder(seqSet, front, a, b)
    {
      assert PairInOrder(seqSet, emitted, a, b);
    }
  }

  /** Everything that is stored of the batch when all of its tokens are. */
  lemma StoredWhole(mem: Mem, batch: seq<BatchToken>, idxs: seq<nat>)
    requires Below(idxs, |batch|) && forall i: nat :: i < |batch| ==> i in idxs
    ensures Stored(mem, TokensAt(batch, idxs)) == Stored(mem, batch)
  {
    var toks := TokensAt(batch, idxs);
    forall s, p | 0 <= s < |mem|
      ensures p in PositionsOf(toks, s) <==> p in PositionsOf(batch, s)
    {
      if p in PositionsOf(toks, s) {
        var k :| 0 <= k < |toks| && s in toks[k].seqIds && toks[k].pos == p;
        assert batch[idxs[k]] == toks[k];
      }
      if p in PositionsOf(batch, s) {
        var i :| 0 <= i < |batch| && s in batch[i].seqIds && batch[i].pos == p;
        assert i in idxs;
        var k :| 0 <= k < |idxs| && idxs[k] == i;
        assert toks[k] == batch[i];
      }
    }
    SameMem(Stored(mem, toks), Stored(mem, batch));
  }

  lemma TokensAtJoin(batch: seq<BatchToken>, a: seq<nat>, b: seq<nat>)
    requires Below(a, |batch|) && Below(b, |batch|)
    ensures Below(a + b, |batch|) && TokensAt(batch, a + b) == TokensAt(batch, a) + TokensAt(batch, b)
  {
  }

  lemma CopiedTokens(batch: seq<BatchToken>, ub: UBatch)
    requires CopiedFrom(batch, ub)
    ensures ub.tokens == TokensAt(batch, ub.idxs)
  {
  }

  /**
    The swaps bring the outputs into order; there are fewer than misplaced outputs, and none exactly if none
    is misplaced.
    */
  ghost predicate SwapsOf(ids: seq<nat>, target: seq<nat>, swaps: seq<Swap>) {
    && |ids| == |target| && SwapsFit(swaps, |ids|) && ApplySwaps(ids, swaps) == target
    && if ids == target then swaps == [] else |swaps| < Misplaced(ids, target)
  }

  /** The micro-batches hold every token, each once, and nothing else. */
  ghost predicate IsWhole(batch: seq<BatchToken>, cut: seq<UBatch>) {
    && (forall u :: 0 <= u < |cut| ==> CopiedFrom(batch, cut[u]))
    && Below(Flatten(Indices(cut)), |batch|) && NoDuplicates(Flatten(Indices(cut)))
    && forall i: nat :: i < |batch| ==> i in Flatten(Indices(cut))
  }

  /** The swaps that bring the outputs of these micro-batches into batch order. */
  ghost predicate Pending(batch: seq<BatchToken>, cut: seq<UBatch>, swaps: seq<Swap>) {
    Below(Flatten(Indices(cut)), |batch|) && SwapsOf(OutputsOf(batch, Flatten(Indices(cut))), SortedOutputs(batch),
      swaps)
  }

  /** Rows in the order of `ids` serve the target, with the swaps that bring `ids` into its order. */
  lemma ServesSorted(outputIds: seq<int>, rows: seq<Row>, ids: seq<nat>, target: seq<nat>, swaps: seq<Swap>,
                     compute: nat -> Row)
    requires PlacesOf(outputIds, target) && SwapsOf(ids, target, swaps) && rows == Mapped(ids, compute)
    ensures ServesBy(outputIds, rows, swaps, target, compute)
  {
    SwapsFollow(ids, compute, swaps);
    SortingMoves(ids, target, swaps);
  }

  /** Micro-batch `k` is to fail. */
  predicate FailsAt(failing: Option<nat>, k: nat) {
    failing.Some? && failing.value == k
  }

  /** The micro-batch that is to fail is one of the first `n`. */
  predicate Hits(failing: Option<nat>, n: nat) {
    failing.Some? && failing.value < n
  }

  /** Micro-batch `n` has failed: the ones before it are stored, what had arrived of it is removed by positions. */
  ghost predicate RolledTo(batch: seq<BatchToken>, cut: seq<UBatch>, n: nat, mem0: Mem, history0: seq<BatchToken>,
                           kept: (nat, int) -> bool, mem: Mem, history: seq<BatchToken>) {
    && n < |cut| && Below(Completed(cut, n), |batch|) && UBatchFits(cut[n], |mem0|)
    && mem == AfterFailure(mem0, batch, Completed(cut, n), cut[n], kept)
    && history == history0 + TokensAt(batch, Completed(cut, n))
  }

  class Decoder {
    const balloc: BatchAllocr
    const out: OutputBuffer
    var mem: Mem
    ghost var history: seq<BatchToken>  // the tokens of all micro-batches that were completed

    constructor (nBatch: nat, nSeqMax: nat)
      ensures fresh(balloc) && fresh(out) && fresh(out.outputIds) && fresh(out.logits)
      ensures out.nBatch == nBatch && mem == seq(nSeqMax, _ => {}) && history == [] && Tracks() && Ready()
    {
      balloc := new BatchAllocr();
      out := new OutputBuffer(nBatch, nSeqMax);
      mem := seq(nSeqMax, _ => {});
      history := [];
    }

    ghost predicate Ready()
      reads this, out
    {
      out.outputIds.Length == out.nBatch
    }

    /** Memory holds the positions of the completed tokens, and nothing else. */
    ghost predicate Tracks()
      reads this
    {
      TracksBy(mem, history)
    }

    /** A micro-batch is run. If that fails, some of it may have been stored, and is removed. */
    method ProcessUbatch(ub: UBatch, compute: nat -> Row, fails: bool, kept: (nat, int) -> bool)
      returns (rows: seq<Row>)
      requires CopiedFrom(balloc.batch, ub)
      requires forall i :: 0 <= i < |ub.tokens| ==> ub.tokens[i].seqIds != [] && Below(ub.tokens[i].seqIds, |mem|)
      modifies this`mem, this`history
      ensures !fails ==> mem == Stored(old(mem), ub.tokens) && history == old(history) + ub.tokens
      ensures !fails ==> rows == Mapped(OutputsOf(balloc.batch, ub.idxs), compute)
      ensures fails ==> mem == RolledBack(StoredPart(old(mem), ub.tokens, kept), ub.tokens) && history == old(history)
    {
      if fails {
        mem := StoredPart(mem, ub.tokens, kept);
        mem := RollBack(mem, ub.tokens);
        rows := [];
      } else {
        mem := Stored(mem, ub.tokens);
        history := history + ub.tokens;
        rows := Mapped(OutputsOf(balloc.batch, ub.idxs), compute);
      }
    }

    /** The rows so far are those of the outputs emitted so far, in that order. */
    ghost predicate HasRows(idxs: seq<nat>, compute: nat -> Row)
      requires Below(idxs, |balloc.batch|)
      reads this, balloc, out, out.logits
    {
      var outs := OutputsOf(balloc.batch, idxs);
      |outs| <= out.logits.Length && out.logits[..|outs|] == Mapped(outs, compute)
    }

    /** Runs one micro-batch and stores its rows behind those of the ones before. */
    method RunUbatch(ub: UBatch, nOutputsPrev: nat, ghost done: seq<nat>, ghost after: seq<nat>, compute: nat -> Row,
                     fails: bool, kept: (nat, int) -> bool) returns (ok: bool, nOutputsNew: nat)
      requires CopiedFrom(balloc.batch, ub) && balloc.nOutputs == CountOutputs(balloc.batch) &&
        Below(done, |balloc.batch|)
      requires forall i :: 0 <= i < |ub.tokens| ==> ub.tokens[i].seqIds != [] && Below(ub.tokens[i].seqIds, |mem|)
      requires nOutputsPrev == |OutputsOf(balloc.batch, done)| && HasRows(done, compute)
      requires after == done + ub.idxs && Below(after, |balloc.batch|) &&
        |OutputsOf(balloc.batch, after)| <= out.logits.Length
      modifies this`mem, this`history, out`nOutputs, out.logits
      ensures ok == !fails && nOutputsNew == |OutputsOf(balloc.batch, after)|
      ensures out.nOutputs == |OutputsOf(balloc.batch, ub.idxs)| && nOutputsNew == nOutputsPrev + out.nOutputs
      ensures HasRows(if ok then done + ub.idxs else done, compute)
      ensures ok ==> mem == Stored(old(mem), ub.tokens) && history == old(history) + ub.tokens
      ensures !ok ==> mem == RolledBack(StoredPart(old(mem), ub.tokens, kept), ub.tokens) && history == old(history)
    {
      var n := CountRows(balloc.batch, ub, balloc.nOutputs, |balloc.batch|);
      out.nOutputs := n;
      OutputsOfJoin(balloc.batch, done, ub.idxs);
      nOutputsNew := nOutputsPrev + n;
      var rows := ProcessUbatch(ub, compute, fails, kept);
      ok := !fails;
      if ok {
        out.AppendRows(nOutputsPrev, rows);
        MappedJoin(OutputsOf(balloc.batch, done), OutputsOf(balloc.batch, ub.idxs), compute);
      }
    }

    /** The micro-batches can be run: they are of this batch, and there is room for their rows. */
    ghost predicate Runnable(ubatches: seq<UBatch>)
      reads this, balloc, out, out.logits
    {
      && balloc.Loaded() && balloc.nSeqMax == |mem|
      && (forall u :: 0 <= u < |ubatches| ==> CopiedFrom(balloc.batch, ubatches[u]))
      && Below(Flatten(Indices(ubatches)), |balloc.batch|)
      && |OutputsOf(balloc.batch, Flatten(Indices(ubatches)))| <= out.logits.Length
    }

    /** The first `k` micro-batches are completed. */
    ghost predicate RanTo(ubatches: seq<UBatch>, k: nat, failing: Option<nat>, nOutputsPrev: nat, compute: nat -> Row,
                          mem0: Mem, history0: seq<BatchToken>)
      reads this, balloc, out, out.logits
    {
      && k <= |ubatches| && !Hits(failing, k) && Runnable(ubatches) && Below(Completed(ubatches, k), |balloc.batch|)
      && nOutputsPrev == |OutputsOf(balloc.batch, Completed(ubatches, k))| && HasRows(Completed(ubatches, k), compute)
      && Holds(balloc.batch, Completed(ubatches, k), mem0, history0, mem, history)
    }

    /** Micro-batch `k` has failed: the rows are those of the ones before it, the number of outputs is its own. */
    ghost predicate Stopped(ubatches: seq<UBatch>, k: nat, compute: nat -> Row)
      reads this, balloc, out, out.logits
    {
      && k < |ubatches| && Below(Completed(ubatches, k), |balloc.batch|) && Below(ubatches[k].idxs, |balloc.batch|)
      && HasRows(Completed(ubatches, k), compute) && out.nOutputs == |OutputsOf(balloc.batch, ubatches[k].idxs)|
      && |OutputsOf(balloc.batch, Completed(ubatches, k))| + out.nOutputs <= out.logits.Length
    }

    /** What is left in the output buffer when micro-batch `k` has failed. */
    ghost predicate Leaves(ubatches: seq<UBatch>, k: nat, compute: nat -> Row)
      reads this, balloc, out, out.outputIds, out.logits
    {
      && k < |ubatches| && Below(Completed(ubatches, k), |balloc.batch|) && Below(ubatches[k].idxs, |balloc.batch|)
      && out.outputSwaps == []
      && LeftBehind(out.outputIds[..], out.logits[..], out.nOutputs, OutputsOf(balloc.batch, Completed(ubatches, k)),
                    OutputsOf(balloc.batch, ubatches[k].idxs), compute)
    }

    lemma RanNone(ubatches: seq<UBatch>, failing: Option<nat>, compute: nat -> Row)
      requires Runnable(ubatches)
      ensures RanTo(ubatches, 0, failing, 0, compute, mem, history)
    {
      NothingStored(mem);
      assert TokensAt(balloc.batch, []) == [] && history + [] == history;
    }

    /** Runs the micro-batches in turn, until one fails. `n` of them are completed. */
    method RunAll(ubatches: seq<UBatch>, compute: nat -> Row, failing: Option<nat>, kept: (nat, int) -> bool)
      returns (ok: bool, n: nat)
      requires Runnable(ubatches)
      modifies this`mem, this`history, out`nOutputs, out.logits
      ensures n <= |ubatches| && (ok <==> n == |ubatches|) && (!ok ==> FailsAt(failing, n)) &&
        (ok <==> !Hits(failing, |ubatches|))
      ensures Below(Completed(ubatches, n), |balloc.batch|)
      ensures ok ==> HasRows(Completed(ubatches, n), compute)
      ensures ok ==> Holds(balloc.batch, Completed(ubatches, n), old(mem), old(history), mem, history)
      ensures !ok ==> RolledTo(balloc.batch, ubatches, n, old(mem), old(history), kept, mem, history)
      ensures !ok ==> Stopped(ubatches, n, compute)
    {
      var nOutputsPrev := 0;
      ok, n := true, 0;
      RanNone(ubatches, failing, compute);
      while n < |ubatches|
        invariant ok && RanTo(ubatches, n, failing, nOutputsPrev, compute, old(mem), old(history))
      {
        ok, nOutputsPrev := RunNext(ubatches, n, failing, nOutputsPrev, compute, kept, old(mem), old(history));
        if !ok {
          return;
        }
        n := n + 1;
      }
    }

    /** One micro-batch more. */
    method RunNext(ubatches: seq<UBatch>, k: nat, failing: Option<nat>, nOutputsPrev: nat, compute: nat -> Row,
                   kept: (nat, int) -> bool, ghost mem0: Mem, ghost history0: seq<BatchToken>)
      returns (ok: bool, nOutputsNew: nat)
      requires k < |ubatches| && RanTo(ubatches, k, failing, nOutputsPrev, compute, mem0, history0)
      modifies this`mem, this`history, out`nOutputs, out.logits
      ensures if ok then RanTo(ubatches, k + 1, failing, nOutputsNew, compute, mem0, history0) else FailsAt(failing, k)
      ensures !ok ==> RolledTo(balloc.batch, ubatches, k, mem0, history0, kept, mem, history)
      ensures !ok ==> Stopped(ubatches, k, compute)
    {
      var ub := ubatches[k];
      Fits(balloc, ub);
      CompletedBelow(balloc.batch, ubatches, k + 1);
      CompletedMore(ubatches, k);
      HoldsMore(balloc.batch, ubatches, k, mem0, history0, mem, history);
      RolledHere(balloc.batch, ubatches, k, mem0, history0, kept, mem, history);
      ok, nOutputsNew := RunUbatch(ub, nOutputsPrev, Completed(ubatches, k), Completed(ubatches, k + 1), compute,
        FailsAt(failing, k), kept);
    }

    /** Puts the outputs in order: their places are entered, and the swaps are left to be applied. */
    method MapOutputs(ghost target: seq<nat>, ghost compute: nat -> Row)
      requires Ready() && out.outputSwaps == [] && forall i :: 0 <= i < out.nBatch ==> out.outputIds[i] == -1
      requires balloc.nOutputs == |balloc.outIds| == |target| && NoDuplicates(balloc.outIds) &&
        Below(balloc.outIds, out.nBatch)
      requires Ascending(target) && SameElements(balloc.outIds, target)
      requires |target| <= out.logits.Length && out.logits[..|target|] == Mapped(balloc.outIds, compute)
      modifies balloc`outIds, out`nOutputs, out`outputSwaps, out.outputIds
      ensures out.Serves(target, compute) && SwapsOf(old(balloc.outIds), target, out.outputSwaps)
    {
      out.nOutputs := balloc.nOutputs;
      EnterIds(target);
      ServesSorted(out.outputIds[..], out.logits[..|target|], old(balloc.outIds), target, out.outputSwaps, compute);
    }

    /** Enters the places of the outputs; out of order, they are sorted first. */
    method EnterIds(ghost target: seq<nat>)
      requires Ready() && out.outputSwaps == [] && forall i :: 0 <= i < out.nBatch ==> out.outputIds[i] == -1
      requires |balloc.outIds| == |target| == out.nOutputs && NoDuplicates(balloc.outIds) &&
        Below(balloc.outIds, out.nBatch)
      requires Ascending(target) && SameElements(balloc.outIds, target)
      modifies balloc`outIds, out`outputSwaps, out.outputIds
      ensures PlacesOf(out.outputIds[..], target) && SwapsOf(old(balloc.outIds), target, out.outputSwaps)
    {
      out.SetIds(balloc.outIds);
      var sorted := IsIdentity(balloc.outIds);
      if !sorted && out.nOutputs > 1 {
        SortOutputs(target);
      } else {
        InPlaceAlready(balloc.outIds, target);
      }
    }

    method SortOutputs(ghost target: seq<nat>)
      requires Ready() && NoDuplicates(balloc.outIds) && Below(balloc.outIds, out.nBatch)
      requires Ascending(target) && SameElements(balloc.outIds, target) && |balloc.outIds| == |target|
      modifies balloc`outIds, out`outputSwaps, out.outputIds
      ensures PlacesOf(out.outputIds[..], target) && SwapsOf(old(balloc.outIds), target, out.outputSwaps)
    {
      var ids, swaps := SelectionSort(balloc.outIds, target);
      assert forall r :: 0 <= r < |target| ==> target[r] in balloc.outIds;
      balloc.outIds := ids;
      out.outputSwaps := swaps;
      out.ClearIds();
      out.SetIds(ids);
    }

    /** Runs the micro-batches of a cut batch and puts the outputs in order. */
    method RunCut(cut: seq<UBatch>, compute: nat -> Row, failing: Option<nat>, kept: (nat, int) -> bool)
      returns (ok: bool, ghost n: nat)
      requires Ready() && out.outputSwaps == [] && balloc.Loaded() && |balloc.batch| <= out.nBatch &&
        balloc.nSeqMax == |mem|
      requires IsCut(balloc.batch, balloc.seqSet, balloc.outIds, balloc.nOutputs, cut)
      modifies this`mem, this`history, out`logits, out`nOutputs, out`outputSwaps, out.outputIds, out.logits,
        balloc`outIds
      ensures out.logits == old(out.logits) || fresh(out.logits)
      ensures n <= |cut| && (ok <==> n == |cut|) && Below(Completed(cut, n), |balloc.batch|)
      ensures (ok <==> !Hits(failing, |cut|)) && (!ok ==> FailsAt(failing, n))
      ensures ok ==> out.Serves(SortedOutputs(balloc.batch), compute)
      ensures ok ==> SwapsOf(old(balloc.outIds), SortedOutputs(balloc.batch), out.outputSwaps)
      ensures ok ==> Holds(balloc.batch, Flatten(Indices(cut)), old(mem), old(history), mem, history)
      ensures !ok ==> Leaves(cut, n, compute)
      ensures !ok ==> RolledTo(balloc.batch, cut, n, old(mem), old(history), kept, mem, history)
    {
      out.OutputReserve(balloc.nOutputs);
      ok, n := RunReserved(cut, compute, failing, kept);
    }

    /** Runs the micro-batches when there is room for all rows. */
    method RunReserved(cut: seq<UBatch>, compute: nat -> Row, failing: Option<nat>, kept: (nat, int) -> bool)
      returns (ok: bool, ghost n: nat)
      requires Ready() && out.outputSwaps == [] && balloc.Loaded() && |balloc.batch| <= out.nBatch &&
        balloc.nSeqMax == |mem|
      requires IsCut(balloc.batch, balloc.seqSet, balloc.outIds, balloc.nOutputs, cut)
      requires balloc.nOutputs <= out.logits.Length && forall i :: 0 <= i < out.nBatch ==> out.outputIds[i] == -1
      modifies this`mem, this`history, out`nOutputs, out`outputSwaps, out.outputIds, out.logits, balloc`outIds
      ensures n <= |cut| && (ok <==> n == |cut|) && Below(Completed(cut, n), |balloc.batch|)
      ensures (ok <==> !Hits(failing, |cut|)) && (!ok ==> FailsAt(failing, n))
      ensures ok ==> out.Serves(SortedOutputs(balloc.batch), compute)
      ensures ok ==> SwapsOf(old(balloc.outIds), SortedOutputs(balloc.batch), out.outputSwaps)
      ensures ok ==> Holds(balloc.batch, Flatten(Indices(cut)), old(mem), old(history), mem, history)
      ensures !ok ==> Leaves(cut, n, compute)
      ensures !ok ==> RolledTo(balloc.batch, cut, n, old(mem), old(history), kept, mem, history)
    {
      ok, n := RunAll(cut, compute, failing, kept);
      if ok {
        WholeCut(cut);
        FinishOutputs(cut, compute);
      }
    }

    /** All rows are there. */
    method FinishOutputs(ghost cut: seq<UBatch>, ghost compute: nat -> Row)
      requires Ready() && out.outputSwaps == [] && forall i :: 0 <= i < out.nBatch ==> out.outputIds[i] == -1
      requires |balloc.batch| <= out.nBatch && balloc.nOutputs == CountOutputs(balloc.batch)
      requires IsCut(balloc.batch, balloc.seqSet, balloc.outIds, balloc.nOutputs, cut)
      requires Below(Flatten(Indices(cut)), |balloc.batch|) && HasRows(Flatten(Indices(cut)), compute)
      modifies balloc`outIds, out`nOutputs, out`outputSwaps, out.outputIds
      ensures out.Serves(SortedOutputs(balloc.batch), compute)
      ensures SwapsOf(old(balloc.outIds), SortedOutputs(balloc.batch), out.outputSwaps)
    {
      SortedOutputsMembers(balloc.batch);
      OutputsFit(balloc.batch, balloc.outIds, cut, out.nBatch);
      MapOutputs(SortedOutputs(balloc.batch), compute);
    }

    /** Cuts the batch. */
    method Cut(mode: SplitMode, nUbatch: nat) returns (ok: bool, cut: seq<UBatch>)
      requires balloc.Loaded() && balloc.batch != [] && (TailOf(mode) > 0 ==> nUbatch > TailOf(mode))
      modifies balloc`outIds, balloc`nUsed, balloc`used, balloc`emitted
      ensures ok <==> !Refused(mode, balloc.hasCpl)
      ensures ok ==> IsCut(balloc.batch, balloc.seqSet, balloc.outIds, balloc.nOutputs, cut)
      ensures ok ==> Stepwise(mode, balloc.batch, balloc.seqSet, balloc.seqSetMap, nUbatch, cut)
    {
      ok, cut := InitBatch(balloc, mode, nUbatch);
      if ok {
        forall u | 0 <= u < |cut|
          ensures CopiedFrom(balloc.batch, cut[u])
        {
          assert WellCutAt(mode, balloc.batch, balloc.seqSet, nUbatch, cut, u);
        }
      }
    }

    /**
      The micro-batches were run, up to the end or to the one that failed. After a success every token is stored
      and its outputs can be asked for. After a failure, if the batch can be undone, memory is as if only the
      completed micro-batches had been run; so it tracks the completed tokens either way.
      */
    ghost predicate Outcome(ok: bool, cut: seq<UBatch>, n: nat, memory: MemoryBounds, compute: nat -> Row,
                            failing: Option<nat>, kept: (nat, int) -> bool, mem0: Mem, history0: seq<BatchToken>)
      requires MemoryFits(memory, |mem0|)
      reads this, balloc, out, out.outputIds, out.logits
    {
      && IsWhole(balloc.batch, cut) && (ok <==> !Hits(failing, |cut|))
      && (ok ==> out.Serves(SortedOutputs(balloc.batch), compute) && Pending(balloc.batch, cut, out.outputSwaps))
      && (ok ==> mem == Stored(mem0, balloc.batch))
      && (!ok ==> FailsAt(failing, n) && Leaves(cut, n, compute))
      && (!ok ==> RolledTo(balloc.batch, cut, n, mem0, history0, kept, mem, history))
      && (!ok && CanUndo(balloc.batch, memory, mem0) ==>
          Holds(balloc.batch, Completed(cut, n), mem0, history0, mem, history))
      && (TracksBy(mem0, history0) && (!ok ==> CanUndo(balloc.batch, memory, mem0)) ==> TracksBy(mem, history))
    }

    /** Runs the micro-batches of an accepted batch, and says what memory holds then. */
    method RunTracked(ghost memory: MemoryBounds, cut: seq<UBatch>,
                      compute: nat -> Row, failing: Option<nat>, kept: (nat, int) -> bool)
      returns (ok: bool, ghost n: nat)
      requires Ready() && out.outputSwaps == [] && balloc.Loaded() && |balloc.batch| <= out.nBatch &&
        balloc.nSeqMax == |mem|
      requires IsCut(balloc.batch, balloc.seqSet, balloc.outIds, balloc.nOutputs, cut) && MemoryFits(memory, |mem|)
      modifies this`mem, this`history, out`logits, out`nOutputs, out`outputSwaps, out.outputIds, out.logits,
        balloc`outIds
      ensures out.logits == old(out.logits) || fresh(out.logits)
      ensures |mem| == |old(mem)| && Outcome(ok, cut, n, memory, compute, failing, kept, old(mem), old(history))
    {
      ok, n := RunCut(cut, compute, failing, kept);
      CutIsWhole(balloc.batch, balloc.seqSet, old(balloc.outIds), balloc.nOutputs, cut);
      if ok {
        OnSuccess(balloc.batch, balloc.seqSet, balloc.nOutputs, cut, old(mem), old(history), mem, history);
      } else if old(CanUndo(balloc.batch, memory, mem)) {
        OnFailure(balloc.batch, balloc.seqSet, balloc.nOutputs, memory, old(mem), old(history), cut, n, kept, history);
      }
    }

    /** A batch that was accepted is cut and, if there is room, run. */
    method RunAccepted(ghost memory: MemoryBounds, mode: SplitMode, nUbatch: nat,
                       hasRoom: bool, compute: nat -> Row, failing: Option<nat>, kept: (nat, int) -> bool)
      returns (status: Status, ghost cut: seq<UBatch>, ghost n: nat)
      requires Ready() && out.outputSwaps == []
      requires balloc.Loaded() && balloc.batch != [] && |balloc.batch| <= out.nBatch && balloc.nSeqMax == |mem|
      requires (TailOf(mode) > 0 ==> nUbatch > TailOf(mode)) && MemoryFits(memory, |mem|)
      modifies this`mem, this`history, out`logits, out`nOutputs, out`outputSwaps, out.outputIds, out.logits
      modifies balloc`outIds, balloc`nUsed, balloc`used, balloc`emitted
      ensures out.logits == old(out.logits) || fresh(out.logits)
      ensures |mem| == |old(mem)| && !status.Invalid? && balloc.Loaded()
      ensures status.NoSlot? <==> Refused(mode, balloc.hasCpl) || !hasRoom
      ensures status.NoSlot? ==> mem == old(mem) && history == old(history) && out.outputSwaps == []
      ensures status.NoSlot? ==> out.logits == old(out.logits) && out.nOutputs == old(out.nOutputs)
      ensures status.NoSlot? ==> unchanged(out.logits) && unchanged(out.outputIds)
      ensures !status.NoSlot? ==> Stepwise(mode, balloc.batch, balloc.seqSet, balloc.seqSetMap, nUbatch, cut)
      ensures !status.NoSlot? ==> Outcome(status.Success?, cut, n, memory, compute, failing, kept, old(mem),
        old(history))
    {
      n := 0;
      var ok, ubatches := Cut(mode, nUbatch);
      cut := ubatches;
      if !ok || !hasRoom {
        return NoSlot, cut, n;
      }
      ok, n := RunTracked(memory, ubatches, compute, failing, kept);
      status := if ok then Success else Failed;
    }

    /** Takes in a batch. If it is accepted, swaps that are still pending are dropped. */
    method TakeInBatch(inp: BatchInput, nVocab: nat, memory: MemoryBounds, outputAll: bool) returns (ok: bool)
      requires (inp.nTokens > 0 ==> WellSized(inp)) && |mem| > 0 && MemoryFits(memory, |mem|)
      modifies out`outputSwaps, balloc
      ensures out.outputSwaps == if ok then [] else old(out.outputSwaps)
      ensures Checked(inp, nVocab, memory, |mem|) ==> IsFilled(balloc.batch, inp, memory, |mem|, outputAll)
      ensures ok <==> Checked(inp, nVocab, memory, |mem|) && Acceptable(balloc.batch, memory, |mem|)
      ensures ok ==> balloc.Loaded() && balloc.nSeqMax == |mem| && |balloc.batch| == inp.nTokens > 0
    {
      if inp.nTokens == 0 {
        return false;
      }
      ok := balloc.Init(inp, nVocab, memory, |mem|, outputAll);
      if ok {
        out.outputSwaps := [];
      }
    }

    /**
      Decodes a batch. It is invalid, finds no slot, fails or succeeds exactly as stated; `Outcome` says what
      a run of the micro-batches leaves in memory and in the output buffer. A call that finds no room
      leaves the outputs of the call before it, but drops their pending swaps.
      */
    method Decode(inp: BatchInput, nVocab: nat, memory: MemoryBounds, outputAll: bool, mode: SplitMode, nUbatch: nat,
                  hasRoom: bool, compute: nat -> Row, failing: Option<nat>, kept: (nat, int) -> bool)
      returns (status: Status, ghost cut: seq<UBatch>, ghost n: nat)
      requires Ready() && (inp.nTokens > 0 ==> WellSized(inp)) && |mem| > 0 && MemoryFits(memory, |mem|) &&
        inp.nTokens <= out.nBatch
      requires TailOf(mode) > 0 ==> nUbatch > TailOf(mode)
      modifies this`mem, this`history, out`logits, out`nOutputs, out`outputSwaps, out.outputIds, out.logits, balloc
      ensures out.logits == old(out.logits) || fresh(out.logits)
      ensures Ready() && |mem| == |old(mem)|
      ensures Checked(inp, nVocab, memory, |old(mem)|) ==> IsFilled(balloc.batch, inp, memory, |old(mem)|, outputAll)
      ensures status.Invalid? <==>
        !Checked(inp, nVocab, memory, |old(mem)|) || !Acceptable(balloc.batch, memory, |old(mem)|)
      ensures status.Invalid? ==> mem == old(mem) && out.outputSwaps == old(out.outputSwaps)
      ensures !status.Invalid? ==> balloc.Loaded() && (status.NoSlot? <==> Refused(mode, balloc.hasCpl) || !hasRoom)
      ensures status.Invalid? || status.NoSlot? ==> mem == old(mem) && history == old(history)
      ensures status.Invalid? || status.NoSlot? ==> out.logits == old(out.logits) && out.nOutputs == old(out.nOutputs)
      ensures status.Invalid? || status.NoSlot? ==> unchanged(out.logits) && unchanged(out.outputIds)
      ensures status.NoSlot? ==> out.outputSwaps == []
      ensures status.Success? || status.Failed? ==>
        Stepwise(mode, balloc.batch, balloc.seqSet, balloc.seqSetMap, nUbatch, cut)
      ensures status.Success? || status.Failed? ==>
        Outcome(status.Success?, cut, n, memory, compute, failing, kept, old(mem), old(history))
    {
      status, cut, n := Invalid, [], 0;
      var ok := TakeInBatch(inp, nVocab, memory, outputAll);
      if !ok {
        return;
      }
      status, cut, n := RunAccepted(memory, mode, nUbatch, hasRoom, compute, failing, kept);
    }
  }

  lemma CutIsWhole(batch: seq<BatchToken>, seqSet: seq<SeqSet>, outIds: seq<nat>, nOutputs: nat, cut: seq<UBatch>)
    requires IsCut(batch, seqSet, outIds, nOutputs, cut)
    ensures IsWhole(batch, cut)
  {
  }

  /** Everything is stored when all micro-batches are completed. */
  lemma OnSuccess(batch: seq<BatchToken>, seqSet: seq<SeqSet>, nOutputs: nat, cut: seq<UBatch>,
                  mem0: Mem, history0: seq<BatchToken>, mem: Mem, history: seq<BatchToken>)
    requires Holds(batch, Flatten(Indices(cut)), mem0, history0, mem, history)
    requires IsCut(batch, seqSet, OutputsOf(batch, Flatten(Indices(cut))), nOutputs, cut)
    ensures mem == Stored(mem0, batch) && (TracksBy(mem0, history0) ==> TracksBy(mem, history))
  {
    StoredWhole(mem0, batch, Flatten(Indices(cut)));
    TracksMore(mem0, history0, TokensAt(batch, Flatten(Indices(cut))));
  }

  /** What is stored after a failure are the completed micro-batches. */
  lemma OnFailure(batch: seq<BatchToken>, seqSet: seq<SeqSet>, nOutputs: nat, memory: MemoryBounds, mem: Mem,
                  history0: seq<BatchToken>, cut: seq<UBatch>, n: nat, kept: (nat, int) -> bool,
                  history: seq<BatchToken>)
    requires Reports(memory, mem) && Acceptable(batch, memory, |mem|) && SingleSequence(batch) && Increasing(batch)
    requires |seqSet| == |batch| && forall i: nat :: TokenOk(batch, seqSet, |mem|, i)
    requires n < |cut| && UBatchFits(cut[n], |mem|) && Below(Completed(cut, n), |batch|) &&
      Below(Flatten(Indices(cut)), |batch|)
    requires IsCut(batch, seqSet, OutputsOf(batch, Flatten(Indices(cut))), nOutputs, cut)
    requires history == history0 + TokensAt(batch, Completed(cut, n))
    ensures var mem' := AfterFailure(mem, batch, Completed(cut, n), cut[n], kept);
      Holds(batch, Completed(cut, n), mem, history0, mem', history) &&
        (TracksBy(mem, history0) ==> TracksBy(mem', history))
  {
    FailureExact(batch, seqSet, memory, mem, cut, n, kept);
    TracksMore(mem, history0, TokensAt(batch, Completed(cut, n)));
  }

  ghost predicate TracksBy(mem: Mem, history: seq<BatchToken>) {
    forall s :: 0 <= s < |mem| ==> mem[s] == PositionsOf(history, s)
  }

  lemma TracksMore(mem: Mem, history: seq<BatchToken>, toks: seq<BatchToken>)
    ensures TracksBy(mem, history) ==> TracksBy(Stored(mem, toks), history + toks)
  {
    forall s | 0 <= s < |mem|
      ensures PositionsOf(history, s) + PositionsOf(toks, s) == PositionsOf(history + toks, s)
    {
      forall p
        ensures p in PositionsOf(history + toks, s) <==> p in PositionsOf(history, s) || p in PositionsOf(toks, s)
      {
        PositionsJoin(history, toks, s, p);
      }
    }
  }

  /** The failed micro-batch leaves nothing behind and takes nothing away. */
  lemma FailureExact(batch: seq<BatchToken>, seqSet: seq<SeqSet>, memory: MemoryBounds, mem: Mem, cut: seq<UBatch>,
                     n: nat, kept: (nat, int) -> bool)
    requires Reports(memory, mem) && Acceptable(batch, memory, |mem|) && SingleSequence(batch) && Increasing(batch)
    requires |seqSet| == |batch| && forall i: nat :: TokenOk(batch, seqSet, |mem|, i)
    requires n < |cut| && CopiedFrom(batch, cut[n]) && UBatchFits(cut[n], |mem|)
    requires EmittedInOrder(seqSet, Flatten(Indices(cut))) && Below(Completed(cut, n), |batch|)
    ensures AfterFailure(mem, batch, Completed(cut, n), cut[n], kept) == Stored(mem, TokensAt(batch, Completed(cut, n)))
  {
    var done := Completed(cut, n);
    CompletedMore(cut, n);
    CompletedIsPrefix(cut, n + 1);
    PrefixInBatch(seqSet, Flatten(Indices(cut)), Completed(cut, n + 1));
    CopiedTokens(batch, cut[n]);
    RunIsUndoable(batch, seqSet, memory, mem, done, cut[n].idxs);
    UndoableSuffices(Stored(mem, TokensAt(batch, done)), cut[n].tokens, kept);
  }

  /**
    The micro-batches hold every token once, those of a sequence set in order; `outIds` are the outputs as
    they come.
    */
  ghost predicate IsCut(batch: seq<BatchToken>, seqSet: seq<SeqSet>, outIds: seq<nat>, nOutputs: nat,
                        cut: seq<UBatch>) {
    && (forall u :: 0 <= u < |cut| ==> CopiedFrom(batch, cut[u]))
    && |seqSet| == |batch| && EmittedInOrder(seqSet, Flatten(Indices(cut)))
    && NoDuplicates(Flatten(Indices(cut))) && (forall i: nat :: i < |batch| ==> i in Flatten(Indices(cut)))
    && outIds == OutputsOf(batch, Flatten(Indices(cut))) && |outIds| == nOutputs
  }

  lemma WholeCut(cut: seq<UBatch>)
    ensures Completed(cut, |cut|) == Flatten(Indices(cut))
  {
    assert cut[..|cut|] == cut;
  }

  lemma OutputsFit(batch: seq<BatchToken>, outIds: seq<nat>, cut: seq<UBatch>, nBatch: nat)
    requires Below(Flatten(Indices(cut)), |batch|) && NoDuplicates(Flatten(Indices(cut))) && |batch| <= nBatch
    requires forall i: nat :: i < |batch| ==> i in Flatten(Indices(cut))
    requires outIds == OutputsOf(batch, Flatten(Indices(cut)))
    ensures NoDuplicates(outIds) && Below(outIds, nBatch) && SameElements(outIds, SortedOutputs(batch)) &&
      |outIds| == CountOutputs(batch)
  {
    AllOutputs(batch, Flatten(Indices(cut)), nBatch);
  }

  lemma AllOutputs(batch: seq<BatchToken>, idxs: seq<nat>, nBatch: nat)
    requires Below(idxs, |batch|) && NoDuplicates(idxs) && |batch| <= nBatch &&
      forall i: nat :: i < |batch| ==> i in idxs
    ensures var outs := OutputsOf(batch, idxs);
      NoDuplicates(outs) && Below(outs, nBatch) && SameElements(outs, SortedOutputs(batch)) &&
        |outs| == CountOutputs(batch)
  {
    var outs := OutputsOf(batch, idxs);
    OutputsOfMember(batch, idxs);
    OutputsOfAll(batch, idxs);
    SortedOutputsMembers(batch);
    forall k | 0 <= k < |outs|
      ensures outs[k] < nBatch
    {
      assert outs[k] in outs;
    }
    forall x
      ensures x in outs <==> x in SortedOutputs(batch)
    {
    }
  }

  /** Memory and history after the tokens `done`. */
  ghost predicate Holds(batch: seq<BatchToken>, done: seq<nat>, mem0: Mem, history0: seq<BatchToken>, mem: Mem,
                        history: seq<BatchToken>) {
    Below(done, |batch|) && mem == Stored(mem0, TokensAt(batch, done)) && history == history0 + TokensAt(batch, done)
  }

  lemma HoldsMore(batch: seq<BatchToken>, ubatches: seq<UBatch>, k: nat, mem0: Mem, history0: seq<BatchToken>, mem: Mem,
                  history: seq<BatchToken>)
    requires k < |ubatches| && CopiedFrom(batch, ubatches[k]) &&
      Holds(batch, Completed(ubatches, k), mem0, history0, mem, history)
    ensures Holds(batch, Completed(ubatches, k + 1), mem0, history0, Stored(mem, ubatches[k].tokens),
      history + ubatches[k].tokens)
  {
    var ub := ubatches[k];
    var done := Completed(ubatches, k);
    CompletedMore(ubatches, k);
    CopiedTokens(batch, ub);
    TokensAtJoin(batch, done, ub.idxs);
    StoredJoin(mem0, TokensAt(batch, done), ub.tokens);
  }

  lemma NothingStored(mem: Mem)
    ensures Stored(mem, []) == mem
  {
    SameMem(Stored(mem, []), mem);
  }

  ghost predicate UBatchFits(ub: UBatch, nSeqMax: nat) {
    forall i :: 0 <= i < |ub.tokens| ==> ub.tokens[i].seqIds != [] && Below(ub.tokens[i].seqIds, nSeqMax)
  }

  lemma Fits(a: BatchAllocr, ub: UBatch)
    requires a.Loaded() && CopiedFrom(a.batch, ub)
    ensures UBatchFits(ub, a.nSeqMax)
  {
    forall i | 0 <= i < |ub.tokens|
      ensures ub.tokens[i].seqIds != [] && Below(ub.tokens[i].seqIds, a.nSeqMax)
    {
      assert TokenOk(a.batch, a.seqSet, a.nSeqMax, ub.idxs[i]);
    }
  }

  /** Memory after some completed tokens and a failed micro-batch. */
  ghost function AfterFailure(mem: Mem, batch: seq<BatchToken>, done: seq<nat>, ub: UBatch, kept: (nat,
                              int) -> bool): Mem
    requires Below(done, |batch|) && UBatchFits(ub, |mem|)
  {
    RolledBack(StoredPart(Stored(mem, TokensAt(batch, done)), ub.tokens, kept), ub.tokens)
  }

  lemma RolledHere(batch: seq<BatchToken>, ubatches: seq<UBatch>, k: nat, mem0: Mem, history0: seq<BatchToken>,
                   kept: (nat, int) -> bool, mem: Mem, history: seq<BatchToken>)
    requires k < |ubatches| && UBatchFits(ubatches[k], |mem0|) &&
      Holds(batch, Completed(ubatches, k), mem0, history0, mem, history)
    ensures var toks := ubatches[k].tokens;
      |mem| == |mem0| && RolledTo(batch, ubatches, k, mem0, history0, kept,
        RolledBack(StoredPart(mem, toks, kept), toks), history)
  {
  }

  lemma CompletedBelow(batch: seq<BatchToken>, ubatches: seq<UBatch>, n: nat)
    requires n <= |ubatches| && Below(Flatten(Indices(ubatches)), |batch|)
    ensures Below(Completed(ubatches, n), |batch|)
    ensures |OutputsOf(batch, Completed(ubatches, n))| <= |OutputsOf(batch, Flatten(Indices(ubatches)))|
  {
    CompletedIsPrefix(ubatches, n);
    var all, front := Flatten(Indices(ubatches)), Completed(ubatches, n);
    var rest := all[|front|..];
    assert all == front + rest;
    assert forall k :: 0 <= k < |front| ==> front[k] == all[k];
    assert forall k :: 0 <= k < |rest| ==> rest[k] == all[|front| + k];
    OutputsOfJoin(batch, front, rest);
  }

  lemma MappedJoin<T>(a: seq<nat>, b: seq<nat>, f: nat -> T)
    ensures Mapped(a + b, f) == Mapped(a, f) + Mapped(b, f)
  {
  }
}
