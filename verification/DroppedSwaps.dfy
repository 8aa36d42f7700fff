/**
  A decode call that finds no room drops the swaps that the call before it left pending: a run after
  which a token is given the row of another one.
  */
module DroppedSwaps {
  import opened BatchTokens
  import opened Collections
  import opened BatchInit
  import opened BatchRun
  import opened OutputOrder
  import opened Outputs
  import opened Decoding

  /** Three outputs; the second token belongs to another sequence than the others. */
  function Interleaved(): BatchInput {
    BatchInput(3, Some([0, 0, 0]), None, Some([[0], [1], [0]]), Some([true, true, true]))
  }

  ghost predicate IsInterleaved(batch: seq<BatchToken>) {
    && |batch| == 3 && batch[0].seqIds == [0] && batch[1].seqIds == [1] && batch[2].seqIds == [0]
    && batch[0].output && batch[1].output && batch[2].output
  }

  lemma InterleavedPasses(batch: seq<BatchToken>, memory: MemoryBounds)
    requires MemoryFits(memory, 2)
    ensures Checked(Interleaved(), 1, memory, 2)
    ensures IsFilled(batch, Interleaved(), memory, 2, false) ==> Acceptable(batch, memory, 2) && IsInterleaved(batch)
  {
    assert IdsValid(Interleaved(), 1, 2);
    if IsFilled(batch, Interleaved(), memory, 2, false) {
      OmittedPositionsPass(batch, Interleaved(), memory, 1, 2, false);
      var seqIds := SeqIdsOf(Interleaved(), 2);
      assert seqIds[0] == [0] && seqIds[1] == [1] && seqIds[2] == [0];
    }
  }

  /** The first micro-batch takes the two tokens of sequence 0. */
  lemma FirstStep(seqSet: seq<SeqSet>, used: seq<bool>, idxs: seq<nat>)
    requires seqSet == [{0}, {1}, {0}] && |used| == 3 && !used[0] && !used[1] && !used[2]
    requires IsSequenceStep(seqSet, used, 3, idxs)
    ensures idxs == [0, 2]
  {
    assert idxs[0] == 0 && 1 in seqSet[1];
    assert forall k :: 0 < k < |idxs| ==> idxs[0] < idxs[k] && idxs[k] == 2;
    assert |idxs| >= 2 ==> idxs[1] == 2 && idxs[|idxs| - 1] == 2;
    assert seqSet[2] <= seqSet[0];
  }

  /** What is left is the token of sequence 1. */
  lemma SecondStep(seqSet: seq<SeqSet>, used: seq<bool>, idxs: seq<nat>)
    requires seqSet == [{0}, {1}, {0}] && |used| == 3 && used[0] && !used[1] && used[2]
    requires IsSequenceStep(seqSet, used, 3, idxs)
    ensures idxs == [1]
  {
    assert idxs[0] == 1;
    assert forall k :: 0 < k < |idxs| ==> idxs[0] < idxs[k] && idxs[k] == 2;
    assert idxs[|idxs| - 1] != 2;
  }

  /** The micro-batches of the whole batch, and the order in which their outputs come. */
  lemma InterleavedCut(batch: seq<BatchToken>, seqSet: seq<SeqSet>, m: map<SeqSet, seq<nat>>, cut: seq<UBatch>)
    requires IsInterleaved(batch) && seqSet == [{0}, {1}, {0}]
    requires Stepwise(BySequence, batch, seqSet, m, 3, cut) && IsWhole(batch, cut)
    ensures OutputsOf(batch, Flatten(Indices(cut))) == [0, 2, 1]
  {
    var all := Flatten(Indices(cut));
    assert 0 in all && 1 in all;
    InterleavedFirst(batch, seqSet, m, cut);
    InterleavedSecond(batch, seqSet, m, cut);
    CompletedIsPrefix(cut, 2);
    NoDupBound(all, 3);
    assert all == [0, 2, 1];
    OutputsInTurn(batch);
  }

  lemma InterleavedFirst(batch: seq<BatchToken>, seqSet: seq<SeqSet>, m: map<SeqSet, seq<nat>>, cut: seq<UBatch>)
    requires IsInterleaved(batch) && seqSet == [{0}, {1}, {0}]
    requires Stepwise(BySequence, batch, seqSet, m, 3, cut) && 0 in Flatten(Indices(cut))
    ensures |cut| >= 1 && Completed(cut, 1) == [0, 2]
  {
    assert cut != [];
    assert StepAt(BySequence, batch, seqSet, m, 3, cut, 0);
    assert cut[..0] == [] && Completed(cut, 0) == [];
    FirstStep(seqSet, UsedBy(3, []), cut[0].idxs);
    CompletedMore(cut, 0);
  }

  lemma InterleavedSecond(batch: seq<BatchToken>, seqSet: seq<SeqSet>, m: map<SeqSet, seq<nat>>, cut: seq<UBatch>)
    requires IsInterleaved(batch) && seqSet == [{0}, {1}, {0}]
    requires Stepwise(BySequence, batch, seqSet, m, 3, cut) && 1 in Flatten(Indices(cut))
    requires |cut| >= 1 && Completed(cut, 1) == [0, 2]
    ensures |cut| >= 2 && Completed(cut, 2) == [0, 2, 1]
  {
    assert cut[..1] == cut || |cut| > 1;
    assert StepAt(BySequence, batch, seqSet, m, 3, cut, 1);
    SecondStep(seqSet, UsedBy(3, [0, 2]), cut[1].idxs);
    CompletedMore(cut, 1);
  }

  lemma OutputsInTurn(batch: seq<BatchToken>)
    requires IsInterleaved(batch)
    ensures OutputsOf(batch, [0, 2, 1]) == [0, 2, 1]
  {
    assert [0, 2, 1][..2] == [0, 2] && [0, 2][..1] == [0] && [0][..0] == [];
    assert OutputsOf(batch, []) == [];
    assert OutputsOf(batch, [0]) == [0];
    assert OutputsOf(batch, [0, 2]) == [0, 2];
  }

  /** The network as it seems once the swaps are lost: the rows of tokens 1 and 2 have changed places. */
  function Mistaken(compute: nat -> Row): nat -> Row {
    (i: nat) => if i == 1 then compute(2) else if i == 2 then compute(1) else compute(i)
  }

  /** Rows that came in the order 0, 2, 1, with the swaps that would have sorted them lost. */
  lemma WithoutSwaps(outputIds: seq<int>, rows: seq<Row>, swaps: seq<Swap>, compute: nat -> Row)
    requires ServesBy(outputIds, rows, swaps, [0, 1, 2], compute) && SwapsOf([0, 2, 1], [0, 1, 2], swaps)
    ensures swaps != [] && ServesBy(outputIds, rows, [], [0, 1, 2], Mistaken(compute))
  {
    SwapsFollow([0, 2, 1], compute, swaps);
    SwapsInjective(rows, Mapped([0, 2, 1], compute), swaps);
    assert [0, 2, 1][1] != [0, 1, 2][1];
  }

  lemma SortedInterleaved(batch: seq<BatchToken>)
    requires IsInterleaved(batch)
    ensures SortedOutputs(batch) == [0, 1, 2]
  {
    assert Interval(0, 3) == [0, 1, 2];
    assert [0, 1, 2][..2] == [0, 1] && [0, 1][..1] == [0] && [0][..0] == [];
    assert OutputsOf(batch, []) == [];
    assert OutputsOf(batch, [0]) == [0];
    assert OutputsOf(batch, [0, 1]) == [0, 1];
  }

  lemma InterleavedRun(batch: seq<BatchToken>, seqSet: seq<SeqSet>, nSeqMax: nat, m: map<SeqSet, seq<nat>>,
                       cut: seq<UBatch>)
    requires IsInterleaved(batch) && |seqSet| == |batch| && forall i: nat :: TokenOk(batch, seqSet, nSeqMax, i)
    requires Stepwise(BySequence, batch, seqSet, m, 3, cut) && IsWhole(batch, cut)
    ensures OutputsOf(batch, Flatten(Indices(cut))) == [0, 2, 1] && SortedOutputs(batch) == [0, 1, 2]
  {
    assert TokenOk(batch, seqSet, nSeqMax, 0) && TokenOk(batch, seqSet, nSeqMax, 1) &&
      TokenOk(batch, seqSet, nSeqMax, 2);
    assert SeqSetOf(batch[0]) == {0} && SeqSetOf(batch[1]) == {1} && SeqSetOf(batch[2]) == {0};
    assert seqSet == [{0}, {1}, {0}];
    InterleavedCut(batch, seqSet, m, cut);
    SortedInterleaved(batch);
  }

  /** The first call: it succeeds, and leaves swaps to be applied. */
  method FirstCall(d: Decoder, compute: nat -> Row, kept: (nat, int) -> bool) returns (status: Status)
    requires d.Ready() && d.out.nBatch >= 3 && |d.mem| == 2
    modifies d`mem, d`history, d.out`logits, d.out`nOutputs, d.out`outputSwaps, d.out.outputIds, d.out.logits, d.balloc
    ensures status.Success? && d.Ready() && |d.mem| == 2 && (d.out.logits == old(d.out.logits) || fresh(d.out.logits))
    ensures d.out.Serves([0, 1, 2], compute) && SwapsOf([0, 2, 1], [0, 1, 2], d.out.outputSwaps)
  {
    var memory := Memory([-1, -1], [-1, -1]);
    ghost var cut, n;
    status, cut, n := d.Decode(Interleaved(), 1, memory, false, BySequence, 3, true, compute, None, kept);
    InterleavedPasses(d.balloc.batch, memory);
    InterleavedRun(d.balloc.batch, d.balloc.seqSet, d.balloc.nSeqMax, d.balloc.seqSetMap, cut);
  }

  /** The second call finds no room: the rows and their places stay, the pending swaps do not. */
  method SecondCall(d: Decoder, compute: nat -> Row, kept: (nat, int) -> bool) returns (status: Status)
    requires d.Ready() && d.out.nBatch >= 3 && |d.mem| == 2
    requires d.out.Serves([0, 1, 2], compute) && SwapsOf([0, 2, 1], [0, 1, 2], d.out.outputSwaps)
    modifies d`mem, d`history, d.out`logits, d.out`nOutputs, d.out`outputSwaps, d.out.outputIds, d.out.logits, d.balloc
    ensures status.NoSlot? && d.out.Serves([0, 1, 2], Mistaken(compute)) && d.out.logits == old(d.out.logits)
  {
    ghost var outputIds, rows := d.out.outputIds[..], d.out.logits[..d.out.nOutputs];
    WithoutSwaps(outputIds, rows, d.out.outputSwaps, compute);
    var memory := Memory([0, 0], [1, 0]);
    ghost var cut, n;
    status, cut, n := d.Decode(Interleaved(), 1, memory, false, BySequence, 3, false, compute, None, kept);
    InterleavedPasses(d.balloc.batch, memory);
    assert d.out.outputIds[..] == outputIds && d.out.logits[..d.out.nOutputs] == rows;
  }

  /** Decode, decode without room, ask for the row of token 1: it is that of token 2. */
  method WrongRow(compute: nat -> Row, kept: (nat, int) -> bool) returns (row: Option<Row>)
    ensures row == Some(compute(2))
  {
    var d := new Decoder(3, 2);
    var first := FirstCall(d, compute, kept);
    var second := SecondCall(d, compute, kept);
    row := d.out.GetLogitsIth(1, [0, 1, 2], Mistaken(compute));
  }
}
