/**
  Two decode calls whose failed micro-batch is not taken out exactly: one with a token of two
  sequences, one with a position that comes twice.
  */
module FailedCalls {
  import opened BatchTokens
  import opened Collections
  import opened BatchInit
  import opened BatchRun
  import opened Outputs
  import opened Rollback
  import opened Decoding

  /** Micro-batches of one token each, as far as two of them. */
  lemma OneByOne(batch: seq<BatchToken>, seqSet: seq<SeqSet>, m: map<SeqSet, seq<nat>>, cut: seq<UBatch>)
    requires |batch| == |seqSet| > 0 && Stepwise(Simple, batch, seqSet, m, 1, cut) && IsWhole(batch, cut)
    ensures |cut| >= 1 && cut[0].idxs == [0] && Completed(cut, 1) == [0] && Completed(cut, 0) == []
    ensures |batch| > 1 ==> |cut| >= 2 && cut[1].idxs == [1]
  {
    assert 0 in Flatten(Indices(cut));
    assert cut != [];
    FirstIsZero(batch, seqSet, m, cut);
    if |batch| > 1 {
      assert 1 in Flatten(Indices(cut));
      assert cut[..1] == cut || |cut| > 1;
      assert StepAt(Simple, batch, seqSet, m, 1, cut, 1);
      CountOne(UsedBy(|batch|, [0]));
    }
  }

  lemma FirstIsZero(batch: seq<BatchToken>, seqSet: seq<SeqSet>, m: map<SeqSet, seq<nat>>, cut: seq<UBatch>)
    requires |batch| == |seqSet| > 0 && Stepwise(Simple, batch, seqSet, m, 1, cut) && cut != []
    ensures cut[0].idxs == [0] && Completed(cut, 1) == [0] && Completed(cut, 0) == []
  {
    assert StepAt(Simple, batch, seqSet, m, 1, cut, 0);
    assert cut[..0] == [] && Completed(cut, 0) == [];
    CountNone(UsedBy(|batch|, []));
    CompletedMore(cut, 0);
  }

  lemma {:induction false} CountNone(used: seq<bool>)
    requires forall i :: 0 <= i < |used| ==> !used[i]
    ensures CountTrue(used) == 0
    decreases |used|
  {
    if used != [] {
      CountNone(used[..|used| - 1]);
    }
  }

  lemma {:induction false} CountOne(used: seq<bool>)
    requires used != [] && forall i :: 0 <= i < |used| ==> (used[i] <==> i == 0)
    ensures CountTrue(used) == 1
    decreases |used|
  {
    var front := used[..|used| - 1];
    if front == [] {
      CountNone(front);
    } else {
      CountOne(front);
    }
  }

  // ---------------------------------------------------------------------------------------
  // A token of two sequences
  // ---------------------------------------------------------------------------------------

  function SharedToken(): BatchInput {
    BatchInput(1, Some([0]), Some([0]), Some([[0, 1]]), Some([true]))
  }

  predicate IsShared(batch: seq<BatchToken>) {
    |batch| == 1 && batch[0].pos == 0 && batch[0].seqIds == [0, 1]
  }

  lemma SharedPasses(batch: seq<BatchToken>, memory: MemoryBounds)
    requires memory == Memory([-1, -1], [-1, -1])
    ensures Checked(SharedToken(), 1, memory, 2)
    ensures IsFilled(batch, SharedToken(), memory, 2, false) ==>
      Acceptable(batch, memory, 2) && IsShared(batch)
  {
    assert IdsValid(SharedToken(), 1, 2);
    if IsFilled(batch, SharedToken(), memory, 2, false) {
      assert SeqIdsOf(SharedToken(), 2)[0] == [0, 1];
      assert batch[0].seqIds == [0, 1] && batch[0].pos == 0;
    }
  }

  /** The failed token is taken out of its first sequence; its second one keeps it. */
  lemma SharedStays(t: BatchToken, kept: (nat, int) -> bool)
    requires t.pos == 0 && t.seqIds == [0, 1] && kept(1, 0)
    ensures RolledBack(StoredPart(Stored([{}, {}], []), [t], kept), [t]) == [{}, {0}]
  {
    var toks := [t];
    var mem: Mem := [{}, {}];
    assert toks[0].pos == 0 && 0 in toks[0].seqIds && 1 in toks[0].seqIds;
    assert PositionsOf(toks, 1) == {0} && PositionsOf(toks, 0) == {0} && PositionsOf([], 0) == PositionsOf([], 1) == {};
    assert Survives(toks, 1, 0) && !Survives(toks, 0, 0);
    SameMem(RolledBack(StoredPart(Stored(mem, []), toks, kept), toks), [{}, {0}]);
  }

  method CoupledCall(d: Decoder, compute: nat -> Row, kept: (nat, int) -> bool) returns (status: Status)
    requires d.Ready() && d.out.nBatch >= 1 && d.mem == [{}, {}] && d.history == [] && kept(1, 0)
    modifies d`mem, d`history, d.out`logits, d.out`nOutputs, d.out`outputSwaps, d.out.outputIds, d.out.logits, d.balloc
    ensures status.Failed? && d.mem == [{}, {0}] && d.history == []
  {
    var memory := Memory([-1, -1], [-1, -1]);
    ghost var cut, n;
    status, cut, n := d.Decode(SharedToken(), 1, memory, false, Simple, 1, true, compute, Some(0), kept);
    SharedPasses(d.balloc.batch, memory);
    CoupledResult(d.balloc.batch, d.balloc.seqSet, d.balloc.seqSetMap, cut, status.Success?, n, kept, d.mem, d.history);
  }

  /**
    A call with a token of two sequences fails when the token has arrived. Nothing was completed, but the second
    sequence holds a position.
    */
  method CoupledStays(compute: nat -> Row, kept: (nat, int) -> bool) returns (status: Status, d: Decoder)
    requires kept(1, 0)
    ensures status.Failed? && d.mem == [{}, {0}] && d.history == [] && !d.Tracks()
  {
    d := new Decoder(1, 2);
    assert d.mem == [{}, {}];
    status := CoupledCall(d, compute, kept);
    assert 0 in d.mem[1] && 0 !in PositionsOf(d.history, 1);
  }

  lemma CoupledResult(batch: seq<BatchToken>, seqSet: seq<SeqSet>, m: map<SeqSet, seq<nat>>, cut: seq<UBatch>, ok: bool,
                      n: nat, kept: (nat, int) -> bool, mem: Mem, history: seq<BatchToken>)
    requires IsShared(batch) && |seqSet| == 1 && Stepwise(Simple, batch, seqSet, m, 1, cut) && IsWhole(batch, cut) &&
      kept(1, 0)
    requires (ok <==> !Hits(Some(0), |cut|)) && (!ok ==> FailsAt(Some(0), n))
    requires !ok ==> RolledTo(batch, cut, n, [{}, {}], [], kept, mem, history)
    ensures !ok && mem == [{}, {0}] && history == []
  {
    OneByOne(batch, seqSet, m, cut);
    assert TokensAt(batch, []) == [] && cut[0].tokens == [batch[0]];
    SharedStays(batch[0], kept);
  }

  // ---------------------------------------------------------------------------------------
  // A position that comes twice
  // ---------------------------------------------------------------------------------------

  function Repeated(): BatchInput {
    BatchInput(2, Some([0, 0]), Some([0, 0]), Some([[0], [0]]), Some([true, true]))
  }

  predicate IsRepeated(batch: seq<BatchToken>) {
    |batch| == 2 && batch[0].pos == batch[1].pos == 0 && batch[0].seqIds == batch[1].seqIds == [0]
  }

  lemma RepeatedPasses(batch: seq<BatchToken>, memory: MemoryBounds)
    requires memory == Memory([-1], [-1])
    ensures Checked(Repeated(), 1, memory, 1)
    ensures IsFilled(batch, Repeated(), memory, 1, false) ==>
      Acceptable(batch, memory, 1) && IsRepeated(batch)
  {
    assert IdsValid(Repeated(), 1, 1);
    if IsFilled(batch, Repeated(), memory, 1, false) {
      var seqIds := SeqIdsOf(Repeated(), 1);
      assert seqIds[0] == [0] && seqIds[1] == [0];
      assert batch[0].seqIds == [0] && batch[1].seqIds == [0] && batch[0].pos == 0 && batch[1].pos == 0;
    }
  }

  lemma RepeatedGone(t0: BatchToken, t1: BatchToken, kept: (nat, int) -> bool)
    requires t0.pos == t1.pos == 0 && t0.seqIds == t1.seqIds == [0]
    ensures RolledBack(StoredPart(Stored([{}], [t0]), [t1], kept), [t1]) == [{}] && 0 in PositionsOf([t0], 0)
  {
    var toks, mem: Mem := [t1], [{}];
    assert toks[0].pos == 0 && toks[0].seqIds[0] == 0;
    assert [t0][0].pos == 0 && 0 in [t0][0].seqIds;
    SameMem(RolledBack(StoredPart(Stored(mem, [t0]), toks, kept), toks), [{}]);
  }

  method RepeatedCall(d: Decoder, compute: nat -> Row, kept: (nat, int) -> bool) returns (status: Status)
    requires d.Ready() && d.out.nBatch >= 2 && d.mem == [{}] && d.history == []
    modifies d`mem, d`history, d.out`logits, d.out`nOutputs, d.out`outputSwaps, d.out.outputIds, d.out.logits, d.balloc
    ensures status.Failed? && d.mem == [{}] && |d.history| == 1 && 0 in PositionsOf(d.history, 0)
  {
    var memory := Memory([-1], [-1]);
    ghost var cut, n;
    status, cut, n := d.Decode(Repeated(), 1, memory, false, Simple, 1, true, compute, Some(1), kept);
    RepeatedPasses(d.balloc.batch, memory);
    RepeatedResult(d.balloc.batch, d.balloc.seqSet, d.balloc.seqSetMap, cut, status.Success?, n, kept, d.mem,
      d.history);
  }

  /** A call fails in its second micro-batch. The token of the first one was completed, but memory is empty. */
  method RepeatedLost(compute: nat -> Row, kept: (nat, int) -> bool) returns (status: Status, d: Decoder)
    ensures status.Failed? && d.mem == [{}] && |d.history| == 1 && !d.Tracks()
  {
    d := new Decoder(2, 1);
    assert d.mem == [{}];
    status := RepeatedCall(d, compute, kept);
  }

  lemma RepeatedResult(batch: seq<BatchToken>, seqSet: seq<SeqSet>, m: map<SeqSet, seq<nat>>, cut: seq<UBatch>,
                       ok: bool, n: nat, kept: (nat, int) -> bool, mem: Mem, history: seq<BatchToken>)
    requires IsRepeated(batch) && |seqSet| == 2 && Stepwise(Simple, batch, seqSet, m, 1, cut) && IsWhole(batch, cut)
    requires (ok <==> !Hits(Some(1), |cut|)) && (!ok ==> FailsAt(Some(1), n))
    requires !ok ==> RolledTo(batch, cut, n, [{}], [], kept, mem, history)
    ensures !ok && mem == [{}] && |history| == 1 && 0 in PositionsOf(history, 0)
  {
    OneByOne(batch, seqSet, m, cut);
    assert TokensAt(batch, [0]) == [batch[0]] && history == [batch[0]] && cut[1].tokens == [batch[1]];
    RepeatedGone(batch[0], batch[1], kept);
  }
}
