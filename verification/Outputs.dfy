/**
  The outputs of a decoded batch: rows are stored in the order in which micro-batches produce them,
  and are brought into batch order when they are first asked for.
  */
module Outputs {
  import opened BatchTokens
  import opened Collections
  import BatchSplit
  import opened OutputOrder

  /** One row of scores, one for each word of the vocabulary. */
  type Row = seq<real>

  /** The marked tokens of a batch, in order. */
  function SortedOutputs(batch: seq<BatchToken>): seq<nat> {
    OutputsOf(batch, Interval(0, |batch|))
  }

  lemma {:induction false} OutputsAscend(batch: seq<BatchToken>, idxs: seq<nat>, n: nat)
    requires Ascending(idxs) && Below(idxs, |batch|) && Below(idxs, n)
    ensures Ascending(OutputsOf(batch, idxs)) && Below(OutputsOf(batch, idxs), n)
    decreases |idxs|
  {
    if idxs != [] {
      OutputsAscend(batch, idxs[..|idxs| - 1], idxs[|idxs| - 1]);
    }
  }

  /** They are in ascending order, each once, and no others. */
  lemma SortedOutputsMembers(batch: seq<BatchToken>)
    ensures Ascending(SortedOutputs(batch)) && |SortedOutputs(batch)| == CountOutputs(batch)
    ensures forall i :: i in SortedOutputs(batch) <==> 0 <= i < |batch| && batch[i].output
  {
    OutputsAscend(batch, Interval(0, |batch|), |batch|);
    OutputsOfMember(batch, Interval(0, |batch|));
    OutputsOfAll(batch, Interval(0, |batch|));
  }

  /** Where each token's row is: the place of the token among `ids`, or -1. */
  ghost predicate PlacesOf(outputIds: seq<int>, ids: seq<nat>) {
    && Below(ids, |outputIds|)
    && (forall r :: 0 <= r < |ids| ==> outputIds[ids[r]] == r)
    && (forall i :: 0 <= i < |outputIds| && i !in ids ==> outputIds[i] == -1)
  }

  /** What a request for row `i` must give: of a token, or, counted from the end, of an output. */
  function Expected(ids: seq<nat>, compute: nat -> Row, i: int): Option<Row> {
    if i < 0 then
      if |ids| + i >= 0 then Some(compute(ids[|ids| + i])) else None
    else
      if i in ids then Some(compute(i)) else None
  }

  /** What a request finds: the row where the token's place says, or the k-th last row. */
  function RowOf(outputIds: seq<int>, rows: seq<Row>, i: int): Option<Row> {
    if i < 0 then
      if |rows| + i >= 0 then Some(rows[|rows| + i]) else None
    else
      if i < |outputIds| && 0 <= outputIds[i] < |rows| then Some(rows[outputIds[i]]) else None
  }

  /** The rows, once the pending swaps are applied, are those of the tokens `ids`; pending swaps do change the order. */
  ghost predicate ServesBy(outputIds: seq<int>, rows: seq<Row>, swaps: seq<Swap>, ids: seq<nat>, compute: nat -> Row) {
    && |rows| == |ids| && PlacesOf(outputIds, ids) && SwapsFit(swaps, |ids|)
    && (swaps == [] || Moves(swaps, |ids|))
    && ApplySwaps(rows, swaps) == Mapped(ids, compute)
  }

  class OutputBuffer {
    const nBatch: nat
    const nSeqMax: nat
    const outputIds: array<int>
    var logits: array<Row>
    var nOutputs: nat
    var outputSwaps: seq<Swap>

    constructor (nBatch: nat, nSeqMax: nat)
      ensures this.nBatch == nBatch && this.nSeqMax == nSeqMax && outputIds.Length == nBatch
      ensures fresh(outputIds) && fresh(logits) && nOutputs == 0 && outputSwaps == []
    {
      this.nBatch := nBatch;
      this.nSeqMax := nSeqMax;
      outputIds := new int[nBatch](_ => -1);
      logits := new Row[0];
      nOutputs := 0;
      outputSwaps := [];
    }

    /** Rows of the tokens `ids`, as `compute` gives them, once the pending swaps are applied. */
    ghost predicate Serves(ids: seq<nat>, compute: nat -> Row)
      reads this, outputIds, logits
    {
      && outputIds.Length == nBatch && nOutputs <= logits.Length
      && ServesBy(outputIds[..], logits[..nOutputs], outputSwaps, ids, compute)
    }

    /** Room for `n` rows; all tokens are marked as having none. */
    method OutputReserve(n: nat)
      requires outputIds.Length == nBatch
      modifies this`logits, this`nOutputs, outputIds
      ensures nOutputs == 0 && n <= logits.Length && (logits == old(logits) || fresh(logits))
      ensures forall i :: 0 <= i < nBatch ==> outputIds[i] == -1
    {
      var nOutputsMax := BatchSplit.Max(n, nSeqMax);
      if logits.Length < nOutputsMax {
        logits := new Row[nOutputsMax];
      }
      ClearIds();
      nOutputs := 0;
    }

    method ClearIds()
      requires outputIds.Length == nBatch
      modifies outputIds
      ensures forall i :: 0 <= i < nBatch ==> outputIds[i] == -1
    {
      for i := 0 to nBatch
        invariant forall j :: 0 <= j < i ==> outputIds[j] == -1
      {
        outputIds[i] := -1;
      }
    }

    /** The rows of a micro-batch, behind those of the ones before it. */
    method AppendRows(nOutputsPrev: nat, rows: seq<Row>)
      requires nOutputsPrev + |rows| <= logits.Length
      modifies logits
      ensures logits[..nOutputsPrev + |rows|] == old(logits[..nOutputsPrev]) + rows
    {
      for r := 0 to |rows|
        invariant logits[..nOutputsPrev] == old(logits[..nOutputsPrev])
        invariant logits[nOutputsPrev..nOutputsPrev + r] == rows[..r]
      {
        logits[nOutputsPrev + r] := rows[r];
      }
      assert rows[..|rows|] == rows;
    }

    /** Enters the places of the ids. */
    method SetIds(ids: seq<nat>)
      requires outputIds.Length == nBatch && Below(ids, nBatch) && NoDuplicates(ids)
      requires forall i :: 0 <= i < nBatch ==> outputIds[i] == -1
      modifies outputIds
      ensures PlacesOf(outputIds[..], ids)
    {
      for r := 0 to |ids|
        invariant forall k :: 0 <= k < r ==> outputIds[ids[k]] == k
        invariant forall i :: 0 <= i < nBatch && i !in ids[..r] ==> outputIds[i] == -1
      {
        assert ids[..r + 1] == ids[..r] + [ids[r]];
        outputIds[ids[r]] := r;
      }
      assert ids[..|ids|] == ids;
    }

    /** Applies the pending swaps to the rows. */
    method OutputReorder()
      requires nOutputs <= logits.Length && SwapsFit(outputSwaps, nOutputs)
      modifies this`outputSwaps, logits
      ensures outputSwaps == []
      ensures logits[..nOutputs] == ApplySwaps(old(logits[..nOutputs]), old(outputSwaps))
    {
      ghost var rows := logits[..nOutputs];
      var swaps := outputSwaps;
      for s := 0 to |swaps|
        invariant SwapsFit(swaps[..s], |rows|) && logits[..nOutputs] == ApplySwaps(rows, swaps[..s])
        invariant outputSwaps == swaps
      {
        var i0, i1 := swaps[s].0, swaps[s].1;
        ApplyMore(rows, swaps[..s], i0, i1);
        assert swaps[..s + 1] == swaps[..s] + [(i0, i1)];
        SwapRows(i0, i1);
      }
      assert swaps[..|swaps|] == swaps;
      outputSwaps := [];
    }

    method SwapRows(i0: nat, i1: nat)
      requires i0 < nOutputs && i1 < nOutputs && nOutputs <= logits.Length
      modifies logits
      ensures logits[..nOutputs] == Swapped(old(logits[..nOutputs]), i0, i1)
    {
      logits[i0], logits[i1] := logits[i1], logits[i0];
    }

    /** The row for a token, or for an output counted from the end; nothing stands for the exception. */
    method OutputResolveRow(i: int) returns (j: Option<nat>)
      requires outputIds.Length == nBatch
      ensures j.Some? ==> j.value < nOutputs
      ensures i < 0 ==> j == if nOutputs + i >= 0 then Some(nOutputs + i) else None
      ensures i >= 0 ==> j == if i < nBatch && 0 <= outputIds[i] < nOutputs then Some(outputIds[i]) else None
    {
      var row: int := -1;
      if i < 0 {
        row := nOutputs + i;
        if row < 0 {
          return None;
        }
      } else if i >= outputIds.Length {
        return None;
      } else {
        row := outputIds[i];
      }
      if row < 0 || row >= nOutputs {
        return None;
      }
      return Some(row);
    }

    /**
      The row that a request finds once the pending swaps are applied. If the buffer serves the tokens `ids`,
      that is the row of a token that is an output, or of the k-th last output for index -k; nothing otherwise.
      */
    method GetLogitsIth(i: int, ghost ids: seq<nat>, ghost compute: nat -> Row) returns (row: Option<Row>)
      requires outputIds.Length == nBatch && nOutputs <= logits.Length && SwapsFit(outputSwaps, nOutputs)
      modifies this`outputSwaps, logits
      ensures outputSwaps == [] && logits == old(logits) && nOutputs == old(nOutputs)
      ensures logits[..nOutputs] == ApplySwaps(old(logits[..nOutputs]), old(outputSwaps))
      ensures row == RowOf(outputIds[..], logits[..nOutputs], i)
      ensures old(Serves(ids, compute)) ==> row == Expected(ids, compute, i) && Serves(ids, compute)
    {
      OutputReorder();
      var j := OutputResolveRow(i);
      RowIsExpected(outputIds[..], logits[..nOutputs], ids, compute, i);
      row := if j.Some? then Some(logits[j.value]) else None;
    }
  }

  /** If the pending swaps are dropped, the rows are still the right ones. */
  ghost predicate DropIsHarmless(outputIds: seq<int>, rows: seq<Row>, swaps: seq<Swap>, ids: seq<nat>,
                                 compute: nat -> Row) {
    ServesBy(outputIds, rows, swaps, ids, compute) ==> ServesBy(outputIds, rows, [], ids, compute)
  }

  lemma PlacesDiffer(outputIds: seq<int>, ids: seq<nat>)
    requires PlacesOf(outputIds, ids)
    ensures NoDuplicates(ids)
  {
    forall r, k | 0 <= r < k < |ids|
      ensures ids[r] != ids[k]
    {
      assert outputIds[ids[r]] == r && outputIds[ids[k]] == k;
    }
  }

  /** A network on which swaps that change the order cannot be left out. */
  lemma SwapsNeeded(outputIds: seq<int>, swaps: seq<Swap>, ids: seq<nat>) returns (rows: seq<Row>, compute: nat -> Row)
    requires PlacesOf(outputIds, ids) && Moves(swaps, |ids|)
    ensures !DropIsHarmless(outputIds, rows, swaps, ids, compute)
  {
    compute := i => [i as real];
    var right := Mapped(ids, compute);
    rows := SwapsUndone(right, swaps);
    if rows == right {
      var n := |ids|;
      var f: nat -> Row := (k: nat) => if k < n then [ids[k] as real] else [];
      assert Mapped(Interval(0, n), f) == right;
      SwapsFollow(Interval(0, n), f, swaps);
      PlacesDiffer(outputIds, ids);
      SamePlaces(ids, f, ApplySwaps(Interval(0, n), swaps));
    }
  }

  lemma SamePlaces(ids: seq<nat>, f: nat -> Row, places: seq<nat>)
    requires NoDuplicates(ids) && |places| == |ids| &&
      forall k: nat :: f(k) == if k < |ids| then [ids[k] as real] else []
    requires Mapped(places, f) == Mapped(Interval(0, |ids|), f)
    ensures places == Interval(0, |ids|)
  {
    forall r | 0 <= r < |ids|
      ensures places[r] == r
    {
      assert Mapped(places, f)[r] == Mapped(Interval(0, |ids|), f)[r];
      assert f(places[r]) == [ids[r] as real];
      assert f(places[r])[0] == ids[r] as real;
    }
  }

  /** Dropping the pending swaps is harmless for every network if and only if there are none. */
  lemma DropIsHarmlessIff(outputIds: seq<int>, swaps: seq<Swap>, ids: seq<nat>)
    requires PlacesOf(outputIds, ids) && (swaps == [] || Moves(swaps, |ids|))
    ensures (forall rows, compute :: DropIsHarmless(outputIds, rows, swaps, ids, compute)) <==> swaps == []
  {
    if swaps != [] {
      var rows, compute := SwapsNeeded(outputIds, swaps, ids);
    }
  }

  lemma RowIsExpected(outputIds: seq<int>, rows: seq<Row>, ids: seq<nat>, compute: nat -> Row, i: int)
    ensures PlacesOf(outputIds, ids) && rows == Mapped(ids, compute) ==>
      RowOf(outputIds, rows, i) == Expected(ids, compute, i)
  {
    if PlacesOf(outputIds, ids) && i >= 0 && i in ids {
      var r :| 0 <= r < |ids| && ids[r] == i;
      assert outputIds[ids[r]] == r;
    }
  }

  // ---------------------------------------------------------------------------------------
  // After a failed call
  // ---------------------------------------------------------------------------------------

  /**
    What a failed call leaves: no token has a place, the rows of the completed micro-batches are in front,
    and the number of outputs is that of the micro-batch that failed.
    */
  ghost predicate LeftBehind(outputIds: seq<int>, rows: seq<Row>, nOutputs: nat, done: seq<nat>, failed: seq<nat>,
                             compute: nat -> Row) {
    && (forall i :: 0 <= i < |outputIds| ==> outputIds[i] == -1)
    && nOutputs == |failed| && |done| + |failed| <= |rows| && rows[..|done|] == Mapped(done, compute)
  }

  /**
    Then no token is given a row, and the k-th last output is given one exactly if the failed micro-batch has
    `k` outputs. As far as there are completed outputs, this is the row of a completed output.
    */
  lemma RowsLeftBehind(outputIds: seq<int>, rows: seq<Row>, nOutputs: nat, done: seq<nat>, failed: seq<nat>,
                       compute: nat -> Row, i: int)
    requires LeftBehind(outputIds, rows, nOutputs, done, failed, compute)
    ensures RowOf(outputIds, rows[..nOutputs], i).Some? <==> -|failed| <= i < 0
    ensures i < 0 <= |failed| + i < |done| ==>
      RowOf(outputIds, rows[..nOutputs], i) == Some(compute(done[|failed| + i]))
  {
    if i < 0 <= |failed| + i < |done| {
      assert rows[..|done|][|failed| + i] == compute(done[|failed| + i]);
    }
  }
}
