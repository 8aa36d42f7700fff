/**
  Taking in a batch: invalid ids are refused, missing fields are filled in, and the positions are
  checked against each other and against the memory.
  */
module BatchInit {
  import opened BatchTokens
  import opened Collections

  const MAX_SEQ: nat := 256

  /** A batch as the caller hands it over: one entry per token in every field that is present. */
  datatype BatchInput = BatchInput(
    nTokens: nat, ids: Option<seq<int>>, pos: Option<seq<int>>, seqIds: Option<seq<seq<int>>>,
    logits: Option<seq<bool>>)

  /** The first and the last position of each sequence in memory, -1 where it is empty. */
  datatype MemoryBounds = NoMemory | Memory(posMin: seq<int>, posMax: seq<int>)

  ghost predicate WellSized(inp: BatchInput) {
    && inp.nTokens > 0
    && (inp.ids.Some? ==> |inp.ids.value| == inp.nTokens)
    && (inp.pos.Some? ==> |inp.pos.value| == inp.nTokens)
    && (inp.seqIds.Some? ==> |inp.seqIds.value| == inp.nTokens)
    && (inp.seqIds.Some? ==> forall i :: 0 <= i < inp.nTokens ==> inp.seqIds.value[i] != [])
    && (inp.logits.Some? ==> |inp.logits.value| == inp.nTokens)
  }

  predicate MemoryFits(memory: MemoryBounds, nSeqMax: nat) {
    memory.Memory? ==>
      && |memory.posMin| == |memory.posMax| == nSeqMax
      && forall s :: 0 <= s < nSeqMax ==> memory.posMax[s] >= -1
  }

  function LastPos(memory: MemoryBounds, s: nat): int
    requires memory.Memory? ==> s < |memory.posMax|
  {
    if memory.Memory? then memory.posMax[s] else -1
  }

  // ---------------------------------------------------------------------------------------
  // Ids
  // ---------------------------------------------------------------------------------------

  ghost predicate IdsValid(inp: BatchInput, nVocab: nat, nSeqMax: nat)
    requires WellSized(inp)
  {
    && (inp.ids.Some? ==> forall i :: 0 <= i < inp.nTokens ==> 0 <= inp.ids.value[i] < nVocab)
    && (inp.seqIds.Some? ==> forall i :: 0 <= i < inp.nTokens ==> AllWithin(inp.seqIds.value[i], nSeqMax))
  }

  predicate AllWithin(ids: seq<int>, n: nat) {
    forall k :: 0 <= k < |ids| ==> 0 <= ids[k] < n
  }

  method CheckIds(inp: BatchInput, nVocab: nat, nSeqMax: nat) returns (ok: bool)
    requires WellSized(inp)
    ensures ok <==> IdsValid(inp, nVocab, nSeqMax)
  {
    if inp.ids.Some? {
      for i := 0 to inp.nTokens
        invariant forall j :: 0 <= j < i ==> 0 <= inp.ids.value[j] < nVocab
      {
        if inp.ids.value[i] < 0 || inp.ids.value[i] >= nVocab {
          return false;
        }
      }
    }
    if inp.seqIds.Some? {
      for i := 0 to inp.nTokens
        invariant forall j :: 0 <= j < i ==> AllWithin(inp.seqIds.value[j], nSeqMax)
      {
        for s := 0 to |inp.seqIds.value[i]|
          invariant forall k :: 0 <= k < s ==> 0 <= inp.seqIds.value[i][k] < nSeqMax
        {
          if inp.seqIds.value[i][s] < 0 || inp.seqIds.value[i][s] >= nSeqMax {
            return false;
          }
        }
      }
    }
    return true;
  }

  function ToNats(ids: seq<int>, n: nat): (r: seq<nat>)
    requires AllWithin(ids, n)
    ensures |r| == |ids| && forall k :: 0 <= k < |r| ==> r[k] == ids[k]
  {
    seq(|ids|, k requires 0 <= k < |ids| => ids[k])
  }

  /** The sequence ids of the tokens; sequence 0 where none are given. */
  function SeqIdsOf(inp: BatchInput, nSeqMax: nat): (r: seq<seq<nat>>)
    requires inp.seqIds.Some? ==> |inp.seqIds.value| == inp.nTokens
    requires inp.seqIds.Some? ==> forall i :: 0 <= i < inp.nTokens ==> AllWithin(inp.seqIds.value[i], nSeqMax)
    ensures |r| == inp.nTokens
  {
    if inp.seqIds.None? then seq(inp.nTokens, _ => [0])
    else seq(inp.nTokens, i requires 0 <= i < inp.nTokens => ToNats(inp.seqIds.value[i], nSeqMax))
  }

  /** Ids of sequences that exist, at least one for each token. */
  ghost predicate IdsFit(seqIds: seq<seq<nat>>, nSeqMax: nat) {
    forall i :: 0 <= i < |seqIds| ==> seqIds[i] != [] && Below(seqIds[i], nSeqMax)
  }

  lemma FilledIdsFit(inp: BatchInput, nVocab: nat, nSeqMax: nat)
    requires WellSized(inp) && IdsValid(inp, nVocab, nSeqMax) && nSeqMax > 0
    ensures IdsFit(SeqIdsOf(inp, nSeqMax), nSeqMax)
  {
    var seqIds := SeqIdsOf(inp, nSeqMax);
    forall i | 0 <= i < |seqIds|
      ensures seqIds[i] != [] && Below(seqIds[i], nSeqMax)
    {
      assert inp.seqIds.Some? ==> AllWithin(inp.seqIds.value[i], nSeqMax);
    }
  }

  // ---------------------------------------------------------------------------------------
  // Positions
  // ---------------------------------------------------------------------------------------

  /** The position with which each sequence goes on. */
  function StartCounters(memory: MemoryBounds, nSeqMax: nat): (c: seq<int>)
    requires MemoryFits(memory, nSeqMax)
    ensures |c| == nSeqMax
  {
    seq(nSeqMax, s requires 0 <= s < nSeqMax => LastPos(memory, s) + 1)
  }

  /** The counters behind a token: all its sequences go on behind its position. */
  function Advance(c: seq<int>, ids: seq<nat>, p: int): (r: seq<int>)
    ensures |r| == |c|
    ensures forall s :: 0 <= s < |c| ==> r[s] == if s in ids then p + 1 else c[s]
  {
    seq(|c|, s requires 0 <= s < |c| => if s in ids then p + 1 else c[s])
  }

  /** The counters in front of token `i`. */
  function Counters(seqIds: seq<seq<nat>>, start: seq<int>, i: nat): (c: seq<int>)
    requires i <= |seqIds| && IdsFit(seqIds, |start|)
    ensures |c| == |start|
  {
    if i == 0 then start
    else
      var c := Counters(seqIds, start, i - 1);
      Advance(c, seqIds[i - 1], c[seqIds[i - 1][0]])
  }

  function GeneratedPos(seqIds: seq<seq<nat>>, start: seq<int>, i: nat): int
    requires i < |seqIds| && IdsFit(seqIds, |start|)
  {
    Counters(seqIds, start, i)[seqIds[i][0]]
  }

  method GeneratePositions(seqIds: seq<seq<nat>>, start: seq<int>) returns (pos: seq<int>)
    requires IdsFit(seqIds, |start|)
    ensures |pos| == |seqIds| && forall i :: 0 <= i < |pos| ==> pos[i] == GeneratedPos(seqIds, start, i)
  {
    pos := [];
    var p0 := start;
    for i := 0 to |seqIds|
      invariant |pos| == i && p0 == Counters(seqIds, start, i)
      invariant forall j :: 0 <= j < i ==> pos[j] == GeneratedPos(seqIds, start, j)
    {
      var p := p0[seqIds[i][0]];
      pos := pos + [p];
      var next := p0;
      for s := 0 to |seqIds[i]|
        invariant |next| == |p0|
        invariant forall t :: 0 <= t < |p0| ==> next[t] == if t in seqIds[i][..s] then p + 1 else p0[t]
      {
        assert seqIds[i][..s + 1] == seqIds[i][..s] + [seqIds[i][s]];
        next := next[seqIds[i][s] := p + 1];
      }
      assert seqIds[i][..|seqIds[i]|] == seqIds[i];
      assert next == Advance(p0, seqIds[i], p);
      p0 := next;
    }
  }

  // ---------------------------------------------------------------------------------------
  // The complete batch
  // ---------------------------------------------------------------------------------------

  /** Is token `i` an output? Without marks, only the last one is, or all of them. */
  predicate OutputMark(inp: BatchInput, outputAll: bool, i: nat)
    requires i < inp.nTokens && (inp.logits.Some? ==> |inp.logits.value| == inp.nTokens)
  {
    outputAll || (if inp.logits.Some? then inp.logits.value[i] else i == inp.nTokens - 1)
  }

  ghost predicate IsFilled(toks: seq<BatchToken>, inp: BatchInput, memory: MemoryBounds, nSeqMax: nat, outputAll: bool)
    requires WellSized(inp) && MemoryFits(memory, nSeqMax)
    requires inp.seqIds.Some? ==> forall i :: 0 <= i < inp.nTokens ==> AllWithin(inp.seqIds.value[i], nSeqMax)
  {
    var seqIds := SeqIdsOf(inp, nSeqMax);
    && |toks| == inp.nTokens && IdsFit(seqIds, nSeqMax)
    && forall i :: 0 <= i < |toks| ==>
         && toks[i].seqIds == seqIds[i] && toks[i].output == OutputMark(inp, outputAll, i)
         && (inp.ids.Some? ==> toks[i].id == inp.ids.value[i])
         && toks[i].pos == if inp.pos.Some? then inp.pos.value[i]
             else GeneratedPos(seqIds, StartCounters(memory, nSeqMax), i)
  }

  /**
    The marks as the original works them out: with everything as output, given marks are overridden if one is
    missing.
    */
  method FillMarks(inp: BatchInput, outputAll: bool) returns (marks: seq<bool>)
    requires WellSized(inp)
    ensures |marks| == inp.nTokens && forall i :: 0 <= i < inp.nTokens ==> marks[i] == OutputMark(inp, outputAll, i)
  {
    if inp.logits.None? {
      if outputAll {
        marks := seq(inp.nTokens, _ => true);
      } else {
        marks := seq(inp.nTokens, _ => false);
        marks := marks[|marks| - 1 := true];
      }
    } else {
      marks := inp.logits.value;
      if outputAll {
        var warn := false;
        for i := 0 to inp.nTokens
          invariant !warn <==> forall j :: 0 <= j < i ==> marks[j]
        {
          if !marks[i] {
            warn := true;
          }
        }
        if warn {
          marks := seq(inp.nTokens, _ => true);
        }
      }
    }
  }

  method FillIn(inp: BatchInput, memory: MemoryBounds, nVocab: nat, nSeqMax: nat, outputAll: bool)
    returns (toks: seq<BatchToken>)
    requires WellSized(inp) && IdsValid(inp, nVocab, nSeqMax) && nSeqMax > 0 && MemoryFits(memory, nSeqMax)
    ensures IsFilled(toks, inp, memory, nSeqMax, outputAll)
  {
    var seqIds := SeqIdsOf(inp, nSeqMax);
    FilledIdsFit(inp, nVocab, nSeqMax);
    var pos;
    if inp.pos.Some? {
      pos := inp.pos.value;
    } else {
      pos := GeneratePositions(seqIds, StartCounters(memory, nSeqMax));
    }
    var marks := FillMarks(inp, outputAll);
    toks := seq(inp.nTokens, i requires 0 <= i < inp.nTokens && |pos| == |marks| == |seqIds| == inp.nTokens &&
      WellSized(inp) =>
      BatchToken(if inp.ids.Some? then inp.ids.value[i] else 0, pos[i], seqIds[i], marks[i]));
  }

  // ---------------------------------------------------------------------------------------
  // What is acceptable
  // ---------------------------------------------------------------------------------------

  /** Sequence `s` has a token at position `p`. */
  ghost predicate HoldsPos(toks: seq<BatchToken>, s: nat, p: int) {
    exists i :: 0 <= i < |toks| && s in toks[i].seqIds && toks[i].pos == p
  }

  /** The positions of the sequence have no gap. */
  ghost predicate NoGap(toks: seq<BatchToken>, s: nat) {
    forall p, q, r :: HoldsPos(toks, s, p) && HoldsPos(toks, s, r) && p <= q <= r ==> HoldsPos(toks, s, q)
  }

  /** They start right behind what memory holds of the sequence. */
  ghost predicate StartsAfter(toks: seq<BatchToken>, s: nat, last: int) {
    last >= 0 && (exists p :: HoldsPos(toks, s, p)) ==>
      HoldsPos(toks, s, last + 1) && forall p :: HoldsPos(toks, s, p) ==> p > last
  }

  /** Along the batch they never decrease; -1 is the least position that passes. */
  ghost predicate NeverDecreasing(toks: seq<BatchToken>) {
    && (forall i :: 0 <= i < |toks| ==> toks[i].pos >= -1)
    && forall i, j, s :: 0 <= i < j < |toks| && s in toks[i].seqIds && s in toks[j].seqIds ==>
        toks[i].pos <= toks[j].pos
  }

  /** Sequences that share a token are alike in memory. */
  ghost predicate CoupledAlike(toks: seq<BatchToken>, memory: MemoryBounds, nSeqMax: nat)
    requires MemoryFits(memory, nSeqMax)
  {
    memory.Memory? ==> forall i, k :: 0 <= i < |toks| && 0 < k < |toks[i].seqIds| ==>
      Alike(memory, nSeqMax, toks[i].seqIds[k], toks[i].seqIds[0])
  }

  predicate Alike(memory: MemoryBounds, nSeqMax: nat, s0: nat, s1: nat)
    requires MemoryFits(memory, nSeqMax)
  {
    memory.Memory? && s0 < nSeqMax && s1 < nSeqMax ==>
      memory.posMin[s0] == memory.posMin[s1] && memory.posMax[s0] == memory.posMax[s1]
  }

  ghost predicate Acceptable(toks: seq<BatchToken>, memory: MemoryBounds, nSeqMax: nat)
    requires MemoryFits(memory, nSeqMax)
  {
    && (forall s: nat :: s < nSeqMax ==> NoGap(toks, s) && StartsAfter(toks, s, LastPos(memory, s)))
    && CoupledAlike(toks, memory, nSeqMax)
    && NeverDecreasing(toks)
  }

  // ---------------------------------------------------------------------------------------
  // Sorted positions
  // ---------------------------------------------------------------------------------------

  ghost predicate Sorted(l: seq<int>) {
    forall a, b :: 0 <= a < b < |l| ==> l[a] < l[b]
  }

  /** Inserting into an ordered set. */
  function Insert(l: seq<int>, p: int): (r: seq<int>)
    requires Sorted(l)
    ensures Sorted(r) && forall q :: q in r <==> q in l || q == p
  {
    if l == [] then [p]
    else if p < l[0] then [p] + l
    else if p == l[0] then l
    else
      var rest := Insert(l[1..], p);
      assert forall k :: 0 <= k < |rest| ==> rest[k] in rest;
      [l[0]] + rest
  }

  /** Between its ends a sorted list has room for its length; if there is no more room, it has no gap. */
  lemma {:induction false} SortedSpan(l: seq<int>, k: nat)
    requires Sorted(l) && k < |l|
    ensures l[0] + k <= l[k] && l[k] <= l[|l| - 1] - (|l| - 1 - k)
    decreases |l|
  {
    if |l| > 1 {
      if k > 0 {
        SortedSpan(l[1..], k - 1);
      } else {
        SortedSpan(l[..|l| - 1], 0);
      }
    }
  }

  /** A list that holds everything between its ends counts up by one. */
  lemma {:induction false} NoGapCounts(l: seq<int>, k: nat)
    requires Sorted(l) && k < |l| && forall q :: l[0] <= q <= l[|l| - 1] ==> q in l
    ensures l[k] == l[0] + k
    decreases k
  {
    if k > 0 {
      NoGapCounts(l, k - 1);
      var q := l[k - 1] + 1;
      assert l[k] <= l[|l| - 1];
      assert q in l;
      var m :| 0 <= m < |l| && l[m] == q;
      assert m == k;
    }
  }

  lemma SpanTestExact(toks: seq<BatchToken>, s: nat, l: seq<int>)
    requires Sorted(l) && l != [] && forall p :: p in l <==> HoldsPos(toks, s, p)
    ensures NoGap(toks, s) <==> l[|l| - 1] - l[0] + 1 <= |l|
  {
    if NoGap(toks, s) {
      assert l[0] in l && l[|l| - 1] in l;
      forall q | l[0] <= q <= l[|l| - 1]
        ensures q in l
      {
        assert HoldsPos(toks, s, q);
      }
      NoGapCounts(l, |l| - 1);
    }
    if l[|l| - 1] - l[0] + 1 <= |l| {
      forall p, q, r | HoldsPos(toks, s, p) && HoldsPos(toks, s, r) && p <= q <= r
        ensures HoldsPos(toks, s, q)
      {
        assert p in l && r in l;
        assert l[0] <= q <= l[|l| - 1];
        SortedSpan(l, q - l[0]);
        assert l[q - l[0]] in l;
      }
    }
  }

  lemma StartTestExact(toks: seq<BatchToken>, s: nat, l: seq<int>, last: int)
    requires Sorted(l) && l != [] && forall p :: p in l <==> HoldsPos(toks, s, p)
    requires last >= 0
    ensures StartsAfter(toks, s, last) <==> l[0] == last + 1
  {
    assert l[0] in l && HoldsPos(toks, s, l[0]);
    if l[0] == last + 1 {
      forall p | HoldsPos(toks, s, p)
        ensures p > last
      {
        assert p in l;
      }
    }
    if StartsAfter(toks, s, last) {
      assert last + 1 in l;
    }
  }

  // ---------------------------------------------------------------------------------------
  // The checks
  // ---------------------------------------------------------------------------------------

  /** `seqPos[s]` is the ordered set of the positions of sequence `s`. */
  ghost predicate IsSeqPos(toks: seq<BatchToken>, seqPos: seq<seq<int>>, s: nat)
    requires s < |seqPos|
  {
    Sorted(seqPos[s]) && forall p :: p in seqPos[s] <==> HoldsPos(toks, s, p)
  }

  method CheckContinuity(ghost toks: seq<BatchToken>, seqPos: seq<seq<int>>, memory: MemoryBounds, nSeqMax: nat)
    returns (ok: bool)
    requires MemoryFits(memory, nSeqMax) && |seqPos| == nSeqMax
    requires forall s: nat :: s < nSeqMax ==> IsSeqPos(toks, seqPos, s)
    ensures ok <==> forall s: nat :: s < nSeqMax ==> NoGap(toks, s) && StartsAfter(toks, s, LastPos(memory, s))
  {
    for s := 0 to nSeqMax
      invariant forall t: nat :: t < s ==> NoGap(toks, t) && StartsAfter(toks, t, LastPos(memory, t))
    {
      var l := seqPos[s];
      assert IsSeqPos(toks, seqPos, s);
      if l == [] {
        NoPositions(toks, s, LastPos(memory, s));
        continue;
      }
      SpanTestExact(toks, s, l);
      var p0 := LastPos(memory, s);
      if p0 >= 0 {
        StartTestExact(toks, s, l, p0);
        if l[0] != p0 + 1 {
          return false;
        }
      }
      if l[|l| - 1] - l[0] + 1 > |l| {
        return false;
      }
    }
    return true;
  }

  lemma NoPositions(toks: seq<BatchToken>, s: nat, last: int)
    requires forall p :: p in [] <==> HoldsPos(toks, s, p)
    ensures NoGap(toks, s) && StartsAfter(toks, s, last)
  {
  }

  /** Pairs (s1, s0) where s1 shares a token with its first sequence s0. */
  ghost predicate IsCpl(toks: seq<BatchToken>, cpl: set<(nat, nat)>) {
    forall s1: nat, s0: nat :: (s1, s0) in cpl <==>
      exists i, k :: 0 <= i < |toks| && 0 < k < |toks[i].seqIds| && toks[i].seqIds[k] == s1 && toks[i].seqIds[0] == s0
  }

  method CheckCoupled(ghost toks: seq<BatchToken>, cpl: set<(nat, nat)>, memory: MemoryBounds, nSeqMax: nat)
    returns (ok: bool)
    requires MemoryFits(memory, nSeqMax) && IsCpl(toks, cpl) &&
      forall i :: 0 <= i < |toks| ==> Below(toks[i].seqIds, nSeqMax)
    ensures ok <==> CoupledAlike(toks, memory, nSeqMax)
  {
    if memory.NoMemory? {
      return true;
    }
    for s0 := 0 to nSeqMax
      invariant forall x: nat, y: nat :: x < s0 && y < nSeqMax && (x, y) in cpl ==> Alike(memory, nSeqMax, x, y)
    {
      for s1 := 0 to nSeqMax
        invariant forall x: nat, y: nat :: (x < s0 && y < nSeqMax) || (x == s0 && y < s1) ==>
          ((x, y) in cpl ==> Alike(memory, nSeqMax, x, y))
      {
        if (s0, s1) in cpl {
          if memory.posMin[s0] != memory.posMin[s1] || memory.posMax[s0] != memory.posMax[s1] {
            return false;
          }
        }
      }
    }
    return true;
  }

  /** The largest position of each sequence so far, -1 before its first token. */
  ghost predicate Tops(toks: seq<BatchToken>, n: nat, top: seq<int>) {
    n <= |toks| && forall s: nat :: s < |top| ==> TopOf(toks, n, s, top[s])
  }

  ghost predicate TopOf(toks: seq<BatchToken>, n: nat, s: nat, p: int)
    requires n <= |toks|
  {
    && p >= -1 && (p > -1 ==> exists i :: 0 <= i < n && s in toks[i].seqIds && toks[i].pos == p)
    && forall i :: 0 <= i < n && s in toks[i].seqIds ==> toks[i].pos <= p
  }

  /** Token `i` does not go back in any of its sequences. */
  ghost predicate Follows(toks: seq<BatchToken>, i: nat)
    requires i < |toks|
  {
    && toks[i].pos >= -1
    && forall j, s :: 0 <= j < i && s in toks[j].seqIds && s in toks[i].seqIds ==> toks[j].pos <= toks[i].pos
  }

  lemma TopsTest(toks: seq<BatchToken>, top: seq<int>, i: nat)
    requires i < |toks| && Tops(toks, i, top) && Below(toks[i].seqIds, |top|) && toks[i].seqIds != []
    ensures Follows(toks, i) <==> forall k :: 0 <= k < |toks[i].seqIds| ==> top[toks[i].seqIds[k]] <= toks[i].pos
  {
    var ids := toks[i].seqIds;
    forall k | 0 <= k < |ids|
      ensures TopOf(toks, i, ids[k], top[ids[k]])
    {
    }
    if Follows(toks, i) {
      forall k | 0 <= k < |ids|
        ensures top[ids[k]] <= toks[i].pos
      {
        var s := ids[k];
        assert TopOf(toks, i, s, top[s]) && s in ids;
      }
    }
    if forall k :: 0 <= k < |ids| ==> top[ids[k]] <= toks[i].pos {
      assert TopOf(toks, i, ids[0], top[ids[0]]) && top[ids[0]] <= toks[i].pos;
      forall j, s | 0 <= j < i && s in toks[j].seqIds && s in ids
        ensures toks[j].pos <= toks[i].pos
      {
        var k :| 0 <= k < |ids| && ids[k] == s;
        assert TopOf(toks, i, ids[k], top[ids[k]]);
      }
    }
  }

  lemma TopsMore(toks: seq<BatchToken>, top: seq<int>, i: nat, next: seq<int>)
    requires i < |toks| && Tops(toks, i, top) && Follows(toks, i) && |next| == |top|
    requires forall s :: 0 <= s < |top| ==> next[s] == if s in toks[i].seqIds then toks[i].pos else top[s]
    ensures Tops(toks, i + 1, next)
  {
    forall s: nat | s < |next|
      ensures TopOf(toks, i + 1, s, next[s])
    {
      assert TopOf(toks, i, s, top[s]);
    }
  }

  /** One token against the tops; its own position becomes the top of its sequences. */
  method CheckToken(tok: BatchToken, set_: SeqSet, top: seq<int>, masks: seq<SeqSet>)
    returns (ok: bool, next: seq<int>, masks': seq<SeqSet>)
    requires Below(tok.seqIds, |top|) && |masks| == |top| && set_ == SeqSetOf(tok)
    requires forall s :: 0 <= s < |masks| ==> s in masks[s]
    ensures |next| == |top| && |masks'| == |masks| && forall s :: 0 <= s < |masks'| ==> s in masks'[s]
    ensures ok <==> forall k :: 0 <= k < |tok.seqIds| ==> top[tok.seqIds[k]] <= tok.pos
    ensures ok ==> forall s :: 0 <= s < |top| ==> next[s] == if s in tok.seqIds then tok.pos else top[s]
  {
    next, masks' := top, masks;
    for k := 0 to |tok.seqIds|
      invariant |next| == |top| && |masks'| == |masks|
      invariant forall s :: 0 <= s < |masks'| ==> s in masks'[s]
      invariant forall m :: 0 <= m < k ==> top[tok.seqIds[m]] <= tok.pos
      invariant forall s :: 0 <= s < |top| ==> next[s] == if s in tok.seqIds[..k] then tok.pos else top[s]
    {
      var seqId := tok.seqIds[k];
      assert seqId in masks'[seqId] && seqId in set_;
      masks' := masks'[seqId := masks'[seqId] * set_];
      assert seqId in masks'[seqId];
      if masks'[seqId] == {} {
        // cannot happen: the mask of a sequence always holds the sequence
        assert false;
      }
      if tok.pos < next[seqId] {
        return false, next, masks';
      }
      assert tok.seqIds[..k + 1] == tok.seqIds[..k] + [seqId];
      next := next[seqId := tok.pos];
    }
    assert tok.seqIds[..|tok.seqIds|] == tok.seqIds;
    ok := true;
  }

  method CheckOrder(toks: seq<BatchToken>, seqSet: seq<SeqSet>, nSeqMax: nat) returns (ok: bool)
    requires nSeqMax <= MAX_SEQ && |seqSet| == |toks| && forall i: nat :: TokenOk(toks, seqSet, nSeqMax, i)
    ensures ok <==> NeverDecreasing(toks)
  {
    var full := set s | s in Interval(0, MAX_SEQ);
    var masks := seq(nSeqMax, _ => full);
    var top := seq(nSeqMax, _ => -1);
    for i := 0 to |toks|
      invariant Tops(toks, i, top) && |top| == |masks| == nSeqMax
      invariant forall s :: 0 <= s < |masks| ==> s in masks[s]
      invariant forall j :: 0 <= j < i ==> Follows(toks, j)
    {
      assert TokenOk(toks, seqSet, nSeqMax, i);
      TopsTest(toks, top, i);
      var good, next, masks' := CheckToken(toks[i], seqSet[i], top, masks);
      if !good {
        NotFollowing(toks, i);
        return false;
      }
      TopsMore(toks, top, i, next);
      top, masks := next, masks';
    }
    AllFollow(toks);
    return true;
  }

  lemma NotFollowing(toks: seq<BatchToken>, i: nat)
    requires i < |toks| && !Follows(toks, i)
    ensures !NeverDecreasing(toks)
  {
  }

  lemma AllFollow(toks: seq<BatchToken>)
    requires forall j :: 0 <= j < |toks| ==> Follows(toks, j)
    ensures NeverDecreasing(toks)
  {
    forall i, j, s | 0 <= i < j < |toks| && s in toks[i].seqIds && s in toks[j].seqIds
      ensures toks[i].pos <= toks[j].pos
    {
      assert Follows(toks, j);
    }
    forall i | 0 <= i < |toks|
      ensures toks[i].pos >= -1
    {
      assert Follows(toks, i);
    }
  }

  // ---------------------------------------------------------------------------------------
  // What is computed of the batch
  // ---------------------------------------------------------------------------------------

  method CountMarked(toks: seq<BatchToken>) returns (n: nat)
    ensures n == CountOutputs(toks)
  {
    n := 0;
    for i := 0 to |toks|
      invariant n == CountOutputs(toks[..i])
    {
      assert toks[..i + 1][..i] == toks[..i];
      if toks[i].output {
        n := n + 1;
      }
    }
    assert toks[..|toks|] == toks;
  }

  ghost predicate AllSeqPos(toks: seq<BatchToken>, seqPos: seq<seq<int>>) {
    forall s: nat :: s < |seqPos| ==> IsSeqPos(toks, seqPos, s)
  }

  /** The position of one token enters the sets of its sequences; it couples them to its first one. */
  method AddToken(tok: BatchToken, seqPos: seq<seq<int>>, cpl: set<(nat, nat)>)
    returns (next: seq<seq<int>>, nextCpl: set<(nat, nat)>)
    requires Below(tok.seqIds, |seqPos|) && forall s :: 0 <= s < |seqPos| ==> Sorted(seqPos[s])
    ensures |next| == |seqPos| && forall s :: 0 <= s < |next| ==> Sorted(next[s])
    ensures forall s, p :: 0 <= s < |next| ==> (p in next[s] <==> p in seqPos[s] || (s in tok.seqIds && p == tok.pos))
    ensures forall a: nat, b: nat :: (a, b) in nextCpl <==> (a, b) in cpl || Couples(tok, |tok.seqIds|, a, b)
  {
    next, nextCpl := seqPos, cpl;
    for k := 0 to |tok.seqIds|
      invariant |next| == |seqPos| && forall s :: 0 <= s < |next| ==> Sorted(next[s])
      invariant forall s, p :: 0 <= s < |next| ==>
        (p in next[s] <==> p in seqPos[s] || (s in tok.seqIds[..k] && p == tok.pos))
      invariant forall a: nat, b: nat :: (a, b) in nextCpl <==> (a, b) in cpl || Couples(tok, k, a, b)
    {
      var s1 := tok.seqIds[k];
      assert tok.seqIds[..k + 1] == tok.seqIds[..k] + [s1];
      next := next[s1 := Insert(next[s1], tok.pos)];
      if k > 0 {
        nextCpl := nextCpl + {(s1, tok.seqIds[0])};
      }
    }
    assert tok.seqIds[..|tok.seqIds|] == tok.seqIds;
  }

  ghost predicate Couples(tok: BatchToken, n: nat, s1: nat, s0: nat) {
    exists k :: 0 < k < n && k < |tok.seqIds| && tok.seqIds[k] == s1 && tok.seqIds[0] == s0
  }

  lemma PositionsMore(toks: seq<BatchToken>, i: nat, seqPos: seq<seq<int>>, next: seq<seq<int>>)
    requires i < |toks| && AllSeqPos(toks[..i], seqPos) && |next| == |seqPos|
    requires forall s :: 0 <= s < |next| ==> Sorted(next[s])
    requires forall s, p :: 0 <= s < |next| ==>
      (p in next[s] <==> p in seqPos[s] || (s in toks[i].seqIds && p == toks[i].pos))
    ensures AllSeqPos(toks[..i + 1], next)
  {
    forall s: nat, p | s < |next|
      ensures p in next[s] <==> HoldsPos(toks[..i + 1], s, p)
    {
      assert IsSeqPos(toks[..i], seqPos, s);
      HoldsPosMore(toks, i, s, p);
    }
  }

  lemma HoldsPosMore(toks: seq<BatchToken>, i: nat, s: nat, p: int)
    requires i < |toks|
    ensures HoldsPos(toks[..i + 1], s, p) <==> HoldsPos(toks[..i], s, p) || (s in toks[i].seqIds && toks[i].pos == p)
  {
    if HoldsPos(toks[..i], s, p) {
      var j :| 0 <= j < i && s in toks[..i][j].seqIds && toks[..i][j].pos == p;
      assert toks[..i + 1][j] == toks[j];
    }
    if s in toks[i].seqIds && toks[i].pos == p {
      assert toks[..i + 1][i] == toks[i];
    }
  }

  method CollectPositions(toks: seq<BatchToken>, nSeqMax: nat)
    returns (hasCpl: bool, seqPos: seq<seq<int>>, cpl: set<(nat, nat)>)
    requires forall i :: 0 <= i < |toks| ==> Below(toks[i].seqIds, nSeqMax)
    ensures hasCpl <==> Coupled(toks)
    ensures |seqPos| == nSeqMax && AllSeqPos(toks, seqPos) && IsCpl(toks, cpl)
  {
    hasCpl, cpl := false, {};
    seqPos := seq(nSeqMax, _ => []);
    for i := 0 to |toks|
      invariant hasCpl <==> Coupled(toks[..i])
      invariant |seqPos| == nSeqMax && AllSeqPos(toks[..i], seqPos) && IsCpl(toks[..i], cpl)
    {
      forall s: nat | s < nSeqMax
        ensures Sorted(seqPos[s])
      {
        assert IsSeqPos(toks[..i], seqPos, s);
      }
      var next, nextCpl := AddToken(toks[i], seqPos, cpl);
      PositionsMore(toks, i, seqPos, next);
      CplMore(toks, i, cpl, nextCpl);
      CoupledMore(toks, i);
      seqPos, cpl := next, nextCpl;
      hasCpl := hasCpl || |toks[i].seqIds| > 1;
    }
    assert toks[..|toks|] == toks;
  }

  lemma CoupledMore(toks: seq<BatchToken>, i: nat)
    requires i < |toks|
    ensures Coupled(toks[..i + 1]) <==> Coupled(toks[..i]) || |toks[i].seqIds| > 1
  {
    if Coupled(toks[..i]) {
      var j :| 0 <= j < i && |toks[..i][j].seqIds| > 1;
      assert toks[..i + 1][j] == toks[j];
    }
    assert toks[..i + 1][i] == toks[i];
  }

  lemma CplMore(toks: seq<BatchToken>, i: nat, cpl: set<(nat, nat)>, next: set<(nat, nat)>)
    requires i < |toks| && IsCpl(toks[..i], cpl)
    requires forall a: nat, b: nat :: (a, b) in next <==> (a, b) in cpl || Couples(toks[i], |toks[i].seqIds|, a, b)
    ensures IsCpl(toks[..i + 1], next)
  {
    var front, more := toks[..i], toks[..i + 1];
    forall a: nat, b: nat
      ensures (a, b) in next <==>
        exists j, k :: 0 <= j < |more| && 0 < k < |more[j].seqIds| && more[j].seqIds[k] == a && more[j].seqIds[0] == b
    {
      if (a, b) in cpl {
        var j, k :| 0 <= j < |front| && 0 < k < |front[j].seqIds| && front[j].seqIds[k] == a && front[j].seqIds[0] == b;
        assert more[j] == front[j];
      }
      if Couples(toks[i], |toks[i].seqIds|, a, b) {
        var k :| 0 < k < |toks[i].seqIds| && toks[i].seqIds[k] == a && toks[i].seqIds[0] == b;
        assert more[i] == toks[i];
      }
      if j, k :| 0 <= j < |more| && 0 < k < |more[j].seqIds| && more[j].seqIds[k] == a && more[j].seqIds[0] == b {
        if j < i {
          assert front[j] == more[j];
        } else {
          assert Couples(toks[i], |toks[i].seqIds|, a, b);
        }
      }
    }
  }

  /** The sequence set of every token, and the tokens of every sequence set. */
  method CollectSeqSets(toks: seq<BatchToken>) returns (seqSet: seq<SeqSet>, m: map<SeqSet, seq<nat>>)
    ensures |seqSet| == |toks| && forall i :: 0 <= i < |toks| ==> seqSet[i] == SeqSetOf(toks[i])
    ensures IsSetMap(seqSet, m)
  {
    seqSet, m := [], map[];
    for i := 0 to |toks|
      invariant |seqSet| == i && forall j :: 0 <= j < i ==> seqSet[j] == SeqSetOf(toks[j])
      invariant IsSetMap(seqSet, m)
    {
      var cur := SeqSetOf(toks[i]);
      var list := (if cur in m then m[cur] else []) + [i];
      SetMapMore(seqSet, m, cur, list);
      seqSet := seqSet + [cur];
      m := m[cur := list];
    }
  }

  lemma SetMapMore(seqSet: seq<SeqSet>, m: map<SeqSet, seq<nat>>, cur: SeqSet, list: seq<nat>)
    requires IsSetMap(seqSet, m) && list == (if cur in m then m[cur] else []) + [|seqSet|]
    ensures IsSetMap(seqSet + [cur], m[cur := list])
  {
    var more, m' := seqSet + [cur], m[cur := list];
    forall i: nat
      ensures HasList(more, m', i)
    {
      assert HasList(seqSet, m, i);
    }
    forall s
      ensures EntryOk(more, m', s)
    {
      assert EntryOk(seqSet, m, s);
      if s == cur {
        ListMore(seqSet, m, cur, list);
      } else if s in m {
        ListKept(seqSet, s, m[s], cur);
      }
    }
  }

  lemma ListKept(seqSet: seq<SeqSet>, s: SeqSet, list: seq<nat>, cur: SeqSet)
    requires IsListOf(seqSet, s, list) && s != cur
    ensures IsListOf(seqSet + [cur], s, list)
  {
    forall i: nat
      ensures Listed(seqSet + [cur], s, list, i)
    {
      assert Listed(seqSet, s, list, i);
    }
  }

  lemma ListMore(seqSet: seq<SeqSet>, m: map<SeqSet, seq<nat>>, cur: SeqSet, list: seq<nat>)
    requires IsSetMap(seqSet, m) && list == (if cur in m then m[cur] else []) + [|seqSet|]
    ensures IsListOf(seqSet + [cur], cur, list)
  {
    assert EntryOk(seqSet, m, cur);
    forall i: nat
      ensures Listed(seqSet + [cur], cur, list, i)
    {
      assert HasList(seqSet, m, i);
      if i == |seqSet| {
        assert list[|list| - 1] == i;
      } else if cur in m {
        assert Listed(seqSet, cur, m[cur], i);
        if i in m[cur] {
          var j :| 0 <= j < |m[cur]| && m[cur][j] == i;
          assert list[j] == i;
        }
      }
    }
  }

  // ---------------------------------------------------------------------------------------
  // Generated positions
  // ---------------------------------------------------------------------------------------

  /** How many of the first `i` tokens are of sequence `s`. */
  function CountIn(seqIds: seq<seq<nat>>, s: nat, i: nat): nat
    requires i <= |seqIds|
  {
    if i == 0 then 0 else CountIn(seqIds, s, i - 1) + if s in seqIds[i - 1] then 1 else 0
  }

  ghost predicate Unshared(seqIds: seq<seq<nat>>) {
    forall i :: 0 <= i < |seqIds| ==> |seqIds[i]| == 1
  }

  /** Without shared tokens every sequence counts its own tokens. */
  lemma {:induction false} CountersCount(seqIds: seq<seq<nat>>, start: seq<int>, s: nat, i: nat)
    requires Unshared(seqIds) && IdsFit(seqIds, |start|) && i <= |seqIds| && s < |start|
    ensures Counters(seqIds, start, i)[s] == start[s] + CountIn(seqIds, s, i)
    decreases i
  {
    if i > 0 {
      CountersCount(seqIds, start, s, i - 1);
      assert s in seqIds[i - 1] <==> s == seqIds[i - 1][0];
    }
  }

  lemma {:induction false} CountInGrows(seqIds: seq<seq<nat>>, s: nat, i: nat, j: nat)
    requires i <= j <= |seqIds|
    ensures CountIn(seqIds, s, i) <= CountIn(seqIds, s, j)
    decreases j
  {
    if i < j {
      CountInGrows(seqIds, s, i, j - 1);
    }
  }

  lemma CountInStrict(seqIds: seq<seq<nat>>, s: nat, i: nat, j: nat)
    requires i < j <= |seqIds| && s in seqIds[i]
    ensures CountIn(seqIds, s, i) < CountIn(seqIds, s, j)
  {
    CountInGrows(seqIds, s, i + 1, j);
  }

  /** Every number below the final count is the count in front of some token of the sequence. */
  lemma {:induction false} CountInHits(seqIds: seq<seq<nat>>, s: nat, n: nat, i: nat) returns (k: nat)
    requires i <= |seqIds| && n < CountIn(seqIds, s, i)
    ensures k < i && s in seqIds[k] && CountIn(seqIds, s, k) == n
    decreases i
  {
    if n < CountIn(seqIds, s, i - 1) {
      k := CountInHits(seqIds, s, n, i - 1);
    } else {
      k := i - 1;
    }
  }

  /** The tokens carry generated positions. */
  ghost predicate Generated(toks: seq<BatchToken>, seqIds: seq<seq<nat>>, start: seq<int>) {
    && |toks| == |seqIds| && IdsFit(seqIds, |start|)
    && forall i :: 0 <= i < |toks| ==> toks[i].seqIds == seqIds[i] && toks[i].pos == GeneratedPos(seqIds, start, i)
  }

  lemma PosIsCount(toks: seq<BatchToken>, seqIds: seq<seq<nat>>, start: seq<int>, s: nat, i: nat)
    requires Generated(toks, seqIds, start) && Unshared(seqIds) && i < |toks| && s in toks[i].seqIds
    ensures s < |start| && toks[i].pos == start[s] + CountIn(seqIds, s, i)
    ensures CountIn(seqIds, s, i) < CountIn(seqIds, s, |seqIds|)
  {
    assert toks[i].seqIds == seqIds[i];
    OwnCount(seqIds, start, s, i);
  }

  lemma OwnCount(seqIds: seq<seq<nat>>, start: seq<int>, s: nat, i: nat)
    requires Unshared(seqIds) && IdsFit(seqIds, |start|) && i < |seqIds| && s in seqIds[i]
    ensures s < |start| && GeneratedPos(seqIds, start, i) == start[s] + CountIn(seqIds, s, i)
    ensures CountIn(seqIds, s, i) < CountIn(seqIds, s, |seqIds|)
  {
    assert |seqIds[i]| == 1 && s == seqIds[i][0];
    CountersCount(seqIds, start, s, i);
    CountInStrict(seqIds, s, i, |seqIds|);
  }

  /** The positions of a sequence are those from its start up to its count. */
  lemma GeneratedPositionsOf(toks: seq<BatchToken>, seqIds: seq<seq<nat>>, start: seq<int>, s: nat, p: int)
    requires Generated(toks, seqIds, start) && Unshared(seqIds) && s < |start|
    ensures HoldsPos(toks, s, p) <==> start[s] <= p < start[s] + CountIn(seqIds, s, |seqIds|)
  {
    if HoldsPos(toks, s, p) {
      var i :| 0 <= i < |toks| && s in toks[i].seqIds && toks[i].pos == p;
      PosIsCount(toks, seqIds, start, s, i);
    }
    if start[s] <= p < start[s] + CountIn(seqIds, s, |seqIds|) {
      var k := CountInHits(seqIds, s, p - start[s], |seqIds|);
      assert s in toks[k].seqIds;
      PosIsCount(toks, seqIds, start, s, k);
    }
  }

  /** Generated positions pass all checks if no token is shared. */
  lemma GeneratedAcceptable(toks: seq<BatchToken>, seqIds: seq<seq<nat>>, memory: MemoryBounds, nSeqMax: nat)
    requires MemoryFits(memory, nSeqMax) && Generated(toks, seqIds, StartCounters(memory, nSeqMax)) && Unshared(seqIds)
    ensures Acceptable(toks, memory, nSeqMax)
  {
    var start := StartCounters(memory, nSeqMax);
    forall s: nat | s < nSeqMax
      ensures NoGap(toks, s) && StartsAfter(toks, s, LastPos(memory, s))
    {
      forall p
        ensures HoldsPos(toks, s, p) <==> start[s] <= p < start[s] + CountIn(seqIds, s, |seqIds|)
      {
        GeneratedPositionsOf(toks, seqIds, start, s, p);
      }
    }
    forall i, j, s | 0 <= i < j < |toks| && s in toks[i].seqIds && s in toks[j].seqIds
      ensures toks[i].pos <= toks[j].pos
    {
      PosIsCount(toks, seqIds, start, s, i);
      PosIsCount(toks, seqIds, start, s, j);
      CountInGrows(seqIds, s, i, j);
    }
    forall i | 0 <= i < |toks|
      ensures toks[i].pos >= -1
    {
      PosIsCount(toks, seqIds, start, toks[i].seqIds[0], i);
    }
    forall i | 0 <= i < |toks|
      ensures |toks[i].seqIds| == 1
    {
    }
  }

  /** What initialisation computes and then checks. */
  method Check(toks: seq<BatchToken>, memory: MemoryBounds, nSeqMax: nat)
    returns (ok: bool, hasCpl: bool, seqSet: seq<SeqSet>, m: map<SeqSet, seq<nat>>)
    requires MemoryFits(memory, nSeqMax) && nSeqMax <= MAX_SEQ
    requires forall i :: 0 <= i < |toks| ==> toks[i].seqIds != [] && Below(toks[i].seqIds, nSeqMax)
    ensures ok <==> Acceptable(toks, memory, nSeqMax)
    ensures |seqSet| == |toks| && (forall i: nat :: TokenOk(toks, seqSet, nSeqMax, i)) && IsSetMap(seqSet, m)
    ensures hasCpl <==> Coupled(toks)
  {
    var seqPos, cpl;
    hasCpl, seqPos, cpl := CollectPositions(toks, nSeqMax);
    seqSet, m := CollectSeqSets(toks);
    ok := CheckContinuity(toks, seqPos, memory, nSeqMax);
    if ok {
      ok := CheckCoupled(toks, cpl, memory, nSeqMax);
    }
    if ok {
      ok := CheckOrder(toks, seqSet, nSeqMax);
    }
  }

  lemma FilledFit(toks: seq<BatchToken>, inp: BatchInput, memory: MemoryBounds, nSeqMax: nat, outputAll: bool)
    requires WellSized(inp) && MemoryFits(memory, nSeqMax)
    requires inp.seqIds.Some? ==> forall i :: 0 <= i < inp.nTokens ==> AllWithin(inp.seqIds.value[i], nSeqMax)
    requires IsFilled(toks, inp, memory, nSeqMax, outputAll)
    ensures forall i :: 0 <= i < |toks| ==> toks[i].seqIds != [] && Below(toks[i].seqIds, nSeqMax)
  {
  }

  /** Without given positions, and with no token in two sequences, a batch with valid ids is accepted. */
  lemma OmittedPositionsPass(toks: seq<BatchToken>, inp: BatchInput, memory: MemoryBounds, nVocab: nat, nSeqMax: nat,
                             outputAll: bool)
    requires WellSized(inp) && IdsValid(inp, nVocab, nSeqMax) && MemoryFits(memory, nSeqMax) && inp.pos.None?
    requires IsFilled(toks, inp, memory, nSeqMax, outputAll)
    requires inp.seqIds.Some? ==> forall i :: 0 <= i < inp.nTokens ==> |inp.seqIds.value[i]| == 1
    ensures Acceptable(toks, memory, nSeqMax)
  {
    GeneratedAcceptable(toks, SeqIdsOf(inp, nSeqMax), memory, nSeqMax);
  }
}
