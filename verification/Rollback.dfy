/**
  Taking a failed micro-batch out of memory again. Memory is the set of stored positions of each sequence.
  */
module Rollback {
  import opened BatchTokens
  import opened Collections
  import opened BatchInit

  type Mem = seq<set<int>>

  function PositionsOf(toks: seq<BatchToken>, s: nat): set<int> {
    set i | 0 <= i < |toks| && s in toks[i].seqIds :: toks[i].pos
  }

  /** Memory with the tokens stored. */
  function Stored(mem: Mem, toks: seq<BatchToken>): (r: Mem)
    ensures |r| == |mem| && forall s :: 0 <= s < |mem| ==> r[s] == mem[s] + PositionsOf(toks, s)
  {
    seq(|mem|, s requires 0 <= s < |mem| => mem[s] + PositionsOf(toks, s))
  }

  /** Memory when the storing was interrupted: `kept` says what had arrived. */
  function StoredPart(mem: Mem, toks: seq<BatchToken>, kept: (nat, int) -> bool): (r: Mem)
    ensures |r| == |mem|
    ensures forall s :: 0 <= s < |mem| ==> r[s] == mem[s] + set p | p in PositionsOf(toks, s) && kept(s, p)
  {
    seq(|mem|, s requires 0 <= s < |mem| => mem[s] + set p | p in PositionsOf(toks, s) && kept(s, p))
  }

  /** Nothing survives at or behind the first position of a sequence that starts one of the tokens. */
  predicate Survives(toks: seq<BatchToken>, s: nat, p: int)
    requires forall i :: 0 <= i < |toks| ==> toks[i].seqIds != []
  {
    forall i :: 0 <= i < |toks| && toks[i].seqIds[0] == s ==> p < toks[i].pos
  }

  function RolledBack(mem: Mem, toks: seq<BatchToken>): (r: Mem)
    requires forall i :: 0 <= i < |toks| ==> toks[i].seqIds != []
    ensures |r| == |mem| && forall s, p :: 0 <= s < |mem| ==> (p in r[s] <==> p in mem[s] && Survives(toks, s, p))
  {
    seq(|mem|, s requires 0 <= s < |mem| => set p | p in mem[s] && Survives(toks, s, p))
  }

  /** The least position of the tokens whose first sequence is `s`, if there are any. */
  ghost predicate IsLeast(toks: seq<BatchToken>, n: nat, s: nat, least: Option<int>)
    requires n <= |toks| && forall i :: 0 <= i < |toks| ==> toks[i].seqIds != []
  {
    && (least.Some? ==> exists i :: 0 <= i < n && toks[i].seqIds[0] == s && toks[i].pos == least.value)
    && forall i :: 0 <= i < n && toks[i].seqIds[0] == s ==> least.Some? && least.value <= toks[i].pos
  }

  method LeastPositions(toks: seq<BatchToken>, nSeq: nat) returns (posMin: seq<Option<int>>)
    requires forall i :: 0 <= i < |toks| ==> toks[i].seqIds != [] && toks[i].seqIds[0] < nSeq
    ensures |posMin| == nSeq && forall s :: 0 <= s < nSeq ==> IsLeast(toks, |toks|, s, posMin[s])
  {
    posMin := seq(nSeq, _ => None);
    for i := 0 to |toks|
      invariant |posMin| == nSeq && forall s :: 0 <= s < nSeq ==> IsLeast(toks, i, s, posMin[s])
    {
      var s0 := toks[i].seqIds[0];
      assert IsLeast(toks, i, s0, posMin[s0]);
      if posMin[s0].None? || toks[i].pos < posMin[s0].value {
        posMin := posMin[s0 := Some(toks[i].pos)];
      }
    }
  }

  /** Removes the positions of a sequence from `p0` on. */
  function SeqRm(mem: Mem, s: nat, p0: int): Mem
    requires s < |mem|
  {
    mem[s := set p | p in mem[s] && p < p0]
  }

  lemma LeastDecides(toks: seq<BatchToken>, s: nat, least: Option<int>, p: int)
    requires forall i :: 0 <= i < |toks| ==> toks[i].seqIds != []
    requires IsLeast(toks, |toks|, s, least)
    ensures Survives(toks, s, p) <==> least.None? || p < least.value
  {
  }

  /** Removes a failed micro-batch. */
  method RollBack(mem: Mem, toks: seq<BatchToken>) returns (r: Mem)
    requires forall i :: 0 <= i < |toks| ==> toks[i].seqIds != [] && toks[i].seqIds[0] < |mem|
    ensures r == RolledBack(mem, toks)
  {
    var posMin := LeastPositions(toks, |mem|);
    r := mem;
    for s := 0 to |mem|
      invariant |r| == |mem|
      invariant forall t, p :: 0 <= t < |mem| ==> (p in r[t] <==> p in mem[t] && (t < s ==> Survives(toks, t, p)))
    {
      forall p
        ensures Survives(toks, s, p) <==> posMin[s].None? || p < posMin[s].value
      {
        LeastDecides(toks, s, posMin[s], p);
      }
      if posMin[s].Some? {
        r := SeqRm(r, s, posMin[s].value);
      }
    }
    SameMem(r, RolledBack(mem, toks));
  }

  lemma SameMem(a: Mem, b: Mem)
    requires |a| == |b| && forall s, p :: 0 <= s < |a| ==> (p in a[s] <==> p in b[s])
    ensures a == b
  {
    forall s | 0 <= s < |a|
      ensures a[s] == b[s]
    {
      assert forall p :: p in a[s] <==> p in b[s];
    }
  }

  // ---------------------------------------------------------------------------------------
  // When the removal is exact
  // ---------------------------------------------------------------------------------------

  /**
    All that memory holds of the first sequence of a token lies before the token, and what a token
    stores in any of its sequences was there before or is removed again.
    */
  ghost predicate Undoable(mem: Mem, toks: seq<BatchToken>)
    requires forall i :: 0 <= i < |toks| ==> toks[i].seqIds != [] && Below(toks[i].seqIds, |mem|)
  {
    forall i :: 0 <= i < |toks| ==> Survivors(mem, toks, i) && Removed(mem, toks, i)
  }

  ghost predicate Survivors(mem: Mem, toks: seq<BatchToken>, i: nat)
    requires i < |toks| && toks[i].seqIds != [] && Below(toks[i].seqIds, |mem|)
  {
    forall p :: p in mem[toks[i].seqIds[0]] ==> p < toks[i].pos
  }

  ghost predicate Removed(mem: Mem, toks: seq<BatchToken>, i: nat)
    requires forall j :: 0 <= j < |toks| ==> toks[j].seqIds != []
    requires i < |toks| && Below(toks[i].seqIds, |mem|)
  {
    forall k :: 0 <= k < |toks[i].seqIds| ==>
      toks[i].pos in mem[toks[i].seqIds[k]] || !Survives(toks, toks[i].seqIds[k], toks[i].pos)
  }

  lemma UndoableSuffices(mem: Mem, toks: seq<BatchToken>, kept: (nat, int) -> bool)
    requires forall i :: 0 <= i < |toks| ==> toks[i].seqIds != [] && Below(toks[i].seqIds, |mem|)
    requires Undoable(mem, toks)
    ensures RolledBack(StoredPart(mem, toks, kept), toks) == mem
  {
    var part := StoredPart(mem, toks, kept);
    var r := RolledBack(part, toks);
    forall s, p | 0 <= s < |mem|
      ensures p in r[s] <==> p in mem[s]
    {
      if p in mem[s] {
        assert p in part[s];
        forall i | 0 <= i < |toks| && toks[i].seqIds[0] == s
          ensures p < toks[i].pos
        {
          assert Survivors(mem, toks, i);
        }
      } else if p in part[s] {
        var i :| 0 <= i < |toks| && s in toks[i].seqIds && toks[i].pos == p;
        assert Removed(mem, toks, i);
      }
    }
    SameMem(r, mem);
  }

  lemma UndoableNeeded(mem: Mem, toks: seq<BatchToken>)
    requires forall i :: 0 <= i < |toks| ==> toks[i].seqIds != [] && Below(toks[i].seqIds, |mem|)
    requires RolledBack(StoredPart(mem, toks, (_, _) => true), toks) == mem
    ensures Undoable(mem, toks)
  {
    var part := StoredPart(mem, toks, (_, _) => true);
    var r := RolledBack(part, toks);
    forall i | 0 <= i < |toks|
      ensures Survivors(mem, toks, i) && Removed(mem, toks, i)
    {
      var s0 := toks[i].seqIds[0];
      forall p | p in mem[s0]
        ensures p < toks[i].pos
      {
        assert p in r[s0];
        assert Survives(toks, s0, p);
      }
      forall k | 0 <= k < |toks[i].seqIds|
        ensures toks[i].pos in mem[toks[i].seqIds[k]] || !Survives(toks, toks[i].seqIds[k], toks[i].pos)
      {
        var s := toks[i].seqIds[k];
        assert s in toks[i].seqIds;
        assert toks[i].pos in PositionsOf(toks, s);
        assert toks[i].pos in part[s];
        assert toks[i].pos in r[s] <==> Survives(toks, s, toks[i].pos);
      }
    }
  }

  /** The removal restores memory, whatever part had been stored, exactly under this condition. */
  lemma RollbackExactIff(mem: Mem, toks: seq<BatchToken>)
    requires forall i :: 0 <= i < |toks| ==> toks[i].seqIds != [] && Below(toks[i].seqIds, |mem|)
    ensures Undoable(mem, toks) <==>
      forall kept: (nat, int) -> bool :: RolledBack(StoredPart(mem, toks, kept), toks) == mem
  {
    if Undoable(mem, toks) {
      forall kept: (nat, int) -> bool
        ensures RolledBack(StoredPart(mem, toks, kept), toks) == mem
      {
        UndoableSuffices(mem, toks, kept);
      }
    }
    if forall kept: (nat, int) -> bool :: RolledBack(StoredPart(mem, toks, kept), toks) == mem {
      var all: (nat, int) -> bool := (_, _) => true;
      assert RolledBack(StoredPart(mem, toks, all), toks) == mem;
      UndoableNeeded(mem, toks);
    }
  }

  // ---------------------------------------------------------------------------------------
  // Runs
  // ---------------------------------------------------------------------------------------

  function TokensAt(batch: seq<BatchToken>, idxs: seq<nat>): (toks: seq<BatchToken>)
    requires Below(idxs, |batch|)
    ensures |toks| == |idxs| && forall k :: 0 <= k < |idxs| ==> toks[k] == batch[idxs[k]]
  {
    seq(|idxs|, k requires 0 <= k < |idxs| => batch[idxs[k]])
  }

  lemma StoredJoin(mem: Mem, a: seq<BatchToken>, b: seq<BatchToken>)
    ensures Stored(Stored(mem, a), b) == Stored(mem, a + b)
  {
    forall s | 0 <= s < |mem|
      ensures Stored(Stored(mem, a), b)[s] == Stored(mem, a + b)[s]
    {
      forall p
        ensures p in PositionsOf(a + b, s) <==> p in PositionsOf(a, s) || p in PositionsOf(b, s)
      {
        PositionsJoin(a, b, s, p);
      }
    }
  }

  lemma PositionsJoin(a: seq<BatchToken>, b: seq<BatchToken>, s: nat, p: int)
    ensures p in PositionsOf(a + b, s) <==> p in PositionsOf(a, s) || p in PositionsOf(b, s)
  {
    var c := a + b;
    if p in PositionsOf(a, s) {
      var i :| 0 <= i < |a| && s in a[i].seqIds && a[i].pos == p;
      assert c[i] == a[i];
    }
    if p in PositionsOf(b, s) {
      var i :| 0 <= i < |b| && s in b[i].seqIds && b[i].pos == p;
      assert c[|a| + i] == b[i];
    }
  }

  /** What the memory module reports agrees with what it holds, which are no negative positions. */
  ghost predicate Reports(memory: MemoryBounds, mem: Mem) {
    && memory.Memory? && |memory.posMin| == |memory.posMax| == |mem|
    && forall s :: 0 <= s < |mem| ==> ReportsOf(memory.posMax[s], mem[s])
  }

  predicate ReportsOf(last: int, stored: set<int>) {
    if stored == {} then last == -1 else last in stored && forall p :: p in stored ==> 0 <= p <= last
  }

  /** No token belongs to two sequences. */
  ghost predicate SingleSequence(batch: seq<BatchToken>) {
    forall i, k :: 0 <= i < |batch| && 0 <= k < |batch[i].seqIds| ==> batch[i].seqIds[k] == batch[i].seqIds[0]
  }

  /** Positions of one sequence increase along the batch. */
  ghost predicate Increasing(batch: seq<BatchToken>) {
    forall i, j, s :: 0 <= i < j < |batch| && s in batch[i].seqIds && s in batch[j].seqIds ==>
      batch[i].pos < batch[j].pos
  }

  /**
    For an accepted batch of unshared tokens, whose positions increase in each sequence, every
    micro-batch can be undone, whatever came before it in the run.
    */
  lemma RunIsUndoable(batch: seq<BatchToken>, seqSet: seq<SeqSet>, memory: MemoryBounds, mem: Mem, done: seq<nat>,
                      next: seq<nat>)
    requires Reports(memory, mem) && Acceptable(batch, memory, |mem|) && SingleSequence(batch) && Increasing(batch)
    requires |seqSet| == |batch| && forall i: nat :: TokenOk(batch, seqSet, |mem|, i)
    requires Below(done, |batch|) && Below(next, |batch|) && EmittedInOrder(seqSet, done + next)
    ensures forall i :: 0 <= i < |TokensAt(batch, next)| ==>
      TokensAt(batch, next)[i].seqIds != [] && Below(TokensAt(batch, next)[i].seqIds, |mem|)
    ensures Undoable(Stored(mem, TokensAt(batch, done)), TokensAt(batch, next))
  {
    var toks := TokensAt(batch, next);
    var now := Stored(mem, TokensAt(batch, done));
    forall i | 0 <= i < |toks|
      ensures toks[i].seqIds != [] && Below(toks[i].seqIds, |mem|)
    {
      assert TokenOk(batch, seqSet, |mem|, next[i]);
    }
    forall i | 0 <= i < |toks|
      ensures Survivors(now, toks, i) && Removed(now, toks, i)
    {
      assert forall k :: 0 <= k < |toks[i].seqIds| ==> toks[i].seqIds[k] == toks[i].seqIds[0];
      forall p | p in now[toks[i].seqIds[0]]
        ensures p < toks[i].pos
      {
        EarlierIsBefore(batch, seqSet, memory, mem, done, next, i, p);
      }
      assert !Survives(toks, toks[i].seqIds[0], toks[i].pos);
    }
  }

  lemma EarlierIsBefore(batch: seq<BatchToken>, seqSet: seq<SeqSet>, memory: MemoryBounds, mem: Mem, done: seq<nat>,
                        next: seq<nat>, k: nat, p: int)
    requires Reports(memory, mem) && Acceptable(batch, memory, |mem|) && SingleSequence(batch) && Increasing(batch)
    requires |seqSet| == |batch| && forall i: nat :: TokenOk(batch, seqSet, |mem|, i)
    requires Below(done, |batch|) && Below(next, |batch|) && EmittedInOrder(seqSet, done + next)
    requires k < |next| && batch[next[k]].seqIds != [] && batch[next[k]].seqIds[0] < |mem|
    requires p in Stored(mem, TokensAt(batch, done))[batch[next[k]].seqIds[0]]
    ensures p < batch[next[k]].pos
  {
    var t := batch[next[k]];
    var s := t.seqIds[0];
    if p in mem[s] {
      assert ReportsOf(memory.posMax[s], mem[s]);
      assert HoldsPos(batch, s, t.pos);
      assert StartsAfter(batch, s, LastPos(memory, s));
    } else {
      var toks := TokensAt(batch, done);
      var i :| 0 <= i < |toks| && s in toks[i].seqIds && toks[i].pos == p;
      SameSet(batch, seqSet, |mem|, done[i], next[k], s);
      var all := done + next;
      assert PairInOrder(seqSet, all, i, |done| + k);
      assert all[i] == done[i] && all[|done| + k] == next[k];
    }
  }

  /** Unshared tokens of one sequence have one sequence set. */
  lemma SameSet(batch: seq<BatchToken>, seqSet: seq<SeqSet>, nSeqMax: nat, i: nat, j: nat, s: nat)
    requires |seqSet| == |batch| && SingleSequence(batch) && forall i: nat :: TokenOk(batch, seqSet, nSeqMax, i)
    requires i < |batch| && j < |batch| && s in batch[i].seqIds && s in batch[j].seqIds
    ensures seqSet[i] == seqSet[j]
  {
    OnlySequence(batch, seqSet, nSeqMax, i, s);
    OnlySequence(batch, seqSet, nSeqMax, j, s);
  }

  lemma OnlySequence(batch: seq<BatchToken>, seqSet: seq<SeqSet>, nSeqMax: nat, i: nat, s: nat)
    requires |seqSet| == |batch| && SingleSequence(batch) && TokenOk(batch, seqSet, nSeqMax, i) && i < |batch| &&
      s in batch[i].seqIds
    ensures seqSet[i] == {s}
  {
    assert batch[i].seqIds[0] == s && batch[i].seqIds[0] in SeqSetOf(batch[i]);
  }

  // ---------------------------------------------------------------------------------------
  // Exactly when every micro-batch of every run can be undone
  // ---------------------------------------------------------------------------------------

  /** Tokens that are gone out, and the ones that go out next: in order for each sequence set, and none is left out. */
  ghost predicate IsRun(seqSet: seq<SeqSet>, done: seq<nat>, next: seq<nat>) {
    EmittedInOrder(seqSet, done + next) && forall i: nat, j: nat :: NoneLeftOut(seqSet, done + next, i, j)
  }

  ghost predicate NoneLeftOut(seqSet: seq<SeqSet>, emitted: seq<nat>, i: nat, j: nat) {
    i < j < |seqSet| && j in emitted && seqSet[i] == seqSet[j] ==> i in emitted
  }

  /** The micro-batch `next` can be undone when `done` is stored. */
  ghost predicate UndoableAt(batch: seq<BatchToken>, mem: Mem, done: seq<nat>, next: seq<nat>) {
    && Below(done, |batch|) && Below(next, |batch|)
    && (forall i :: 0 <= i < |next| ==> batch[next[i]].seqIds != [] && Below(batch[next[i]].seqIds, |mem|))
    && Undoable(Stored(mem, TokensAt(batch, done)), TokensAt(batch, next))
  }

  ghost predicate AllUndoable(batch: seq<BatchToken>, seqSet: seq<SeqSet>, mem: Mem) {
    forall done: seq<nat>, next: seq<nat> :: IsRun(seqSet, done, next) ==> UndoableAt(batch, mem, done, next)
  }

  lemma BelowParts(done: seq<nat>, next: seq<nat>, n: nat)
    requires Below(done + next, n)
    ensures Below(done, n) && Below(next, n)
  {
    var all := done + next;
    assert forall k :: 0 <= k < |done| ==> all[k] == done[k];
    assert forall k :: 0 <= k < |next| ==> all[|done| + k] == next[k];
  }

  /** The first token of its sequence set can go out at once; if it is shared, its second sequence keeps it. */
  lemma SharedFails(batch: seq<BatchToken>, seqSet: seq<SeqSet>, memory: MemoryBounds, mem: Mem, j: nat)
    requires Reports(memory, mem) && Acceptable(batch, memory, |mem|)
    requires |seqSet| == |batch| && forall i: nat :: TokenOk(batch, seqSet, |mem|, i)
    requires j < |batch| && !SingleSequence([batch[j]]) && forall i :: 0 <= i < j ==> seqSet[i] != seqSet[j]
    ensures IsRun(seqSet, [], [j]) && !UndoableAt(batch, mem, [], [j])
  {
    assert [] + [j] == [j];
    assert TokenOk(batch, seqSet, |mem|, j);
    var t := batch[j];
    var one := [t];
    var k :| 0 <= k < |one[0].seqIds| && one[0].seqIds[k] != one[0].seqIds[0];
    var toks := TokensAt(batch, [j]);
    assert toks == one && TokensAt(batch, []) == [];
    var s := t.seqIds[k];
    assert Stored(mem, [])[s] == mem[s] + PositionsOf([], s) == mem[s];
    NotInMemory(batch, memory, mem, j, s);
    assert !Removed(Stored(mem, []), toks, 0) by {
      assert toks[0].seqIds[k] == s && Survives(toks, s, t.pos);
    }
  }

  /** What a batch brings is not in memory yet. */
  lemma NotInMemory(batch: seq<BatchToken>, memory: MemoryBounds, mem: Mem, j: nat, s: nat)
    requires Reports(memory, mem) && Acceptable(batch, memory, |mem|) && j < |batch| && s in batch[j].seqIds &&
      s < |mem|
    ensures forall p :: p in mem[s] ==> p < batch[j].pos
  {
    assert ReportsOf(memory.posMax[s], mem[s]);
    assert HoldsPos(batch, s, batch[j].pos);
    assert StartsAfter(batch, s, LastPos(memory, s));
  }

  /** One token at a time is a run. */
  lemma FrontIsRun(seqSet: seq<SeqSet>, j: nat)
    requires j < |seqSet|
    ensures IsRun(seqSet, Interval(0, j), [j])
  {
    assert Interval(0, j) + [j] == Interval(0, j + 1);
  }

  /** A position that does not increase: the earlier token is taken out together with the later one. */
  lemma RepeatedFails(batch: seq<BatchToken>, seqSet: seq<SeqSet>, mem: Mem, i: nat, j: nat, s: nat)
    requires |seqSet| == |batch| && forall i: nat :: TokenOk(batch, seqSet, |mem|, i)
    requires SingleSequence(batch) && i < j < |batch| && s in batch[i].seqIds && s in batch[j].seqIds &&
      batch[i].pos >= batch[j].pos
    ensures IsRun(seqSet, Interval(0, j), [j]) && !UndoableAt(batch, mem, Interval(0, j), [j])
  {
    var done, toks := Interval(0, j), TokensAt(batch, [j]);
    FrontIsRun(seqSet, j);
    assert batch[j].seqIds[0] == s by {
      assert TokenOk(batch, seqSet, |mem|, j);
    }
    assert s < |mem| by {
      assert TokenOk(batch, seqSet, |mem|, j);
    }
    StoredEarlier(batch, mem, done, i, s);
    assert toks == [batch[j]];
    BehindFails(Stored(mem, TokensAt(batch, done)), batch[j], s, batch[i].pos);
  }

  lemma StoredEarlier(batch: seq<BatchToken>, mem: Mem, done: seq<nat>, i: nat, s: nat)
    requires Below(done, |batch|) && i < |done| && done[i] == i && s in batch[i].seqIds && s < |mem|
    ensures batch[i].pos in Stored(mem, TokensAt(batch, done))[s]
  {
    var toks := TokensAt(batch, done);
    assert toks[i] == batch[i];
  }

  lemma BehindFails(now: Mem, t: BatchToken, s: nat, p: int)
    requires t.seqIds != [] && Below(t.seqIds, |now|) && t.seqIds[0] == s && p in now[s] && p >= t.pos
    ensures !Undoable(now, [t])
  {
    assert !Survivors(now, [t], 0);
  }

  lemma FirstOfSet(seqSet: seq<SeqSet>, j: nat) returns (i: nat)
    requires j < |seqSet|
    ensures i <= j && seqSet[i] == seqSet[j] && forall k :: 0 <= k < i ==> seqSet[k] != seqSet[j]
  {
    i := 0;
    while seqSet[i] != seqSet[j]
      invariant i <= j && forall k :: 0 <= k < i ==> seqSet[k] != seqSet[j]
      decreases j - i
    {
      i := i + 1;
    }
  }

  lemma SameSetShared(batch: seq<BatchToken>, seqSet: seq<SeqSet>, nSeqMax: nat, i: nat, j: nat)
    requires |seqSet| == |batch| && forall i: nat :: TokenOk(batch, seqSet, nSeqMax, i)
    requires i < |batch| && j < |batch| && seqSet[i] == seqSet[j] && SingleSequence([batch[i]])
    ensures SingleSequence([batch[j]])
  {
    assert TokenOk(batch, seqSet, nSeqMax, i) && TokenOk(batch, seqSet, nSeqMax, j);
    var one := [batch[i]];
    forall k | 0 <= k < |batch[j].seqIds|
      ensures batch[j].seqIds[k] == batch[i].seqIds[0]
    {
      assert batch[j].seqIds[k] in seqSet[i];
      var l :| 0 <= l < |batch[i].seqIds| && batch[i].seqIds[l] == batch[j].seqIds[k];
      assert one[0].seqIds[l] == one[0].seqIds[0];
    }
  }

  /** If every micro-batch of every run can be undone, no token is shared. */
  lemma UndoableSingle(batch: seq<BatchToken>, seqSet: seq<SeqSet>, memory: MemoryBounds, mem: Mem)
    requires Reports(memory, mem) && Acceptable(batch, memory, |mem|)
    requires |seqSet| == |batch| && forall i: nat :: TokenOk(batch, seqSet, |mem|, i)
    requires AllUndoable(batch, seqSet, mem)
    ensures SingleSequence(batch)
  {
    forall j | 0 <= j < |batch|
      ensures SingleSequence([batch[j]])
    {
      var i := FirstOfSet(seqSet, j);
      if !SingleSequence([batch[i]]) {
        SharedFails(batch, seqSet, memory, mem, i);
        assert false;
      }
      SameSetShared(batch, seqSet, |mem|, i, j);
    }
    forall j, k | 0 <= j < |batch| && 0 <= k < |batch[j].seqIds|
      ensures batch[j].seqIds[k] == batch[j].seqIds[0]
    {
      var one := [batch[j]];
      assert SingleSequence([batch[j]]) && one[0].seqIds[k] == one[0].seqIds[0];
    }
  }

  /**
    Of an accepted batch every micro-batch of every run can be undone if and only if no token belongs to two
    sequences and the positions of each sequence increase.
    */
  lemma RunsUndoableIff(batch: seq<BatchToken>, seqSet: seq<SeqSet>, memory: MemoryBounds, mem: Mem)
    requires Reports(memory, mem) && Acceptable(batch, memory, |mem|)
    requires |seqSet| == |batch| && forall i: nat :: TokenOk(batch, seqSet, |mem|, i)
    ensures AllUndoable(batch, seqSet, mem) <==> SingleSequence(batch) && Increasing(batch)
  {
    if SingleSequence(batch) && Increasing(batch) {
      forall done: seq<nat>, next: seq<nat> | IsRun(seqSet, done, next)
        ensures UndoableAt(batch, mem, done, next)
      {
        BelowParts(done, next, |batch|);
        RunIsUndoable(batch, seqSet, memory, mem, done, next);
        assert forall i :: 0 <= i < |next| ==> batch[next[i]] == TokensAt(batch, next)[i];
      }
    }
    if AllUndoable(batch, seqSet, mem) {
      UndoableSingle(batch, seqSet, memory, mem);
      forall i, j, s | 0 <= i < j < |batch| && s in batch[i].seqIds && s in batch[j].seqIds
        ensures batch[i].pos < batch[j].pos
      {
        if batch[i].pos >= batch[j].pos {
          RepeatedFails(batch, seqSet, mem, i, j, s);
          assert false;
        }
      }
    }
  }

  /** Generated positions increase and are not negative, so that the conditions hold of them. */
  lemma GeneratedIncreasing(toks: seq<BatchToken>, seqIds: seq<seq<nat>>, memory: MemoryBounds, mem: Mem)
    requires Reports(memory, mem) && MemoryFits(memory, |mem|)
    requires Generated(toks, seqIds, StartCounters(memory, |mem|)) && Unshared(seqIds)
    ensures Increasing(toks) && SingleSequence(toks) && forall i :: 0 <= i < |toks| ==> toks[i].pos >= 0
  {
    var start := StartCounters(memory, |mem|);
    forall i, j, s | 0 <= i < j < |toks| && s in toks[i].seqIds && s in toks[j].seqIds
      ensures toks[i].pos < toks[j].pos
    {
      GeneratedPair(toks, seqIds, start, s, i, j);
    }
    GeneratedSingle(toks, seqIds, memory, mem);
  }

  lemma GeneratedSingle(toks: seq<BatchToken>, seqIds: seq<seq<nat>>, memory: MemoryBounds, mem: Mem)
    requires Reports(memory, mem) && MemoryFits(memory, |mem|)
    requires Generated(toks, seqIds, StartCounters(memory, |mem|)) && Unshared(seqIds)
    ensures SingleSequence(toks) && forall i :: 0 <= i < |toks| ==> toks[i].pos >= 0
  {
    var start := StartCounters(memory, |mem|);
    forall i | 0 <= i < |toks|
      ensures toks[i].pos >= 0 && |toks[i].seqIds| == 1
    {
      assert toks[i].seqIds == seqIds[i];
      PosIsCount(toks, seqIds, start, toks[i].seqIds[0], i);
      assert start[toks[i].seqIds[0]] == LastPos(memory, toks[i].seqIds[0]) + 1;
    }
  }

  lemma GeneratedPair(toks: seq<BatchToken>, seqIds: seq<seq<nat>>, start: seq<int>, s: nat, i: nat, j: nat)
    requires Generated(toks, seqIds, start) && Unshared(seqIds)
    requires i < j < |toks| && s in toks[i].seqIds && s in toks[j].seqIds
    ensures toks[i].pos < toks[j].pos
  {
    PosIsCount(toks, seqIds, start, s, i);
    PosIsCount(toks, seqIds, start, s, j);
    assert toks[i].seqIds == seqIds[i];
    CountInStrict(seqIds, s, i, j);
  }
}
