/**
  Reading saved state back into device memory: what was written as one list of chunks is copied
  into another list of the same total size that may be cut elsewhere.
  */
module Rechunk {
  import opened Collections
  import opened Utf8

  type Chunks = seq<seq<Byte>>

  /** The other list has chunks of the same sizes. */
  ghost predicate SameSizes(a: Chunks, b: Chunks) {
    |a| == |b| && forall i :: 0 <= i < |a| ==> |a[i]| == |b[i]|
  }

  /** A whole number of elements of `el` bytes. */
  ghost predicate IsWhole(size: nat, el: nat)
    requires el > 0
    decreases size
  {
    size == 0 || (size >= el && IsWhole(size - el, el))
  }

  ghost predicate Whole(chunks: Chunks, el: nat)
    requires el > 0
  {
    forall i :: 0 <= i < |chunks| ==> IsWhole(|chunks[i]|, el)
  }

  /** Chunk sizes and content fix the chunks. */
  lemma {:induction false} ChunksUnique(a: Chunks, b: Chunks)
    requires SameSizes(a, b) && Flatten(a) == Flatten(b)
    ensures a == b
    decreases |a|
  {
    if a != [] {
      var n := |a| - 1;
      var x, y := Flatten(a[..n]), Flatten(b[..n]);
      assert |x| + |a[n]| == |y| + |b[n]|;
      assert Flatten(a)[..|x|] == x && Flatten(b)[..|y|] == y;
      assert Flatten(a)[|x|..] == a[n] && Flatten(b)[|y|..] == b[n];
      ChunksUnique(a[..n], b[..n]);
      assert a == a[..n] + [a[n]] && b == b[..n] + [b[n]];
    }
  }

  /** How many bytes lie before chunk `j`. */
  ghost function BytesBefore(chunks: Chunks, j: nat): nat
    requires j <= |chunks|
  {
    if j == 0 then 0 else BytesBefore(chunks, j - 1) + |chunks[j - 1]|
  }

  lemma {:induction false} BytesBeforeIs(chunks: Chunks, j: nat)
    requires j <= |chunks|
    ensures BytesBefore(chunks, j) == |Flatten(chunks[..j])|
    decreases j
  {
    if j > 0 {
      BytesBeforeIs(chunks, j - 1);
      NextChunk(chunks, j - 1);
    }
  }

  /** A cursor: it stands `off` bytes into chunk `j`, behind `pos` bytes in all. */
  ghost predicate At(chunks: Chunks, j: nat, off: nat, pos: nat) {
    && j <= |chunks| && (if j == |chunks| then off == 0 else off <= |chunks[j]|)
    && pos == BytesBefore(chunks, j) + off
  }

  /** The cursor moves to the next chunk when this one is through. */
  lemma NextChunk(chunks: Chunks, j: nat)
    requires j < |chunks|
    ensures Flatten(chunks[..j + 1]) == Flatten(chunks[..j]) + chunks[j]
  {
    FlattenAppend(chunks[..j], chunks[j]);
    assert chunks[..j + 1] == chunks[..j] + [chunks[j]];
  }

  lemma {:induction false} PrefixOfAll(chunks: Chunks, j: nat)
    requires j <= |chunks|
    ensures Flatten(chunks[..j]) <= Flatten(chunks)
    decreases |chunks| - j
  {
    if j == |chunks| {
      assert chunks[..j] == chunks;
    } else {
      NextChunk(chunks, j);
      PrefixOfAll(chunks, j + 1);
    }
  }

  /** Before the end of all bytes the cursor is in some chunk. */
  lemma CursorInside(chunks: Chunks, j: nat, off: nat, pos: nat)
    requires At(chunks, j, off, pos) && pos < |Flatten(chunks)|
    ensures j < |chunks|
  {
    BytesBeforeIs(chunks, j);
    assert chunks[..|chunks|] == chunks;
  }

  /** The bytes up to the cursor. */
  lemma UpToCursor(chunks: Chunks, j: nat, off: nat, pos: nat)
    requires At(chunks, j, off, pos) && j < |chunks|
    ensures pos <= |Flatten(chunks)| && Flatten(chunks)[..pos] == Flatten(chunks[..j]) + chunks[j][..off]
  {
    BytesBeforeIs(chunks, j);
    NextChunk(chunks, j);
    PrefixOfAll(chunks, j + 1);
    var through := Flatten(chunks[..j + 1]);
    assert Flatten(chunks)[..pos] == through[..pos];
    assert through[..pos] == Flatten(chunks[..j]) + chunks[j][..off];
  }

  /** The bytes behind the cursor in its chunk are the bytes behind its position. */
  lemma BytesAhead(chunks: Chunks, j: nat, off: nat, pos: nat, n: nat)
    requires At(chunks, j, off, pos) && j < |chunks| && off + n <= |chunks[j]|
    ensures pos + n <= |Flatten(chunks)| && Flatten(chunks)[pos..pos + n] == chunks[j][off..off + n]
  {
    BytesBeforeIs(chunks, j);
    NextChunk(chunks, j);
    PrefixOfAll(chunks, j + 1);
    var front, all := Flatten(chunks[..j]), Flatten(chunks);
    assert all[|front|..|front| + |chunks[j]|] == chunks[j];
    assert all[pos..pos + n] == all[|front|..|front| + |chunks[j]|][off..off + n];
  }

  /** When all bytes are through, only empty chunks are left. */
  lemma RestIsEmpty(chunks: Chunks, j: nat, off: nat, pos: nat, i: nat)
    requires At(chunks, j, off, pos) && pos == |Flatten(chunks)| && j <= i < |chunks|
    ensures i > j ==> chunks[i] == []
    ensures i == j ==> off == |chunks[j]|
  {
    BytesBeforeIs(chunks, j);
    NextChunk(chunks, j);
    PrefixOfAll(chunks, j + 1);
    if i > j {
      NextChunk(chunks, i);
      PrefixOfAll(chunks, i + 1);
      LongerPrefix(chunks, j + 1, i);
    }
  }

  lemma {:induction false} LongerPrefix(chunks: Chunks, i: nat, j: nat)
    requires i <= j <= |chunks|
    ensures |Flatten(chunks[..i])| <= |Flatten(chunks[..j])|
    decreases j
  {
    if i < j {
      LongerPrefix(chunks, i, j - 1);
      NextChunk(chunks, j - 1);
    }
  }

  // ---------------------------------------------------------------------------------------
  // Copying
  // ---------------------------------------------------------------------------------------

  /** Writing into chunk `j` from `off` on. */
  function Overwritten(chunk: seq<Byte>, off: nat, bytes: seq<Byte>): (r: seq<Byte>)
    requires off + |bytes| <= |chunk|
    ensures |r| == |chunk|
  {
    chunk[..off] + bytes + chunk[off + |bytes|..]
  }

  /** The cursor behind a write. */
  lemma CursorAfterWrite(before: Chunks, after: Chunks, j: nat, off: nat, pos: nat, n: nat)
    requires At(before, j, off, pos) && j < |before| && off + n <= |before[j]| && SameSizes(after, before)
    requires after[..j] == before[..j]
    ensures At(after, j, off + n, pos + n)
  {
    BytesBeforeIs(before, j);
    BytesBeforeIs(after, j);
  }

  /** Behind a write at the cursor, the bytes up to the new position are the old ones and the written ones. */
  lemma WriteAtCursor(before: Chunks, after: Chunks, j: nat, off: nat, pos: nat, bytes: seq<Byte>)
    requires At(before, j, off, pos) && j < |before| && off + |bytes| <= |before[j]|
    requires after == before[j := Overwritten(before[j], off, bytes)]
    ensures SameSizes(after, before) && At(after, j, off + |bytes|, pos + |bytes|)
    ensures |Flatten(after)| == |Flatten(before)| >= pos + |bytes|
    ensures Flatten(after)[..pos + |bytes|] == Flatten(before)[..pos] + bytes
  {
    var n := |bytes|;
    CursorAfterWrite(before, after, j, off, pos, n);
    SameTotal(after, before);
    UpToCursor(before, j, off, pos);
    UpToCursor(after, j, off + n, pos + n);
    assert after[j][..off + n] == before[j][..off] + bytes;
    WriteExtends(Flatten(before[..j]), before[j][..off], bytes);
  }

  lemma WriteExtends(front: seq<Byte>, part: seq<Byte>, bytes: seq<Byte>)
    ensures front + (part + bytes) == (front + part) + bytes
  {
  }

  lemma {:induction false} SameTotal(a: Chunks, b: Chunks)
    requires SameSizes(a, b)
    ensures |Flatten(a)| == |Flatten(b)|
    decreases |a|
  {
    if a != [] {
      SameTotal(a[..|a| - 1], b[..|b| - 1]);
    }
  }

  method Min(a: nat, b: nat) returns (m: nat)
    ensures m == if a <= b then a else b
  {
    m := if a <= b then a else b;
  }

  /** Counting whole elements loses nothing. */
  lemma {:induction false} WholeCount(n: nat, el: nat)
    requires el > 0 && IsWhole(n, el)
    ensures n / el * el == n
    decreases n
  {
    if n > 0 {
      WholeCount(n - el, el);
      CountOneMore(n - el, el);
    }
  }

  lemma CountOneMore(n: nat, el: nat)
    requires el > 0 && n / el * el == n
    ensures (n + el) / el * el == n + el
  {
    var q, q' := n / el, (n + el) / el;
    assert (q + 1) * el == n + el;
    assert n + el == q' * el + (n + el) % el;
    assert (q + 1 - q') * el == (n + el) % el;
    if q + 1 - q' >= 1 {
      TimesAtLeast(el, q + 1 - q');
    } else if q + 1 - q' <= -1 {
      TimesAtLeast(el, q' - q - 1);
    }
  }

  lemma TimesAtLeast(n: nat, d: int)
    requires d >= 1
    ensures d * n >= n
  {
    assert d * n == n + (d - 1) * n;
  }

  lemma {:induction false} WholeSum(a: nat, b: nat, el: nat)
    requires el > 0 && IsWhole(a, el) && IsWhole(b, el)
    ensures IsWhole(a + b, el)
    decreases a
  {
    if a > 0 {
      WholeSum(a - el, b, el);
    }
  }

  lemma {:induction false} WholeDifference(a: nat, b: nat, el: nat)
    requires el > 0 && IsWhole(a, el) && IsWhole(b, el) && b <= a
    ensures IsWhole(a - b, el)
    decreases a
  {
    if b > 0 {
      WholeDifference(a - el, b - el, el);
    }
  }

  /** `pos` bytes are across. */
  ghost predicate Copied(src: Chunks, dst: Chunks, sizes: Chunks, el: nat, srcJ: nat, srcOff: nat, dstI: nat,
                         dstOff: nat, pos: nat)
    requires el > 0
  {
    && SameSizes(dst, sizes) && |Flatten(dst)| == |Flatten(src)|
    && At(src, srcJ, srcOff, pos) && At(dst, dstI, dstOff, pos)
    && IsWhole(srcOff, el) && IsWhole(dstOff, el)
    && SameUpTo(Flatten(dst), Flatten(src), pos)
  }

  ghost predicate SameUpTo(a: seq<Byte>, b: seq<Byte>, n: nat) {
    n <= |a| && n <= |b| && a[..n] == b[..n]
  }

  /** A cursor stands at the end of its chunk only if the chunk is empty. */
  ghost predicate Settled(chunks: Chunks, j: nat, off: nat) {
    j < |chunks| && off > 0 ==> off < |chunks[j]|
  }

  /** The state between two copies. */
  ghost predicate Copying(src: Chunks, dst: Chunks, sizes: Chunks, el: nat, srcJ: nat, srcOff: nat, dstI: nat,
                          dstOff: nat, pos: nat)
    requires el > 0
  {
    Copied(src, dst, sizes, el, srcJ, srcOff, dstI, dstOff, pos) && Settled(src, srcJ, srcOff) &&
      Settled(dst, dstI, dstOff)
  }

  lemma CursorsMoved(src: Chunks, dst: Chunks, sizes: Chunks, el: nat, srcJ: nat, srcOff: nat, dstI: nat, dstOff: nat,
                     pos: nat, srcJ': nat, srcOff': nat, dstI': nat, dstOff': nat)
    requires el > 0 && Copied(src, dst, sizes, el, srcJ, srcOff, dstI, dstOff, pos)
    requires At(src, srcJ', srcOff', pos) && IsWhole(srcOff', el) && Settled(src, srcJ', srcOff')
    requires At(dst, dstI', dstOff', pos) && IsWhole(dstOff', el) && Settled(dst, dstI', dstOff')
    ensures Copying(src, dst, sizes, el, srcJ', srcOff', dstI', dstOff', pos)
  {
  }

  /** One copy between the chunks at the cursors, as much as both have room for. */
  lemma CopyStep(src: Chunks, dst: Chunks, sizes: Chunks, el: nat, srcJ: nat, srcOff: nat, dstI: nat, dstOff: nat,
                 pos: nat, n: nat, after: Chunks)
    requires el > 0 && Copying(src, dst, sizes, el, srcJ, srcOff, dstI, dstOff, pos) && pos < |Flatten(src)|
    requires srcJ < |src| && dstI < |dst| && srcOff + n <= |src[srcJ]| && dstOff + n <= |dst[dstI]|
    requires n == |src[srcJ]| - srcOff || n == |dst[dstI]| - dstOff
    requires after == dst[dstI := Overwritten(dst[dstI], dstOff, src[srcJ][srcOff..srcOff + n])]
    requires IsWhole(srcOff + n, el) && IsWhole(dstOff + n, el)
    ensures Copied(src, after, sizes, el, srcJ, srcOff + n, dstI, dstOff + n, pos + n)
  {
    BytesAhead(src, srcJ, srcOff, pos, n);
    WriteAtCursor(dst, after, dstI, dstOff, pos, src[srcJ][srcOff..srcOff + n]);
    assert Flatten(src)[..pos + n] == Flatten(src)[..pos] + Flatten(src)[pos..pos + n];
  }

  lemma LeaveChunk(chunks: Chunks, j: nat, pos: nat)
    requires j < |chunks| && At(chunks, j, |chunks[j]|, pos)
    ensures At(chunks, j + 1, 0, pos)
  {
  }

  /** All bytes are across: what is left on both sides is empty. */
  lemma CopyEnds(src: Chunks, dst: Chunks, sizes: Chunks, el: nat, srcJ: nat, srcOff: nat, dstI: nat, dstOff: nat,
                 pos: nat)
    requires el > 0 && Copying(src, dst, sizes, el, srcJ, srcOff, dstI, dstOff, pos) && pos == |Flatten(src)|
    ensures Flatten(dst) == Flatten(src)
    ensures forall i :: srcJ <= i < |src| ==> src[i] == []
    ensures forall i :: dstI <= i < |dst| ==> dst[i] == []
  {
    assert Flatten(dst)[..pos] == Flatten(dst) && Flatten(src)[..pos] == Flatten(src);
    forall i | srcJ <= i < |src|
      ensures src[i] == []
    {
      RestIsEmpty(src, srcJ, srcOff, pos, i);
    }
    forall i | dstI <= i < |dst|
      ensures dst[i] == []
    {
      RestIsEmpty(dst, dstI, dstOff, pos, i);
    }
  }

  method Total(chunks: Chunks) returns (total: nat)
    ensures total == |Flatten(chunks)|
  {
    total := 0;
    for i := 0 to |chunks|
      invariant total == |Flatten(chunks[..i])|
    {
      NextChunk(chunks, i);
      total := total + |chunks[i]|;
    }
    assert chunks[..|chunks|] == chunks;
  }

  /** One copy, counted in elements: as much as both chunks have room for. */
  method CopyOnce(src: Chunks, ghost dst: Chunks, dstChunk: seq<Byte>, ghost sizes: Chunks, el: nat,
                  pos: nat, srcBase: nat, srcJ: nat, dstBase: nat, dstI: nat)
    returns (chunk: seq<Byte>, pos': nat)
    requires el > 0 && Whole(src, el) && Whole(sizes, el) && srcBase <= pos && dstBase <= pos
    requires Copying(src, dst, sizes, el, srcJ, pos - srcBase, dstI, pos - dstBase, pos) && pos < |Flatten(src)|
    requires srcJ < |src| && dstI < |dst| && dst[dstI] == dstChunk
    ensures pos <= pos' && pos' - srcBase <= |src[srcJ]| && pos' - dstBase <= |dstChunk| == |chunk|
    ensures pos' - srcBase == |src[srcJ]| || pos' - dstBase == |dstChunk|
    ensures Copied(src, dst[dstI := chunk], sizes, el, srcJ, pos' - srcBase, dstI, pos' - dstBase, pos')
  {
    assert |dstChunk| == |sizes[dstI]|;
    var srcOff, dstOff := pos - srcBase, pos - dstBase;
    var n := Min(|src[srcJ]| - srcOff, |dstChunk| - dstOff);
    WholeDifference(|src[srcJ]|, srcOff, el);
    WholeDifference(|dstChunk|, dstOff, el);
    WholeCount(n, el);
    WholeSum(srcOff, n, el);
    WholeSum(dstOff, n, el);
    var nEl := n / el;
    chunk := Overwritten(dstChunk, dstOff, src[srcJ][srcOff..srcOff + nEl * el]);
    CopyStep(src, dst, sizes, el, srcJ, srcOff, dstI, dstOff, pos, n, dst[dstI := chunk]);
    pos' := pos + n;
  }

  lemma StartCopying(src: Chunks, dst: Chunks, el: nat)
    requires el > 0 && |Flatten(src)| == |Flatten(dst)|
    ensures Copying(src, dst, dst, el, 0, 0, 0, 0, 0)
  {
  }

  /** One copy, and the cursors that follow it. */
  method CopyNext(src: Chunks, ghost dst: Chunks, dstChunk: seq<Byte>, ghost sizes: Chunks, el: nat,
                  srcPos: nat, srcBase: nat, srcJ: nat, dstPos: nat, dstBase: nat, dstI: nat)
    returns (chunk: seq<Byte>, srcPos': nat, srcBase': nat, srcJ': nat, dstPos': nat, dstBase': nat, dstI': nat)
    requires el > 0 && Whole(src, el) && Whole(sizes, el) && srcPos == dstPos && srcBase <= srcPos && dstBase <= dstPos
    requires Copying(src, dst, sizes, el, srcJ, srcPos - srcBase, dstI, dstPos - dstBase, srcPos) &&
      srcPos < |Flatten(src)|
    requires srcJ < |src| && dstI < |dst| && dst[dstI] == dstChunk
    ensures srcPos' == dstPos' && srcBase' <= srcPos' && dstBase' <= dstPos'
    ensures Copying(src, dst[dstI := chunk], sizes, el, srcJ', srcPos' - srcBase', dstI', dstPos' - dstBase', srcPos')
    ensures srcJ <= srcJ' <= |src| && dstI <= dstI' <= |dst| && srcJ + dstI < srcJ' + dstI'
  {
    chunk, srcPos' := CopyOnce(src, dst, dstChunk, sizes, el, srcPos, srcBase, srcJ, dstBase, dstI);
    dstPos' := srcPos';
    srcBase', srcJ', dstBase', dstI' :=
      FollowCursors(src, dst[dstI := chunk], |src[srcJ]|, |chunk|, sizes, el, srcPos', srcBase, srcJ, dstBase, dstI);
  }

  /** Both cursors follow a copy. */
  method FollowCursors(ghost src: Chunks, ghost dst: Chunks, srcSize: nat, dstSize: nat, ghost sizes: Chunks,
                       ghost el: nat, pos: nat, srcBase: nat, srcJ: nat, dstBase: nat, dstI: nat)
    returns (srcBase': nat, srcJ': nat, dstBase': nat, dstI': nat)
    requires el > 0 && srcBase <= pos && dstBase <= pos && srcJ < |src| && dstI < |dst|
    requires srcSize == |src[srcJ]| && dstSize == |dst[dstI]| && (pos - srcBase == srcSize || pos - dstBase == dstSize)
    requires Copied(src, dst, sizes, el, srcJ, pos - srcBase, dstI, pos - dstBase, pos)
    ensures srcBase' <= pos && dstBase' <= pos
    ensures Copying(src, dst, sizes, el, srcJ', pos - srcBase', dstI', pos - dstBase', pos)
    ensures srcJ <= srcJ' <= |src| && dstI <= dstI' <= |dst| && srcJ + dstI < srcJ' + dstI'
  {
    srcBase', srcJ' := FollowCursor(src, srcSize, el, pos, srcBase, srcJ);
    dstBase', dstI' := FollowCursor(dst, dstSize, el, pos, dstBase, dstI);
    CursorsMoved(src, dst, sizes, el, srcJ, pos - srcBase, dstI, pos - dstBase, pos, srcJ', pos - srcBase', dstI',
      pos - dstBase');
  }

  /** A chunk that is through is left behind. */
  method FollowCursor(ghost chunks: Chunks, size: nat, ghost el: nat, pos: nat, base: nat, j: nat)
    returns (base': nat, j': nat)
    requires el > 0 && j < |chunks| && size == |chunks[j]| && base <= pos && At(chunks, j, pos - base, pos) &&
      IsWhole(pos - base, el)
    ensures base' <= pos && j' <= |chunks| && At(chunks, j', pos - base', pos) && IsWhole(pos - base', el)
    ensures j' == if pos - base == size then j + 1 else j
    ensures Settled(chunks, j', pos - base')
  {
    base', j' := base, j;
    if pos - base == size {
      LeaveChunk(chunks, j, pos);
      base' := pos;
      j' := j + 1;
    }
  }

  /**
    Copies with two cursors. The loop never leaves the lists, makes at most as many copies as there
    are chunks on both sides, and leaves in the destination exactly the bytes of the source; chunks
    it has not come to are empty.
    */
  method CopyAcross(src: Chunks, dst: array<seq<Byte>>, el: nat)
    returns (copies: nat, srcJ: nat, dstI: nat)
    requires el > 0 && Whole(src, el) && Whole(dst[..], el) && |Flatten(src)| == |Flatten(dst[..])|
    modifies dst
    ensures SameSizes(dst[..], old(dst[..])) && Flatten(dst[..]) == Flatten(src)
    ensures copies <= |src| + dst.Length && srcJ <= |src| && dstI <= dst.Length
    ensures forall i :: srcJ <= i < |src| ==> src[i] == []
    ensures forall i :: dstI <= i < dst.Length ==> dst[i] == []
  {
    var total := Total(src);
    ghost var sizes := dst[..];
    var srcPos, dstPos, srcBase, dstBase := 0, 0, 0, 0;
    copies, srcJ, dstI := 0, 0, 0;
    StartCopying(src, sizes, el);
    while srcPos < total
      invariant srcPos == dstPos && srcBase <= srcPos && dstBase <= dstPos
      invariant Copying(src, dst[..], sizes, el, srcJ, srcPos - srcBase, dstI, dstPos - dstBase, srcPos)
      invariant copies <= srcJ + dstI && srcJ <= |src| && dstI <= dst.Length
      decreases |src| - srcJ + (dst.Length - dstI)
    {
      CursorInside(src, srcJ, srcPos - srcBase, srcPos);
      CursorInside(dst[..], dstI, dstPos - dstBase, dstPos);
      ghost var before := dst[..];
      var at, chunk := dstI, [];
      chunk, srcPos, srcBase, srcJ, dstPos, dstBase, dstI :=
        CopyNext(src, before, dst[at], sizes, el, srcPos, srcBase, srcJ, dstPos, dstBase, dstI);
      dst[at] := chunk;
      assert dst[..] == before[at := chunk];
      copies := copies + 1;
    }
    CopyEnds(src, dst[..], sizes, el, srcJ, srcPos - srcBase, dstI, dstPos - dstBase, srcPos);
  }

  // ---------------------------------------------------------------------------------------
  // The whole transfer
  // ---------------------------------------------------------------------------------------

  method IsSameChunking(src: Chunks, dst: array<seq<Byte>>) returns (same: bool)
    ensures same <==> SameSizes(src, dst[..])
  {
    if |src| != dst.Length {
      return false;
    }
    for i := 0 to |src|
      invariant forall k :: 0 <= k < i ==> |src[k]| == |dst[k]|
    {
      if |src[i]| != |dst[i]| {
        return false;
      }
    }
    return true;
  }

  method CopyByIndex(src: Chunks, dst: array<seq<Byte>>)
    requires SameSizes(src, dst[..])
    modifies dst
    ensures dst[..] == src
  {
    for i := 0 to |src|
      invariant dst[..i] == src[..i]
    {
      dst[i] := src[i];
    }
  }

  /**
    The transfer of one buffer. Totals that differ are refused; otherwise the destination has the
    sizes it had and the bytes of the source, by whichever way they were copied.
    */
  method ReadBack(src: Chunks, dst: array<seq<Byte>>, el: nat) returns (ok: bool)
    requires el > 0 && Whole(src, el) && Whole(dst[..], el)
    modifies dst
    ensures ok <==> |Flatten(src)| == |Flatten(old(dst[..]))|
    ensures !ok ==> dst[..] == old(dst[..])
    ensures ok ==> SameSizes(dst[..], old(dst[..])) && Flatten(dst[..]) == Flatten(src)
  {
    var srcTotal := Total(src);
    var dstTotal := Total(dst[..]);
    if srcTotal != dstTotal {
      return false;
    }
    var same := IsSameChunking(src, dst);
    if same {
      CopyByIndex(src, dst);
    } else {
      var copies, srcJ, dstI := CopyAcross(src, dst, el);
    }
    ok := true;
  }

  /** Copying chunk by chunk, where that is possible, is no different from copying with cursors. */
  lemma ShortcutAgrees(src: Chunks, before: Chunks, after: Chunks)
    requires SameSizes(src, before) && SameSizes(after, before) && Flatten(after) == Flatten(src)
    ensures after == src
  {
    ChunksUnique(after, src);
  }
}
