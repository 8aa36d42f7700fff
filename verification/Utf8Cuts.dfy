/**
  When cutting bytes into pieces changes what they decode to: exactly if they are not well
  structured, unless they only consist of continuation bytes.
  */
module Utf8Cuts {
  import opened Collections
  import opened Utf8

  predicate IsContinuationByte(b: Byte) {
    b / 64 == 2
  }

  /** A first byte that starts a sequence, or a continuation byte where `n` of them are missing. */
  predicate Fits(b: Byte, n: nat) {
    if n > 0 then IsContinuationByte(b) else LengthOf(b) > 0
  }

  /** How many continuation bytes are missing behind `b`. */
  function MissingAfter(b: Byte, n: nat): nat
    requires Fits(b, n)
  {
    if n > 0 then n - 1 else LengthOf(b) - 1
  }

  /** Every byte fits; the last sequence may be cut off. `n` continuation bytes are missing at first. */
  predicate Sound(src: seq<Byte>, n: nat) {
    src == [] || (Fits(src[0], n) && Sound(src[1..], MissingAfter(src[0], n)))
  }

  predicate OnlyContinuation(src: seq<Byte>) {
    forall i :: 0 <= i < |src| ==> IsContinuationByte(src[i])
  }

  /** The decoder as a machine that takes one byte at a time. */
  function Feed(src: seq<Byte>, before: seq<nat>, value: nat, n: nat): Decoded
    decreases |src|
  {
    if src == [] || !Fits(src[0], n) then Decoded(before, PartialUtf8(value, n))
    else
      var missing := MissingAfter(src[0], n);
      var value' := if n > 0 then ShiftIn(value, src[0]) else LeadValue(src[0], missing);
      Feed(src[1..], if missing == 0 then before + [value'] else before, value', missing)
  }

  // ---------------------------------------------------------------------------------------
  // Sound bytes
  // ---------------------------------------------------------------------------------------

  /** The bytes that complete a sequence: the loops take as many as are missing, or all there are. */
  lemma {:induction false} CollectIsFeed(src: seq<Byte>, before: seq<nat>, value: nat, n: nat)
    requires Sound(src, n) && 0 !in src && n > 0
    ensures var t := Collect(src, value, n);
      && 0 <= t.n && (t.n > 0 ==> t.rest == []) && Sound(t.rest, t.n) && 0 !in t.rest && Resume(src, value, n) == t
      && Feed(src, before, value, n) == Feed(t.rest, if t.n == 0 then before + [t.value] else before, t.value, t.n)
    decreases |src|
  {
    if src != [] {
      var value' := ShiftIn(value, src[0]);
      if n > 1 {
        CollectIsFeed(src[1..], before, value', n - 1);
      } else {
        assert Collect(src[1..], value', 0) == Tail(src[1..], value', 0);
      }
    }
  }

  lemma {:induction false} CharsAreFed(src: seq<Byte>, before: seq<nat>, value: nat)
    requires Sound(src, 0) && 0 !in src
    ensures var f := Feed(src, before, value, 0);
      DecodeChars(src, before, value, 0) == Decoded(f.codePoints + [0], f.partial)
    decreases |src|
  {
    if src != [] {
      var more := LengthOf(src[0]) - 1;
      var lead := LeadValue(src[0], more);
      if more == 0 {
        assert Collect(src[1..], lead, 0) == Tail(src[1..], lead, 0);
        CharsAreFed(src[1..], before + [lead], lead);
      } else {
        CollectIsFeed(src[1..], before, lead, more);
        var t := Collect(src[1..], lead, more);
        if t.n == 0 {
          CharsAreFed(t.rest, before + [t.value], t.value);
        }
      }
    }
  }

  /** One piece of sound bytes. */
  lemma PieceIsFed(src: seq<Byte>, p: PartialUtf8)
    requires p.nRemain >= 0 && Sound(src, p.nRemain) && 0 !in src
    ensures var f := Feed(src, [], p.value, p.nRemain);
      Decode(src, p) == Decoded(f.codePoints + [0], f.partial) && f.partial.nRemain >= 0
  {
    var none: seq<nat> := [];
    if p.nRemain == 0 {
      assert Resume(src, p.value, 0) == Tail(src, p.value, 0);
      CharsAreFed(src, none, p.value);
    } else {
      CollectIsFeed(src, none, p.value, p.nRemain);
      var t := Collect(src, p.value, p.nRemain);
      if t.n == 0 {
        assert none + [t.value] == [t.value];
        CharsAreFed(t.rest, [t.value], t.value);
      } else {
        assert DecodeChars(t.rest, none, t.value, t.n) == Decoded(none + [0], PartialUtf8(t.value, t.n));
      }
    }
    FedMissing(src, [], p.value, p.nRemain);
  }

  lemma {:induction false} FedMissing(src: seq<Byte>, before: seq<nat>, value: nat, n: nat)
    ensures Feed(src, before, value, n).partial.nRemain >= 0 && before <= Feed(src, before, value, n).codePoints
    decreases |src|
  {
    if src != [] && Fits(src[0], n) {
      var missing := MissingAfter(src[0], n);
      var value' := if n > 0 then ShiftIn(value, src[0]) else LeadValue(src[0], missing);
      FedMissing(src[1..], if missing == 0 then before + [value'] else before, value', missing);
    }
  }

  /** Code points that were there before stay in front. */
  lemma {:induction false} FeedBefore(src: seq<Byte>, a: seq<nat>, b: seq<nat>, value: nat, n: nat)
    ensures Feed(src, a + b, value, n).codePoints == a + Feed(src, b, value, n).codePoints
    ensures Feed(src, a + b, value, n).partial == Feed(src, b, value, n).partial
    decreases |src|
  {
    if src != [] && Fits(src[0], n) {
      var missing := MissingAfter(src[0], n);
      var value' := if n > 0 then ShiftIn(value, src[0]) else LeadValue(src[0], missing);
      if missing == 0 {
        assert a + b + [value'] == a + (b + [value']);
        FeedBefore(src[1..], a, b + [value'], value', missing);
      } else {
        FeedBefore(src[1..], a, b, value', missing);
      }
    }
  }

  /** Feeding goes on where it stopped. */
  lemma {:induction false} FeedJoin(a: seq<Byte>, b: seq<Byte>, before: seq<nat>, value: nat, n: nat)
    requires Sound(a, n)
    ensures var f := Feed(a, before, value, n);
      && f.partial.nRemain >= 0
      && Feed(a + b, before, value, n) == Feed(b, f.codePoints, f.partial.value, f.partial.nRemain)
    ensures Sound(a + b, n) <==> Sound(b, Feed(a, before, value, n).partial.nRemain)
    decreases |a|
  {
    if a == [] {
      assert a + b == b;
    } else {
      assert (a + b)[1..] == a[1..] + b;
      var missing := MissingAfter(a[0], n);
      var value' := if n > 0 then ShiftIn(value, a[0]) else LeadValue(a[0], missing);
      FeedJoin(a[1..], b, if missing == 0 then before + [value'] else before, value', missing);
    }
  }

  lemma {:induction false} SoundPrefix(a: seq<Byte>, b: seq<Byte>, n: nat)
    requires Sound(a + b, n)
    ensures Sound(a, n)
    decreases |a|
  {
    if a != [] {
      assert (a + b)[1..] == a[1..] + b;
      SoundPrefix(a[1..], b, MissingAfter(a[0], n));
    }
  }

  /** Sound bytes, cut anywhere, are fed through byte by byte. */
  lemma {:induction false} PiecesAreFed(pieces: seq<seq<Byte>>, p: PartialUtf8)
    requires p.nRemain >= 0 && Sound(Flatten(pieces), p.nRemain) && 0 !in Flatten(pieces)
    ensures DecodePieces(pieces, p) == Feed(Flatten(pieces), [], p.value, p.nRemain)
    decreases |pieces|
  {
    if pieces != [] {
      FlattenFront(pieces);
      var a, b := pieces[0], Flatten(pieces[1..]);
      SoundPrefix(a, b, p.nRemain);
      PieceIsFed(a, p);
      FeedJoin(a, b, [], p.value, p.nRemain);
      var f := Feed(a, [], p.value, p.nRemain);
      assert Decode(a, p).codePoints[..|f.codePoints|] == f.codePoints;
      assert forall x :: x in b ==> x in a + b;
      PiecesAreFed(pieces[1..], f.partial);
      FeedBefore(b, f.codePoints, [], f.partial.value, f.partial.nRemain);
      assert f.codePoints + [] == f.codePoints;
    }
  }

  // ---------------------------------------------------------------------------------------
  // Other bytes
  // ---------------------------------------------------------------------------------------

  const FRESH := PartialUtf8(0, 0)
  const FAILED := PartialUtf8(0, -1)

  lemma {:induction false} CollectKeepsCount(src: seq<Byte>, value: nat, n: nat)
    ensures var t := Collect(src, value, n); 0 <= t.n <= n && (t.n > 0 ==> AtEnd(t.rest))
    ensures var t := Collect(src, value, n); |src| - |t.rest| == n - t.n && t.rest == src[n - t.n..]
    decreases |src|
  {
    if !AtEnd(src) && n > 0 {
      CollectKeepsCount(src[1..], ShiftIn(value, src[0]), n - 1);
    }
  }

  /** A failed piece gives no code points at all. */
  lemma {:induction false} FailureIsSilent(src: seq<Byte>, before: seq<nat>, value: nat, n: nat)
    ensures var d := DecodeChars(src, before, value, n); d.partial.nRemain < 0 ==> d == Decoded([0], FAILED)
    decreases |src|
  {
    if !AtEnd(src) && LengthOf(src[0]) != 0 {
      var more := LengthOf(src[0]) - 1;
      var lead := LeadValue(src[0], more);
      var t := Collect(src[1..], lead, more);
      CollectKeepsCount(src[1..], lead, more);
      FailureIsSilent(t.rest, if t.n == 0 then before + [t.value] else before, t.value, t.n);
    }
  }

  /** A continuation byte where a sequence should start, behind sound bytes, fails the whole piece. */
  lemma {:induction false} LateFailure(a: seq<Byte>, b: seq<Byte>, before: seq<nat>, value: nat)
    requires Sound(a, 0) && 0 !in a && Feed(a, before, value, 0).partial.nRemain == 0
    requires b != [] && b[0] != 0 && LengthOf(b[0]) == 0
    ensures DecodeChars(a + b, before, value, 0) == Decoded([0], FAILED)
    decreases |a|
  {
    if a == [] {
      assert a + b == b;
    } else {
      var more := LengthOf(a[0]) - 1;
      var lead := LeadValue(a[0], more);
      assert (a + b)[1..] == a[1..] + b;
      if more == 0 {
        LateFailure(a[1..], b, before + [lead], lead);
      } else {
        CollectAcross(a[1..], b, before, lead, more);
        var t := Collect(a[1..], lead, more);
        LateFailure(t.rest, b, before + [t.value], t.value);
      }
    }
  }

  /** What completes a sequence does not look at the bytes behind it. */
  lemma {:induction false} CollectAcross(a: seq<Byte>, b: seq<Byte>, before: seq<nat>, value: nat, n: nat)
    requires Sound(a, n) && 0 !in a && n > 0 && Feed(a, before, value, n).partial.nRemain == 0
    ensures var t := Collect(a, value, n);
      && t.n == 0 && Sound(t.rest, 0) && 0 !in t.rest && |t.rest| < |a|
      && Feed(t.rest, before + [t.value], t.value, 0) == Feed(a, before, value, n)
      && Collect(a + b, value, n) == Tail(t.rest + b, t.value, 0)
    decreases |a|
  {
    assert a != [];
    assert (a + b)[1..] == a[1..] + b;
    var value' := ShiftIn(value, a[0]);
    if n > 1 {
      CollectAcross(a[1..], b, before, value', n - 1);
    } else {
      assert Collect(a[1..], value', 0) == Tail(a[1..], value', 0);
      assert Collect(a[1..] + b, value', 0) == Tail(a[1..] + b, value', 0);
    }
  }

  /** The longest sound front, and how many continuation bytes are missing behind it: the next byte does not fit. */
  lemma {:induction false} FirstFault(src: seq<Byte>, value: nat, n: nat) returns (i: nat, m: nat)
    requires !Sound(src, n)
    ensures i < |src| && Sound(src[..i], n) && m == Feed(src[..i], [], value, n).partial.nRemain && !Fits(src[i], m)
    decreases |src|
  {
    if !Fits(src[0], n) {
      i, m := 0, n;
    } else {
      var missing := MissingAfter(src[0], n);
      var value' := if n > 0 then ShiftIn(value, src[0]) else LeadValue(src[0], missing);
      i, m := FirstFault(src[1..], value', missing);
      assert src[..i + 1][1..] == src[1..][..i];
      var out: seq<nat> := if missing == 0 then [value'] else [];
      FeedBefore(src[1..][..i], out, [], value', missing);
      assert out + [] == out && (missing == 0 ==> [] + [value'] == out);
      i := i + 1;
    }
  }

  /** The bytes of one sequence: they give a code point, or some are missing at the end. */
  lemma OneSequence(src: seq<Byte>, value: nat, n: int)
    requires src != [] && 0 !in src && LengthOf(src[0]) > 0 && |src| <= LengthOf(src[0])
    ensures var d := DecodeChars(src, [], value, n);
      if |src| == LengthOf(src[0]) then |d.codePoints| == 2 else d.codePoints == [0] && d.partial.nRemain > 0
  {
    var more := LengthOf(src[0]) - 1;
    CollectKeepsCount(src[1..], LeadValue(src[0], more), more);
  }

  lemma OnePiece(src: seq<Byte>, p: PartialUtf8)
    ensures DecodePieces([src], p).partial == Decode(src, p).partial && Flatten([src]) == src
    ensures Decode(src, p).codePoints == [0] ==> DecodePieces([src], p).codePoints == []
  {
    assert [src][1..] == [];
    FlattenFront([src]);
  }

  lemma TwoPieces(a: seq<Byte>, b: seq<Byte>, p: PartialUtf8)
    ensures Flatten([a, b]) == a + b
    ensures var first, all := Decode(a, p), DecodePieces([a, b], p);
      && |all.codePoints| >= |first.codePoints| - 1
      && all.partial == Decode(b, first.partial).partial
  {
    assert [a, b] == [a] + [b] && [a, b][1..] == [b];
    OnePiece(b, Decode(a, p).partial);
    var none: seq<seq<Byte>> := [];
    FlattenAppend(none, a);
    FlattenAppend([a], b);
    assert [] + [a] == [a];
  }

  /** The pieces are those of `src`, and they decode like `src` as a whole. */
  ghost predicate CutAgrees(src: seq<Byte>, pieces: seq<seq<Byte>>) {
    Flatten(pieces) == src ==> DecodePieces(pieces, FRESH) == DecodePieces([src], FRESH)
  }

  lemma ContinuationPiece(a: seq<Byte>, p: PartialUtf8)
    requires OnlyContinuation(a) && (p == FRESH || p == FAILED)
    ensures Decode(a, p) == Decoded([0], if a == [] then p else FAILED)
  {
  }

  lemma ContinuationParts(a: seq<Byte>, b: seq<Byte>)
    requires OnlyContinuation(a + b)
    ensures OnlyContinuation(a) && OnlyContinuation(b)
  {
    assert forall i :: 0 <= i < |a| ==> a[i] == (a + b)[i];
    assert forall i :: 0 <= i < |b| ==> b[i] == (a + b)[|a| + i];
  }

  /** Nothing but continuation bytes: every piece fails. */
  lemma {:induction false} ContinuationFails(pieces: seq<seq<Byte>>, p: PartialUtf8)
    requires OnlyContinuation(Flatten(pieces)) && (p == FRESH || p == FAILED)
    ensures DecodePieces(pieces, p) == Decoded([], if Flatten(pieces) == [] then p else FAILED)
    decreases |pieces|
  {
    if pieces != [] {
      FlattenFront(pieces);
      var a, b := pieces[0], Flatten(pieces[1..]);
      ContinuationParts(a, b);
      ContinuationPiece(a, p);
      ContinuationFails(pieces[1..], if a == [] then p else FAILED);
      assert a + b == [] <==> a == [] && b == [];
    }
  }

  /** Bytes that are neither sound nor only continuation bytes can be cut so that something else comes out. */
  lemma BadCut(src: seq<Byte>) returns (pieces: seq<seq<Byte>>)
    requires 0 !in src && !Sound(src, 0) && !OnlyContinuation(src)
    ensures !CutAgrees(src, pieces)
  {
    OnePiece(src, FRESH);
    if LengthOf(src[0]) == 0 {
      pieces := CutBehindContinuation(src);
    } else if Decode(src, FRESH).partial.nRemain < 0 {
      pieces := CutBehindSequence(src);
    } else {
      pieces := CutInsideSequence(src);
    }
  }

  /** One sequence, in front of which nothing is missing. */
  lemma SequenceDecodes(src: seq<Byte>, p: PartialUtf8)
    requires src != [] && 0 !in src && LengthOf(src[0]) > 0 && |src| <= LengthOf(src[0]) && p.nRemain <= 0
    ensures var d := Decode(src, p);
      if |src| == LengthOf(src[0]) then |d.codePoints| == 2 else d.codePoints == [0] && d.partial.nRemain > 0
  {
    OneSequence(src, p.value, p.nRemain);
  }

  lemma FailedPiece(src: seq<Byte>)
    requires Decode(src, FRESH).partial.nRemain < 0
    ensures Decode(src, FRESH) == Decoded([0], FAILED) && DecodePieces([src], FRESH) == Decoded([], FAILED)
  {
    FailureIsSilent(src, [], 0, 0);
    OnePiece(src, FRESH);
  }

  lemma NothingMore(p: PartialUtf8)
    requires p.nRemain > 0
    ensures Decode([], p).partial == p
  {
  }

  /** A piece that fails as a whole gives nothing; so pieces that give something differ from it. */
  lemma DiffersFromFailure(src: seq<Byte>, pieces: seq<seq<Byte>>)
    requires Flatten(pieces) == src && Decode(src, FRESH).partial.nRemain < 0
    requires DecodePieces(pieces, FRESH).codePoints != [] || DecodePieces(pieces, FRESH).partial.nRemain > 0
    ensures !CutAgrees(src, pieces)
  {
    FailedPiece(src);
  }

  /** One sequence in a piece of its own gives a code point, or is carried over. */
  lemma SequenceApart(a: seq<Byte>, rest: seq<Byte>, p: PartialUtf8)
    requires a != [] && 0 !in a && LengthOf(a[0]) > 0 && |a| <= LengthOf(a[0]) && p.nRemain <= 0
    requires |a| == LengthOf(a[0]) || rest == []
    ensures var all := DecodePieces([a, rest], p); all.codePoints != [] || all.partial.nRemain > 0
  {
    SequenceDecodes(a, p);
    TwoPieces(a, rest, p);
    if |a| < LengthOf(a[0]) {
      NothingMore(Decode(a, p).partial);
    }
  }

  /** The leading continuation bytes make a piece fail, also one that goes on with a whole sequence. */
  lemma CutBehindContinuation(src: seq<Byte>) returns (pieces: seq<seq<Byte>>)
    requires 0 !in src && src != [] && LengthOf(src[0]) == 0 && !OnlyContinuation(src)
    ensures !CutAgrees(src, pieces)
  {
    var j: nat :| j < |src| && !IsContinuationByte(src[j]);
    var k := if j + LengthOf(src[j]) <= |src| then j + LengthOf(src[j]) else |src|;
    var a, mid, rest := src[..j], src[j..k], src[k..];
    pieces := [a] + [mid, rest];
    ThreeParts(src, j, k);
    SequenceApart(mid, rest, FAILED);
    FailedFirst(pieces);
    DiffersFromFailure(src, pieces);
  }

  lemma ThreeParts(src: seq<Byte>, j: nat, k: nat)
    requires j <= k <= |src|
    ensures var pieces := [src[..j]] + [src[j..k], src[k..]];
      Flatten(pieces) == src && pieces[0] == src[..j] && pieces[1..] == [src[j..k], src[k..]]
  {
    var pieces := [src[..j]] + [src[j..k], src[k..]];
    FlattenFront(pieces);
    TwoPieces(src[j..k], src[k..], FRESH);
    assert src == src[..j] + (src[j..k] + src[k..]);
  }

  lemma FailedFirst(pieces: seq<seq<Byte>>)
    requires pieces != [] && pieces[0] != [] && pieces[0][0] != 0 && LengthOf(pieces[0][0]) == 0
    ensures DecodePieces(pieces, FRESH) == DecodePieces(pieces[1..], FAILED)
  {
    assert Decode(pieces[0], FRESH) == Decoded([0], FAILED);
  }

  /** The first sequence alone gives a code point; the piece as a whole fails and gives none. */
  lemma CutBehindSequence(src: seq<Byte>) returns (pieces: seq<seq<Byte>>)
    requires 0 !in src && src != [] && LengthOf(src[0]) > 0 && Decode(src, FRESH).partial.nRemain < 0
    ensures !CutAgrees(src, pieces)
  {
    var k := if LengthOf(src[0]) <= |src| then LengthOf(src[0]) else |src|;
    pieces := [src[..k], src[k..]];
    SequenceApart(src[..k], src[k..], FRESH);
    TwoPieces(src[..k], src[k..], FRESH);
    assert src[..k] + src[k..] == src;
    DiffersFromFailure(src, pieces);
  }

  /** A byte that does not continue its sequence passes inside a piece and is refused at the start of one. */
  lemma CutInsideSequence(src: seq<Byte>) returns (pieces: seq<seq<Byte>>)
    requires 0 !in src && !Sound(src, 0) && Decode(src, FRESH).partial.nRemain >= 0
    ensures !CutAgrees(src, pieces)
  {
    var i, m := FirstFault(src, 0, 0);
    var a, rest := src[..i], src[i..];
    assert a + rest == src;
    pieces := [a, rest];
    OnePiece(src, FRESH);
    if m == 0 {
      LateFailure(a, rest, [], 0);
      assert false;
    }
    PieceIsFed(a, FRESH);
    TwoPieces(a, rest, FRESH);
    assert Resume(rest, Decode(a, FRESH).partial.value, m) == Broken;
  }

  lemma SoundCutAgrees(src: seq<Byte>, pieces: seq<seq<Byte>>)
    requires 0 !in src && Sound(src, 0)
    ensures CutAgrees(src, pieces)
  {
    if Flatten(pieces) == src {
      OnePiece(src, FRESH);
      PiecesAreFed(pieces, FRESH);
      PiecesAreFed([src], FRESH);
    }
  }

  lemma ContinuationCutAgrees(src: seq<Byte>, pieces: seq<seq<Byte>>)
    requires OnlyContinuation(src)
    ensures CutAgrees(src, pieces)
  {
    if Flatten(pieces) == src {
      OnePiece(src, FRESH);
      ContinuationFails(pieces, FRESH);
      ContinuationFails([src], FRESH);
    }
  }

  /**
    However the bytes are cut into pieces, they decode to the same, if and only if they are
    structured like UTF-8, possibly cut off at the end, or are nothing but continuation bytes.
    */
  lemma CutsAgreeIff(src: seq<Byte>)
    requires 0 !in src
    ensures (forall pieces :: CutAgrees(src, pieces)) <==> Sound(src, 0) || OnlyContinuation(src)
  {
    if Sound(src, 0) {
      forall pieces: seq<seq<Byte>>
        ensures CutAgrees(src, pieces)
      {
        SoundCutAgrees(src, pieces);
      }
    } else if OnlyContinuation(src) {
      forall pieces: seq<seq<Byte>>
        ensures CutAgrees(src, pieces)
      {
        ContinuationCutAgrees(src, pieces);
      }
    } else {
      var pieces := BadCut(src);
    }
  }
}
