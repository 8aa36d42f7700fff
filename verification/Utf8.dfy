/**
  Decoding of UTF-8 that arrives in pieces: an incomplete sequence at the end of one piece is
  carried over to the next. Encodings follow section 3 of RFC 3629.
  */
module Utf8 {
  import opened Collections

  type Byte = b: nat | b < 256

  /** Bits decoded so far and bytes still missing; -1 marks an invalid sequence. */
  datatype PartialUtf8 = PartialUtf8(value: nat, nRemain: int)

  /** A C string ends at its first NUL. */
  predicate AtEnd(src: seq<Byte>) {
    src == [] || src[0] == 0
  }

  /** Shifts in the six payload bits of a byte; the source computes in 32 bits. */
  function ShiftIn(value: nat, b: Byte): nat {
    (value * 64 + b % 64) % 0x1_0000_0000
  }

  /** Sequence length by the high four bits of the first byte; 0 marks a byte that cannot start one. */
  function LengthOf(first: Byte): nat {
    if first / 16 < 8 then 1
    else if first / 16 < 12 then 0
    else if first / 16 < 14 then 2
    else if first / 16 == 14 then 3
    else 4
  }

  /** The payload bits of a first byte that `n` more bytes follow. */
  function LeadValue(first: Byte, n: nat): nat
    requires n < 4
  {
    if n == 0 then first % 128 else if n == 1 then first % 64 else if n == 2 then first % 32 else first % 16
  }

  datatype Tail = Tail(rest: seq<Byte>, value: nat, n: int) | Broken

  /** Completes a carried-over sequence; only here continuation bytes are checked. */
  function Resume(src: seq<Byte>, value: nat, n: int): Tail {
    if AtEnd(src) || n <= 0 then Tail(src, value, n)
    else if src[0] / 64 != 2 then Broken
    else Resume(src[1..], ShiftIn(value, src[0]), n - 1)
  }

  /** Collects the bytes that follow a first byte. */
  function Collect(src: seq<Byte>, value: nat, n: int): (t: Tail)
    ensures t.Tail? && |t.rest| <= |src|
  {
    if AtEnd(src) || n <= 0 then Tail(src, value, n)
    else Collect(src[1..], ShiftIn(value, src[0]), n - 1)
  }

  datatype Decoded = Decoded(codePoints: seq<nat>, partial: PartialUtf8)

  /** Whole sequences from here on, and an incomplete one at the end. */
  function DecodeChars(src: seq<Byte>, before: seq<nat>, value: nat, n: int): Decoded
    decreases |src|
  {
    if AtEnd(src) then
      Decoded(before + [0], PartialUtf8(value, n))
    else if LengthOf(src[0]) == 0 then
      Decoded([0], PartialUtf8(0, -1))
    else
      var more := LengthOf(src[0]) - 1;
      var t := Collect(src[1..], LeadValue(src[0], more), more);
      DecodeChars(t.rest, if t.n == 0 then before + [t.value] else before, t.value, t.n)
  }

  function Decode(src: seq<Byte>, start: PartialUtf8): Decoded {
    match Resume(src, start.value, start.nRemain)
    case Broken => Decoded([0], PartialUtf8(0, -1))
    case Tail(rest, value, n) =>
      DecodeChars(rest, if start.nRemain > 0 && n == 0 then [value] else [], value, n)
  }

  method ResumeLoop(src: seq<Byte>, start: PartialUtf8) returns (ok: bool, pos: nat, value: nat, nRemain: int)
    ensures pos <= |src|
    ensures Resume(src, start.value, start.nRemain) == if ok then Tail(src[pos..], value, nRemain) else Broken
  {
    ok, pos, value, nRemain := true, 0, start.value, start.nRemain;
    assert src[0..] == src;
    while pos < |src| && src[pos] != 0 && nRemain > 0
      invariant pos <= |src|
      invariant Resume(src[pos..], value, nRemain) == Resume(src, start.value, start.nRemain)
    {
      if src[pos] / 64 != 2 {
        return false, pos, value, nRemain;
      }
      assert src[pos..][1..] == src[pos + 1..];
      value := ShiftIn(value, src[pos]);
      pos := pos + 1;
      nRemain := nRemain - 1;
    }
  }

  method CollectLoop(src: seq<Byte>, from: nat, lead: nat, more: int) returns (pos: nat, value: nat, nRemain: int)
    requires from <= |src|
    ensures from <= pos <= |src|
    ensures Collect(src[from..], lead, more) == Tail(src[pos..], value, nRemain)
  {
    pos, value, nRemain := from, lead, more;
    while pos < |src| && src[pos] != 0 && nRemain > 0
      invariant from <= pos <= |src|
      invariant Collect(src[pos..], value, nRemain) == Collect(src[from..], lead, more)
    {
      assert src[pos..][1..] == src[pos + 1..];
      value := ShiftIn(value, src[pos]);
      pos := pos + 1;
      nRemain := nRemain - 1;
    }
  }

  /** Decodes one piece. The result ends in a 0. */
  method DecodeUtf8(src: seq<Byte>, start: PartialUtf8) returns (codePoints: seq<nat>, partial: PartialUtf8)
    ensures Decoded(codePoints, partial) == Decode(src, start)
    ensures codePoints != [] && codePoints[|codePoints| - 1] == 0
  {
    var ok, pos, value, nRemain := ResumeLoop(src, start);
    if !ok {
      return [0], PartialUtf8(0, -1);
    }
    codePoints := [];
    if start.nRemain > 0 && nRemain == 0 {
      codePoints := [value];
    }
    while pos < |src| && src[pos] != 0
      invariant pos <= |src|
      invariant DecodeChars(src[pos..], codePoints, value, nRemain) == Decode(src, start)
      decreases |src| - pos
    {
      var first := src[pos];
      if LengthOf(first) == 0 {
        return [0], PartialUtf8(0, -1);
      }
      nRemain := LengthOf(first) - 1;
      assert src[pos..][1..] == src[pos + 1..];
      pos, value, nRemain := CollectLoop(src, pos + 1, LeadValue(first, nRemain), nRemain);
      if nRemain == 0 {
        codePoints := codePoints + [value];
      }
    }
    codePoints := codePoints + [0];
    partial := PartialUtf8(value, nRemain);
  }

  // ---------------------------------------------------------------------------------------
  // Encoding
  // ---------------------------------------------------------------------------------------

  /** The scalar values other than NUL. */
  predicate Scalar(c: nat) {
    0 < c < 0x11_0000 && !(0xD800 <= c < 0xE000)
  }

  function EncodedLength(c: nat): nat {
    if c < 0x80 then 1 else if c < 0x800 then 2 else if c < 0x1_0000 then 3 else 4
  }

  /** `c` without its last `m` groups of six bits. */
  function Shifted(c: nat, m: nat): nat {
    if m == 0 then c else if m == 1 then c / 64 else if m == 2 then c / 4096 else c / 262144
  }

  function EncodedByte(c: nat, i: nat): Byte
    requires c < 0x11_0000 && i < EncodedLength(c)
  {
    var n := EncodedLength(c);
    if i > 0 then 0x80 + Shifted(c, n - 1 - i) % 64
    else if n == 1 then c
    else if n == 2 then 0xC0 + c / 64
    else if n == 3 then 0xE0 + c / 4096
    else 0xF0 + c / 262144
  }

  function Encode(c: nat): (e: seq<Byte>)
    requires c < 0x11_0000
    ensures |e| == EncodedLength(c)
  {
    seq(EncodedLength(c), i requires 0 <= i < EncodedLength(c) => EncodedByte(c, i))
  }

  predicate AllScalar(cs: seq<nat>) {
    forall i :: 0 <= i < |cs| ==> Scalar(cs[i])
  }

  function EncodeAll(cs: seq<nat>): seq<Byte>
    requires AllScalar(cs)
  {
    if cs == [] then [] else Encode(cs[0]) + EncodeAll(cs[1..])
  }

  // ---------------------------------------------------------------------------------------
  // Decoding undoes encoding, however the bytes are cut into pieces
  // ---------------------------------------------------------------------------------------

  /** A place in an encoded text: `i` bytes of `c` are behind it, then `cs` follow. */
  datatype Cursor = Between(cs: seq<nat>) | Inside(c: nat, i: nat, cs: seq<nat>) {
    predicate Valid() {
      AllScalar(cs) && (Inside? ==> Scalar(c) && 0 < i < EncodedLength(c))
    }

    /** The bytes ahead. */
    function Ahead(): seq<Byte>
      requires Valid()
    {
      if Inside? then Encode(c)[i..] + EncodeAll(cs) else EncodeAll(cs)
    }

    /** The code points not yet delivered. */
    function Pending(): seq<nat> {
      if Inside? then [c] + cs else cs
    }

    /** The decoder state that belongs to the place. */
    predicate Matches(p: PartialUtf8)
      requires Valid()
    {
      if Inside? then p.nRemain == EncodedLength(c) - i && p.value == Shifted(c, EncodedLength(c) - i)
      else p.nRemain == 0
    }
  }

  lemma ShiftInNext(c: nat, i: nat)
    requires Scalar(c) && 0 < i < EncodedLength(c)
    ensures ShiftIn(Shifted(c, EncodedLength(c) - i), EncodedByte(c, i)) == Shifted(c, EncodedLength(c) - i - 1)
    ensures EncodedByte(c, i) / 64 == 2
  {
    var m := EncodedLength(c) - i;
    var low := Shifted(c, m - 1);
    assert Shifted(c, m) == low / 64;
    assert (0x80 + low % 64) % 64 == low % 64;
  }

  lemma LeadDecodes(c: nat)
    requires Scalar(c)
    ensures EncodedByte(c, 0) != 0 && LengthOf(EncodedByte(c, 0)) == EncodedLength(c)
    ensures LeadValue(EncodedByte(c, 0), EncodedLength(c) - 1) == Shifted(c, EncodedLength(c) - 1)
  {
  }

  /** Continuation bytes, complete or cut off, lead from one place inside a character to another. */
  lemma {:induction false} TailDecodes(c: nat, i: nat, j: nat, src: seq<Byte>, rest: seq<Byte>)
    requires Scalar(c) && 0 < i <= j <= EncodedLength(c) && (j == EncodedLength(c) || rest == [])
    requires src == Encode(c)[i..j] + rest
    ensures Collect(src, Shifted(c, EncodedLength(c) - i), EncodedLength(c) - i)
      == Tail(rest, Shifted(c, EncodedLength(c) - j), EncodedLength(c) - j)
    ensures Resume(src, Shifted(c, EncodedLength(c) - i), EncodedLength(c) - i)
      == Tail(rest, Shifted(c, EncodedLength(c) - j), EncodedLength(c) - j)
    decreases j - i
  {
    if i < j {
      ShiftInNext(c, i);
      assert src[0] == EncodedByte(c, i) && !AtEnd(src);
      TailDecodes(c, i + 1, j, src[1..], rest);
    } else {
      assert src == rest;
    }
  }

  /** A whole character is delivered. */
  lemma WholeDecodes(c: nat, src: seq<Byte>, rest: seq<Byte>, before: seq<nat>, value: nat)
    requires Scalar(c) && src == Encode(c) + rest
    ensures DecodeChars(src, before, value, 0) == DecodeChars(rest, before + [c], c, 0)
  {
    LeadDecodes(c);
    assert src[0] == EncodedByte(c, 0);
    assert src[1..] == Encode(c)[1..EncodedLength(c)] + rest;
    TailDecodes(c, 1, EncodedLength(c), src[1..], rest);
  }

  /** A character that is cut off is carried over. */
  lemma CutDecodes(c: nat, j: nat, src: seq<Byte>, before: seq<nat>, value: nat)
    requires Scalar(c) && 0 < j < EncodedLength(c) && src == Encode(c)[..j]
    ensures DecodeChars(src, before, value, 0)
      == Decoded(before + [0], PartialUtf8(Shifted(c, EncodedLength(c) - j), EncodedLength(c) - j))
  {
    LeadDecodes(c);
    assert src[0] == EncodedByte(c, 0);
    assert src[1..] == Encode(c)[1..j] + [];
    TailDecodes(c, 1, j, src[1..], []);
  }

  /** After `src` the place is `next`, and `out` lies between the two places. */
  predicate Delivers(cur: Cursor, src: seq<Byte>, out: seq<nat>, next: Cursor)
    requires cur.Valid()
  {
    next.Valid() && src + next.Ahead() == cur.Ahead() && out + next.Pending() == cur.Pending()
  }

  /** A prefix of two parts either contains the first part or stops inside it. */
  lemma PrefixOfTwo<T>(src: seq<T>, e: seq<T>, tail: seq<T>)
    requires src <= e + tail
    ensures |e| <= |src| ==> src == e + src[|e|..] && src[|e|..] <= tail
    ensures |src| <= |e| ==> src == e[..|src|] && src + (e[|src|..] + tail) == e + tail
  {
  }

  lemma Reassociate<T>(a: seq<T>, b: seq<T>, c: seq<T>, bc: seq<T>)
    requires b + c == bc
    ensures (a + b) + c == a + bc
  {
  }

  /** Decoding from a place between characters: some code points come out, the rest stays ahead. */
  lemma {:induction false} CharsDecode(cs: seq<nat>, src: seq<Byte>, before: seq<nat>, value: nat)
    returns (out: seq<nat>, next: Cursor)
    requires AllScalar(cs) && src <= EncodeAll(cs)
    ensures Delivers(Between(cs), src, out, next)
    ensures DecodeChars(src, before, value, 0).codePoints == before + out + [0]
    ensures next.Matches(DecodeChars(src, before, value, 0).partial)
    decreases |cs|
  {
    if src == [] {
      out, next := [], Between(cs);
      return;
    }
    var c, e := cs[0], Encode(cs[0]);
    PrefixOfTwo(src, e, EncodeAll(cs[1..]));
    if |e| <= |src| {
      var more;
      more, next := CharsDecode(cs[1..], src[|e|..], before + [c], c);
      out := [c] + more;
      WholeDelivers(cs, src, src[|e|..], before, value, more, next);
    } else {
      CutDelivers(cs, src, before, value);
      out, next := [], Inside(c, |src|, cs[1..]);
    }
  }

  /** The next character comes out, and then what the rest delivers. */
  lemma WholeDelivers(cs: seq<nat>, src: seq<Byte>, rest: seq<Byte>, before: seq<nat>, value: nat, more: seq<nat>,
                      next: Cursor)
    requires AllScalar(cs) && cs != [] && src == Encode(cs[0]) + rest && Delivers(Between(cs[1..]), rest, more, next)
    requires DecodeChars(rest, before + [cs[0]], cs[0], 0).codePoints == before + [cs[0]] + more + [0]
    ensures Delivers(Between(cs), src, [cs[0]] + more, next)
    ensures DecodeChars(src, before, value, 0) == DecodeChars(rest, before + [cs[0]], cs[0], 0)
    ensures DecodeChars(src, before, value, 0).codePoints == before + ([cs[0]] + more) + [0]
  {
    WholeDecodes(cs[0], src, rest, before, value);
    Reassociate(before, [cs[0]], more, [cs[0]] + more);
    Reassociate(Encode(cs[0]), rest, next.Ahead(), EncodeAll(cs[1..]));
    Reassociate([cs[0]], more, next.Pending(), cs[1..]);
  }

  lemma Rejoin<T>(e: seq<T>, k: nat, tail: seq<T>)
    requires k <= |e|
    ensures e[..k] + (e[k..] + tail) == e + tail
  {
  }

  /** The piece ends inside the next character. */
  lemma CutDelivers(cs: seq<nat>, src: seq<Byte>, before: seq<nat>, value: nat)
    requires AllScalar(cs) && cs != [] && 0 < |src| < EncodedLength(cs[0]) && src == Encode(cs[0])[..|src|]
    ensures Delivers(Between(cs), src, [], Inside(cs[0], |src|, cs[1..]))
    ensures DecodeChars(src, before, value, 0).codePoints == before + [] + [0]
    ensures Inside(cs[0], |src|, cs[1..]).Matches(DecodeChars(src, before, value, 0).partial)
  {
    CutDecodes(cs[0], |src|, src, before, value);
    Rejoin(Encode(cs[0]), |src|, EncodeAll(cs[1..]));
    assert before + [] == before;
  }

  /** A carried-over sequence is completed. */
  lemma InsideCompletes(c: nat, i: nat, cs: seq<nat>, p: PartialUtf8, src: seq<Byte>, rest: seq<Byte>)
    returns (out: seq<nat>, next: Cursor)
    requires Inside(c, i, cs).Valid() && Inside(c, i, cs).Matches(p)
    requires src == Encode(c)[i..] + rest && rest <= EncodeAll(cs)
    ensures Delivers(Inside(c, i, cs), src, out, next)
    ensures Decode(src, p).codePoints == out + [0]
    ensures next.Matches(Decode(src, p).partial)
  {
    var e := Encode(c)[i..];
    assert e == Encode(c)[i..EncodedLength(c)];
    TailDecodes(c, i, EncodedLength(c), src, rest);
    var more;
    more, next := CharsDecode(cs, rest, [c], c);
    out := [c] + more;
    Reassociate(e, rest, next.Ahead(), EncodeAll(cs));
    Reassociate([c], more, next.Pending(), cs);
  }

  /** A carried-over sequence stays incomplete. */
  lemma InsideStays(c: nat, i: nat, cs: seq<nat>, p: PartialUtf8, src: seq<Byte>) returns (next: Cursor)
    requires Inside(c, i, cs).Valid() && Inside(c, i, cs).Matches(p)
    requires i + |src| < EncodedLength(c) && src == Encode(c)[i..i + |src|]
    ensures Delivers(Inside(c, i, cs), src, [], next)
    ensures Decode(src, p).codePoints == [0]
    ensures next.Matches(Decode(src, p).partial)
  {
    var j := i + |src|;
    assert src == Encode(c)[i..j] + [];
    TailDecodes(c, i, j, src, []);
    next := Inside(c, j, cs);
    assert src + Encode(c)[j..] == Encode(c)[i..];
    Reassociate(src, Encode(c)[j..], EncodeAll(cs), next.Ahead());
  }

  /** One piece, from any place: nothing is lost between what comes out and what stays ahead. */
  lemma PieceDecodes(cur: Cursor, p: PartialUtf8, src: seq<Byte>) returns (out: seq<nat>, next: Cursor)
    requires cur.Valid() && cur.Matches(p) && src <= cur.Ahead()
    ensures Delivers(cur, src, out, next)
    ensures Decode(src, p).codePoints == out + [0]
    ensures next.Matches(Decode(src, p).partial)
  {
    match cur
    case Between(cs) =>
      out, next := CharsDecode(cs, src, [], p.value);
      assert [] + out + [0] == out + [0];
    case Inside(c, i, cs) =>
      var e := Encode(c)[i..];
      PrefixOfTwo(src, e, EncodeAll(cs));
      if |e| <= |src| {
        out, next := InsideCompletes(c, i, cs, p, src, src[|e|..]);
      } else {
        out := [];
        next := InsideStays(c, i, cs, p, src);
      }
  }

  lemma {:induction false} EncodeAllIsLonger(cs: seq<nat>)
    requires AllScalar(cs)
    ensures |EncodeAll(cs)| >= |cs|
    decreases |cs|
  {
    if cs != [] {
      EncodeAllIsLonger(cs[1..]);
    }
  }

  lemma AheadIsLonger(cur: Cursor)
    requires cur.Valid()
    ensures |cur.Ahead()| >= |cur.Pending()|
  {
    EncodeAllIsLonger(cur.cs);
  }

  /** Decodes piece by piece and drops the 0 that ends every result. */
  function DecodePieces(pieces: seq<seq<Byte>>, p: PartialUtf8): Decoded {
    if pieces == [] then
      Decoded([], p)
    else
      var first := Decode(pieces[0], p);
      var rest := DecodePieces(pieces[1..], first.partial);
      Decoded((if first.codePoints == [] then [] else first.codePoints[..|first.codePoints| - 1]) + rest.codePoints,
        rest.partial)
  }

  lemma {:induction false} PiecesDecode(cur: Cursor, p: PartialUtf8, pieces: seq<seq<Byte>>)
    requires cur.Valid() && cur.Matches(p) && Flatten(pieces) == cur.Ahead()
    ensures DecodePieces(pieces, p).codePoints == cur.Pending()
    ensures DecodePieces(pieces, p).partial.nRemain == 0
    decreases |pieces|
  {
    if pieces == [] {
      AheadIsLonger(cur);
    } else {
      FlattenFront(pieces);
      var out, next := PieceDecodes(cur, p, pieces[0]);
      var first := Decode(pieces[0], p);
      assert first.codePoints[..|first.codePoints| - 1] == out;
      assert Flatten(pieces[1..]) == next.Ahead() by {
        assert Flatten(pieces)[|pieces[0]|..] == cur.Ahead()[|pieces[0]|..] == next.Ahead();
      }
      PiecesDecode(next, first.partial, pieces[1..]);
    }
  }

  /**
    Cutting the encoding of a text anywhere, also inside characters, and decoding the pieces one
    after the other gives back exactly the text, with nothing left over.
    */
  lemma SplitIndependent(cs: seq<nat>, pieces: seq<seq<Byte>>)
    requires AllScalar(cs) && Flatten(pieces) == EncodeAll(cs)
    ensures DecodePieces(pieces, PartialUtf8(0, 0)).codePoints == cs
    ensures DecodePieces(pieces, PartialUtf8(0, 0)).partial.nRemain == 0
  {
    PiecesDecode(Between(cs), PartialUtf8(0, 0), pieces);
  }

  /**
    For bytes that are not UTF-8 the cut matters: a bad continuation byte passes inside a piece and
    is refused at the start of one.
    */
  lemma CutMattersForInvalidBytes()
    ensures Decode([0xC3, 0x41], PartialUtf8(0, 0)) == Decoded([0xC1, 0], PartialUtf8(0xC1, 0))
    ensures DecodePieces([[0xC3], [0x41]], PartialUtf8(0, 0)) == Decoded([], PartialUtf8(0, -1))
  {
    var src: seq<Byte> := [0xC3, 0x41];
    assert src[1..] == [0x41] && src[1..][1..] == [];
    assert Collect(src[1..], 3, 1) == Tail([], 0xC1, 0);
    var one: seq<Byte> := [0xC3];
    assert one[1..] == [];
    assert Decode(one, PartialUtf8(0, 0)) == Decoded([0], PartialUtf8(3, 1));
    var two: seq<Byte> := [0x41];
    assert Resume(two, 3, 1) == Broken;
    assert Decode(two, PartialUtf8(3, 1)) == Decoded([0], PartialUtf8(0, -1));
    var pieces: seq<seq<Byte>> := [one, two];
    assert pieces[1..] == [two] && pieces[1..][1..] == [];
    assert DecodePieces(pieces[1..], PartialUtf8(3, 1)) == Decoded([], PartialUtf8(0, -1));
  }
}
