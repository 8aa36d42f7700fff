/**
  Whether a character that is cut off at the end of a token can still satisfy a class: the test on
  an interval of code points, against the characters that complete the sequence.
  */
module PartialChar {
  import opened GrammarElements
  import opened Utf8

  function Pow64(n: nat): nat
    requires n <= 3
  {
    if n == 0 then 1 else if n == 1 then 64 else if n == 2 then 4096 else 262144
  }

  /** The states in which decoding can stop. */
  predicate Bounded(p: PartialUtf8) {
    p.nRemain <= 3 && (p.nRemain > 0 ==> p.value * Pow64(p.nRemain) < 0x40_0000)
  }

  lemma {:induction false} ResumeBounded(src: seq<Byte>, value: nat, n: int)
    requires Bounded(PartialUtf8(value, n))
    ensures Resume(src, value, n).Tail? ==> Bounded(PartialUtf8(Resume(src, value, n).value, Resume(src, value, n).n))
    decreases |src|
  {
    if !AtEnd(src) && n > 0 && src[0] / 64 == 2 {
      ResumeBounded(src[1..], ShiftIn(value, src[0]), n - 1);
    }
  }

  lemma {:induction false} CollectBounded(src: seq<Byte>, value: nat, n: int)
    requires Bounded(PartialUtf8(value, n))
    ensures Bounded(PartialUtf8(Collect(src, value, n).value, Collect(src, value, n).n))
    decreases |src|
  {
    if !AtEnd(src) && n > 0 {
      CollectBounded(src[1..], ShiftIn(value, src[0]), n - 1);
    }
  }

  lemma {:induction false} DecodeCharsBounded(src: seq<Byte>, before: seq<nat>, value: nat, n: int)
    requires Bounded(PartialUtf8(value, n))
    ensures Bounded(DecodeChars(src, before, value, n).partial)
    decreases |src|
  {
    if !AtEnd(src) && LengthOf(src[0]) != 0 {
      var more := LengthOf(src[0]) - 1;
      var t := Collect(src[1..], LeadValue(src[0], more), more);
      CollectBounded(src[1..], LeadValue(src[0], more), more);
      DecodeCharsBounded(t.rest, if t.n == 0 then before + [t.value] else before, t.value, t.n);
    }
  }

  /** Decoding keeps its state bounded, whatever bytes arrive. */
  lemma DecodeBounded(src: seq<Byte>, p: PartialUtf8)
    requires Bounded(p)
    ensures Bounded(Decode(src, p).partial)
  {
    ResumeBounded(src, p.value, p.nRemain);
    var t := Resume(src, p.value, p.nRemain);
    if t.Tail? {
      DecodeCharsBounded(t.rest, if p.nRemain > 0 && t.n == 0 then [t.value] else [], t.value, t.n);
    }
  }

  // ---------------------------------------------------------------------------------------
  // The interval test
  // ---------------------------------------------------------------------------------------

  /** Nothing can complete the sequence: it is invalid, or a 7-bit character in two bytes. */
  predicate Hopeless(p: PartialUtf8) {
    p.nRemain < 0 || (p.nRemain == 1 && p.value < 2)
  }

  function Low(p: PartialUtf8): nat
    requires Bounded(p) && p.nRemain > 0
  {
    var low := p.value * Pow64(p.nRemain);
    if low == 0 && p.nRemain == 2 then 0x800
    else if low == 0 && p.nRemain == 3 then 0x1_0000
    else low
  }

  function High(p: PartialUtf8): nat
    requires Bounded(p) && p.nRemain > 0
  {
    p.value * Pow64(p.nRemain) + Pow64(p.nRemain) - 1
  }

  /** Item `j` of a class meets the interval. */
  predicate ItemMeets(els: seq<Element>, j: nat, low: nat, high: nat)
    requires j < |els|
  {
    if j + 1 < |els| && els[j + 1].kind.CHAR_RNG_UPPER? then
      els[j].value <= high && low <= els[j + 1].value
    else
      els[j].kind.CHAR_ANY? || low <= els[j].value <= high
  }

  predicate ClassMeets(els: seq<Element>, i: nat, low: nat, high: nat)
    requires i < |els|
  {
    exists j :: i <= j < SymbolEnd(els, i) && !els[j].kind.CHAR_RNG_UPPER? && ItemMeets(els, j, low, high)
  }

  /** What is cut off can go on as the class asks, as far as the interval of its completions tells. */
  predicate PartialAccepts(els: seq<Element>, i: nat, p: PartialUtf8)
    requires i < |els| && Bounded(p) && p.nRemain != 0
  {
    !Hopeless(p) && (ClassMeets(els, i, Low(p), High(p)) <==> !els[i].kind.CHAR_NOT?)
  }

  /** Walks the class until an item meets the interval. */
  method WalkClass(rule: Rule, i: nat, low: nat, high: nat) returns (meets: bool)
    requires WellShaped(rule) && i < |rule| && IsClassStart(rule[i])
    ensures meets <==> ClassMeets(rule, i, low, high)
  {
    var pos := i;
    ghost var end := SymbolEnd(rule, i);
    assert end < |rule| by { assert rule[|rule| - 1].kind.END?; }
    while true
      invariant i <= pos < end < |rule|
      invariant pos == i || rule[pos].kind.CHAR_ALT?
      invariant forall j :: i <= j < pos && !rule[j].kind.CHAR_RNG_UPPER? ==> !ItemMeets(rule, j, low, high)
      decreases |rule| - pos
    {
      assert FollowsWell(rule, pos + 1);
      if rule[pos + 1].kind.CHAR_RNG_UPPER? {
        assert FollowsWell(rule, pos + 2);
        if rule[pos].value <= high && low <= rule[pos + 1].value {
          assert ItemMeets(rule, pos, low, high);
          return true;
        }
        pos := pos + 2;
      } else if rule[pos].kind.CHAR_ANY? {
        assert ItemMeets(rule, pos, low, high);
        return true;
      } else {
        if low <= rule[pos].value <= high {
          assert ItemMeets(rule, pos, low, high);
          return true;
        }
        pos := pos + 1;
      }
      if !rule[pos].kind.CHAR_ALT? {
        break;
      }
    }
    return false;
  }

  /** Whether a character that is cut off can go on as the class asks. */
  method MatchPartialChar(rule: Rule, i: nat, p: PartialUtf8) returns (matched: bool)
    requires WellShaped(rule) && i < |rule| && IsClassStart(rule[i])
    requires Bounded(p) && p.nRemain != 0
    ensures matched <==> PartialAccepts(rule, i, p)
  {
    var isPositive := rule[i].kind.CHAR? || rule[i].kind.CHAR_ANY?;
    if p.nRemain < 0 || (p.nRemain == 1 && p.value < 2) {
      return false;
    }
    var low := p.value * Pow64(p.nRemain);
    var high := low + Pow64(p.nRemain) - 1;
    if low == 0 {
      if p.nRemain == 2 {
        low := 0x800;
      } else if p.nRemain == 3 {
        low := 0x1_0000;
      }
    }
    var meets := WalkClass(rule, i, low, high);
    matched := meets == isPositive;
  }

  // ---------------------------------------------------------------------------------------
  // Against the characters that complete the sequence
  // ---------------------------------------------------------------------------------------

  /** `c`, in its shortest encoding, can be what the sequence is the beginning of. */
  predicate Completes(p: PartialUtf8, c: CodePoint) {
    0 < p.nRemain < EncodedLength(c) && p.value == Shifted(c, p.nRemain)
  }

  /** The interval holds exactly the completions. */
  lemma IntervalIsCompletions(p: PartialUtf8, c: CodePoint)
    requires Bounded(p) && p.nRemain != 0
    ensures Hopeless(p) ==> !Completes(p, c)
    ensures !Hopeless(p) ==> (Completes(p, c) <==> Low(p) <= c <= High(p))
  {
  }

  /** Ranges are given from low to high. */
  predicate OrderedRanges(els: seq<Element>, i: nat)
    requires i < |els|
  {
    forall j :: i < j < SymbolEnd(els, i) && els[j].kind.CHAR_RNG_UPPER? ==> els[j - 1].value <= els[j].value
  }

  /** A class that covers a completion meets the interval. */
  lemma CoversMeets(els: seq<Element>, i: nat, low: nat, high: nat, c: CodePoint)
    requires i < |els| && low <= c <= high && ClassCovers(els, i, c)
    ensures ClassMeets(els, i, low, high)
  {
    var j :| i <= j < SymbolEnd(els, i) && !els[j].kind.CHAR_RNG_UPPER? && ItemCovers(els, j, c);
    assert ItemMeets(els, j, low, high);
  }

  /** A class with ordered ranges that meets the interval covers one of its code points. */
  lemma MeetsCovers(els: seq<Element>, i: nat, low: nat, high: nat) returns (c: CodePoint)
    requires i < |els| && low <= high && OrderedRanges(els, i) && ClassMeets(els, i, low, high)
    ensures low <= c <= high && ClassCovers(els, i, c)
  {
    var j :| i <= j < SymbolEnd(els, i) && !els[j].kind.CHAR_RNG_UPPER? && ItemMeets(els, j, low, high);
    if j + 1 < |els| && els[j + 1].kind.CHAR_RNG_UPPER? {
      assert j + 1 < SymbolEnd(els, i);
      c := if els[j].value < low then low else els[j].value;
    } else {
      c := if els[j].kind.CHAR_ANY? then low else els[j].value;
    }
    assert ItemCovers(els, j, c);
  }

  lemma IntervalNonEmpty(p: PartialUtf8)
    requires Bounded(p) && p.nRemain != 0 && !Hopeless(p)
    ensures Low(p) <= High(p)
  {
  }

  /**
    For a positive class the test never refuses a sequence that an accepted character completes, and
    with ordered ranges it is exact.
    */
  lemma PositiveClassVerdict(els: seq<Element>, i: nat, p: PartialUtf8)
    requires i < |els| && IsClassStart(els[i]) && !els[i].kind.CHAR_NOT?
    requires Bounded(p) && p.nRemain != 0
    ensures (exists c :: Completes(p, c) && ClassAccepts(els, i, c)) ==> PartialAccepts(els, i, p)
    ensures OrderedRanges(els, i) && PartialAccepts(els, i, p) ==>
      exists c :: Completes(p, c) && ClassAccepts(els, i, c)
  {
    if exists c :: Completes(p, c) && ClassAccepts(els, i, c) {
      var c: nat :| Completes(p, c) && ClassAccepts(els, i, c);
      IntervalIsCompletions(p, c);
      CoversMeets(els, i, Low(p), High(p), c);
    }
    if OrderedRanges(els, i) && PartialAccepts(els, i, p) {
      IntervalNonEmpty(p);
      var c := MeetsCovers(els, i, Low(p), High(p));
      IntervalIsCompletions(p, c);
    }
  }

  /**
    For an inverse class the test is stricter: it lets a sequence pass only if every completion is
    accepted, and with ordered ranges exactly then.
    */
  lemma InverseClassVerdict(els: seq<Element>, i: nat, p: PartialUtf8)
    requires i < |els| && els[i].kind.CHAR_NOT? && Bounded(p) && p.nRemain != 0
    ensures PartialAccepts(els, i, p) ==> forall c :: Completes(p, c) ==> ClassAccepts(els, i, c)
    ensures OrderedRanges(els, i) && !Hopeless(p) && (forall c :: Completes(p, c) ==> ClassAccepts(els, i, c)) ==>
      PartialAccepts(els, i, p)
  {
    forall c: nat | PartialAccepts(els, i, p) && Completes(p, c)
      ensures ClassAccepts(els, i, c)
    {
      IntervalIsCompletions(p, c);
      if ClassCovers(els, i, c) {
        CoversMeets(els, i, Low(p), High(p), c);
      }
    }
    if OrderedRanges(els, i) && !Hopeless(p) && ClassMeets(els, i, Low(p), High(p)) {
      IntervalNonEmpty(p);
      var c := MeetsCovers(els, i, Low(p), High(p));
      IntervalIsCompletions(p, c);
    }
  }

  /**
    The comment on the function promises "some continuation could satisfy". For an inverse class with
    ordered ranges that is what it answers unless the completions are divided, some excluded and some not.
    */
  lemma InverseClassPromise(els: seq<Element>, i: nat, p: PartialUtf8)
    requires i < |els| && els[i].kind.CHAR_NOT? && OrderedRanges(els, i)
    requires Bounded(p) && p.nRemain != 0
    ensures (PartialAccepts(els, i, p) <==> exists c :: Completes(p, c) && ClassAccepts(els, i, c))
      <==> !((exists c :: Completes(p, c) && ClassCovers(els, i, c))
             && (exists c :: Completes(p, c) && !ClassCovers(els, i, c)))
  {
    InverseClassVerdict(els, i, p);
    if Hopeless(p) {
      forall c: nat
        ensures !Completes(p, c)
      {
        IntervalIsCompletions(p, c);
      }
    } else {
      IntervalNonEmpty(p);
      IntervalIsCompletions(p, Low(p));
    }
  }

  /** [^é] after the first byte of "è": refused, although "è" would do. */
  lemma InverseClassRefusesTooMuch()
    ensures var els, p := [Element(CHAR_NOT, 0xE9), Element(END, 0)], PartialUtf8(3, 1);
      !PartialAccepts(els, 0, p) && Completes(p, 0xE8) && ClassAccepts(els, 0, 0xE8)
  {
    var els, p := [Element(CHAR_NOT, 0xE9), Element(END, 0)], PartialUtf8(3, 1);
    assert SymbolEnd(els, 0) == 1;
    assert ItemMeets(els, 0, Low(p), High(p));
  }
}
