/**
  Selection sort that records its swaps, and what the recorded swaps do to rows in the same order.
  */
module OutputOrder {
  import opened BatchTokens
  import opened Collections

  type Swap = (nat, nat)

  ghost predicate SwapsFit(swaps: seq<Swap>, n: nat) {
    forall s :: 0 <= s < |swaps| ==> swaps[s].0 < n && swaps[s].1 < n
  }

  function Swapped<T>(xs: seq<T>, i: nat, j: nat): (ys: seq<T>)
    requires i < |xs| && j < |xs|
    ensures |ys| == |xs|
  {
    xs[i := xs[j]][j := xs[i]]
  }

  /** All swaps, the first one first. */
  ghost function ApplySwaps<T>(xs: seq<T>, swaps: seq<Swap>): (ys: seq<T>)
    requires SwapsFit(swaps, |xs|)
    ensures |ys| == |xs|
    decreases |swaps|
  {
    if swaps == [] then xs
    else
      var last := swaps[|swaps| - 1];
      Swapped(ApplySwaps(xs, swaps[..|swaps| - 1]), last.0, last.1)
  }

  lemma ApplyMore<T>(xs: seq<T>, swaps: seq<Swap>, i: nat, j: nat)
    requires SwapsFit(swaps, |xs|) && i < |xs| && j < |xs|
    ensures SwapsFit(swaps + [(i, j)], |xs|)
    ensures ApplySwaps(xs, swaps + [(i, j)]) == Swapped(ApplySwaps(xs, swaps), i, j)
  {
    assert (swaps + [(i, j)])[..|swaps|] == swaps;
  }

  function Mapped<T>(ids: seq<nat>, f: nat -> T): (ys: seq<T>)
    ensures |ys| == |ids| && forall r :: 0 <= r < |ids| ==> ys[r] == f(ids[r])
  {
    seq(|ids|, r requires 0 <= r < |ids| => f(ids[r]))
  }

  /** Swapping rows follows swapping the ids that the rows belong to. */
  lemma {:induction false} SwapsFollow<T>(ids: seq<nat>, f: nat -> T, swaps: seq<Swap>)
    requires SwapsFit(swaps, |ids|)
    ensures ApplySwaps(Mapped(ids, f), swaps) == Mapped(ApplySwaps(ids, swaps), f)
    decreases |swaps|
  {
    if swaps != [] {
      SwapsFollow(ids, f, swaps[..|swaps| - 1]);
    }
  }

  /** Every order of rows comes from some other one. */
  lemma {:induction false} SwapsUndone<T>(ys: seq<T>, swaps: seq<Swap>) returns (xs: seq<T>)
    requires SwapsFit(swaps, |ys|)
    ensures |xs| == |ys| && ApplySwaps(xs, swaps) == ys
    decreases |swaps|
  {
    if swaps == [] {
      xs := ys;
    } else {
      var last := swaps[|swaps| - 1];
      xs := SwapsUndone(Swapped(ys, last.0, last.1), swaps[..|swaps| - 1]);
      assert Swapped(Swapped(ys, last.0, last.1), last.0, last.1) == ys;
    }
  }

  /** Swaps never bring two different orders together. */
  lemma {:induction false} SwapsInjective<T>(xs: seq<T>, ys: seq<T>, swaps: seq<Swap>)
    requires |xs| == |ys| && SwapsFit(swaps, |xs|) && ApplySwaps(xs, swaps) == ApplySwaps(ys, swaps)
    ensures xs == ys
    decreases |swaps|
  {
    if swaps != [] {
      var front, last := swaps[..|swaps| - 1], swaps[|swaps| - 1];
      var a, b := ApplySwaps(xs, front), ApplySwaps(ys, front);
      assert Swapped(Swapped(a, last.0, last.1), last.0, last.1) == a;
      assert Swapped(Swapped(b, last.0, last.1), last.0, last.1) == b;
      SwapsInjective(xs, ys, front);
    }
  }

  /** The swaps change the order of `n` rows. */
  ghost predicate Moves(swaps: seq<Swap>, n: nat) {
    SwapsFit(swaps, n) && ApplySwaps(Interval(0, n), swaps) != Interval(0, n)
  }

  /** Swaps that leave the places alone leave all rows alone. */
  lemma MovesNothing<T>(xs: seq<T>, swaps: seq<Swap>)
    requires SwapsFit(swaps, |xs|) && !Moves(swaps, |xs|)
    ensures ApplySwaps(xs, swaps) == xs
  {
    if xs == [] {
      assert ApplySwaps(xs, swaps) == [];
    } else {
      var f := (k: nat) => if k < |xs| then xs[k] else xs[0];
      SwapsFollow(Interval(0, |xs|), f, swaps);
      assert Mapped(Interval(0, |xs|), f) == xs;
    }
  }

  // ---------------------------------------------------------------------------------------
  // Misplaced entries
  // ---------------------------------------------------------------------------------------

  function Differences(xs: seq<nat>, ys: seq<nat>): (d: seq<bool>)
    requires |xs| == |ys|
    ensures |d| == |xs| && forall r :: 0 <= r < |d| ==> d[r] == (xs[r] != ys[r])
  {
    seq(|xs|, r requires 0 <= r < |xs| => xs[r] != ys[r])
  }

  /** How many entries are not where they belong. */
  function Misplaced(xs: seq<nat>, ys: seq<nat>): nat
    requires |xs| == |ys|
  {
    CountTrue(Differences(xs, ys))
  }

  lemma SortingMoves(ids: seq<nat>, target: seq<nat>, swaps: seq<Swap>)
    requires SwapsFit(swaps, |ids|) && ApplySwaps(ids, swaps) == target
    ensures swaps == [] ==> ids == target
    ensures ids != target ==> Moves(swaps, |ids|)
  {
    if !Moves(swaps, |ids|) {
      MovesNothing(ids, swaps);
    }
  }

  lemma NothingMisplaced(xs: seq<nat>, ys: seq<nat>)
    requires |xs| == |ys|
    ensures Misplaced(xs, ys) == 0 <==> xs == ys
  {
    var d := Differences(xs, ys);
    CountZero(d);
    assert xs == ys <==> forall r :: 0 <= r < |xs| ==> xs[r] == ys[r];
  }

  lemma {:induction false} CountZero(d: seq<bool>)
    ensures CountTrue(d) == 0 <==> forall r :: 0 <= r < |d| ==> !d[r]
    decreases |d|
  {
    if d != [] {
      CountZero(d[..|d| - 1]);
    }
  }

  /** A swap of two misplaced entries that puts the first one right. */
  lemma SwapMisplaced(xs: seq<nat>, ys: seq<nat>, i: nat, j: nat)
    requires |xs| == |ys| && i < j < |xs| && xs[i] != ys[i] && xs[j] != ys[j] && xs[j] == ys[i]
    ensures Misplaced(xs, ys) >= 2 && Misplaced(Swapped(xs, i, j), ys) < Misplaced(xs, ys)
  {
    var d := Differences(xs, ys);
    var zs := Swapped(xs, i, j);
    CountUpdate(d, i, false);
    CountUpdate(d[i := false], j, zs[j] != ys[j]);
    assert Differences(zs, ys) == d[i := false][j := zs[j] != ys[j]];
    CountUpdate(d[i := false], j, false);
  }

  // ---------------------------------------------------------------------------------------
  // The sort
  // ---------------------------------------------------------------------------------------

  ghost predicate SameElements(xs: seq<nat>, ys: seq<nat>) {
    forall x :: x in xs <==> x in ys
  }

  method FindMin(ids: seq<nat>, i: nat) returns (jMin: nat)
    requires i < |ids|
    ensures i <= jMin < |ids| && forall j :: i <= j < |ids| ==> ids[jMin] <= ids[j]
  {
    jMin := i;
    for j := i + 1 to |ids|
      invariant i <= jMin < |ids| && forall k :: i <= k < j ==> ids[jMin] <= ids[k]
    {
      if ids[j] < ids[jMin] {
        jMin := j;
      }
    }
  }

  /** With everything before `i` in place, the least of the rest belongs at `i`. */
  lemma LeastOfRest(ids: seq<nat>, target: seq<nat>, i: nat, jMin: nat)
    requires NoDuplicates(ids) && Ascending(target) && SameElements(ids, target) && |ids| == |target|
    requires i <= jMin < |ids| && ids[..i] == target[..i] && forall j :: i <= j < |ids| ==> ids[jMin] <= ids[j]
    ensures ids[jMin] == target[i]
    ensures jMin != i ==> ids[i] != target[i] && ids[jMin] != target[jMin]
  {
    assert forall r :: 0 <= r < i ==> ids[r] == ids[..i][r] && target[..i][r] == target[r];
    assert ids[jMin] in target;
    var k :| 0 <= k < |target| && target[k] == ids[jMin];
    assert target[i] in ids;
    var m :| 0 <= m < |ids| && ids[m] == target[i];
  }

  lemma SwapKeeps(ids: seq<nat>, target: seq<nat>, i: nat, j: nat)
    requires NoDuplicates(ids) && SameElements(ids, target) && i < |ids| && j < |ids|
    ensures NoDuplicates(Swapped(ids, i, j)) && SameElements(Swapped(ids, i, j), target)
  {
    var zs := Swapped(ids, i, j);
    forall x
      ensures x in zs <==> x in ids
    {
      if x in ids {
        var k :| 0 <= k < |ids| && ids[k] == x;
        assert zs[if k == i then j else if k == j then i else k] == x;
      }
    }
  }

  /** The entries before `i` are in place, by the swaps recorded so far. */
  ghost predicate Sorting(ids: seq<nat>, target: seq<nat>, sorted: seq<nat>, swaps: seq<Swap>, i: nat) {
    && |sorted| == |ids| == |target| && i <= |ids| && sorted[..i] == target[..i]
    && NoDuplicates(sorted) && SameElements(sorted, target)
    && SwapsFit(swaps, |ids|) && ApplySwaps(ids, swaps) == sorted
    && |swaps| + Misplaced(sorted, target) <= Misplaced(ids, target)
    && (swaps != [] && Misplaced(sorted, target) == 0 ==> |swaps| < Misplaced(ids, target))
  }

  lemma SortingKept(ids: seq<nat>, target: seq<nat>, sorted: seq<nat>, swaps: seq<Swap>, i: nat)
    requires Sorting(ids, target, sorted, swaps, i) && Ascending(target) && i < |ids|
    requires forall j :: i <= j < |ids| ==> sorted[i] <= sorted[j]
    ensures Sorting(ids, target, sorted, swaps, i + 1)
  {
    LeastOfRest(sorted, target, i, i);
    assert sorted[..i + 1] == sorted[..i] + [sorted[i]];
    assert target[..i + 1] == target[..i] + [target[i]];
  }

  lemma SortingSwapped(ids: seq<nat>, target: seq<nat>, sorted: seq<nat>, swaps: seq<Swap>, i: nat, jMin: nat)
    requires Sorting(ids, target, sorted, swaps, i) && Ascending(target) && i < jMin < |ids|
    requires forall j :: i <= j < |ids| ==> sorted[jMin] <= sorted[j]
    ensures Sorting(ids, target, Swapped(sorted, i, jMin), swaps + [(i, jMin)], i + 1)
  {
    LeastOfRest(sorted, target, i, jMin);
    SwapMisplaced(sorted, target, i, jMin);
    SwapKeeps(sorted, target, i, jMin);
    ApplyMore(ids, swaps, i, jMin);
    assert Swapped(sorted, i, jMin)[..i + 1] == sorted[..i] + [sorted[jMin]];
    assert target[..i + 1] == target[..i] + [target[i]];
  }

  /** Brings the least of the rest to `i`. */
  method SortOnce(ghost ids: seq<nat>, ghost target: seq<nat>, before: seq<nat>, swaps: seq<Swap>, i: nat)
    returns (sorted: seq<nat>, swaps': seq<Swap>)
    requires Sorting(ids, target, before, swaps, i) && Ascending(target) && i < |ids|
    ensures Sorting(ids, target, sorted, swaps', i + 1)
  {
    var jMin := FindMin(before, i);
    if jMin == i {
      SortingKept(ids, target, before, swaps, i);
      return before, swaps;
    }
    SortingSwapped(ids, target, before, swaps, i, jMin);
    sorted := Swapped(before, i, jMin);
    swaps' := swaps + [(i, jMin)];
  }

  /**
    Sorts the ids and records the swaps. It takes fewer swaps than there are misplaced ids, and none
    if there are none.
    */
  method SelectionSort(ids: seq<nat>, ghost target: seq<nat>) returns (sorted: seq<nat>, swaps: seq<Swap>)
    requires NoDuplicates(ids) && Ascending(target) && SameElements(ids, target) && |ids| == |target|
    ensures sorted == target && SwapsFit(swaps, |ids|) && ApplySwaps(ids, swaps) == target
    ensures if ids == target then swaps == [] else |swaps| < Misplaced(ids, target)
  {
    sorted, swaps := ids, [];
    SortingStarts(ids, target);
    var i := 0;
    while i + 1 < |sorted|
      invariant Sorting(ids, target, sorted, swaps, i) && (i > 0 ==> i < |ids|)
    {
      sorted, swaps := SortOnce(ids, target, sorted, swaps, i);
      i := i + 1;
    }
    SortingDone(ids, target, sorted, swaps, i);
  }

  lemma SortingStarts(ids: seq<nat>, target: seq<nat>)
    requires NoDuplicates(ids) && SameElements(ids, target) && |ids| == |target|
    ensures Sorting(ids, target, ids, [], 0)
  {
  }

  lemma SortingDone(ids: seq<nat>, target: seq<nat>, sorted: seq<nat>, swaps: seq<Swap>, i: nat)
    requires Sorting(ids, target, sorted, swaps, i) && Ascending(target) && |ids| <= i + 1
    ensures sorted == target && SwapsFit(swaps, |ids|) && ApplySwaps(ids, swaps) == target
    ensures if ids == target then swaps == [] else |swaps| < Misplaced(ids, target)
  {
    LastInPlace(sorted, target, i);
    NothingMisplaced(ids, target);
    NothingMisplaced(sorted, target);
  }

  /** When all but one are in place, so is the last. */
  lemma LastInPlace(ids: seq<nat>, target: seq<nat>, i: nat)
    requires NoDuplicates(ids) && Ascending(target) && SameElements(ids, target) && |ids| == |target|
    requires i <= |ids| <= i + 1 && ids[..i] == target[..i]
    ensures ids == target
  {
    if i < |ids| {
      LeastOfRest(ids, target, i, i);
      assert ids == ids[..i] + [ids[i]];
    }
  }

  /** There is only one ascending order. */
  lemma {:induction false} AscendingUnique(a: seq<nat>, b: seq<nat>)
    requires Ascending(a) && Ascending(b) && SameElements(a, b)
    ensures a == b
    decreases |a|
  {
    assert a != [] ==> a[0] in a && a[0] in b;
    assert b != [] ==> b[0] in b && b[0] in a;
    if a != [] {
      var a', b' := a[..|a| - 1], b[..|b| - 1];
      assert a[|a| - 1] in b && b[|b| - 1] in a;
      assert a[|a| - 1] == b[|b| - 1];
      forall x
        ensures x in a' <==> x in b'
      {
        FrontElements(a, x);
        FrontElements(b, x);
      }
      AscendingUnique(a', b');
      assert a == a' + [a[|a| - 1]] && b == b' + [b[|b| - 1]];
    }
  }

  lemma FrontElements(a: seq<nat>, x: nat)
    requires Ascending(a) && a != []
    ensures x in a[..|a| - 1] <==> x in a && x != a[|a| - 1]
  {
    if x in a && x != a[|a| - 1] {
      var k :| 0 <= k < |a| && a[k] == x;
      assert a[..|a| - 1][k] == x;
    }
  }

  /** Is every id its own place? */
  method IsIdentity(ids: seq<nat>) returns (sorted: bool)
    ensures sorted <==> forall i :: 0 <= i < |ids| ==> ids[i] == i
  {
    sorted := true;
    for i := 0 to |ids|
      invariant sorted <==> forall j :: 0 <= j < i ==> ids[j] == j
    {
      if ids[i] != i {
        sorted := false;
      }
    }
  }

  lemma InPlaceAlready(ids: seq<nat>, target: seq<nat>)
    requires Ascending(target) && SameElements(ids, target) && NoDuplicates(ids)
    requires (forall i :: 0 <= i < |ids| ==> ids[i] == i) || |ids| <= 1
    ensures ids == target
  {
    AscendingUnique(ids, target);
  }
}
