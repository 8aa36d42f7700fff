/**
  Lists of tokens, each used up to some place. The equal splitter moves these places forward and,
  when it gives tokens back, backward.
  */
module BatchCuts {
  import opened BatchTokens
  import opened Collections

  /** The first `k` tokens of the list are used, the others are not. */
  ghost predicate CutAt(used: seq<bool>, list: seq<nat>, k: nat) {
    && k <= |list| && Below(list, |used|)
    && forall j :: 0 <= j < |list| ==> (used[list[j]] <==> j < k)
  }

  /** All lists are used up to their places. */
  ghost predicate Cuts(used: seq<bool>, lists: seq<seq<nat>>, cur: seq<nat>) {
    |cur| == |lists| && forall s :: 0 <= s < |lists| ==> CutAt(used, lists[s], cur[s])
  }

  ghost predicate InNone(lists: seq<seq<nat>>, i: nat) {
    forall s :: 0 <= s < |lists| ==> i !in lists[s]
  }

  /** Tokens of no list are as they were. */
  ghost predicate SameElsewhere(base: seq<bool>, used: seq<bool>, lists: seq<seq<nat>>) {
    |used| == |base| && forall i :: 0 <= i < |base| && InNone(lists, i) ==> used[i] == base[i]
  }

  /** No token is twice in the lists. */
  ghost predicate Separate(lists: seq<seq<nat>>) {
    && (forall s :: 0 <= s < |lists| ==> NoDuplicates(lists[s]))
    && (forall s, t, i :: 0 <= s < |lists| && 0 <= t < |lists| && s != t && i in lists[s] ==> i !in lists[t])
  }

  /** The next token of list `s` is used. */
  lemma Mark(base: seq<bool>, used: seq<bool>, lists: seq<seq<nat>>, cur: seq<nat>, s: nat)
    requires Cuts(used, lists, cur) && SameElsewhere(base, used, lists) && Separate(lists)
    requires s < |lists| && cur[s] < |lists[s]|
    ensures lists[s][cur[s]] < |used| && !used[lists[s][cur[s]]]
    ensures Cuts(used[lists[s][cur[s]] := true], lists, cur[s := cur[s] + 1])
    ensures SameElsewhere(base, used[lists[s][cur[s]] := true], lists)
    ensures CountTrue(used[lists[s][cur[s]] := true]) == CountTrue(used) + 1
  {
    assert CutAt(used, lists[s], cur[s]);
    var idx := lists[s][cur[s]];
    var used' := used[idx := true];
    CountUpdate(used, idx, true);
    forall t | 0 <= t < |lists|
      ensures CutAt(used', lists[t], cur[s := cur[s] + 1][t])
    {
      assert CutAt(used, lists[t], cur[t]);
      OtherList(lists, s, t, idx);
    }
    ElsewhereKept(base, used, lists, s, idx, true);
  }

  lemma OtherList(lists: seq<seq<nat>>, s: nat, t: nat, idx: nat)
    requires Separate(lists) && s < |lists| && t < |lists| && idx in lists[s]
    ensures t != s ==> idx !in lists[t]
  {
  }

  lemma ElsewhereKept(base: seq<bool>, used: seq<bool>, lists: seq<seq<nat>>, s: nat, idx: nat, b: bool)
    requires SameElsewhere(base, used, lists) && s < |lists| && idx in lists[s] && idx < |used|
    ensures SameElsewhere(base, used[idx := b], lists)
  {
    assert !InNone(lists, idx);
  }

  /** The last used token of list `s` is given back. */
  lemma Unmark(base: seq<bool>, used: seq<bool>, lists: seq<seq<nat>>, cur: seq<nat>, s: nat)
    requires Cuts(used, lists, cur) && SameElsewhere(base, used, lists) && Separate(lists)
    requires s < |lists| && cur[s] > 0
    ensures cur[s] <= |lists[s]| && lists[s][cur[s] - 1] < |used|
    ensures Cuts(used[lists[s][cur[s] - 1] := false], lists, cur[s := cur[s] - 1])
    ensures SameElsewhere(base, used[lists[s][cur[s] - 1] := false], lists)
    ensures CountTrue(used[lists[s][cur[s] - 1] := false]) == CountTrue(used) - 1
  {
    assert CutAt(used, lists[s], cur[s]);
    var idx := lists[s][cur[s] - 1];
    var used' := used[idx := false];
    CountUpdate(used, idx, false);
    forall t | 0 <= t < |lists|
      ensures CutAt(used', lists[t], cur[s := cur[s] - 1][t])
    {
      assert CutAt(used, lists[t], cur[t]);
      OtherList(lists, s, t, idx);
    }
    ElsewhereKept(base, used, lists, s, idx, false);
  }

  /** The parts of the lists between two places. */
  function Slices(lists: seq<seq<nat>>, from: seq<nat>, to: seq<nat>): (xs: seq<seq<nat>>)
    requires |from| == |to| == |lists|
    requires forall s :: 0 <= s < |lists| ==> from[s] <= to[s] <= |lists[s]|
    ensures |xs| == |lists|
    ensures forall s :: 0 <= s < |lists| ==> xs[s] == lists[s][from[s]..to[s]]
  {
    seq(|lists|, s requires 0 <= s < |lists| => lists[s][from[s]..to[s]])
  }

  /** What became used is what lies between the old and the new places. */
  lemma NewlyUsed(base: seq<bool>, used: seq<bool>, lists: seq<seq<nat>>, from: seq<nat>, to: seq<nat>, i: nat)
    requires Cuts(base, lists, from) && Cuts(used, lists, to) && SameElsewhere(base, used, lists)
    requires forall s :: 0 <= s < |lists| ==> from[s] <= to[s] <= |lists[s]|
    requires i < |base|
    ensures used[i] <==> base[i] || i in Flatten(Slices(lists, from, to))
    ensures i in Flatten(Slices(lists, from, to)) ==> !base[i]
  {
    var xs := Slices(lists, from, to);
    InFlatten(xs, i);
    if i in Flatten(xs) {
      var s :| 0 <= s < |xs| && i in xs[s];
      NewInList(base, used, lists[s], from[s], to[s], i);
    }
    if !InNone(lists, i) {
      var s :| 0 <= s < |lists| && i in lists[s];
      NewInList(base, used, lists[s], from[s], to[s], i);
      assert i in xs[s] ==> i in Flatten(xs);
    }
  }

  lemma NewInList(base: seq<bool>, used: seq<bool>, list: seq<nat>, from: nat, to: nat, i: nat)
    requires CutAt(base, list, from) && CutAt(used, list, to) && from <= to && i in list && i < |base|
    requires |used| == |base|
    ensures i in list[from..to] <==> used[i] && !base[i]
    ensures base[i] ==> used[i]
  {
    var j :| 0 <= j < |list| && list[j] == i;
    if from <= j < to {
      assert list[from..to][j - from] == i;
    }
    if i in list[from..to] {
      var k :| 0 <= k < to - from && list[from..to][k] == i;
      assert list[from + k] == i;
    }
  }

  lemma SliceWithin(list: seq<nat>, from: nat, to: nat, i: nat)
    requires from <= to <= |list|
    ensures i in list[from..to] ==> i in list
  {
  }

  lemma SlicesNoDup(lists: seq<seq<nat>>, from: seq<nat>, to: seq<nat>)
    requires Separate(lists) && |from| == |to| == |lists|
    requires forall s :: 0 <= s < |lists| ==> from[s] <= to[s] <= |lists[s]|
    ensures NoDuplicates(Flatten(Slices(lists, from, to)))
  {
    var xs := Slices(lists, from, to);
    forall s, t, i | 0 <= s < t < |xs| && i in xs[s]
      ensures i !in xs[t]
    {
      SliceWithin(lists[s], from[s], to[s], i);
      SliceWithin(lists[t], from[t], to[t], i);
      OtherList(lists, s, t, i);
    }
    FlattenNoDup(xs);
  }

  /** Lists of tokens of disjoint sequence sets share no token. */
  lemma ListsSeparate(seqSets: seq<SeqSet>, sets: seq<SeqSet>, lists: seq<seq<nat>>)
    requires |lists| == |sets| && forall s :: 0 <= s < |sets| ==> IsListOf(seqSets, sets[s], lists[s])
    requires forall s, t :: 0 <= s < t < |sets| ==> sets[s] != sets[t]
    ensures Separate(lists)
  {
    forall s, t, i | 0 <= s < |lists| && 0 <= t < |lists| && s != t && i in lists[s]
      ensures i !in lists[t]
    {
      assert seqSets[i] == sets[s];
    }
  }

  /** With used tokens first among those of a set, the list of the set is used up to some place. */
  lemma OrderGivesCut(seqSets: seq<SeqSet>, used: seq<bool>, s: SeqSet, list: seq<nat>, k: nat)
    requires UsedInOrder(seqSets, used) && IsListOf(seqSets, s, list) && k <= |list|
    requires forall j :: 0 <= j < k ==> used[list[j]]
    requires k < |list| ==> !used[list[k]]
    ensures CutAt(used, list, k)
  {
    forall j | 0 <= j < |list|
      ensures used[list[j]] <==> j < k
    {
      if j > k {
        assert InOrder(seqSets, used, list[k], list[j]);
      }
    }
  }

  lemma {:induction false} CutExists(seqSets: seq<SeqSet>, used: seq<bool>, s: SeqSet, list: seq<nat>, from: nat)
    returns (k: nat)
    requires UsedInOrder(seqSets, used) && IsListOf(seqSets, s, list) && from <= |list|
    requires forall j :: 0 <= j < from ==> used[list[j]]
    ensures CutAt(used, list, k)
    decreases |list| - from
  {
    if from < |list| && used[list[from]] {
      k := CutExists(seqSets, used, s, list, from + 1);
    } else {
      OrderGivesCut(seqSets, used, s, list, from);
      k := from;
    }
  }

  /** Moving places keeps the used tokens of every set first. */
  lemma CutsKeepOrder(seqSets: seq<SeqSet>, base: seq<bool>, used: seq<bool>, sets: seq<SeqSet>, lists: seq<seq<nat>>,
                      to: seq<nat>)
    requires UsedInOrder(seqSets, base) && SameElsewhere(base, used, lists) && Cuts(used, lists, to)
    requires |lists| == |sets| && forall s :: 0 <= s < |sets| ==> IsListOf(seqSets, sets[s], lists[s])
    ensures UsedInOrder(seqSets, used)
  {
    forall a: nat, b: nat | a < b < |used| && seqSets[a] == seqSets[b] && used[b]
      ensures used[a]
    {
      assert InOrder(seqSets, base, a, b);
      if s :| 0 <= s < |sets| && sets[s] == seqSets[a] {
        CutOrder(seqSets, used, sets[s], lists[s], to[s], a, b);
      } else {
        NotListed(seqSets, sets, lists, a);
        NotListed(seqSets, sets, lists, b);
      }
    }
  }

  lemma CutOrder(seqSets: seq<SeqSet>, used: seq<bool>, s: SeqSet, list: seq<nat>, k: nat, a: nat, b: nat)
    requires IsListOf(seqSets, s, list) && CutAt(used, list, k) && |used| == |seqSets|
    requires a < b < |used| && seqSets[a] == seqSets[b] == s && used[b]
    ensures used[a]
  {
    assert Listed(seqSets, s, list, a) && Listed(seqSets, s, list, b);
    var i :| 0 <= i < |list| && list[i] == a;
    var j :| 0 <= j < |list| && list[j] == b;
    assert i < j;
  }

  lemma NotListed(seqSets: seq<SeqSet>, sets: seq<SeqSet>, lists: seq<seq<nat>>, i: nat)
    requires |lists| == |sets| && forall s :: 0 <= s < |sets| ==> IsListOf(seqSets, sets[s], lists[s])
    requires i < |seqSets| && forall s :: 0 <= s < |sets| ==> sets[s] != seqSets[i]
    ensures InNone(lists, i)
  {
  }

  // ---------------------------------------------------------------------------------------
  // Tails
  // ---------------------------------------------------------------------------------------

  /** Of every set, everything or at least `n` tokens or nothing is still to come. */
  ghost predicate TailSafe(m: map<SeqSet, seq<nat>>, used: seq<bool>, n: nat) {
    forall s, k: nat :: s in m && CutAt(used, m[s], k) ==> TailSafeAt(m[s], k, n)
  }

  predicate TailSafeAt(list: seq<nat>, k: nat, n: nat) {
    k == 0 || k == |list| || k + n <= |list|
  }

  lemma CutUnique(used: seq<bool>, list: seq<nat>, k: nat, k': nat)
    requires CutAt(used, list, k) && CutAt(used, list, k')
    ensures k == k'
  {
    if k < |list| {
      assert used[list[k]] <==> k < k';
    }
    if k' < |list| {
      assert used[list[k']] <==> k' < k;
    }
  }

  /** Moving places keeps tails safe if the new places are safe. */
  lemma CutsKeepTails(seqSets: seq<SeqSet>, m: map<SeqSet, seq<nat>>, base: seq<bool>, used: seq<bool>,
                      sets: seq<SeqSet>, lists: seq<seq<nat>>, to: seq<nat>, n: nat)
    requires IsSetMap(seqSets, m) && TailSafe(m, base, n) && |base| == |seqSets|
    requires SameElsewhere(base, used, lists) && Cuts(used, lists, to)
    requires |lists| == |sets| && forall s :: 0 <= s < |sets| ==> sets[s] in m && lists[s] == m[sets[s]]
    requires forall s :: 0 <= s < |lists| ==> TailSafeAt(lists[s], to[s], n) || CutAt(base, lists[s], to[s])
    ensures TailSafe(m, used, n)
  {
    forall t | 0 <= t < |sets|
      ensures IsListOf(seqSets, sets[t], lists[t])
    {
      assert EntryOk(seqSets, m, sets[t]);
    }
    forall s, k: nat | s in m && CutAt(used, m[s], k)
      ensures TailSafeAt(m[s], k, n)
    {
      if t :| 0 <= t < |sets| && sets[t] == s {
        assert CutAt(used, lists[t], to[t]);
        CutUnique(used, m[s], k, to[t]);
        if CutAt(base, lists[t], to[t]) {
          assert TailSafeAt(m[s], k, n);
        }
      } else {
        forall j | 0 <= j < |m[s]|
          ensures base[m[s][j]] <==> j < k
        {
          assert EntryOk(seqSets, m, s);
          assert seqSets[m[s][j]] == s;
          NotListed(seqSets, sets, lists, m[s][j]);
        }
        assert CutAt(base, m[s], k);
      }
    }
  }
}
