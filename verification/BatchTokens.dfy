/**
  Tokens of a batch, the sequence sets they belong to, and the bookkeeping of which tokens are used.
  */
module BatchTokens {
  import opened Collections

  type SeqSet = set<nat>

  /** One token of a batch whose missing fields have been filled in. */
  datatype BatchToken = BatchToken(id: int, pos: int, seqIds: seq<nat>, output: bool)

  function SeqSetOf(t: BatchToken): SeqSet {
    set s | s in t.seqIds
  }

  /** A micro-batch: the tokens at `idxs`, and how many sequence sets they come from. */
  datatype UBatch = UBatch(
    idxs: seq<nat>, tokens: seq<BatchToken>, nSeqs: nat, nSeqTokens: nat, equalSeqs: bool,
    seqIdUnq: seq<nat>, seqIdx: seq<int>)

  function NoUbatch(): UBatch {
    UBatch([], [], 0, 0, false, [], [])
  }

  predicate Ascending(s: seq<nat>) {
    forall a, b :: 0 <= a < b < |s| ==> s[a] < s[b]
  }

  function Interval(a: nat, b: nat): (s: seq<nat>)
    requires a <= b
    ensures |s| == b - a && forall j :: 0 <= j < |s| ==> s[j] == a + j
    ensures forall i :: i in s <==> a <= i < b
  {
    if a == b then [] else Interval(a, b - 1) + [b - 1]
  }

  ghost predicate Below(s: seq<nat>, n: nat) {
    forall k :: 0 <= k < |s| ==> s[k] < n
  }

  // ---------------------------------------------------------------------------------------
  // Counting
  // ---------------------------------------------------------------------------------------

  function CountTrue(u: seq<bool>): (n: nat)
    ensures n <= |u|
  {
    if u == [] then 0 else CountTrue(u[..|u| - 1]) + if u[|u| - 1] then 1 else 0
  }

  lemma {:induction false} CountUpdate(u: seq<bool>, i: nat, b: bool)
    requires i < |u|
    ensures CountTrue(u[i := b]) + (if u[i] then 1 else 0) == CountTrue(u) + if b then 1 else 0
    decreases |u|
  {
    var v := u[i := b];
    if i == |u| - 1 {
      assert v[..|u| - 1] == u[..|u| - 1];
    } else {
      CountUpdate(u[..|u| - 1], i, b);
      assert v[..|u| - 1] == u[..|u| - 1][i := b];
    }
  }

  /** The count reaches the length when, and only when, every entry is true. */
  lemma {:induction false} CountAll(u: seq<bool>)
    ensures CountTrue(u) == |u| <==> forall i :: 0 <= i < |u| ==> u[i]
    decreases |u|
  {
    if u != [] {
      CountAll(u[..|u| - 1]);
    }
  }

  lemma {:induction false} CountNone(n: nat)
    ensures CountTrue(seq(n, _ => false)) == 0
  {
    var u := seq(n, _ => false);
    if n > 0 {
      CountNone(n - 1);
      assert u[..n - 1] == seq(n - 1, _ => false);
    }
  }

  /** Where the true entries come first, their count is where they end. */
  lemma {:induction false} CountPrefix(u: seq<bool>, k: nat)
    requires k <= |u| && forall i :: 0 <= i < |u| ==> (u[i] <==> i < k)
    ensures CountTrue(u) == k
    decreases |u|
  {
    if u != [] {
      CountPrefix(u[..|u| - 1], if k == |u| then k - 1 else k);
    }
  }

  // ---------------------------------------------------------------------------------------
  // Outputs
  // ---------------------------------------------------------------------------------------

  /** The indices among `idxs` whose token is marked for output, in order. */
  function OutputsOf(toks: seq<BatchToken>, idxs: seq<nat>): seq<nat>
    requires Below(idxs, |toks|)
  {
    if idxs == [] then []
    else
      var i := idxs[|idxs| - 1];
      OutputsOf(toks, idxs[..|idxs| - 1]) + if toks[i].output then [i] else []
  }

  /** How many tokens are marked for output. */
  function CountOutputs(toks: seq<BatchToken>): nat {
    if toks == [] then 0 else CountOutputs(toks[..|toks| - 1]) + if toks[|toks| - 1].output then 1 else 0
  }

  lemma {:induction false} CountOutputsUpTo(toks: seq<BatchToken>, n: nat)
    requires n <= |toks|
    ensures |OutputsOf(toks, Interval(0, n))| == CountOutputs(toks[..n])
    decreases n
  {
    if n > 0 {
      CountOutputsUpTo(toks, n - 1);
      assert toks[..n][..n - 1] == toks[..n - 1];
      assert Interval(0, n)[..n - 1] == Interval(0, n - 1);
    }
  }

  /** Whatever the order, the outputs of a whole batch are as many as are marked. */
  lemma OutputsOfAll(toks: seq<BatchToken>, idxs: seq<nat>)
    requires NoDuplicates(idxs) && Below(idxs, |toks|) && forall i: nat :: i < |toks| ==> i in idxs
    ensures |OutputsOf(toks, idxs)| == CountOutputs(toks)
  {
    var all := Interval(0, |toks|);
    OutputsOfMember(toks, idxs);
    OutputsOfMember(toks, all);
    SameLength(OutputsOf(toks, idxs), OutputsOf(toks, all));
    CountOutputsUpTo(toks, |toks|);
    assert toks[..|toks|] == toks;
  }

  lemma {:induction false} OutputsOfJoin(toks: seq<BatchToken>, a: seq<nat>, b: seq<nat>)
    requires Below(a, |toks|) && Below(b, |toks|)
    ensures Below(a + b, |toks|)
    ensures OutputsOf(toks, a + b) == OutputsOf(toks, a) + OutputsOf(toks, b)
    decreases |b|
  {
    if b == [] {
      assert a + b == a;
    } else {
      OutputsOfJoin(toks, a, b[..|b| - 1]);
      assert (a + b)[..|a + b| - 1] == a + b[..|b| - 1];
    }
  }

  /** The outputs of a list without duplicates are without duplicates. */
  lemma {:induction false} OutputsOfMember(toks: seq<BatchToken>, idxs: seq<nat>)
    requires NoDuplicates(idxs) && Below(idxs, |toks|)
    ensures forall i :: i in OutputsOf(toks, idxs) <==> i in idxs && toks[i].output
    ensures NoDuplicates(OutputsOf(toks, idxs))
    decreases |idxs|
  {
    if idxs != [] {
      var front := idxs[..|idxs| - 1];
      assert idxs == front + [idxs[|idxs| - 1]];
      OutputsOfMember(toks, front);
    }
  }

  // ---------------------------------------------------------------------------------------
  // Sequence sets and their lists of tokens
  // ---------------------------------------------------------------------------------------

  /** A token of the set is in the list. */
  ghost predicate Listed(seqSets: seq<SeqSet>, s: SeqSet, list: seq<nat>, i: nat) {
    i < |seqSets| && seqSets[i] == s ==> i in list
  }

  /** `list` holds, in order, the tokens whose sequence set is `s`. */
  ghost predicate IsListOf(seqSets: seq<SeqSet>, s: SeqSet, list: seq<nat>) {
    && Ascending(list)
    && (forall j :: 0 <= j < |list| ==> list[j] < |seqSets| && seqSets[list[j]] == s)
    && (forall i: nat :: Listed(seqSets, s, list, i))
  }

  ghost predicate HasList(seqSets: seq<SeqSet>, m: map<SeqSet, seq<nat>>, i: nat) {
    i < |seqSets| ==> seqSets[i] in m
  }

  ghost predicate EntryOk(seqSets: seq<SeqSet>, m: map<SeqSet, seq<nat>>, s: SeqSet) {
    s in m ==> IsListOf(seqSets, s, m[s]) && m[s] != []
  }

  ghost predicate IsSetMap(seqSets: seq<SeqSet>, m: map<SeqSet, seq<nat>>) {
    && (forall i: nat :: HasList(seqSets, m, i))
    && (forall s :: EntryOk(seqSets, m, s))
  }

  ghost predicate InOrder(seqSets: seq<SeqSet>, used: seq<bool>, a: nat, b: nat)
    requires |used| == |seqSets|
  {
    a < b < |used| && seqSets[a] == seqSets[b] && used[b] ==> used[a]
  }

  /** Of the tokens of one sequence set, the used ones come first. */
  ghost predicate UsedInOrder(seqSets: seq<SeqSet>, used: seq<bool>) {
    |used| == |seqSets| && forall a: nat, b: nat :: InOrder(seqSets, used, a, b)
  }

  /** What has been emitted is what is used, each token once. */
  ghost predicate Emitted(used: seq<bool>, emitted: seq<nat>) {
    && NoDuplicates(emitted)
    && Below(emitted, |used|)
    && forall i: nat :: EmittedIfUsed(used, emitted, i)
  }

  ghost predicate EmittedIfUsed(used: seq<bool>, emitted: seq<nat>, i: nat) {
    i < |used| ==> (used[i] <==> i in emitted)
  }

  /** Tokens of one sequence set are emitted in the order of the batch. */
  ghost predicate EmittedInOrder(seqSets: seq<SeqSet>, emitted: seq<nat>) {
    Below(emitted, |seqSets|) && forall a: nat, b: nat :: PairInOrder(seqSets, emitted, a, b)
  }

  ghost predicate PairInOrder(seqSets: seq<SeqSet>, emitted: seq<nat>, a: nat, b: nat)
    requires Below(emitted, |seqSets|)
  {
    a < b < |emitted| && seqSets[emitted[a]] == seqSets[emitted[b]] ==> emitted[a] < emitted[b]
  }

  lemma EmittedInOrderMore(seqSets: seq<SeqSet>, used: seq<bool>, emitted: seq<nat>, idxs: seq<nat>)
    requires Emitted(used, emitted) && UsedInOrder(seqSets, used)
    requires EmittedInOrder(seqSets, emitted) && EmittedInOrder(seqSets, idxs)
    requires forall k :: 0 <= k < |idxs| ==> !used[idxs[k]]
    ensures EmittedInOrder(seqSets, emitted + idxs)
  {
    var e := emitted + idxs;
    forall a: nat, b: nat | a < b < |e| && seqSets[e[a]] == seqSets[e[b]]
      ensures e[a] < e[b]
    {
      if b < |emitted| {
        assert PairInOrder(seqSets, emitted, a, b);
      } else if a >= |emitted| {
        assert PairInOrder(seqSets, idxs, a - |emitted|, b - |emitted|);
      } else {
        assert e[a] in emitted;
        assert EmittedIfUsed(used, emitted, e[a]);
        assert InOrder(seqSets, used, e[b], e[a]);
      }
    }
  }

  lemma AscendingInOrder(seqSets: seq<SeqSet>, idxs: seq<nat>)
    requires Ascending(idxs) && Below(idxs, |seqSets|)
    ensures EmittedInOrder(seqSets, idxs)
  {
  }

  /** No more different numbers below `n` than `n`. */
  lemma {:induction false} NoDupBound(s: seq<nat>, n: nat)
    requires NoDuplicates(s) && Below(s, n)
    ensures |s| <= n
    decreases n
  {
    assert |s| > 0 ==> s[0] < n;
    if n == 0 {
    } else if k :| 0 <= k < |s| && s[k] == n - 1 {
      var rest := s[..k] + s[k + 1..];
      assert forall i :: 0 <= i < |rest| ==> rest[i] == s[if i < k then i else i + 1];
      NoDupBound(rest, n - 1);
    } else {
      NoDupBound(s, n - 1);
    }
  }

  /** Lists without duplicates that hold the same numbers have the same length. */
  lemma {:induction false} SameLength(s: seq<nat>, t: seq<nat>)
    requires NoDuplicates(s) && NoDuplicates(t) && forall i :: i in s <==> i in t
    ensures |s| == |t|
    decreases |s|
  {
    assert t != [] ==> t[0] in t && t[0] in s;
    if s != [] {
      var last := s[|s| - 1];
      assert last in s && last in t;
      var k :| 0 <= k < |t| && t[k] == last;
      var s' := s[..|s| - 1];
      var t' := t[..k] + t[k + 1..];
      assert forall i :: 0 <= i < |t'| ==> t'[i] == t[if i < k then i else i + 1];
      forall i
        ensures i in s' <==> i in t'
      {
        if i in s' {
          assert i in s && i in t;
          var j :| 0 <= j < |t| && t[j] == i;
          assert t'[if j < k then j else j - 1] == i;
        }
        if i in t' {
          assert i in t && i in s;
        }
      }
      SameLength(s', t');
    }
  }

  lemma EmittedMore(base: seq<bool>, used: seq<bool>, emitted: seq<nat>, idxs: seq<nat>)
    requires Emitted(base, emitted) && |used| == |base| && NoDuplicates(idxs)
    requires Below(idxs, |base|) && forall k :: 0 <= k < |idxs| ==> !base[idxs[k]]
    requires forall i :: 0 <= i < |base| ==> (used[i] <==> base[i] || i in idxs)
    ensures Emitted(used, emitted + idxs)
  {
    var e := emitted + idxs;
    forall a, b | 0 <= a < b < |e|
      ensures e[a] != e[b]
    {
      if a < |emitted| <= b {
        assert e[a] in emitted && e[b] in idxs;
        assert EmittedIfUsed(base, emitted, e[a]);
      }
    }
    forall i: nat
      ensures EmittedIfUsed(used, e, i)
    {
      assert EmittedIfUsed(base, emitted, i);
    }
  }

  /** The first `n` tokens are used. */
  ghost predicate UsedUpTo(used: seq<bool>, n: nat) {
    n <= |used| && forall i :: 0 <= i < |used| ==> (used[i] <==> i < n)
  }

  lemma PrefixInOrder(seqSets: seq<SeqSet>, used: seq<bool>, n: nat)
    requires UsedUpTo(used, n) && |used| == |seqSets|
    ensures UsedInOrder(seqSets, used) && CountTrue(used) == n
  {
    CountPrefix(used, n);
    forall a: nat, b: nat
      ensures InOrder(seqSets, used, a, b)
    {
    }
  }

  ghost predicate TokenOk(batch: seq<BatchToken>, seqSet: seq<SeqSet>, nSeqMax: nat, i: nat)
    requires |seqSet| == |batch|
  {
    i < |batch| ==>
      && seqSet[i] == SeqSetOf(batch[i]) && batch[i].seqIds != []
      && forall k :: 0 <= k < |batch[i].seqIds| ==> batch[i].seqIds[k] < nSeqMax
  }

  /** Some token is in several sequences. */
  ghost predicate Coupled(batch: seq<BatchToken>) {
    exists i :: 0 <= i < |batch| && |batch[i].seqIds| > 1
  }

  // ---------------------------------------------------------------------------------------
  // Concatenation
  // ---------------------------------------------------------------------------------------

  lemma {:induction false} InFlatten(xs: seq<seq<nat>>, i: nat)
    ensures i in Flatten(xs) <==> exists s :: 0 <= s < |xs| && i in xs[s]
    decreases |xs|
  {
    if xs != [] {
      var front, last := xs[..|xs| - 1], xs[|xs| - 1];
      InFlatten(front, i);
      assert i in Flatten(xs) <==> i in Flatten(front) || i in last;
      if s :| 0 <= s < |xs| && i in xs[s] {
        assert s < |front| ==> i in front[s];
      }
      if s :| 0 <= s < |front| && i in front[s] {
        assert i in xs[s];
      }
    }
  }

  lemma {:induction false} FlattenNoDup(xs: seq<seq<nat>>)
    requires forall s :: 0 <= s < |xs| ==> NoDuplicates(xs[s])
    requires forall s, t, i :: 0 <= s < t < |xs| && i in xs[s] ==> i !in xs[t]
    ensures NoDuplicates(Flatten(xs))
    decreases |xs|
  {
    if xs != [] {
      var front := xs[..|xs| - 1];
      var last := xs[|xs| - 1];
      FlattenNoDup(front);
      var c := Flatten(xs);
      forall a, b | 0 <= a < b < |c|
        ensures c[a] != c[b]
      {
        if a < |Flatten(front)| <= b {
          assert c[a] in Flatten(front) && c[b] in last;
          InFlatten(front, c[a]);
        }
      }
    }
  }

  lemma {:induction false} FlattenLength(xs: seq<seq<nat>>, n: nat)
    requires forall s :: 0 <= s < |xs| ==> |xs[s]| == n
    ensures |Flatten(xs)| == |xs| * n
    decreases |xs|
  {
    if xs == [] {
      OneMoreTimes(0, n);
    } else {
      FlattenLength(xs[..|xs| - 1], n);
      OneMoreTimes(|xs| - 1, n);
    }
  }

  lemma OneMoreTimes(k: nat, n: nat)
    ensures k * n + n == (k + 1) * n && 0 * n == 0
  {
  }

  /** With parts of one length, part `s` starts at `s * n`. */
  lemma {:induction false} FlattenAt(xs: seq<seq<nat>>, n: nat, s: nat, k: nat)
    requires (forall t :: 0 <= t < |xs| ==> |xs[t]| == n) && s < |xs| && k < n
    ensures 0 <= s * n + k < |Flatten(xs)| && Flatten(xs)[s * n + k] == xs[s][k]
    decreases |xs|
  {
    var front := xs[..|xs| - 1];
    FlattenLength(front, n);
    if s < |front| {
      FlattenAt(front, n, s, k);
    } else {
      assert s == |front|;
    }
  }
}
