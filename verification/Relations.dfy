/** Relations on values as sets of pairs: paths, reachability, cycles. */
module Relations {

  type Relation<!T(==)> = iset<(T, T)>

  ghost predicate Path<T(!new)>(g: Relation<T>, r: T, q: T, n: nat)
    decreases n
  {
    if n == 0 then r == q else exists m :: (r, m) in g && Path(g, m, q, n - 1)
  }

  ghost predicate Connected<T(!new)>(g: Relation<T>, r: T, q: T) {
    exists n: nat :: Path(g, r, q, n)
  }

  lemma {:induction false} PathJoin<T(!new)>(g: Relation<T>, r: T, m: T, q: T, n: nat, k: nat)
    requires Path(g, r, m, n) && Path(g, m, q, k)
    ensures Path(g, r, q, n + k)
    decreases n
  {
    if n > 0 {
      var x :| (r, x) in g && Path(g, x, m, n - 1);
      PathJoin(g, x, m, q, n - 1, k);
    }
  }

  lemma ConnectedJoin<T(!new)>(g: Relation<T>, r: T, m: T, q: T)
    requires Connected(g, r, m) && Connected(g, m, q)
    ensures Connected(g, r, q)
  {
    var n: nat :| Path(g, r, m, n);
    var k: nat :| Path(g, m, q, k);
    PathJoin(g, r, m, q, n, k);
  }

  lemma ConnectedSelf<T(!new)>(g: Relation<T>, r: T)
    ensures Connected(g, r, r)
  {
    assert Path(g, r, r, 0);
  }

  lemma EdgeConnects<T(!new)>(g: Relation<T>, r: T, q: T)
    requires (r, q) in g
    ensures Connected(g, r, q)
  {
    assert Path(g, q, q, 0);
    assert Path(g, r, q, 1);
  }

  lemma {:induction false} PathInvariant<T(!new)>(g: Relation<T>, r: T, q: T, n: nat, u: iset<T>)
    requires Path(g, r, q, n) && r in u
    requires forall x, y :: x in u && (x, y) in g ==> y in u
    ensures q in u
    decreases n
  {
    if n > 0 {
      var m :| (r, m) in g && Path(g, m, q, n - 1);
      PathInvariant(g, m, q, n - 1, u);
    }
  }

  /** What every step keeps holds of everything reachable. */
  lemma ConnectedInvariant<T(!new)>(g: Relation<T>, r: T, q: T, u: iset<T>)
    requires Connected(g, r, q) && r in u
    requires forall x, y :: x in u && (x, y) in g ==> y in u
    ensures q in u
  {
    var n: nat :| Path(g, r, q, n);
    PathInvariant(g, r, q, n, u);
  }

  // ---------------------------------------------------------------------------------------
  // Cycles
  // ---------------------------------------------------------------------------------------

  type Graph = Relation<nat>

  ghost predicate OnCycle(g: Graph, r: nat) {
    exists m :: (r, m) in g && Connected(g, m, r)
  }

  ghost predicate Acyclic(g: Graph) {
    forall r: nat :: !OnCycle(g, r)
  }

  lemma ConnectedInLarger(g: Graph, g': Graph, r: nat, q: nat)
    requires g <= g' && Connected(g, r, q)
    ensures Connected(g', r, q)
  {
    var u := iset x: nat | Connected(g', r, x);
    forall x, y | x in u && (x, y) in g
      ensures y in u
    {
      EdgeConnects(g', x, y);
      ConnectedJoin(g', r, x, y);
    }
    ConnectedSelf(g', r);
    ConnectedInvariant(g, r, q, u);
  }

  lemma CycleInLarger(g: Graph, g': Graph, r: nat)
    requires g <= g' && OnCycle(g, r)
    ensures OnCycle(g', r)
  {
    var m: nat :| (r, m) in g && Connected(g, m, r);
    ConnectedInLarger(g, g', m, r);
  }

  /** A subgraph of an acyclic graph is acyclic. */
  lemma AcyclicSubgraph(g: Graph, g': Graph)
    requires g <= g' && Acyclic(g')
    ensures Acyclic(g)
  {
    forall r: nat
      ensures !OnCycle(g, r)
    {
      if OnCycle(g, r) {
        CycleInLarger(g, g', r);
      }
    }
  }

  ghost predicate NotBelow(m: nat, x: nat) {
    m <= x
  }

  /** Edges that only lead upwards make no cycle. */
  lemma RisingIsAcyclic(g: Graph)
    requires forall x, y :: (x, y) in g ==> x < y
    ensures Acyclic(g)
  {
    forall r: nat
      ensures !OnCycle(g, r)
    {
      if OnCycle(g, r) {
        var m: nat :| (r, m) in g && Connected(g, m, r);
        ConnectedInvariant(g, m, r, iset x: nat | NotBelow(m, x));
      }
    }
  }

  // ---------------------------------------------------------------------------------------
  // Sizes of sets
  // ---------------------------------------------------------------------------------------

  lemma {:induction false} SubsetSize<T>(a: set<T>, b: set<T>)
    requires a <= b
    ensures |a| <= |b|
    decreases a
  {
    if a != {} {
      var x :| x in a;
      SubsetSize(a - {x}, b - {x});
    }
  }

  lemma SmallerSubset<T>(a: set<T>, b: set<T>, x: T)
    requires a <= b && x in b && x !in a
    ensures |a| < |b|
  {
    SubsetSize(a, b - {x});
  }

  lemma {:induction false} BelowSize(s: set<nat>, n: nat)
    requires forall x :: x in s ==> x < n
    ensures |s| <= n
    decreases n
  {
    if n == 0 {
      assert s == {};
    } else {
      BelowSize(s - {n - 1}, n - 1);
      if n - 1 !in s {
        assert s - {n - 1} == s;
      }
    }
  }
}
