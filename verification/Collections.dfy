/**
  Optional values, and lists of lists.
  */
module Collections {

  datatype Option<+T> = None | Some(value: T)

  ghost predicate NoDuplicates<T>(s: seq<T>) {
    forall i, j :: 0 <= i < j < |s| ==> s[i] != s[j]
  }

  function Flatten<T>(xs: seq<seq<T>>): seq<T> {
    if xs == [] then [] else Flatten(xs[..|xs| - 1]) + xs[|xs| - 1]
  }

  lemma FlattenAppend<T>(xs: seq<seq<T>>, x: seq<T>)
    ensures Flatten(xs + [x]) == Flatten(xs) + x
  {
    assert (xs + [x])[..|xs|] == xs;
  }

  /** Flattening may as well start at the front. */
  lemma {:induction false} FlattenFront<T>(xs: seq<seq<T>>)
    requires xs != []
    ensures Flatten(xs) == xs[0] + Flatten(xs[1..])
    decreases |xs|
  {
    var front := xs[..|xs| - 1];
    if front == [] {
      assert Flatten(front) == [] && xs[1..] == [];
    } else {
      FlattenFront(front);
      assert xs[1..][..|xs| - 2] == front[1..];
    }
  }
}
