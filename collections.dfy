/** Python's `list(set(...))`: the elements of a set, each once, in an order
    the language leaves unspecified. */
module Collections {

  /** No element occurs twice. */
  predicate NoDuplicates<T(==)>(xs: seq<T>) {
    forall i, j :: 0 <= i < j < |xs| ==> xs[i] != xs[j]
  }

  /** `list(s)` for a set `s`: every element exactly once. The order is picked
      freely, since Python does not fix the iteration order of a set. */
  method ListFromSet<T(==)>(s: set<T>) returns (xs: seq<T>)
    ensures NoDuplicates(xs)
    ensures forall x :: x in xs <==> x in s
    ensures |xs| == |s|
  {
    xs := [];
    var remaining := s;
    while remaining != {}
      invariant NoDuplicates(xs)
      invariant forall x :: x in xs ==> x !in remaining
      invariant forall x :: x in s <==> x in xs || x in remaining
      invariant remaining <= s
      invariant |xs| + |remaining| == |s|
      decreases |remaining|
    {
      var x :| x in remaining;
      xs := xs + [x];
      remaining := remaining - {x};
    }
  }

  /** Two lists without repetitions and without common elements concatenate
      to a list without repetitions. */
  lemma NoDuplicatesConcat<T>(a: seq<T>, b: seq<T>)
    requires NoDuplicates(a) && NoDuplicates(b)
    requires forall x :: x in a ==> x !in b
    ensures NoDuplicates(a + b)
  {
    var ab := a + b;
    forall i, j | 0 <= i < j < |ab|
      ensures ab[i] != ab[j]
    {
      if i < |a| && j >= |a| {
        assert ab[i] in a && ab[j] == b[j - |a|];
      }
    }
  }
}
