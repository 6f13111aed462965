/** Sequences without repetitions, and listing a finite set in an unspecified order. */
module Collections {

  /** No element occurs twice in `xs`. */
  ghost predicate Distinct<T>(xs: seq<T>) {
    forall i, j :: 0 <= i < j < |xs| ==> xs[i] != xs[j]
  }

  /**
   * Lists the elements of `s`, each exactly once, in an order the caller
   * cannot predict. This is how Redis `KEYS` and a Prisma `findMany` without
   * `orderBy` hand back their results.
   */
  method Enumerate<T(==)>(s: set<T>) returns (xs: seq<T>)
    ensures Distinct(xs)
    ensures |xs| == |s|
    ensures forall x :: x in xs <==> x in s
  {
    xs := [];
    var rest := s;
    while rest != {}
      invariant rest <= s
      invariant Distinct(xs)
      invariant forall x :: x in xs <==> x in s && x !in rest
      invariant |xs| + |rest| == |s|
      decreases rest
    {
      var x :| x in rest;
      xs := xs + [x];
      rest := rest - {x};
    }
  }
}
