/** Failure-carrying results shared by the graph engine and the tree parser. */
module Results {

  /** A value, or the error that prevented computing it (Go's `(T, error)` pair). */
  datatype Result<+T, +E> = Ok(value: T) | Err(error: E)

  /** An optional value. */
  datatype Option<+T> = None | Some(value: T)

  /** Set-cardinality facts used by the visited-set termination measures. */
  lemma SubsetCard<X>(a: set<X>, b: set<X>)
    requires a <= b
    ensures |b| == |a| + |b - a|
  {
    assert b == a + (b - a);
  }

  /** Adding an unvisited element of the universe `u` to a visited set that has
      only grown since `a` strictly shrinks the set of unvisited elements. */
  lemma UnvisitedShrinks<X>(u: set<X>, a: set<X>, b: set<X>, x: X)
    requires a <= b && x in u && x !in b
    ensures |u - (b + {x})| < |u - a|
  {
    var small := u - (b + {x});
    var big := u - a;
    SubsetCard(small, big);
    assert x in big - small;
  }

  /** Visiting a set `s` that holds an unvisited element of `u` strictly
      shrinks the set of unvisited elements. */
  lemma UnvisitedShrinksBy<X>(u: set<X>, a: set<X>, s: set<X>, x: X)
    requires x in s && x in u && x !in a
    ensures |u - (a + s)| < |u - a|
  {
    UnvisitedShrinks(u, a, a, x);
    SubsetCard(u - (a + s), u - (a + {x}));
  }
}
