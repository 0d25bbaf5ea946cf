/** Occurrences in a sequence, and what one replacement does to them. */
module Counting {
  ghost function Count<T>(xs: seq<T>, x: T): nat {
    multiset(xs)[x]
  }

  /** Replacing one element moves one unit of count. */
  lemma CountMoves<T>(xs: seq<T>, t: nat, x: T, y: T)
    requires t < |xs|
    ensures Count(xs[t := x], y) == Count(xs, y) - (if xs[t] == y then 1 else 0) + if x == y then 1 else 0
    ensures xs[t] == y ==> Count(xs, y) > 0
  {
    assert multiset(xs[t := x]) == multiset(xs) - multiset{xs[t]} + multiset{x};
    assert xs[t] in multiset(xs);
  }

  lemma CountPush<T>(xs: seq<T>, x: T, y: T)
    ensures Count(xs + [x], y) == Count(xs, y) + if x == y then 1 else 0
  {
  }

  lemma CountPop<T>(xs: seq<T>, y: T)
    requires xs != []
    ensures Count(xs[..|xs| - 1], y) == Count(xs, y) - if xs[|xs| - 1] == y then 1 else 0
    ensures xs[|xs| - 1] == y ==> Count(xs, y) > 0
  {
    assert xs == xs[..|xs| - 1] + [xs[|xs| - 1]];
  }

  lemma CountZero<T>(xs: seq<T>, x: T)
    ensures Count(xs, x) == 0 <==> x !in xs
  {
  }
}
