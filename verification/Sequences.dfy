/** Facts about sequences that the storage and execution models share. */
module Sequences {

  function InsertAt<T>(xs: seq<T>, i: nat, x: T): (r: seq<T>)
    requires i <= |xs|
    ensures |r| == |xs| + 1
  {
    seq(|xs| + 1, j requires 0 <= j <= |xs| => if j < i then xs[j] else if j == i then x else xs[j - 1])
  }

  lemma InsertAtSlices<T>(xs: seq<T>, i: nat, x: T)
    requires i <= |xs|
    ensures InsertAt(xs, i, x) == xs[..i] + [x] + xs[i..]
  {
  }

  ghost predicate NoDup<T(!new)>(xs: seq<T>)
  {
    forall i, j | 0 <= i < j < |xs| :: xs[i] != xs[j]
  }
}
