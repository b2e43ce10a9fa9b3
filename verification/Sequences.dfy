/** Searching a table for a row. */
module Sequences {
  import opened Wrappers

  /** The first row a WHERE clause selects. */
  function IndexWhere<T>(xs: seq<T>, p: T -> bool): (r: Option<nat>)
    ensures r.Some? ==> r.value < |xs| && p(xs[r.value])
    ensures r.Some? ==> forall j :: 0 <= j < r.value ==> !p(xs[j])
    ensures r.None? ==> forall j :: 0 <= j < |xs| ==> !p(xs[j])
  {
    if xs == [] then None
    else
      var front := IndexWhere(xs[..|xs| - 1], p);
      assert front.None? ==> forall j :: 0 <= j < |xs| - 1 ==> xs[..|xs| - 1][j] == xs[j];
      if front.Some? then front
      else if p(xs[|xs| - 1]) then Some(|xs| - 1)
      else None
  }
}
