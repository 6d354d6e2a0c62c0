/** Distinct integers in ascending order: what sorting a set gives. */
module Sorted {
  predicate Increasing(s: seq<int>) {
    forall i, j | 0 <= i < j < |s| :: s[i] < s[j]
  }

  function Insert(s: seq<int>, x: int): (r: seq<int>)
    requires Increasing(s)
    ensures Increasing(r) && forall y :: y in r <==> y in s || y == x
  {
    if s == [] then [x]
    else
      var last, shorter := s[|s| - 1], s[..|s| - 1];
      assert s == shorter + [last];
      if last < x then s + [x]
      else if last == x then s
      else
        var r := Insert(shorter, x);
        assert forall i | 0 <= i < |r| :: r[i] in r && r[i] < last;
        r + [last]
  }

  function Distinct(xs: seq<int>): (r: seq<int>)
    ensures Increasing(r) && forall y :: y in r <==> y in xs
  {
    if xs == [] then []
    else
      assert xs == xs[..|xs| - 1] + [xs[|xs| - 1]];
      Insert(Distinct(xs[..|xs| - 1]), xs[|xs| - 1])
  }
}
