/** Sorting, which the source takes from its library. */
module Sorting {
  method SortedIds(ids: set<int>) returns (r: seq<int>)
    ensures forall i, j | 0 <= i < j < |r| :: r[i] < r[j]
    ensures forall id :: id in r <==> id in ids
  {
    r := [];
    var left := ids;
    while left != {}
      invariant left <= ids && (forall id :: id in ids <==> id in r || id in left)
      invariant forall i, j | 0 <= i < j < |r| :: r[i] < r[j]
      invariant forall i, y | 0 <= i < |r| && y in left :: r[i] < y
      decreases left
    {
      var least := Least(left);
      r := r + [least];
      left := left - {least};
    }
  }

  method Least(ids: set<int>) returns (x: int)
    requires ids != {}
    ensures x in ids && forall y | y in ids :: x <= y
  {
    NoMember(ids);
    x :| x in ids;
    var rest := ids;
    while rest != {}
      invariant x in ids && rest <= ids && forall z | z in ids && z !in rest :: x <= z
      decreases rest
    {
      NoMember(rest);
      var y :| y in rest;
      if y < x {
        x := y;
      }
      rest := rest - {y};
    }
  }

  lemma NoMember(ids: set<int>)
    ensures (forall id :: id !in ids) ==> ids == {}
  {
    if forall id :: id !in ids { assert ids <= {}; }
  }
}
