// QList operations that more than one component uses.
module Lists {
  // removeAll: every occurrence of `x` goes, all else stays as often as it was there.
  function Without(list: seq<nat>, x: nat): (r: seq<nat>)
    ensures x !in r && forall y :: y != x ==> multiset(r)[y] == multiset(list)[y]
  {
    if list == [] then []
    else
      var n := |list| - 1;
      assert list == list[..n] + [list[n]];
      if list[n] == x then Without(list[..n], x) else Without(list[..n], x) + [list[n]]
  }
}
