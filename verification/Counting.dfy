/** How many elements of a sequence have a property. */
module Counting {
  function Number<T>(s: seq<T>, p: T -> bool): (n: nat)
    ensures n <= |s|
  {
    if s == [] then 0 else Number(s[..|s| - 1], p) + if p(s[|s| - 1]) then 1 else 0
  }

  lemma NumberSnoc<T>(s: seq<T>, x: T, p: T -> bool)
    ensures Number(s + [x], p) == Number(s, p) + if p(x) then 1 else 0
  {
    assert (s + [x])[..|s|] == s;
  }

  lemma PlacesSplit<T>(s: seq<T>, p: T -> bool)
    requires s != []
    ensures var init := s[..|s| - 1];
            |set i | 0 <= i < |s| && p(s[i])| ==
            |set i | 0 <= i < |init| && p(init[i])| + if p(s[|s| - 1]) then 1 else 0
  {
    var n, init := |s| - 1, s[..|s| - 1];
    var all, before := set i | 0 <= i < |s| && p(s[i]), set i | 0 <= i < |init| && p(init[i]);
    forall i ensures i in all <==> i in before || (i == n && p(s[n])) {
      if 0 <= i < n { assert init[i] == s[i]; }
    }
    if p(s[n]) { assert all == before + {n}; } else { assert all == before; }
  }

  /** It is the number of places that hold such an element. */
  lemma {:induction false} NumberOfPlaces<T>(s: seq<T>, p: T -> bool)
    ensures Number(s, p) == |set i | 0 <= i < |s| && p(s[i])|
    decreases |s|
  {
    if s == [] {
    } else {
      var n := |s| - 1;
      NumberOfPlaces(s[..n], p);
      PlacesSplit(s, p);
    }
  }
}
