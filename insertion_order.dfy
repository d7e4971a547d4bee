/**
 * The key order of a JavaScript `Map`: keys iterate in first-insertion order, `set` on a key already
 * present keeps its place, and `delete` removes the key from the order.
 */
module InsertionOrder {

  predicate Distinct<K(==,!new)>(s: seq<K>) {
    forall i, j :: 0 <= i < j < |s| ==> s[i] != s[j]
  }

  /** The order after `delete(x)`. */
  function Without<K(==,!new)>(s: seq<K>, x: K): (r: seq<K>)
    ensures x !in r
    ensures forall y :: y in r <==> y in s && y != x
    ensures Distinct(s) ==> Distinct(r)
    ensures Distinct(s) && x in s ==> |r| == |s| - 1
    ensures x !in s ==> r == s
    ensures x in s ==> |r| < |s|
  {
    if s == [] then []
    else if s[0] == x then
      assert Distinct(s) ==> x !in s[1..];
      Without(s[1..], x)
    else
      var rest := Without(s[1..], x);
      assert s == [s[0]] + s[1..];
      assert Distinct(s) ==> s[0] !in rest;
      [s[0]] + rest
  }

  /** The order after `set(x, v)`: a new key goes last, an existing one stays where it is. */
  function SetKey<K(==,!new)>(s: seq<K>, x: K): (r: seq<K>)
    ensures forall y :: y in r <==> y in s || y == x
    ensures Distinct(s) ==> Distinct(r)
    ensures x in s ==> r == s
    ensures x !in s ==> |r| == |s| + 1 && r[|s|] == x
  {
    if x in s then s else s + [x]
  }

  /** The order after `delete(x)` followed by `set(x, v)`: `x` moves to the end. */
  function MoveToEnd<K(==,!new)>(s: seq<K>, x: K): (r: seq<K>)
    ensures forall y :: y in r <==> y in s || y == x
    ensures Distinct(s) ==> Distinct(r)
    ensures Distinct(s) && x in s ==> |r| == |s|
    ensures |r| > 0 && r[|r| - 1] == x
  {
    Without(s, x) + [x]
  }
}
