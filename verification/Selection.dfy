/** Picking the elements of a list that satisfy a condition, in order. */
module Selection {

  function Select<T>(xs: seq<T>, p: T -> bool): seq<T> {
    if xs == [] then [] else Select(xs[..|xs| - 1], p) + if p(xs[|xs| - 1]) then [xs[|xs| - 1]] else []
  }

  /** Where the selected elements stand. */
  function Places<T>(xs: seq<T>, p: T -> bool): seq<nat> {
    if xs == [] then [] else Places(xs[..|xs| - 1], p) + if p(xs[|xs| - 1]) then [|xs| - 1] else []
  }

  ghost predicate Increasing(ns: seq<nat>) { forall j, k :: 0 <= j < k < |ns| ==> ns[j] < ns[k] }

  /** What is known of the k-th selected place. */
  ghost predicate PlaceOK<T>(xs: seq<T>, p: T -> bool, ns: seq<nat>, picked: seq<T>, k: nat)
    requires k < |ns| && k < |picked|
  {
    ns[k] < |xs| && p(xs[ns[k]]) && picked[k] == xs[ns[k]]
  }

  lemma {:induction false} PlacesAreRight<T>(xs: seq<T>, p: T -> bool)
    ensures |Select(xs, p)| == |Places(xs, p)| && Increasing(Places(xs, p))
    ensures forall k: nat | k < |Places(xs, p)| :: PlaceOK(xs, p, Places(xs, p), Select(xs, p), k)
  {
    if xs != [] {
      var n := |xs| - 1;
      var ms, before := Places(xs[..n], p), Select(xs[..n], p);
      PlacesAreRight(xs[..n], p);
      assert forall k: nat | k < |ms| :: PlaceOK(xs[..n], p, ms, before, k);
      forall k: nat | k < |Places(xs, p)| ensures PlaceOK(xs, p, Places(xs, p), Select(xs, p), k) {
        assert k < |ms| ==> PlaceOK(xs[..n], p, ms, before, k);
      }
      assert p(xs[n]) ==> forall j: nat | j < |ms| :: PlaceOK(xs[..n], p, ms, before, j) && ms[j] < n;
    }
  }

  lemma {:induction false} PlaceOf<T>(xs: seq<T>, p: T -> bool, i: nat) returns (k: nat)
    requires i < |xs| && p(xs[i])
    ensures k < |Places(xs, p)| && Places(xs, p)[k] == i
  {
    var n := |xs| - 1;
    if i == n {
      k := |Places(xs[..n], p)|;
    } else {
      k := PlaceOf(xs[..n], p, i);
    }
  }

  /** Every place that satisfies the condition is selected exactly once, in order, and no other is. */
  lemma SelectExactly<T>(xs: seq<T>, p: T -> bool)
    ensures Increasing(Places(xs, p))
    ensures forall i: nat :: i in Places(xs, p) <==> i < |xs| && p(xs[i])
    ensures |Select(xs, p)| == |Places(xs, p)|
    ensures forall k :: 0 <= k < |Places(xs, p)| ==>
                          Places(xs, p)[k] < |xs| && Select(xs, p)[k] == xs[Places(xs, p)[k]]
  {
    hide Places, Select, Increasing;
    PlacesAreRight(xs, p);
    var ns := Places(xs, p);
    forall i: nat ensures i in ns <==> i < |xs| && p(xs[i]) {
      if i < |xs| && p(xs[i]) {
        var k := PlaceOf(xs, p, i);
      }
      if k: nat :| k < |ns| && ns[k] == i {
        assert PlaceOK(xs, p, ns, Select(xs, p), k);
      }
    }
    forall k | 0 <= k < |ns| ensures ns[k] < |xs| && Select(xs, p)[k] == xs[ns[k]] {
      assert PlaceOK(xs, p, ns, Select(xs, p), k);
    }
  }

  lemma SelectNext<T>(xs: seq<T>, p: T -> bool, i: nat)
    requires i < |xs|
    ensures Select(xs[..i + 1], p) == Select(xs[..i], p) + if p(xs[i]) then [xs[i]] else []
  {
    assert xs[..i + 1][..i] == xs[..i];
  }

  function Map<T, U>(xs: seq<T>, f: T -> U): (ys: seq<U>)
    ensures |ys| == |xs| && forall k :: 0 <= k < |xs| ==> ys[k] == f(xs[k])
  {
    seq(|xs|, k requires 0 <= k < |xs| => f(xs[k]))
  }

  /** One more place: what is picked from it is added at the end. */
  lemma PickNext<T, U>(xs: seq<T>, p: T -> bool, f: T -> U, i: nat)
    requires i < |xs|
    ensures Map(Select(xs[..i + 1], p), f) == Map(Select(xs[..i], p), f) + if p(xs[i]) then [f(xs[i])] else []
  {
    SelectNext(xs, p, i);
  }
}
