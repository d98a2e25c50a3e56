/** Counting votes: how many places of a sequence hold a given value. */
module Counting {

  function Count<T(==)>(xs: seq<T>, x: T): (c: nat)
    ensures c <= |xs|
  {
    if xs == [] then 0
    else Count(xs[..|xs| - 1], x) + (if xs[|xs| - 1] == x then 1 else 0)
  }

  /** Writing at a place that did not hold `x` adds one exactly when `x` is written. */
  lemma {:induction false} CountUpdated<T>(xs: seq<T>, i: nat, y: T, x: T)
    requires i < |xs| && xs[i] != x
    ensures Count(xs[i := y], x) == Count(xs, x) + (if y == x then 1 else 0)
  {
    var n := |xs| - 1;
    var updated := xs[i := y];
    if i == n {
      assert updated[..n] == xs[..n];
    } else {
      CountUpdated(xs[..n], i, y, x);
      assert updated[..n] == xs[..n][i := y];
    }
  }

  lemma {:induction false} CountMonotone<S, T>(a: seq<S>, x: S, b: seq<T>, y: T)
    requires |a| == |b| && forall i :: 0 <= i < |a| && a[i] == x ==> b[i] == y
    ensures Count(a, x) <= Count(b, y)
  {
    if a == [] {
    } else {
      CountMonotone(a[..|a| - 1], x, b[..|b| - 1], y);
    }
  }

  /** Two values that never share a place number at most one for each place. */
  lemma {:induction false} CountDisjoint<S, T>(a: seq<S>, x: S, b: seq<T>, y: T)
    requires |a| == |b| && forall i :: 0 <= i < |a| ==> !(a[i] == x && b[i] == y)
    ensures Count(a, x) + Count(b, y) <= |a|
  {
    if a == [] {
    } else {
      CountDisjoint(a[..|a| - 1], x, b[..|b| - 1], y);
    }
  }

  /** Two majorities of one sequence length share a place. */
  lemma CommonPlace<S, T>(a: seq<S>, x: S, b: seq<T>, y: T) returns (i: nat)
    requires |a| == |b| && Count(a, x) + Count(b, y) > |a|
    ensures i < |a| && a[i] == x && b[i] == y
  {
    if forall k :: 0 <= k < |a| ==> !(a[k] == x && b[k] == y) {
      CountDisjoint(a, x, b, y);
      assert false;
    }
    i :| 0 <= i < |a| && a[i] == x && b[i] == y;
  }

  /** A value found at no place but those of `allowed` counts at most its size. */
  lemma CountWithin<T(!new)>(xs: seq<T>, x: T, y: T, allowed: set<nat>)
    requires x != y
    requires forall i :: 0 <= i < |xs| && (xs[i] == x || xs[i] == y) ==> i in allowed
    ensures Count(xs, x) + Count(xs, y) <= |allowed|
  {
    var a, b := Places(xs, x), Places(xs, y);
    CountIsCardinality(xs, x);
    CountIsCardinality(xs, y);
    assert a !! b && |a + b| == |a| + |b|;
    assert allowed == (a + b) + (allowed - (a + b));
  }

  ghost function Places<T>(xs: seq<T>, x: T): set<nat> {
    set i: nat | i < |xs| && xs[i] == x
  }

  /** The count is the number of distinct places. */
  lemma {:induction false} CountIsCardinality<T>(xs: seq<T>, x: T)
    ensures |Places(xs, x)| == Count(xs, x)
  {
    if xs == [] {
      assert Places(xs, x) == {};
    } else {
      var n := |xs| - 1;
      CountIsCardinality(xs[..n], x);
      assert Places(xs, x) == Places(xs[..n], x) + (if xs[n] == x then {n} else {});
    }
  }
}
