/** Tours over the cities of a problem and what they cost. */
module Tours {
  import opened Problems

  /** No city occurs twice. */
  ghost predicate Distinct(s: seq<nat>) {
    forall i, j :: 0 <= i < j < |s| ==> s[i] != s[j]
  }

  /** Every entry is a city index of an n-city problem. */
  ghost predicate InRange(s: seq<nat>, n: nat) {
    forall i :: 0 <= i < |s| ==> s[i] < n
  }

  /** `s` lists each of the cities 0..n-1 exactly once. */
  ghost predicate IsPermutation(s: seq<nat>, n: nat) {
    |s| == n && Distinct(s) && InRange(s, n)
  }

  /** A tour as the branch-and-bound engines enumerate it: a permutation that starts at city 0. */
  ghost predicate IsTour(t: seq<nat>, n: nat) {
    n >= 1 && IsPermutation(t, n) && t[0] == 0
  }

  /** A tour written out closed, as the branch-and-bound engines return it: the tour, then 0 again. */
  ghost predicate IsClosedTour(r: seq<nat>, n: nat) {
    |r| == n + 1 && InRange(r, n) && IsTour(r[..n], n) && r[n] == 0
  }

  /** The length of the open path through `s`: the sum of its consecutive edges. */
  function PathCost(p: Problem, s: seq<nat>): int
    requires p.Valid() && InRange(s, p.n)
  {
    if |s| <= 1 then 0 else PathCost(p, s[..|s| - 1]) + p.Dist(s[|s| - 2], s[|s| - 1])
  }

  /** The length of the cycle through `s`: the open path plus the edge from the last city back to the first. */
  function ClosedCost(p: Problem, s: seq<nat>): int
    requires p.Valid() && |s| >= 1 && InRange(s, p.n)
  {
    PathCost(p, s) + p.Dist(s[|s| - 1], s[0])
  }

  /** Some tour costs less than `bound`. */
  ghost predicate HasTourBelow(p: Problem, bound: int)
    requires p.Valid()
  {
    exists t :: IsTour(t, p.n) && ClosedCost(p, t) < bound
  }

  /** `r` is a closed tour no longer than any tour. */
  ghost predicate IsOptimal(p: Problem, r: seq<nat>)
    requires p.Valid()
  {
    IsClosedTour(r, p.n) && forall t :: IsTour(t, p.n) ==> PathCost(p, r) <= ClosedCost(p, t)
  }

  /** Closing a cycle through `s` costs as much as walking `s` and then back to its first city. */
  lemma ClosedCostAsPath(p: Problem, s: seq<nat>)
    requires p.Valid() && |s| >= 1 && InRange(s, p.n)
    ensures InRange(s + [s[0]], p.n) && ClosedCost(p, s) == PathCost(p, s + [s[0]])
  {
    var t := s + [s[0]];
    assert InRange(t, p.n);
    assert t[..|t| - 1] == s;
    assert PathCost(p, t) == PathCost(p, s) + p.Dist(s[|s| - 1], s[0]);
  }

  /** With no negative edge, a prefix of a path is never longer than the path. */
  lemma {:induction false} PrefixCost(p: Problem, s: seq<nat>, k: nat)
    requires p.Valid() && p.NonNegative() && InRange(s, p.n) && k <= |s|
    ensures PathCost(p, s[..k]) <= PathCost(p, s)
    decreases |s|
  {
    if k == |s| {
      assert s[..k] == s;
    } else if |s| >= 2 {
      var s' := s[..|s| - 1];
      PrefixCost(p, s', k);
      assert s'[..k] == s[..k];
      assert p.Dist(s[|s| - 2], s[|s| - 1]) >= 0;
    }
  }

  /** The cities a sequence visits. */
  ghost function Cities(s: seq<nat>): set<nat> {
    set x | x in s
  }

  lemma {:induction false} DistinctCities(s: seq<nat>)
    requires Distinct(s)
    ensures |Cities(s)| == |s|
  {
    if s != [] {
      DistinctCities(s[1..]);
      assert Cities(s) == {s[0]} + Cities(s[1..]);
      assert s[0] !in Cities(s[1..]);
    }
  }

  /** The cities 0..n-1. */
  ghost function AllCities(n: nat): (all: set<nat>)
    ensures |all| == n && forall c: nat :: c in all <==> c < n
  {
    if n == 0 then {} else AllCities(n - 1) + {n - 1}
  }

  /** A repetition-free sequence of city indices has at most n entries, and it has
      exactly n when, and only when, it visits every city. */
  lemma Pigeonhole(s: seq<nat>, n: nat)
    requires Distinct(s) && InRange(s, n)
    ensures |s| <= n
    ensures |s| == n <==> forall c :: 0 <= c < n ==> c in s
  {
    var visited, all := Cities(s), AllCities(n);
    DistinctCities(s);
    assert visited <= all;
    assert all == visited + (all - visited);
    assert visited * (all - visited) == {};
    assert |all| == |visited| + |all - visited|;
    if |s| == n {
      assert all - visited == {};
      forall c | 0 <= c < n ensures c in s {
        assert c in all;
      }
    }
    if forall c :: 0 <= c < n ==> c in s {
      assert all <= visited;
    }
  }
  /** Walking `s` costs its first edge plus the walk on from its second city. */
  lemma {:induction false} PathCostFirstEdge(p: Problem, s: seq<nat>)
    requires p.Valid() && InRange(s, p.n) && |s| >= 2
    ensures PathCost(p, s) == p.Dist(s[0], s[1]) + PathCost(p, s[1..])
    decreases |s|
  {
    if |s| > 2 {
      var init := s[..|s| - 1];
      PathCostFirstEdge(p, init);
      assert init[1..] == s[1..][..|s| - 2];
    } else {
      assert s[..1][..0] == [];
    }
  }

  /** `s` read from its position `k` on, wrapping round to its start. */
  function Rotation(s: seq<nat>, k: nat): (r: seq<nat>)
    requires k <= |s|
    ensures |r| == |s|
  {
    s[k..] + s[..k]
  }

  /** Reading a cycle from its second city instead of its first changes neither its
      cities nor its length. */
  lemma RotateOnce(p: Problem, s: seq<nat>)
    requires p.Valid() && InRange(s, p.n) && |s| >= 1
    ensures InRange(Rotation(s, 1), p.n) && ClosedCost(p, Rotation(s, 1)) == ClosedCost(p, s)
    ensures Distinct(s) ==> Distinct(Rotation(s, 1))
  {
    var r := Rotation(s, 1);
    assert r == s[1..] + [s[0]];
    if |s| >= 2 {
      PathCostFirstEdge(p, s);
      assert r[..|r| - 1] == s[1..];
    } else {
      assert r == s;
    }
    if Distinct(s) {
      RotateOnceDistinct(s);
    }
  }

  lemma RotateOnceDistinct(s: seq<nat>)
    requires |s| >= 1 && Distinct(s)
    ensures Distinct(Rotation(s, 1))
  {
    var r := Rotation(s, 1);
    assert forall i :: 0 <= i < |s| - 1 ==> r[i] == s[i + 1];
    forall i, j | 0 <= i < j < |r| ensures r[i] != r[j] {
      if j == |s| - 1 {
        assert r[j] == s[0];
      }
    }
  }

  /** A cycle costs the same from whichever of its cities it is read, and it visits the
      same cities. */
  lemma {:induction false} RotationCost(p: Problem, s: seq<nat>, k: nat)
    requires p.Valid() && InRange(s, p.n) && 1 <= |s| && k < |s|
    ensures InRange(Rotation(s, k), p.n) && ClosedCost(p, Rotation(s, k)) == ClosedCost(p, s)
    ensures Distinct(s) ==> Distinct(Rotation(s, k))
    ensures Rotation(s, k)[0] == s[k]
  {
    if k > 0 {
      RotationCost(p, s, k - 1);
      var r := Rotation(s, k - 1);
      RotateOnce(p, r);
      RotationStep(s, k);
    } else {
      assert Rotation(s, 0) == s;
    }
  }

  /** Rotating by k - 1 and then by one more position is rotating by k. */
  lemma RotationStep(s: seq<nat>, k: nat)
    requires 0 < k < |s|
    ensures Rotation(Rotation(s, k - 1), 1) == Rotation(s, k)
  {
    var r := Rotation(s, k - 1);
    assert s[k - 1..] == [s[k - 1]] + s[k..];
    assert r[1..] == s[k..] + s[..k - 1];
    assert s[..k] == s[..k - 1] + [s[k - 1]];
  }

  /** Every cyclic order of all n cities, read from city 0, is a tour of the same
      length. */
  lemma TourOfCycle(p: Problem, s: seq<nat>) returns (t: seq<nat>)
    requires p.Valid() && p.n >= 1 && IsPermutation(s, p.n)
    ensures IsTour(t, p.n) && ClosedCost(p, t) == ClosedCost(p, s)
  {
    Pigeonhole(s, p.n);
    assert 0 in s;
    var k :| 0 <= k < |s| && s[k] == 0;
    RotationCost(p, s, k);
    t := Rotation(s, k);
  }
  /** The cities 0..n-1 in ascending order. */
  function Identity(n: nat): (s: seq<nat>)
    ensures |s| == n && forall i :: 0 <= i < n ==> s[i] == i
  {
    seq(n, i requires 0 <= i < n => i as nat)
  }

  /** With no edge longer than `bound`, a walk costs at most `bound` per edge. */
  lemma {:induction false} PathCostBound(p: Problem, s: seq<nat>, bound: int)
    requires p.Valid() && InRange(s, p.n) && |s| >= 1
    requires forall i, j :: 0 <= i < p.n && 0 <= j < p.n ==> p.Dist(i, j) <= bound
    ensures PathCost(p, s) <= (|s| - 1) * bound
    decreases |s|
  {
    if |s| > 1 {
      PathCostBound(p, s[..|s| - 1], bound);
      assert (|s| - 2) * bound + bound == (|s| - 1) * bound;
    }
  }

  /** When no edge is longer than `bound` and n such edges together stay below `limit`,
      some tour is shorter than `limit`: the cities in ascending order. */
  lemma BoundedTour(p: Problem, bound: int, limit: int)
    requires p.Valid() && p.n >= 1
    requires forall i, j :: 0 <= i < p.n && 0 <= j < p.n ==> p.Dist(i, j) <= bound
    requires p.n * bound < limit
    ensures HasTourBelow(p, limit)
  {
    var t := Identity(p.n);
    PathCostBound(p, t, bound);
    assert (p.n - 1) * bound + bound == p.n * bound;
    assert IsTour(t, p.n) && ClosedCost(p, t) < limit;
  }
}
