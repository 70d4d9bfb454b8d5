/** The problem instance every engine reads: a city count and an n-by-n distance matrix. */
module Problems {

  /** Java's `Integer.MAX_VALUE`, which the engines use as "no bound yet". */
  const IntMax: int := 0x7fff_ffff

  datatype Problem = Problem(n: nat, dist: seq<seq<int>>) {

    /** The matrix is square and has one row per city. */
    ghost predicate Valid() {
      |dist| == n && forall i :: 0 <= i < n ==> |dist[i]| == n
    }

    /** `getDistance(i, j)`: the length of the edge from city `i` to city `j`. */
    function Dist(i: nat, j: nat): int
      requires Valid() && i < n && j < n
    {
      dist[i][j]
    }

    /** No edge has a negative length. */
    ghost predicate NonNegative()
      requires Valid()
    {
      forall i, j :: 0 <= i < n && 0 <= j < n ==> dist[i][j] >= 0
    }
  }
}
