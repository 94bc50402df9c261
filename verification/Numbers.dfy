/** Sizes of the power-of-two tables and buffers. */
module Numbers {

  ghost predicate IsPow2(n: nat) {
    n == 1 || exists half: nat :: half < n && half + half == n && IsPow2(half)
  }

  /** The smallest power of two that is at least `v`; zero stays zero. */
  function Ceil2(v: nat): (r: nat)
    ensures v > 0 ==> IsPow2(r) && v <= r < v + v
    ensures v == 0 ==> r == 0
  {
    if v <= 1 then v
    else
      var half := Ceil2((v + 1) / 2);
      half + half
  }

  function Max(a: nat, b: nat): nat {
    if a < b then b else a
  }

  function Min(a: nat, b: nat): nat {
    if a < b then a else b
  }

  /** The distance of slot `v` from a query, given the distances of all slots; no metric is assumed. */
  function Dist(dist: seq<real>, v: nat): (d: real)
    ensures v < |dist| ==> d == dist[v]
  {
    if v < |dist| then dist[v] else 0.0
  }

  /** Whether a filter, given as its answer for every slot, accepts `v`. */
  predicate Allows(allow: seq<bool>, v: nat) {
    v < |allow| && allow[v]
  }
}
