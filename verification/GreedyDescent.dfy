/** The descent from the entry point: on each level, to a node with no closer neighbour. */
module GreedyDescent {
  import opened Graph
  import opened Numbers

  /** No neighbour of `v` at `level` is strictly closer than `v`. */
  ghost predicate LocalMinimum(nodes: seq<Node>, level: nat, v: nat, dist: seq<real>) {
    forall t :: t in At(nodes, level, v) ==> Dist(dist, v) <= Dist(dist, t)
  }

  ghost function CloserThan(n: nat, dist: seq<real>, d: real): set<nat> {
    set v | 0 <= v < n && Dist(dist, v) < d
  }

  /** `stops` are where the levels from `beginLevel` on are left, one after the other: each a local minimum, and no farther
      than the one before. */
  ghost predicate Descent(nodes: seq<Node>, dist: seq<real>, start: nat, beginLevel: nat, stops: seq<nat>)
    decreases |stops|
  {
    && |stops| <= beginLevel
    && (stops != [] ==>
          var front, last := stops[..|stops| - 1], stops[|stops| - 1];
          && Descent(nodes, dist, start, beginLevel, front)
          && LocalMinimum(nodes, beginLevel - |front|, last, dist)
          && Dist(dist, last) <= Dist(dist, Current(start, front)))
  }

  function Current(start: nat, stops: seq<nat>): nat {
    if stops == [] then start else stops[|stops| - 1]
  }

  /** So `stops[k]` is a local minimum of level `beginLevel - k`, and the distance never grows. */
  lemma {:induction false} DescentSpec(nodes: seq<Node>, dist: seq<real>, start: nat, beginLevel: nat, stops: seq<nat>)
    requires Descent(nodes, dist, start, beginLevel, stops)
    ensures forall k :: 0 <= k < |stops| ==> LocalMinimum(nodes, beginLevel - k, stops[k], dist)
    ensures forall k :: 0 <= k < |stops| ==> Dist(dist, stops[k]) <= Dist(dist, start)
    ensures forall j, k :: 0 <= j < k < |stops| ==> Dist(dist, stops[k]) <= Dist(dist, stops[j])
    decreases |stops|
  {
    if stops != [] {
      var front, n := stops[..|stops| - 1], |stops| - 1;
      DescentSpec(nodes, dist, start, beginLevel, front);
      assert forall k :: 0 <= k < n ==> stops[k] == front[k];
      assert n > 0 ==> Current(start, front) == stops[n - 1];
      forall k | 0 <= k < |stops|
        ensures LocalMinimum(nodes, beginLevel - k, stops[k], dist)
      {
        assert k < n ==> LocalMinimum(nodes, beginLevel - k, front[k], dist);
      }
    }
  }

  lemma {:induction false} DescentExtended(nodes: seq<Node>, dist: seq<real>, start: nat, beginLevel: nat, stops: seq<nat>, next: nat)
    requires Descent(nodes, dist, start, beginLevel, stops) && |stops| < beginLevel
    requires LocalMinimum(nodes, beginLevel - |stops|, next, dist)
    requires Dist(dist, next) <= Dist(dist, Current(start, stops))
    ensures Descent(nodes, dist, start, beginLevel, stops + [next])
  {
    assert (stops + [next])[..|stops|] == stops;
  }

  /** One pass over the neighbours of `from`, remembering the closest seen. */
  method Sweep(nodes: seq<Node>, level: nat, from: nat, dist: seq<real>) returns (closest: nat, changed: bool)
    ensures changed ==> closest in At(nodes, level, from) && Dist(dist, closest) < Dist(dist, from)
    ensures !changed ==> closest == from
    ensures forall t :: t in At(nodes, level, from) ==> Dist(dist, closest) <= Dist(dist, t)
  {
    var list := At(nodes, level, from);
    closest, changed := from, false;
    for i := 0 to |list|
      invariant changed ==> closest in list && Dist(dist, closest) < Dist(dist, from)
      invariant !changed ==> closest == from
      invariant forall k :: 0 <= k < i ==> Dist(dist, closest) <= Dist(dist, list[k])
    {
      if Dist(dist, list[i]) < Dist(dist, closest) {
        closest, changed := list[i], true;
      }
    }
  }

  method DescendLevel(nodes: seq<Node>, c: nat, cb: nat, level: nat, start: nat, dist: seq<real>) returns (closest: nat)
    requires GraphOk(nodes, c, cb) && start < |nodes| && level <= nodes[start].level
    ensures closest < |nodes| && level <= nodes[closest].level
    ensures Dist(dist, closest) <= Dist(dist, start) && LocalMinimum(nodes, level, closest, dist)
  {
    closest := start;
    var changed := true;
    while changed
      invariant closest < |nodes| && level <= nodes[closest].level && Dist(dist, closest) <= Dist(dist, start)
      invariant !changed ==> LocalMinimum(nodes, level, closest, dist)
      decreases CloserThan(|nodes|, dist, Dist(dist, closest)), changed
    {
      ghost var before := closest;
      closest, changed := Sweep(nodes, level, closest, dist);
      assert NodeOk(nodes, before, c, cb);
      if changed {
        assert closest in CloserThan(|nodes|, dist, Dist(dist, before));
        assert closest !in CloserThan(|nodes|, dist, Dist(dist, closest));
      }
    }
  }

  /** Descends from `beginLevel` to just above `endLevel`. */
  method SearchForOne(nodes: seq<Node>, c: nat, cb: nat, dist: seq<real>,
                      start: nat, beginLevel: nat, endLevel: nat) returns (closest: nat, ghost stops: seq<nat>)
    requires GraphOk(nodes, c, cb) && start < |nodes| && beginLevel <= nodes[start].level
    ensures closest < |nodes| && Min(beginLevel, endLevel) <= nodes[closest].level
    ensures Dist(dist, closest) <= Dist(dist, start)
    ensures |stops| == if beginLevel > endLevel then beginLevel - endLevel else 0
    ensures Descent(nodes, dist, start, beginLevel, stops)
    ensures closest == Current(start, stops)
  {
    closest, stops := start, [];
    var level := beginLevel;
    while level > endLevel
      invariant level <= beginLevel && (level < endLevel ==> level == beginLevel)
      invariant closest < |nodes| && level <= nodes[closest].level
      invariant |stops| == beginLevel - level && Descent(nodes, dist, start, beginLevel, stops)
      invariant closest == Current(start, stops)
      invariant Dist(dist, closest) <= Dist(dist, start)
    {
      closest := DescendLevel(nodes, c, cb, level, closest, dist);
      DescentExtended(nodes, dist, start, beginLevel, stops, closest);
      stops := stops + [closest];
      level := level - 1;
    }
  }
}
