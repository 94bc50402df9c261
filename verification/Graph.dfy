/** The multi-level proximity graph: its nodes, what makes it well formed, and what is reachable in it. */
module Graph {

  /** A member of the index, with one list of neighbours for every level it appears in. */
  datatype Node = Node(key: nat, level: nat, neighbors: seq<seq<nat>>)

  ghost predicate NoDuplicates(s: seq<nat>) {
    forall i, j :: 0 <= i < j < |s| ==> s[i] != s[j]
  }

  /** `list` may be the neighbours of `slot` at `level`: short enough, without repetition, without
      `slot` itself, and only of nodes that exist at that level. */
  ghost predicate ListOk(nodes: seq<Node>, slot: nat, level: nat, list: seq<nat>, cap: nat) {
    && |list| <= cap
    && NoDuplicates(list)
    && forall t :: t in list ==> t < |nodes| && t != slot && level <= nodes[t].level
  }

  function Cap(level: nat, connectivity: nat, connectivityBase: nat): nat {
    if level > 0 then connectivity else connectivityBase
  }

  ghost predicate NodeOk(nodes: seq<Node>, slot: nat, connectivity: nat, connectivityBase: nat)
    requires slot < |nodes|
  {
    && |nodes[slot].neighbors| == nodes[slot].level + 1
    && forall level :: 0 <= level <= nodes[slot].level ==>
         ListOk(nodes, slot, level, nodes[slot].neighbors[level], Cap(level, connectivity, connectivityBase))
  }

  ghost predicate GraphOk(nodes: seq<Node>, connectivity: nat, connectivityBase: nat) {
    forall slot :: 0 <= slot < |nodes| ==> NodeOk(nodes, slot, connectivity, connectivityBase)
  }

  /** The entry is a node of maximal level; an empty index is at level -1. */
  ghost predicate EntryOk(nodes: seq<Node>, entrySlot: nat, maxLevel: int) {
    if nodes == [] then maxLevel == -1 && entrySlot == 0
    else
      && entrySlot < |nodes|
      && nodes[entrySlot].level == maxLevel
      && forall slot :: 0 <= slot < |nodes| ==> nodes[slot].level <= maxLevel
  }

  /** The neighbours of `slot` at `level`, none for a slot that is not there. */
  function At(nodes: seq<Node>, level: nat, slot: nat): (r: seq<nat>)
    ensures slot < |nodes| && level < |nodes[slot].neighbors| ==> r == nodes[slot].neighbors[level]
  {
    if slot < |nodes| && level < |nodes[slot].neighbors| then nodes[slot].neighbors[level] else []
  }

  /** `v` is at most `n` links of `level` away from `start`. */
  ghost predicate Within(nodes: seq<Node>, level: nat, start: nat, v: nat, n: nat)
    decreases n
  {
    v == start || (n > 0 && exists u :: Within(nodes, level, start, u, n - 1) && v in At(nodes, level, u))
  }

  ghost predicate Reachable(nodes: seq<Node>, level: nat, start: nat, v: nat) {
    exists n: nat :: Within(nodes, level, start, v, n)
  }

  /** The slots that can be reached from `start` on a level. */
  ghost function ReachSlots(nodes: seq<Node>, level: nat, start: nat): set<nat> {
    ReachBelow(nodes, level, start, |nodes|)
  }

  /** Of the first `n` slots. */
  ghost function ReachBelow(nodes: seq<Node>, level: nat, start: nat, n: nat): set<nat>
    requires n <= |nodes|
  {
    if n == 0 then {}
    else
      ReachBelow(nodes, level, start, n - 1)
      + if level <= nodes[n - 1].level && Reachable(nodes, level, start, n - 1) then {n - 1} else {}
  }

  lemma ReachSlotsSpec(nodes: seq<Node>, level: nat, start: nat)
    ensures forall v: nat :: v in ReachSlots(nodes, level, start) <==>
      v < |nodes| && level <= nodes[v].level && Reachable(nodes, level, start, v)
  {
    ReachBelowSpec(nodes, level, start, |nodes|);
  }

  lemma {:induction false} ReachBelowSpec(nodes: seq<Node>, level: nat, start: nat, n: nat)
    requires n <= |nodes|
    ensures forall v: nat :: v in ReachBelow(nodes, level, start, n) <==>
      v < n && level <= nodes[v].level && Reachable(nodes, level, start, v)
  {
    if n > 0 {
      ReachBelowSpec(nodes, level, start, n - 1);
    }
  }

  ghost predicate Closed(nodes: seq<Node>, level: nat, s: set<nat>) {
    forall u, v :: u in s && v in At(nodes, level, u) ==> v in s
  }

  lemma ReachableNext(nodes: seq<Node>, level: nat, start: nat, u: nat, v: nat)
    requires Reachable(nodes, level, start, u) && v in At(nodes, level, u)
    ensures Reachable(nodes, level, start, v)
  {
    var n: nat :| Within(nodes, level, start, u, n);
    assert Within(nodes, level, start, v, n + 1);
  }

  lemma {:induction false} WithinClosed(nodes: seq<Node>, level: nat, start: nat, v: nat, n: nat, s: set<nat>)
    requires start in s && Closed(nodes, level, s) && Within(nodes, level, start, v, n)
    ensures v in s
    decreases n
  {
    if v != start {
      var u :| Within(nodes, level, start, u, n - 1) && v in At(nodes, level, u);
      WithinClosed(nodes, level, start, u, n - 1, s);
    }
  }

  /** A set that contains the start and every neighbour of its members contains all that is reachable. */
  lemma ReachableClosed(nodes: seq<Node>, level: nat, start: nat, s: set<nat>)
    requires start in s && Closed(nodes, level, s)
    ensures forall v :: Reachable(nodes, level, start, v) ==> v in s
  {
    forall v | Reachable(nodes, level, start, v)
      ensures v in s
    {
      var n: nat :| Within(nodes, level, start, v, n);
      WithinClosed(nodes, level, start, v, n, s);
    }
  }

  lemma ReachSlotsClosed(nodes: seq<Node>, connectivity: nat, connectivityBase: nat, level: nat, start: nat)
    requires GraphOk(nodes, connectivity, connectivityBase) && start < |nodes| && level <= nodes[start].level
    ensures start in ReachSlots(nodes, level, start) && Closed(nodes, level, ReachSlots(nodes, level, start))
  {
    ReachSlotsSpec(nodes, level, start);
    assert Within(nodes, level, start, start, 0);
    forall u, v | u in ReachSlots(nodes, level, start) && v in At(nodes, level, u)
      ensures v in ReachSlots(nodes, level, start)
    {
      assert NodeOk(nodes, u, connectivity, connectivityBase);
      ReachableNext(nodes, level, start, u, v);
    }
  }

  /** What no list holds can only be reached from itself. */
  lemma NotReached(nodes: seq<Node>, level: nat, start: nat, v: nat)
    requires v != start && forall u :: v !in At(nodes, level, u)
    ensures v !in ReachSlots(nodes, level, start)
  {
    ReachSlotsSpec(nodes, level, start);
  }

  /** What can be reached depends on the lists of the level alone. */
  lemma {:induction false} SameWithin(a: seq<Node>, b: seq<Node>, level: nat, start: nat, v: nat, n: nat)
    requires forall u: nat :: At(a, level, u) == At(b, level, u)
    ensures Within(a, level, start, v, n) <==> Within(b, level, start, v, n)
    decreases n
  {
    if n > 0 {
      var m := n - 1;
      forall u: nat
        ensures Within(a, level, start, u, m) <==> Within(b, level, start, u, m)
      {
        SameWithin(a, b, level, start, u, m);
      }
    }
  }

  lemma SameReachable(a: seq<Node>, b: seq<Node>, level: nat, start: nat)
    requires forall u: nat :: At(a, level, u) == At(b, level, u)
    ensures forall v: nat :: Reachable(a, level, start, v) <==> Reachable(b, level, start, v)
  {
    forall v: nat
      ensures Reachable(a, level, start, v) <==> Reachable(b, level, start, v)
    {
      if n: nat :| Within(a, level, start, v, n) {
        SameWithin(a, b, level, start, v, n);
      }
      if n: nat :| Within(b, level, start, v, n) {
        SameWithin(a, b, level, start, v, n);
      }
    }
  }

  lemma {:induction false} SizeBelow(s: set<nat>, n: nat)
    requires forall x :: x in s ==> x < n
    ensures |s| <= n
  {
    if n == 0 {
      assert s == {};
    } else {
      SizeBelow(s - {n - 1}, n - 1);
    }
  }

  ghost function Values(s: seq<nat>): set<nat> {
    set y | y in s
  }

  lemma {:induction false} ValuesSize(s: seq<nat>)
    requires NoDuplicates(s)
    ensures |Values(s)| == |s|
  {
    if s != [] {
      var rest, last := s[..|s| - 1], s[|s| - 1];
      ValuesSize(rest);
      assert s == rest + [last];
      assert Values(s) == Values(rest) + {last};
    }
  }
}
