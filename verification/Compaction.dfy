/** Compaction: the slots are renumbered, and the graph keeps its shape. */
module Compaction {
  import opened Graph
  import opened Links

  /** `s` lists every number below `n` exactly once. */
  ghost predicate Permutation(s: seq<nat>, n: nat) {
    |s| == n && NoDuplicates(s) && forall i :: 0 <= i < |s| ==> s[i] < n
  }

  lemma PermutationCovers(s: seq<nat>, n: nat, x: nat)
    requires Permutation(s, n) && x < n
    ensures x in s
  {
    ValuesSize(s);
    SizeBelow(Values(s) + {x}, n);
    assert x !in s ==> |Values(s) + {x}| == n + 1;
  }

  /** Slot `a` may come before slot `b`: higher levels first, then by cluster. */
  ghost predicate MayPrecede(nodes: seq<Node>, clusters: seq<nat>, a: nat, b: nat) {
    && a < |nodes| && b < |nodes| && |clusters| == |nodes|
    && (nodes[a].level > nodes[b].level || (nodes[a].level == nodes[b].level && clusters[a] <= clusters[b]))
  }

  ghost predicate OrderedSlots(nodes: seq<Node>, clusters: seq<nat>, order: seq<nat>) {
    forall i, j :: 0 <= i < j < |order| ==> MayPrecede(nodes, clusters, order[i], order[j])
  }

  /** Sorts the slots; slots that tie may come in any order. */
  method SortSlots(nodes: seq<Node>, clusters: seq<nat>) returns (order: seq<nat>)
    requires |clusters| == |nodes|
    ensures Permutation(order, |nodes|) && OrderedSlots(nodes, clusters, order)
  {
    order := [];
    for slot := 0 to |nodes|
      invariant Permutation(order, slot) && OrderedSlots(nodes, clusters, order)
    {
      var k := 0;
      while k < |order| && (nodes[order[k]].level > nodes[slot].level
                            || (nodes[order[k]].level == nodes[slot].level && clusters[order[k]] <= clusters[slot]))
        invariant k <= |order|
        invariant forall i :: 0 <= i < k ==> MayPrecede(nodes, clusters, order[i], slot)
      {
        k := k + 1;
      }
      InsertSlot(nodes, clusters, order, slot, k);
      order := order[..k] + [slot] + order[k..];
    }
  }

  lemma InsertSlot(nodes: seq<Node>, clusters: seq<nat>, order: seq<nat>, slot: nat, k: nat)
    requires |clusters| == |nodes| && slot < |nodes| && k <= |order|
    requires Permutation(order, slot) && OrderedSlots(nodes, clusters, order)
    requires forall i :: 0 <= i < k ==> MayPrecede(nodes, clusters, order[i], slot)
    requires k < |order| ==> !MayPrecede(nodes, clusters, order[k], slot)
    ensures var r := order[..k] + [slot] + order[k..];
      Permutation(r, slot + 1) && OrderedSlots(nodes, clusters, r)
  {
    var r := order[..k] + [slot] + order[k..];
    forall i | k <= i < |order|
      ensures MayPrecede(nodes, clusters, slot, order[i])
    {
      assert i > k ==> MayPrecede(nodes, clusters, order[k], order[i]);
    }
  }

  /** The list with every slot renumbered. */
  function Renumbered(list: seq<nat>, oldToNew: seq<nat>): (r: seq<nat>)
    requires forall i :: 0 <= i < |list| ==> list[i] < |oldToNew|
    ensures |r| == |list| && forall i :: 0 <= i < |r| ==> r[i] == oldToNew[list[i]]
  {
    seq(|list|, i requires 0 <= i < |list| => oldToNew[list[i]])
  }

  /** `oldToNew` carries the graph `before` over to `after`: it is a bijection of the slots, and every node keeps
      its key, its level and, slot by renumbered slot, its neighbours on every level. */
  ghost predicate Isomorphic(before: seq<Node>, after: seq<Node>, oldToNew: seq<nat>) {
    && |before| == |after| && Permutation(oldToNew, |before|)
    && forall u :: 0 <= u < |before| ==>
         && after[oldToNew[u]].key == before[u].key
         && after[oldToNew[u]].level == before[u].level
         && |after[oldToNew[u]].neighbors| == |before[u].neighbors|
         && forall l :: 0 <= l < |before[u].neighbors| ==>
              ListRenumbered(before[u].neighbors[l], after[oldToNew[u]].neighbors[l], oldToNew)
  }

  ghost predicate ListRenumbered(list: seq<nat>, renumbered: seq<nat>, oldToNew: seq<nat>) {
    (forall i :: 0 <= i < |list| ==> list[i] < |oldToNew|) && renumbered == Renumbered(list, oldToNew)
  }

  /** `oldToNew` is the inverse of `order`. */
  ghost predicate Inverse(order: seq<nat>, oldToNew: seq<nat>) {
    |oldToNew| == |order| && forall k :: 0 <= k < |order| ==> order[k] < |oldToNew| && oldToNew[order[k]] == k
  }

  lemma InversePermutation(order: seq<nat>, oldToNew: seq<nat>)
    requires Permutation(order, |order|) && Inverse(order, oldToNew)
    ensures Permutation(oldToNew, |order|)
    ensures forall u :: 0 <= u < |oldToNew| ==> oldToNew[u] < |order| && order[oldToNew[u]] == u
  {
    forall u | 0 <= u < |oldToNew|
      ensures oldToNew[u] < |order| && order[oldToNew[u]] == u
    {
      PermutationCovers(order, |order|, u);
      var k :| 0 <= k < |order| && order[k] == u;
    }
  }

  /** Renumbering the lists of one node. */
  method RenumberNode(node: Node, oldToNew: seq<nat>) returns (r: Node)
    requires forall l, i :: 0 <= l < |node.neighbors| && 0 <= i < |node.neighbors[l]| ==> node.neighbors[l][i] < |oldToNew|
    ensures r.key == node.key && r.level == node.level && |r.neighbors| == |node.neighbors|
    ensures forall l :: 0 <= l < |node.neighbors| ==> ListRenumbered(node.neighbors[l], r.neighbors[l], oldToNew)
  {
    var lists := node.neighbors;
    for level := 0 to |node.neighbors|
      invariant |lists| == |node.neighbors|
      invariant forall l :: 0 <= l < level ==> ListRenumbered(node.neighbors[l], lists[l], oldToNew)
    {
      lists := lists[level := Renumbered(node.neighbors[level], oldToNew)];
    }
    r := node.(neighbors := lists);
  }

  lemma NeighborsExist(nodes: seq<Node>, c: nat, cb: nat, u: nat)
    requires GraphOk(nodes, c, cb) && u < |nodes|
    ensures |nodes[u].neighbors| == nodes[u].level + 1
    ensures forall l, i :: 0 <= l < |nodes[u].neighbors| && 0 <= i < |nodes[u].neighbors[l]| ==> nodes[u].neighbors[l][i] < |nodes|
  {
    assert NodeOk(nodes, u, c, cb);
    forall l, i | 0 <= l < |nodes[u].neighbors| && 0 <= i < |nodes[u].neighbors[l]|
      ensures nodes[u].neighbors[l][i] < |nodes|
    {
      assert ListOk(nodes, u, l, nodes[u].neighbors[l], Cap(l, c, cb));
      assert nodes[u].neighbors[l][i] in nodes[u].neighbors[l];
    }
  }

  /** Builds the inverse of the sorted order. */
  method InvertOrder(order: seq<nat>) returns (oldToNew: seq<nat>)
    requires Permutation(order, |order|)
    ensures Inverse(order, oldToNew)
  {
    var slots := new nat[|order|];
    for newSlot := 0 to |order|
      invariant forall k :: 0 <= k < newSlot ==> order[k] in order && slots[order[k]] == k
    {
      assert order[newSlot] in order;
      slots[order[newSlot]] := newSlot;
    }
    oldToNew := slots[..];
  }

  /** The reordered, renumbered nodes. */
  method Reorder(nodes: seq<Node>, c: nat, cb: nat, order: seq<nat>, oldToNew: seq<nat>) returns (after: seq<Node>)
    requires GraphOk(nodes, c, cb) && Permutation(order, |nodes|) && Inverse(order, oldToNew)
    ensures Isomorphic(nodes, after, oldToNew)
    ensures forall k :: 0 <= k < |after| ==> order[k] < |nodes| && after[k].level == nodes[order[k]].level
  {
    after := [];
    for newSlot := 0 to |nodes|
      invariant |after| == newSlot
      invariant forall k :: 0 <= k < newSlot ==> Moved(nodes, after[k], order[k], oldToNew)
    {
      assert order[newSlot] in order;
      NeighborsExist(nodes, c, cb, order[newSlot]);
      var node := RenumberNode(nodes[order[newSlot]], oldToNew);
      after := after + [node];
    }
    InversePermutation(order, oldToNew);
    forall u | 0 <= u < |nodes|
      ensures Moved(nodes, after[oldToNew[u]], u, oldToNew)
    {
      assert order[oldToNew[u]] == u;
    }
  }

  /** `node` is node `u` with renumbered neighbours. */
  ghost predicate Moved(nodes: seq<Node>, node: Node, u: nat, oldToNew: seq<nat>) {
    && u < |nodes| && node.key == nodes[u].key && node.level == nodes[u].level
    && |node.neighbors| == |nodes[u].neighbors|
    && forall l :: 0 <= l < |nodes[u].neighbors| ==> ListRenumbered(nodes[u].neighbors[l], node.neighbors[l], oldToNew)
  }

  /** A renumbered graph is as well formed as the original, with the entry point carried along. */
  lemma IsomorphicOk(before: seq<Node>, after: seq<Node>, oldToNew: seq<nat>, c: nat, cb: nat, entrySlot: nat, maxLevel: int)
    requires Isomorphic(before, after, oldToNew) && before != []
    requires GraphOk(before, c, cb) && EntryOk(before, entrySlot, maxLevel)
    ensures GraphOk(after, c, cb) && EntryOk(after, oldToNew[entrySlot], maxLevel)
  {
    forall v | 0 <= v < |after|
      ensures NodeOk(after, v, c, cb) && after[v].level <= maxLevel
    {
      PermutationCovers(oldToNew, |before|, v);
      var u :| 0 <= u < |before| && oldToNew[u] == v;
      assert NodeOk(before, u, c, cb);
      forall l | 0 <= l <= after[v].level
        ensures ListOk(after, v, l, after[v].neighbors[l], Cap(l, c, cb))
      {
        ListRenumberedOk(before, after, oldToNew, u, l, Cap(l, c, cb));
      }
    }
    assert oldToNew[entrySlot] in oldToNew;
  }

  lemma ListRenumberedOk(before: seq<Node>, after: seq<Node>, oldToNew: seq<nat>, u: nat, l: nat, cap: nat)
    requires Isomorphic(before, after, oldToNew) && u < |before| && l < |before[u].neighbors|
    requires ListOk(before, u, l, before[u].neighbors[l], cap)
    ensures ListOk(after, oldToNew[u], l, after[oldToNew[u]].neighbors[l], cap)
  {
    var list, renumbered := before[u].neighbors[l], after[oldToNew[u]].neighbors[l];
    assert ListRenumbered(list, renumbered, oldToNew);
    forall i | 0 <= i < |renumbered|
      ensures renumbered[i] < |after| && renumbered[i] != oldToNew[u] && l <= after[renumbered[i]].level
    {
      assert list[i] in list && oldToNew[list[i]] in oldToNew;
    }
    forall i, j | 0 <= i < j < |renumbered|
      ensures renumbered[i] != renumbered[j]
    {
      assert list[i] in list && list[j] in list;
    }
  }

  /** What is reachable, on any level and in any number of steps, stays reachable between the renumbered slots, and no more is. */
  lemma {:induction false} ReachCarriedOver(before: seq<Node>, after: seq<Node>, oldToNew: seq<nat>, c: nat, cb: nat,
                                            level: nat, a: nat, b: nat, n: nat)
    requires Isomorphic(before, after, oldToNew) && GraphOk(before, c, cb) && a < |before| && b < |before|
    ensures Within(before, level, a, b, n) <==> Within(after, level, oldToNew[a], oldToNew[b], n)
    decreases n
  {
    if n > 0 && Within(before, level, a, b, n) && a != b {
      var u :| Within(before, level, a, u, n - 1) && b in At(before, level, u);
      ReachCarriedOver(before, after, oldToNew, c, cb, level, a, u, n - 1);
      LinkCarriedOver(before, after, oldToNew, level, u, b);
    }
    if n > 0 && Within(after, level, oldToNew[a], oldToNew[b], n) && a != b {
      var v :| Within(after, level, oldToNew[a], v, n - 1) && oldToNew[b] in At(after, level, v);
      PermutationCovers(oldToNew, |before|, v);
      var u :| 0 <= u < |before| && oldToNew[u] == v;
      ReachCarriedOver(before, after, oldToNew, c, cb, level, a, u, n - 1);
      LinkCarriedOver(before, after, oldToNew, level, u, b);
    }
  }

  lemma LinkCarriedOver(before: seq<Node>, after: seq<Node>, oldToNew: seq<nat>, level: nat, u: nat, b: nat)
    requires Isomorphic(before, after, oldToNew) && u < |before| && b < |before|
    ensures b in At(before, level, u) <==> oldToNew[b] in At(after, level, oldToNew[u])
  {
    if level < |before[u].neighbors| {
      var list, renumbered := before[u].neighbors[level], after[oldToNew[u]].neighbors[level];
      assert ListRenumbered(list, renumbered, oldToNew);
      if b in list {
        var i :| 0 <= i < |list| && list[i] == b;
        assert renumbered[i] == oldToNew[b];
      }
      if oldToNew[b] in renumbered {
        var i :| 0 <= i < |renumbered| && renumbered[i] == oldToNew[b];
        assert list[i] in list;
      }
    }
  }

  /** The new slots ascend as the levels fall, and among the nodes of one level as the clusters rise. */
  ghost predicate SlotsAscend(nodes: seq<Node>, clusters: seq<nat>, oldToNew: seq<nat>) {
    && |clusters| == |oldToNew| == |nodes|
    && (forall u, v :: 0 <= u < |nodes| && 0 <= v < |nodes| && nodes[u].level > nodes[v].level ==> oldToNew[u] < oldToNew[v])
    && (forall u, v :: 0 <= u < |nodes| && 0 <= v < |nodes| && nodes[u].level == nodes[v].level && clusters[u] < clusters[v] ==>
          oldToNew[u] < oldToNew[v])
  }

  lemma OrderedAscend(nodes: seq<Node>, clusters: seq<nat>, order: seq<nat>, oldToNew: seq<nat>)
    requires Permutation(order, |nodes|) && OrderedSlots(nodes, clusters, order) && Inverse(order, oldToNew)
    requires |clusters| == |nodes|
    ensures SlotsAscend(nodes, clusters, oldToNew)
  {
    InversePermutation(order, oldToNew);
    forall u, v | 0 <= u < |nodes| && 0 <= v < |nodes|
                 && (nodes[u].level > nodes[v].level || (nodes[u].level == nodes[v].level && clusters[u] < clusters[v]))
      ensures oldToNew[u] < oldToNew[v]
    {
      assert order[oldToNew[u]] == u && order[oldToNew[v]] == v;
      assert oldToNew[v] < oldToNew[u] ==> MayPrecede(nodes, clusters, v, u);
    }
  }

  /** Renumbers the graph by level and cluster. The clusters are whatever the descent found for each slot. */
  method Compact(nodes: seq<Node>, c: nat, cb: nat, entrySlot: nat, maxLevel: int, clusters: seq<nat>)
    returns (after: seq<Node>, newEntry: nat, oldToNew: seq<nat>, ghost order: seq<nat>)
    requires nodes != [] && GraphOk(nodes, c, cb) && EntryOk(nodes, entrySlot, maxLevel) && |clusters| == |nodes|
    ensures Isomorphic(nodes, after, oldToNew) && newEntry == oldToNew[entrySlot]
    ensures GraphOk(after, c, cb) && EntryOk(after, newEntry, maxLevel)
    ensures Permutation(order, |nodes|) && OrderedSlots(nodes, clusters, order) && Inverse(order, oldToNew)
    ensures SlotsAscend(nodes, clusters, oldToNew)
    ensures forall i, j :: 0 <= i < j < |after| ==> after[i].level >= after[j].level
  {
    var sorted := SortSlots(nodes, clusters);
    order := sorted;
    oldToNew := InvertOrder(sorted);
    InversePermutation(sorted, oldToNew);
    OrderedAscend(nodes, clusters, sorted, oldToNew);
    after := Reorder(nodes, c, cb, sorted, oldToNew);
    newEntry := oldToNew[entrySlot];
    IsomorphicOk(nodes, after, oldToNew, c, cb, entrySlot, maxLevel);
    forall i, j | 0 <= i < j < |after|
      ensures after[i].level >= after[j].level
    {
      assert MayPrecede(nodes, clusters, order[i], order[j]);
    }
  }
}
