/** How linking a node rewrites neighbour lists, and that the graph stays well formed. */
module Links {
  import opened Candidates
  import opened Numbers
  import opened Graph
  import opened Refine

  /** The graph with one neighbour list replaced. */
  function WithList(nodes: seq<Node>, slot: nat, level: nat, list: seq<nat>): (r: seq<Node>)
    requires slot < |nodes| && level < |nodes[slot].neighbors|
    ensures |r| == |nodes| && At(r, level, slot) == list
    ensures forall l, u :: (l != level || u != slot) ==> At(r, l, u) == At(nodes, l, u)
  {
    nodes[slot := nodes[slot].(neighbors := nodes[slot].neighbors[level := list])]
  }

  /** The same nodes, but for their neighbour lists. */
  ghost predicate SameSkeleton(a: seq<Node>, b: seq<Node>) {
    && |a| == |b|
    && forall v :: 0 <= v < |a| ==>
         a[v].key == b[v].key && a[v].level == b[v].level && |a[v].neighbors| == |b[v].neighbors|
  }

  lemma ListOkSkeleton(a: seq<Node>, b: seq<Node>, slot: nat, level: nat, list: seq<nat>, cap: nat)
    requires SameSkeleton(a, b) && ListOk(a, slot, level, list, cap)
    ensures ListOk(b, slot, level, list, cap)
  {
  }

  lemma WithListOk(nodes: seq<Node>, slot: nat, level: nat, list: seq<nat>, c: nat, cb: nat)
    requires GraphOk(nodes, c, cb) && slot < |nodes| && level <= nodes[slot].level
    requires ListOk(nodes, slot, level, list, Cap(level, c, cb))
    ensures level < |nodes[slot].neighbors|
    ensures SameSkeleton(nodes, WithList(nodes, slot, level, list)) && GraphOk(WithList(nodes, slot, level, list), c, cb)
  {
    assert NodeOk(nodes, slot, c, cb);
    var r := WithList(nodes, slot, level, list);
    forall u | 0 <= u < |r|
      ensures NodeOk(r, u, c, cb)
    {
      assert NodeOk(nodes, u, c, cb);
      forall l | 0 <= l <= r[u].level
        ensures ListOk(r, u, l, r[u].neighbors[l], Cap(l, c, cb))
      {
        assert At(r, l, u) == r[u].neighbors[l] && At(nodes, l, u) == nodes[u].neighbors[l];
        ListOkSkeleton(nodes, r, u, l, r[u].neighbors[l], Cap(l, c, cb));
      }
    }
  }

  lemma SkeletonEntry(a: seq<Node>, b: seq<Node>, entrySlot: nat, maxLevel: int)
    requires SameSkeleton(a, b) && EntryOk(a, entrySlot, maxLevel)
    ensures EntryOk(b, entrySlot, maxLevel)
  {
  }

  /** The candidates a full neighbour list is pruned from: its members and the new slot, sorted by their distance
      from the owner of the list. `ownDist` is measured between stored members, `newDist` is that of the new slot. */
  ghost predicate PruneCandidates(s: seq<Candidate>, list: seq<nat>, newSlot: nat, newDist: real, ownDist: seq<real>) {
    && Sorted(s) && DistinctSlots(s)
    && |s| == |list| + 1
    && forall c :: c in s <==>
         c == Candidate(newDist, newSlot) || (c.slot in list && c.distance == Dist(ownDist, c.slot))
  }

  /** `after` is what offering the link back to `newSlot` makes of the list `before` of `owner`. */
  ghost predicate LinkedBack(before: seq<nat>, after: seq<nat>, newSlot: nat, newDist: real, ownDist: seq<real>,
                             cap: nat, m: Metric) {
    if newSlot in before then after == before
    else if |before| < cap then after == before + [newSlot]
    else exists s :: PruneCandidates(s, before, newSlot, newDist, ownDist) && after == Slots(Refined(s, cap, m))
  }

  lemma SlotsOfRefined(s: seq<Candidate>, cap: nat, m: Metric)
    requires Sorted(s) && DistinctSlots(s) && cap > 0
    ensures var r := Slots(Refined(s, cap, m));
      && |r| <= cap && NoDuplicates(r) && (s != [] ==> r != [] && r[0] == s[0].slot)
      && forall v :: v in r ==> exists c :: c in s && c.slot == v
  {
    RefinedMembers(s, cap, m);
    var refined := Refined(s, cap, m);
    forall v | v in Slots(refined)
      ensures exists c :: c in s && c.slot == v
    {
      var i :| 0 <= i < |refined| && Slots(refined)[i] == v;
      assert refined[i] in s;
    }
  }

  lemma LinkedBackOk(nodes: seq<Node>, owner: nat, level: nat, after: seq<nat>, newSlot: nat, newDist: real,
                     ownDist: seq<real>, cap: nat, m: Metric)
    requires owner < |nodes| && newSlot < |nodes| && owner != newSlot && level <= nodes[newSlot].level && cap > 0
    requires ListOk(nodes, owner, level, At(nodes, level, owner), cap)
    requires LinkedBack(At(nodes, level, owner), after, newSlot, newDist, ownDist, cap, m)
    ensures ListOk(nodes, owner, level, after, cap)
  {
    var before := At(nodes, level, owner);
    if newSlot !in before && |before| >= cap {
      var s :| PruneCandidates(s, before, newSlot, newDist, ownDist) && after == Slots(Refined(s, cap, m));
      SlotsOfRefined(s, cap, m);
    }
  }

  /** What linking `slot` at `level` does to the graph: its own list becomes `chosen`, every chosen slot is
      offered the link back, and nothing else changes. `valueDist` are the distances from the linked value. */
  ghost predicate Linked(before: seq<Node>, after: seq<Node>, slot: nat, level: nat, chosen: seq<nat>, done: nat,
                         c: nat, cb: nat, valueDist: seq<real>, between: seq<seq<real>>) {
    && SameSkeleton(before, after) && done <= |chosen|
    && At(after, level, slot) == chosen
    && (forall l, u :: l != level ==> At(after, l, u) == At(before, l, u))
    && (forall u :: u != slot && u !in chosen[..done] ==> At(after, level, u) == At(before, level, u))
    && (forall i :: 0 <= i < done ==>
          LinkedBack(At(before, level, chosen[i]), At(after, level, chosen[i]), slot,
                     Dist(valueDist, chosen[i]), Row(between, chosen[i]), Cap(level, c, cb),
                     LinkMetric(slot, valueDist, between)))
  }

  function Row(between: seq<seq<real>>, v: nat): seq<real> {
    if v < |between| then between[v] else []
  }

  /** Pruning during linking measures against the new value of `slot`, whose stored vector may be stale. */
  function LinkMetric(slot: nat, valueDist: seq<real>, between: seq<seq<real>>): Metric {
    Metric(between, true, slot, valueDist)
  }

  /** Among stored members only. */
  function StoredMetric(between: seq<seq<real>>): Metric {
    Metric(between, false, 0, [])
  }

  lemma LinkedFirst(before: seq<Node>, slot: nat, level: nat, chosen: seq<nat>, c: nat, cb: nat,
                    valueDist: seq<real>, between: seq<seq<real>>)
    requires GraphOk(before, c, cb) && slot < |before| && level <= before[slot].level
    requires ListOk(before, slot, level, chosen, Cap(level, c, cb))
    ensures level < |before[slot].neighbors|
    ensures var r := WithList(before, slot, level, chosen);
      Linked(before, r, slot, level, chosen, 0, c, cb, valueDist, between) && GraphOk(r, c, cb)
  {
    WithListOk(before, slot, level, chosen, c, cb);
  }

  /** Linking neighbour number `i` back. */
  lemma LinkedNext(before: seq<Node>, nodes: seq<Node>, slot: nat, level: nat, chosen: seq<nat>, i: nat,
                   c: nat, cb: nat, valueDist: seq<real>, between: seq<seq<real>>, list: seq<nat>)
    requires GraphOk(nodes, c, cb) && Linked(before, nodes, slot, level, chosen, i, c, cb, valueDist, between)
    requires i < |chosen| && ListOk(nodes, slot, level, chosen, Cap(level, c, cb))
    requires slot < |nodes| && level <= nodes[slot].level && Cap(level, c, cb) > 0
    requires LinkedBack(At(nodes, level, chosen[i]), list, slot, Dist(valueDist, chosen[i]), Row(between, chosen[i]),
                        Cap(level, c, cb), LinkMetric(slot, valueDist, between))
    ensures chosen[i] < |nodes| && level < |nodes[chosen[i]].neighbors|
    ensures var r := WithList(nodes, chosen[i], level, list);
      GraphOk(r, c, cb) && Linked(before, r, slot, level, chosen, i + 1, c, cb, valueDist, between)
  {
    var u := chosen[i];
    assert u in chosen && NodeOk(nodes, u, c, cb);
    assert At(nodes, level, u) == nodes[u].neighbors[level];
    LinkedBackOk(nodes, u, level, list, slot, Dist(valueDist, u), Row(between, u), Cap(level, c, cb),
                 LinkMetric(slot, valueDist, between));
    WithListOk(nodes, u, level, list, c, cb);
    var r := WithList(nodes, u, level, list);
    assert u !in chosen[..i];
    assert chosen[..i + 1] == chosen[..i] + [u];
    SkeletonTrans(before, nodes, r);
  }

  lemma SkeletonTrans(a: seq<Node>, b: seq<Node>, c: seq<Node>)
    requires SameSkeleton(a, b) && SameSkeleton(b, c)
    ensures SameSkeleton(a, c)
  {
  }
}
