/** The two linking procedures: from a node to its chosen neighbours, and back. */
module LinkMethods {
  import opened Candidates
  import opened Numbers
  import opened Graph
  import opened Refine
  import opened Links
  import opened SortedBuffers

  /** `s` holds the new slot and the first `i` of `list`. */
  ghost predicate Gathered(s: seq<Candidate>, list: seq<nat>, i: nat, newSlot: nat, newDist: real, ownDist: seq<real>)
    requires i <= |list|
  {
    && Sorted(s) && DistinctSlots(s) && |s| == i + 1
    && forall c :: c in s <==>
         c == Candidate(newDist, newSlot) || (c.slot in list[..i] && c.distance == Dist(ownDist, c.slot))
  }

  lemma GatheredNext(s: seq<Candidate>, list: seq<nat>, i: nat, newSlot: nat, newDist: real, ownDist: seq<real>,
                     after: seq<Candidate>)
    requires NoDuplicates(list) && newSlot !in list && i < |list|
    requires Gathered(s, list, i, newSlot, newDist, ownDist)
    requires after == Inserted(s, Candidate(Dist(ownDist, list[i]), list[i]))
    ensures Gathered(after, list, i + 1, newSlot, newDist, ownDist)
  {
    var x := Candidate(Dist(ownDist, list[i]), list[i]);
    InsertedSorted(s, x);
    assert list[..i + 1] == list[..i] + [list[i]];
    assert list[i] !in list[..i];
    assert after == Take(after, |s| + 1);
    TakeInsertedDistinct(s, x, |s| + 1);
    forall c
      ensures c in after <==> c in s || c == x
    {
      assert c in after <==> c in multiset(after);
    }
  }

  lemma GatheredFirst(after: seq<Candidate>, list: seq<nat>, newSlot: nat, newDist: real, ownDist: seq<real>)
    requires after == Inserted([], Candidate(newDist, newSlot))
    ensures Gathered(after, list, 0, newSlot, newDist, ownDist)
  {
    assert after == [Candidate(newDist, newSlot)];
  }

  /** Sorts the members of a full list together with the new slot. */
  method Gather(top: SortedBuffer, list: seq<nat>, newSlot: nat, newDist: real, ownDist: seq<real>)
    requires top.Valid() && |list| < top.elements.Length && NoDuplicates(list) && newSlot !in list
    modifies top, top.elements
    ensures top.Valid() && top.elements == old(top.elements)
    ensures Gathered(top.contents, list, |list|, newSlot, newDist, ownDist)
  {
    top.Clear();
    top.InsertReserved(Candidate(newDist, newSlot));
    GatheredFirst(top.contents, list, newSlot, newDist, ownDist);
    for i := 0 to |list|
      invariant top.Valid() && top.elements == old(top.elements)
      invariant Gathered(top.contents, list, i, newSlot, newDist, ownDist)
    {
      ghost var before := top.contents;
      top.InsertReserved(Candidate(Dist(ownDist, list[i]), list[i]));
      GatheredNext(before, list, i, newSlot, newDist, ownDist, top.contents);
    }
  }

  lemma GatheredAll(s: seq<Candidate>, list: seq<nat>, newSlot: nat, newDist: real, ownDist: seq<real>)
    requires Gathered(s, list, |list|, newSlot, newDist, ownDist)
    ensures PruneCandidates(s, list, newSlot, newDist, ownDist)
  {
    assert list[..|list|] == list;
  }

  function SlotsOf(elements: array<Candidate>, n: nat): (r: seq<nat>)
    reads elements
    requires n <= elements.Length
    ensures r == Slots(elements[..n])
  {
    Slots(elements[..n])
  }

  /** What becomes of the neighbour list `list` when a link to `newSlot` is offered to its owner. */
  method LinkBack(top: SortedBuffer, list: seq<nat>, newSlot: nat, newDist: real, ownDist: seq<real>, cap: nat, m: Metric)
    returns (r: seq<nat>)
    requires top.Valid() && |list| <= cap < top.elements.Length && NoDuplicates(list) && cap > 0
    modifies top, top.elements
    ensures top.Valid() && top.elements == old(top.elements)
    ensures LinkedBack(list, r, newSlot, newDist, ownDist, cap, m)
    ensures newSlot in list ==> r == list
    ensures newSlot !in list && |list| < cap ==> r == list + [newSlot]
    ensures newSlot !in list && |list| == cap ==>
      exists s :: PruneCandidates(s, list, newSlot, newDist, ownDist) && r == Slots(Refined(s, cap, m))
  {
    if newSlot in list {
      return list;
    }
    if |list| < cap {
      return list + [newSlot];
    }
    Gather(top, list, newSlot, newDist, ownDist);
    GatheredAll(top.contents, list, newSlot, newDist, ownDist);
    RefineTop(top, cap, m);
    r := SlotsOf(top.elements, top.size);
  }

  lemma ListFits(nodes: seq<Node>, c: nat, cb: nat, u: nat, level: nat)
    requires GraphOk(nodes, c, cb) && u < |nodes| && level <= nodes[u].level
    ensures NoDuplicates(At(nodes, level, u)) && |At(nodes, level, u)| <= Cap(level, c, cb)
    ensures level < |nodes[u].neighbors|
  {
    assert NodeOk(nodes, u, c, cb);
  }

  /** Offers every chosen neighbour of `slot` the link back. */
  method FormReverseLinks(top: SortedBuffer, nodes: seq<Node>, ghost before: seq<Node>, slot: nat, level: nat, chosen: seq<nat>,
                          c: nat, cb: nat, valueDist: seq<real>, between: seq<seq<real>>) returns (r: seq<Node>)
    requires top.Valid() && Cap(level, c, cb) < top.elements.Length && Cap(level, c, cb) > 0
    requires GraphOk(nodes, c, cb) && slot < |nodes| && level <= nodes[slot].level
    requires ListOk(nodes, slot, level, chosen, Cap(level, c, cb))
    requires Linked(before, nodes, slot, level, chosen, 0, c, cb, valueDist, between)
    modifies top, top.elements
    ensures top.Valid() && top.elements == old(top.elements)
    ensures GraphOk(r, c, cb) && Linked(before, r, slot, level, chosen, |chosen|, c, cb, valueDist, between)
  {
    r := nodes;
    for i := 0 to |chosen|
      invariant top.Valid() && top.elements == old(top.elements)
      invariant GraphOk(r, c, cb) && SameSkeleton(nodes, r)
      invariant Linked(before, r, slot, level, chosen, i, c, cb, valueDist, between)
    {
      r := LinkOneBack(top, r, before, slot, level, chosen, i, c, cb, valueDist, between);
    }
  }

  method LinkOneBack(top: SortedBuffer, nodes: seq<Node>, ghost before: seq<Node>, slot: nat, level: nat, chosen: seq<nat>, i: nat,
                     c: nat, cb: nat, valueDist: seq<real>, between: seq<seq<real>>) returns (r: seq<Node>)
    requires top.Valid() && Cap(level, c, cb) < top.elements.Length && Cap(level, c, cb) > 0
    requires GraphOk(nodes, c, cb) && slot < |nodes| && level <= nodes[slot].level && i < |chosen|
    requires ListOk(nodes, slot, level, chosen, Cap(level, c, cb))
    requires Linked(before, nodes, slot, level, chosen, i, c, cb, valueDist, between)
    modifies top, top.elements
    ensures top.Valid() && top.elements == old(top.elements)
    ensures GraphOk(r, c, cb) && SameSkeleton(nodes, r)
    ensures Linked(before, r, slot, level, chosen, i + 1, c, cb, valueDist, between)
  {
    var u := chosen[i];
    assert u in chosen;
    ListFits(nodes, c, cb, u, level);
    var list := LinkBack(top, At(nodes, level, u), slot, Dist(valueDist, u), Row(between, u), Cap(level, c, cb),
                         LinkMetric(slot, valueDist, between));
    LinkedNext(before, nodes, slot, level, chosen, i, c, cb, valueDist, between, list);
    r := WithList(nodes, u, level, list);
  }
}
