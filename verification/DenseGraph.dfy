/** The graph and the bookkeeping of a dense index together: what additions keep consistent, and what a search reports. */
module DenseGraphs {
  import opened Candidates
  import opened Numbers
  import opened Graph
  import opened ExactSearch
  import opened GreedyDescent
  import opened Query
  import opened HnswIndices
  import opened ProbeTables
  import opened DenseSlots
  import BeamLists
  import Compaction

  /** Free slots and key lookup agree with the keys of the nodes. */
  ghost predicate Tracked(nodes: seq<Node>, ring: seq<nat>, entries: multiset<Entry>, multi: bool) {
    Consistent(KeysOf(nodes), ring, entries, multi)
  }

  /** A member added with a new node: graph, free slots and lookup agree afterwards exactly if its key is not the one that
      marks free slots. */
  lemma AddedTracked(before: seq<Node>, after: seq<Node>, entrySlot: nat, maxLevel: int, key: nat, level: nat,
                     valueDist: seq<real>, between: seq<seq<real>>, c: nat, cb: nat, expansion: nat, stops: seq<nat>,
                     ring: seq<nat>, entries: multiset<Entry>, multi: bool)
    requires AddedNodes(before, after, entrySlot, maxLevel, key, level, valueDist, between, c, cb, expansion, stops)
    requires GraphOk(before, c, cb) && Tracked(before, ring, entries, multi)
    requires multi || Unused(KeysOf(before), key) || key == FREE_KEY
    ensures Tracked(after, ring, entries + multiset{Entry(key, |before|)}, multi) <==> key != FREE_KEY
  {
    AddedKeys(before, after, entrySlot, maxLevel, key, level, valueDist, between, c, cb, expansion, stops);
    Appended(KeysOf(before), ring, entries, multi, key);
  }

  /** A member added in the slot of a removed one, whose node is connected anew. */
  lemma ReusedTracked(before: seq<Node>, after: seq<Node>, entrySlot: nat, maxLevel: int, key: nat, valueDist: seq<real>,
                      between: seq<seq<real>>, c: nat, cb: nat, expansion: nat, stops: seq<nat>,
                      ring: seq<nat>, entries: multiset<Entry>, multi: bool)
    requires ring != [] && ring[0] < |before| && EntryOk(before, entrySlot, maxLevel)
    requires UpdatedNodes(before, after, entrySlot, maxLevel, ring[0], valueDist, between, c, cb, expansion, stops)
    requires Tracked(before, ring, entries, multi) && (multi || Unused(KeysOf(before), key)) && key != FREE_KEY
    ensures ring[0] < |after|
    ensures Tracked(HnswIndices.WithKey(after, ring[0], key), ring[1..], entries + multiset{Entry(key, ring[0])}, multi)
  {
    UpdatedKeys(before, after, entrySlot, maxLevel, ring[0], key, valueDist, between, c, cb, expansion, stops);
    Reused(KeysOf(before), ring, entries, multi, key);
  }

  lemma SameKeys(keys: seq<nat>, other: seq<nat>, entries: multiset<Entry>)
    requires |keys| == |other| && LookedUp(keys, entries) && LookedUp(other, entries)
    ensures keys == other
  {
    forall s: nat | s < |keys|
      ensures keys[s] == other[s]
    {
      var e, f := Entry(keys[s], s), Entry(other[s], s);
      assert entries[e] == if HasKey(keys, e) then 1 else 0;
      assert entries[e] == if HasKey(other, e) then 1 else 0;
      assert entries[f] == if HasKey(keys, f) then 1 else 0;
      assert entries[f] == if HasKey(other, f) then 1 else 0;
    }
  }

  /** Every node takes the slot of a node with the same key. */
  ghost predicate KeysStay(nodes: seq<Node>, oldToNew: seq<nat>) {
    && |oldToNew| == |nodes|
    && forall u: nat :: u < |nodes| ==> oldToNew[u] < |nodes| && nodes[oldToNew[u]].key == nodes[u].key
  }

  /** Compacting renumbers the nodes, while free slots and lookup keep the old numbers: they still agree with the graph
      exactly if no slot gets another key. */
  lemma CompactedTracked(before: seq<Node>, after: seq<Node>, oldToNew: seq<nat>, ring: seq<nat>, entries: multiset<Entry>,
                         multi: bool)
    requires Compaction.Isomorphic(before, after, oldToNew) && Tracked(before, ring, entries, multi)
    ensures Tracked(after, ring, entries, multi) <==> KeysStay(before, oldToNew)
  {
    var keys, moved := KeysOf(before), KeysOf(after);
    if Tracked(after, ring, entries, multi) {
      SameKeys(keys, moved, entries);
      forall u: nat | u < |before|
        ensures oldToNew[u] < |before| && before[oldToNew[u]].key == before[u].key
      {
        assert keys[oldToNew[u]] == moved[oldToNew[u]];
      }
    }
    if KeysStay(before, oldToNew) {
      forall v: nat | v < |before|
        ensures moved[v] == keys[v]
      {
        Compaction.PermutationCovers(oldToNew, |before|, v);
        var u :| 0 <= u < |oldToNew| && oldToNew[u] == v;
      }
      assert moved == keys;
    }
  }

  /** Where keys are unique, that is exactly if every member keeps its slot. */
  lemma CompactedUnique(before: seq<Node>, after: seq<Node>, oldToNew: seq<nat>, ring: seq<nat>, entries: multiset<Entry>)
    requires Compaction.Isomorphic(before, after, oldToNew) && Tracked(before, ring, entries, false)
    ensures Tracked(after, ring, entries, false) <==>
            forall u: nat :: u < |before| && before[u].key != FREE_KEY ==> oldToNew[u] == u
  {
    CompactedTracked(before, after, oldToNew, ring, entries, false);
    var keys := KeysOf(before);
    if KeysStay(before, oldToNew) {
      forall u: nat | u < |before| && before[u].key != FREE_KEY
        ensures oldToNew[u] == u
      {
        assert keys[u] == keys[oldToNew[u]];
      }
    }
    if forall u: nat :: u < |before| && before[u].key != FREE_KEY ==> oldToNew[u] == u {
      forall u: nat | u < |before|
        ensures before[oldToNew[u]].key == before[u].key
      {
        var v := oldToNew[u];
        assert oldToNew[v] == oldToNew[u] ==> v == u;
      }
    }
  }

  /** The filter of a dense search: members whose key the caller's predicate accepts, and no free slots. */
  function MembersOnly(nodes: seq<Node>, accepts: nat -> bool): (allow: seq<bool>)
    ensures |allow| == |nodes|
    ensures forall u :: 0 <= u < |nodes| ==> (allow[u] <==> nodes[u].key != FREE_KEY && accepts(nodes[u].key))
  {
    seq(|nodes|, u requires 0 <= u < |nodes| => nodes[u].key != FREE_KEY && accepts(nodes[u].key))
  }

  /** `v` is a member that is looked up under an accepted key. */
  ghost predicate IsMember(v: nat, nodes: seq<Node>, ring: seq<nat>, entries: multiset<Entry>, accepts: nat -> bool) {
    && v < |nodes| && v !in ring
    && entries[Entry(nodes[v].key, v)] == 1 && accepts(nodes[v].key)
  }

  /** Whom the filter lets pass: exactly the members with accepted keys. */
  lemma AllowedMembers(nodes: seq<Node>, ring: seq<nat>, entries: multiset<Entry>, multi: bool, accepts: nat -> bool, v: nat)
    requires Tracked(nodes, ring, entries, multi)
    ensures Allows(MembersOnly(nodes, accepts), v) <==> IsMember(v, nodes, ring, entries, accepts)
  {
    if v < |nodes| {
      var e := Entry(nodes[v].key, v);
      assert entries[e] == if HasKey(KeysOf(nodes), e) then 1 else 0;
      assert v in ring <==> KeysOf(nodes)[v] == FREE_KEY;
    }
  }

  lemma EligibleMembers(nodes: seq<Node>, ring: seq<nat>, entries: multiset<Entry>, multi: bool, dist: seq<real>,
                        accepts: nat -> bool, c: Candidate)
    requires Tracked(nodes, ring, entries, multi)
    ensures Eligible(c, |nodes|, dist, MembersOnly(nodes, accepts)) <==>
            IsMember(c.slot, nodes, ring, entries, accepts) && c.distance == Dist(dist, c.slot)
  {
    AllowedMembers(nodes, ring, entries, multi, accepts, c.slot);
  }

  /** All results are members with accepted keys, at their distances, each once and the closest first. */
  ghost predicate MembersReported(results: seq<Candidate>, wanted: nat, nodes: seq<Node>, ring: seq<nat>,
                                  entries: multiset<Entry>, dist: seq<real>, accepts: nat -> bool) {
    && Sorted(results) && DistinctSlots(results) && |results| <= wanted
    && forall c :: c in results ==> IsMember(c.slot, nodes, ring, entries, accepts) && c.distance == Dist(dist, c.slot)
  }

  lemma RankingReported(nodes: seq<Node>, ring: seq<nat>, entries: multiset<Entry>, multi: bool, dist: seq<real>,
                        accepts: nat -> bool, wanted: nat)
    requires Tracked(nodes, ring, entries, multi)
    ensures MembersReported(Take(Ranked(|nodes|, dist, MembersOnly(nodes, accepts)), wanted), wanted, nodes, ring, entries,
                            dist, accepts)
  {
    var all := Ranked(|nodes|, dist, MembersOnly(nodes, accepts));
    RankedSpec(|nodes|, dist, MembersOnly(nodes, accepts));
    forall c | c in Take(all, wanted)
      ensures IsMember(c.slot, nodes, ring, entries, accepts) && c.distance == Dist(dist, c.slot)
    {
      assert c in all;
      EligibleMembers(nodes, ring, entries, multi, dist, accepts, c);
    }
    forall i, j | 0 <= i < j < |Take(all, wanted)|
      ensures Take(all, wanted)[i].slot != Take(all, wanted)[j].slot
    {
      assert all[i] in all && all[j] in all && Precedes(all[i], all[j]);
    }
  }

  /** The members with accepted keys that can be reached from `start`. */
  ghost function ReachableMembers(nodes: seq<Node>, ring: seq<nat>, entries: multiset<Entry>, accepts: nat -> bool, start: nat)
    : set<nat>
  {
    set v | v in ReachSlots(nodes, 0, start) && IsMember(v, nodes, ring, entries, accepts)
  }

  /** What a dense search that is not exhaustive finds, at most `limit`: members with accepted keys, by distance. The start
      and every neighbour of one found are found too, if they are such members, unless the list is full of members no
      farther. With room for all that is reachable, exactly the reachable members are found. */
  ghost predicate MembersFound(found: seq<Candidate>, limit: nat, nodes: seq<Node>, ring: seq<nat>, entries: multiset<Entry>,
                               dist: seq<real>, accepts: nat -> bool, start: nat) {
    && MembersReported(found, limit, nodes, ring, entries, dist, accepts)
    && (forall c :: c in found ==> c.slot in ReachableMembers(nodes, ring, entries, accepts, start))
    && (IsMember(start, nodes, ring, entries, accepts) ==> Listed(found, limit, dist, start))
    && (forall c, v :: c in found && v in At(nodes, 0, c.slot) && IsMember(v, nodes, ring, entries, accepts) ==>
          Listed(found, limit, dist, v))
    && (|ReachSlots(nodes, 0, start)| <= limit ==>
          && (forall v :: v in ReachableMembers(nodes, ring, entries, accepts, start) ==> Candidate(Dist(dist, v), v) in found)
          && |found| == |ReachableMembers(nodes, ring, entries, accepts, start)|)
  }

  lemma BestMembers(nodes: seq<Node>, ring: seq<nat>, entries: multiset<Entry>, multi: bool, dist: seq<real>,
                    accepts: nat -> bool, start: nat, limit: nat, found: seq<Candidate>)
    requires Tracked(nodes, ring, entries, multi)
    requires BestFound(nodes, 0, start, limit, dist, MembersOnly(nodes, accepts), found)
    ensures MembersFound(found, limit, nodes, ring, entries, dist, accepts, start)
  {
    forall v: nat
      ensures Allows(MembersOnly(nodes, accepts), v) <==> IsMember(v, nodes, ring, entries, accepts)
    {
      AllowedMembers(nodes, ring, entries, multi, accepts, v);
    }
    if |ReachSlots(nodes, 0, start)| <= limit {
      FoundSize(nodes, ring, entries, dist, accepts, start, found);
    }
  }

  lemma FoundSize(nodes: seq<Node>, ring: seq<nat>, entries: multiset<Entry>, dist: seq<real>, accepts: nat -> bool,
                  start: nat, found: seq<Candidate>)
    requires DistinctSlots(found)
    requires forall c :: c in found ==> c.slot in ReachableMembers(nodes, ring, entries, accepts, start)
    requires forall v :: v in ReachableMembers(nodes, ring, entries, accepts, start) ==> Candidate(Dist(dist, v), v) in found
    ensures |found| == |ReachableMembers(nodes, ring, entries, accepts, start)|
  {
    BeamLists.SlotSetSize(found);
    assert BeamLists.SlotSet(found) == ReachableMembers(nodes, ring, entries, accepts, start);
  }

  /** The results are the first `wanted` of what was found. */
  ghost predicate FirstOf(results: seq<Candidate>, found: seq<Candidate>, wanted: nat) {
    results == found[..if wanted < |found| then wanted else |found|]
  }

  lemma FirstReported(results: seq<Candidate>, found: seq<Candidate>, limit: nat, wanted: nat, nodes: seq<Node>, ring: seq<nat>,
                      entries: multiset<Entry>, dist: seq<real>, accepts: nat -> bool)
    requires MembersReported(found, limit, nodes, ring, entries, dist, accepts) && FirstOf(results, found, wanted)
    ensures MembersReported(results, wanted, nodes, ring, entries, dist, accepts)
  {
    forall c | c in results
      ensures c in found
    {
    }
  }

  /** With room for all that is reachable, as many members are reported as are wanted and reachable, and no reachable
      member left out is closer than one reported. */
  lemma ReachableReported(results: seq<Candidate>, found: seq<Candidate>, limit: nat, wanted: nat, nodes: seq<Node>, ring: seq<nat>,
                          entries: multiset<Entry>, dist: seq<real>, accepts: nat -> bool, start: nat)
    requires MembersFound(found, limit, nodes, ring, entries, dist, accepts, start) && FirstOf(results, found, wanted)
    requires |ReachSlots(nodes, 0, start)| <= limit
    ensures var members := ReachableMembers(nodes, ring, entries, accepts, start);
      && |results| == (if wanted < |members| then wanted else |members|)
      && forall v :: v in members ==> Candidate(Dist(dist, v), v) in results || NoneFarther(results, Dist(dist, v))
  {
    var members := ReachableMembers(nodes, ring, entries, accepts, start);
    forall v | v in members
      ensures Candidate(Dist(dist, v), v) in results || NoneFarther(results, Dist(dist, v))
    {
      var p :| 0 <= p < |found| && found[p] == Candidate(Dist(dist, v), v);
      if p < |results| {
        assert results[p] == found[p];
      }
    }
  }

  /** A search of a dense index: it reports members only, whatever the graph still holds of removed ones, and of them the
      first of what is found from where the descent ends, or, if it is exhaustive, of all. */
  method DenseSearch(graph: HnswIndex, dist: seq<real>, accepts: nat -> bool, wanted: nat, expansion: nat, exact: bool,
                     ghost ring: seq<nat>, ghost entries: multiset<Entry>, ghost multi: bool)
    returns (results: seq<Candidate>, ghost stops: seq<nat>, ghost found: seq<Candidate>)
    requires graph.Valid() && Tracked(graph.nodes, ring, entries, multi)
    modifies graph.context.Footprint()
    ensures graph.Valid()
    ensures MembersReported(results, wanted, graph.nodes, ring, entries, dist, accepts)
    ensures exact ==> results == Take(Ranked(|graph.nodes|, dist, MembersOnly(graph.nodes, accepts)), wanted)
    ensures !exact && graph.nodes != [] && wanted > 0 ==>
      && |stops| == graph.maxLevel && Descent(graph.nodes, dist, graph.entrySlot, graph.maxLevel, stops)
      && MembersFound(found, if expansion > 0 then (if expansion < wanted then wanted else expansion)
                             else if wanted < 64 then 64 else wanted,
                      graph.nodes, ring, entries, dist, accepts,
                      if stops == [] then graph.entrySlot else stops[|stops| - 1])
      && FirstOf(results, found, wanted)
  {
    ghost var nodes := graph.nodes;
    var allow := MembersOnly(graph.nodes, accepts);
    ghost var s;
    results, stops, s, found := graph.Search(dist, allow, wanted, expansion, exact);
    assert graph.nodes == nodes;
    RankingReported(nodes, ring, entries, multi, dist, accepts, wanted);
    if !exact && nodes != [] && wanted > 0 {
      ghost var start := if stops == [] then graph.entrySlot else stops[|stops| - 1];
      ghost var limit: nat := if expansion > 0 then (if expansion < wanted then wanted else expansion)
                              else if wanted < 64 then 64 else wanted;
      BestMembers(nodes, ring, entries, multi, dist, accepts, start, limit, found);
      FirstReported(results, found, limit, wanted, nodes, ring, entries, dist, accepts);
    }
  }

  /** Asked for as many results as there are nodes, the exhaustive search reports exactly the members with accepted keys. */
  lemma ExactFindsMembers(nodes: seq<Node>, ring: seq<nat>, entries: multiset<Entry>, multi: bool, dist: seq<real>,
                          accepts: nat -> bool, wanted: nat)
    requires Tracked(nodes, ring, entries, multi) && |nodes| <= wanted
    ensures var results := Take(Ranked(|nodes|, dist, MembersOnly(nodes, accepts)), wanted);
      forall c :: c in results <==> IsMember(c.slot, nodes, ring, entries, accepts) && c.distance == Dist(dist, c.slot)
  {
    RankedSpec(|nodes|, dist, MembersOnly(nodes, accepts));
    RankedSize(|nodes|, dist, MembersOnly(nodes, accepts));
    forall c
      ensures c in Ranked(|nodes|, dist, MembersOnly(nodes, accepts)) <==>
              IsMember(c.slot, nodes, ring, entries, accepts) && c.distance == Dist(dist, c.slot)
    {
      EligibleMembers(nodes, ring, entries, multi, dist, accepts, c);
    }
  }

  lemma {:induction false} RankedSize(n: nat, dist: seq<real>, allow: seq<bool>)
    ensures |Ranked(n, dist, allow)| <= n
  {
    if n > 0 {
      RankedSize(n - 1, dist, allow);
    }
  }
}
