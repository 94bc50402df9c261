/** The index itself: members are added, updated, isolated and searched for. */
module HnswIndices {
  import opened Candidates
  import opened Numbers
  import opened Graph
  import opened Links
  import opened GreedyDescent
  import opened BeamStates
  import opened BeamLists
  import opened BeamSearch
  import opened Contexts
  import opened SortedBuffers
  import opened GrowingHashSets
  import opened Connecting
  import opened ConnectMethods
  import opened Query
  import opened Neighborhoods
  import opened Relinking
  import ExactSearch
  import Compaction

  const DEFAULT_EXPANSION_ADD: nat := 128
  const DEFAULT_EXPANSION_SEARCH: nat := 64

  /** The members of a list that `allow` accepts, in order. */
  function Kept(list: seq<nat>, allow: seq<bool>): (r: seq<nat>)
    ensures |r| <= |list|
  {
    if list == [] then []
    else
      var r := Kept(list[..|list| - 1], allow);
      var last := list[|list| - 1];
      if Allows(allow, last) then r + [last] else r
  }

  /** Keeping is filtering: nothing else goes, nothing comes, and nothing is repeated that was not. */
  lemma {:induction false} KeptSpec(list: seq<nat>, allow: seq<bool>)
    ensures forall v :: v in Kept(list, allow) <==> v in list && Allows(allow, v)
    ensures NoDuplicates(list) ==> NoDuplicates(Kept(list, allow))
  {
    if list != [] {
      var rest, last := list[..|list| - 1], list[|list| - 1];
      KeptSpec(rest, allow);
      assert list == rest + [last];
      if NoDuplicates(list) {
        assert last !in rest;
      }
    }
  }

  lemma KeptOk(nodes: seq<Node>, slot: nat, level: nat, list: seq<nat>, cap: nat, allow: seq<bool>)
    requires ListOk(nodes, slot, level, list, cap)
    ensures ListOk(nodes, slot, level, Kept(list, allow), cap)
  {
    KeptSpec(list, allow);
  }

  /** Compacts the allowed members of a list to its front and drops the rest. */
  method EraseIf(list: seq<nat>, allow: seq<bool>) returns (r: seq<nat>)
    ensures r == Kept(list, allow)
  {
    r := list;
    var removed := 0;
    for i := 0 to |list|
      invariant 0 <= removed <= i && |r| == |list|
      invariant r[..i - removed] == Kept(list[..i], allow)
      invariant r[i..] == list[i..]
    {
      assert list[..i + 1][..i] == list[..i] && list[..i + 1][i] == list[i] == r[i];
      if Allows(allow, r[i]) {
        ghost var front := r[..i - removed];
        r := r[i - removed := r[i]];
        assert r[..i + 1 - removed] == front + [list[i]];
      } else {
        removed := removed + 1;
      }
    }
    r := r[..|list| - removed];
    assert list[..|list|] == list;
  }

  /** The lists of the first `u` nodes, and the first `level` lists of node `u`, are stripped of what is not allowed. */
  ghost predicate Stripped(before: seq<Node>, after: seq<Node>, u: nat, level: nat, allow: seq<bool>) {
    && SameSkeleton(before, after)
    && forall v: nat, l: nat :: At(after, l, v) ==
         if v < u || (v == u && l < level) then Kept(At(before, l, v), allow) else At(before, l, v)
  }

  lemma StrippedNext(before: seq<Node>, after: seq<Node>, u: nat, level: nat, allow: seq<bool>, c: nat, cb: nat)
    requires Stripped(before, after, u, level, allow) && GraphOk(after, c, cb)
    requires u < |after| && level <= after[u].level
    ensures level < |after[u].neighbors|
    ensures var r := WithList(after, u, level, Kept(At(before, level, u), allow));
      Stripped(before, r, u, level + 1, allow) && GraphOk(r, c, cb)
  {
    assert NodeOk(after, u, c, cb);
    var list := Kept(At(before, level, u), allow);
    KeptOk(after, u, level, after[u].neighbors[level], Cap(level, c, cb), allow);
    WithListOk(after, u, level, list, c, cb);
    SkeletonTrans(before, after, WithList(after, u, level, list));
  }

  lemma StrippedNode(before: seq<Node>, after: seq<Node>, u: nat, allow: seq<bool>, c: nat, cb: nat)
    requires u < |before| && GraphOk(before, c, cb) && Stripped(before, after, u, before[u].level + 1, allow)
    ensures Stripped(before, after, u + 1, 0, allow)
  {
    assert NodeOk(before, u, c, cb);
  }

  /** A fresh node of `level`, without neighbours. */
  function NewNode(key: nat, level: nat): Node {
    Node(key, level, seq(level + 1, _ => []))
  }

  lemma AppendedOk(nodes: seq<Node>, c: nat, cb: nat, key: nat, level: nat)
    requires GraphOk(nodes, c, cb)
    ensures var r := nodes + [NewNode(key, level)];
      && GraphOk(r, c, cb)
      && (forall l: nat, u: nat :: At(r, l, u) == At(nodes, l, u))
      && (forall l: nat, u: nat :: |nodes| !in At(nodes, l, u))
  {
    var r := nodes + [NewNode(key, level)];
    forall u: nat | u < |r|
      ensures NodeOk(r, u, c, cb)
    {
      if u < |nodes| {
        assert NodeOk(nodes, u, c, cb);
      }
    }
    forall l: nat, u: nat
      ensures |nodes| !in At(nodes, l, u)
    {
      if u < |nodes| {
        assert NodeOk(nodes, u, c, cb);
      }
    }
  }

  /** A parameter of zero asks for the default. */
  function OrDefault(expansion: nat, default: nat): nat {
    if expansion == 0 then default else expansion
  }

  /** How many candidates a search keeps: what was asked for, but no fewer than are wanted. */
  function SearchLimit(wanted: nat, expansion: nat): nat {
    Max(OrDefault(expansion, DEFAULT_EXPANSION_SEARCH), wanted)
  }

  /** Adding a node: it goes to the end of the nodes, and is connected from there. */
  ghost function Adding(nodes: seq<Node>, key: nat, level: nat, valueDist: seq<real>, between: seq<seq<real>>,
                        c: nat, cb: nat, expansion: nat): Connection {
    Connection(nodes + [NewNode(key, level)], |nodes|, true, valueDist, between, c, cb, OrDefault(expansion, DEFAULT_EXPANSION_ADD))
  }

  /** Updating a node: it is connected anew, starting from whatever links it has. */
  ghost function Updating(nodes: seq<Node>, slot: nat, valueDist: seq<real>, between: seq<seq<real>>,
                          c: nat, cb: nat, expansion: nat): Connection {
    Connection(nodes, slot, false, valueDist, between, c, cb, OrDefault(expansion, DEFAULT_EXPANSION_ADD))
  }

  lemma AddingValid(nodes: seq<Node>, key: nat, level: nat, valueDist: seq<real>, between: seq<seq<real>>,
                    c: nat, cb: nat, expansion: nat)
    requires GraphOk(nodes, c, cb) && 2 <= c <= cb
    ensures Adding(nodes, key, level, valueDist, between, c, cb, expansion).Valid()
  {
    AppendedOk(nodes, c, cb, key, level);
  }

  /** The nodes an addition leaves: the first one alone, any other one connected from its top level down,
      beginning where the descent for its value ends. */
  ghost predicate AddedNodes(before: seq<Node>, after: seq<Node>, entrySlot: nat, maxLevel: int, key: nat, level: nat,
                             valueDist: seq<real>, between: seq<seq<real>>, c: nat, cb: nat, expansion: nat,
                             stops: seq<nat>) {
    if before == [] then
      after == [NewNode(key, level)]
    else
      && maxLevel >= 0
      && |stops| == (if maxLevel > level then maxLevel - level else 0)
      && Descent(before, valueDist, entrySlot, maxLevel, stops)
      && FullyConnected(Adding(before, key, level, valueDist, between, c, cb, expansion), after, Min(level, maxLevel),
                        Current(entrySlot, stops))
  }

  lemma AddedSkeleton(before: seq<Node>, after: seq<Node>, entrySlot: nat, maxLevel: int, key: nat, level: nat,
                      valueDist: seq<real>, between: seq<seq<real>>, c: nat, cb: nat, expansion: nat, stops: seq<nat>)
    requires AddedNodes(before, after, entrySlot, maxLevel, key, level, valueDist, between, c, cb, expansion, stops)
    requires GraphOk(before, c, cb)
    ensures SameSkeleton(before + [NewNode(key, level)], after) && GraphOk(after, c, cb)
  {
    AppendedOk(before, c, cb, key, level);
    if before == [] {
      assert before + [NewNode(key, level)] == after;
    }
  }

  /** An addition leaves a graph in order with one node more, and an entry point of the highest level. */
  lemma AddedOk(before: seq<Node>, after: seq<Node>, entrySlot: nat, maxLevel: int, key: nat, level: nat,
                valueDist: seq<real>, between: seq<seq<real>>, c: nat, cb: nat, expansion: nat, stops: seq<nat>)
    requires AddedNodes(before, after, entrySlot, maxLevel, key, level, valueDist, between, c, cb, expansion, stops)
    requires GraphOk(before, c, cb) && EntryOk(before, entrySlot, maxLevel)
    ensures GraphOk(after, c, cb) && |after| == |before| + 1
    ensures EntryOk(after, if level > maxLevel then |before| else entrySlot, if level > maxLevel then level else maxLevel)
  {
    AddedSkeleton(before, after, entrySlot, maxLevel, key, level, valueDist, between, c, cb, expansion, stops);
    var mid := before + [NewNode(key, level)];
    assert mid[|before|].level == level;
    assert forall u :: 0 <= u < |before| ==> mid[u] == before[u];
  }

  /** One node more, with its key and level; the others keep theirs. */
  ghost predicate OneMore(before: seq<Node>, after: seq<Node>, key: nat, level: nat) {
    && |after| == |before| + 1
    && after[|before|].key == key && after[|before|].level == level
    && forall u :: 0 <= u < |before| ==> after[u].key == before[u].key && after[u].level == before[u].level
  }

  /** What an addition leaves, said of the nodes before and after alone: one node more, and, if it is not the first, lists
      that are relinked from the lower of its level and the highest down, the first search beginning where the descent
      stopped last. */
  ghost predicate AddedLists(before: seq<Node>, after: seq<Node>, entrySlot: nat, maxLevel: int, key: nat, level: nat,
                             valueDist: seq<real>, between: seq<seq<real>>, c: nat, cb: nat, expansion: nat, stops: seq<nat>) {
    && OneMore(before, after, key, level)
    && if before == [] then forall l: nat, u: nat :: At(after, l, u) == []
       else
         && maxLevel >= 0
         && Relinked(Newcomer(|before|, valueDist, between), before, after, if level < maxLevel then level else maxLevel,
                     if stops == [] then entrySlot else stops[|stops| - 1], c, cb, if expansion == 0 then 128 else expansion)
  }

  lemma AddedMeans(before: seq<Node>, after: seq<Node>, entrySlot: nat, maxLevel: int, key: nat, level: nat,
                   valueDist: seq<real>, between: seq<seq<real>>, c: nat, cb: nat, expansion: nat, stops: seq<nat>)
    requires AddedNodes(before, after, entrySlot, maxLevel, key, level, valueDist, between, c, cb, expansion, stops)
    requires GraphOk(before, c, cb) && 2 <= c <= cb
    ensures AddedLists(before, after, entrySlot, maxLevel, key, level, valueDist, between, c, cb, expansion, stops)
  {
    AddedSkeleton(before, after, entrySlot, maxLevel, key, level, valueDist, between, c, cb, expansion, stops);
    assert (before + [NewNode(key, level)])[|before|] == NewNode(key, level);
    if before != [] {
      AppendedOk(before, c, cb, key, level);
      AddingValid(before, key, level, valueDist, between, c, cb, expansion);
      FullyConnectedMeans(before, Adding(before, key, level, valueDist, between, c, cb, expansion), after, Min(level, maxLevel),
                          Current(entrySlot, stops));
    }
  }

  /** The nodes with another key for one of them. */
  function WithKey(nodes: seq<Node>, slot: nat, key: nat): (r: seq<Node>)
    requires slot < |nodes|
    ensures |r| == |nodes| && forall l, u :: At(r, l, u) == At(nodes, l, u)
  {
    nodes[slot := nodes[slot].(key := key)]
  }

  lemma WithKeyOk(nodes: seq<Node>, slot: nat, key: nat, c: nat, cb: nat, entrySlot: nat, maxLevel: int)
    requires slot < |nodes| && GraphOk(nodes, c, cb) && EntryOk(nodes, entrySlot, maxLevel)
    ensures GraphOk(WithKey(nodes, slot, key), c, cb) && EntryOk(WithKey(nodes, slot, key), entrySlot, maxLevel)
  {
    var r := WithKey(nodes, slot, key);
    forall u | 0 <= u < |r|
      ensures NodeOk(r, u, c, cb)
    {
      assert NodeOk(nodes, u, c, cb);
    }
  }

  /** The nodes an update leaves, before the key is replaced: the slot connected anew on its levels,
      beginning at the entry point for a node of maximal level, otherwise where the descent ends. */
  ghost predicate UpdatedNodes(before: seq<Node>, after: seq<Node>, entrySlot: nat, maxLevel: int, slot: nat,
                               valueDist: seq<real>, between: seq<seq<real>>, c: nat, cb: nat, expansion: nat, stops: seq<nat>)
    requires slot < |before|
  {
    && maxLevel >= before[slot].level
    && |stops| == maxLevel - before[slot].level
    && Descent(before, valueDist, entrySlot, maxLevel, stops)
    && FullyConnected(Updating(before, slot, valueDist, between, c, cb, expansion), after, before[slot].level,
                      Current(entrySlot, stops))
  }

  lemma UpdatedOk(before: seq<Node>, after: seq<Node>, entrySlot: nat, maxLevel: int, slot: nat, valueDist: seq<real>,
                  between: seq<seq<real>>, c: nat, cb: nat, expansion: nat, stops: seq<nat>)
    requires slot < |before| && EntryOk(before, entrySlot, maxLevel)
    requires UpdatedNodes(before, after, entrySlot, maxLevel, slot, valueDist, between, c, cb, expansion, stops)
    ensures SameSkeleton(before, after) && GraphOk(after, c, cb) && EntryOk(after, entrySlot, maxLevel)
  {
    SkeletonEntry(before, after, entrySlot, maxLevel);
  }

  /** What an update does to the neighbour lists. */
  lemma UpdatedMeans(before: seq<Node>, after: seq<Node>, entrySlot: nat, maxLevel: int, slot: nat, key: nat, valueDist: seq<real>,
                     between: seq<seq<real>>, c: nat, cb: nat, expansion: nat, stops: seq<nat>)
    requires slot < |before| && GraphOk(before, c, cb) && 2 <= c <= cb
    requires UpdatedNodes(before, after, entrySlot, maxLevel, slot, valueDist, between, c, cb, expansion, stops)
    ensures slot < |after|
    ensures Relinked(Newcomer(slot, valueDist, between), before, WithKey(after, slot, key), before[slot].level,
                     if stops == [] then entrySlot else stops[|stops| - 1], c, cb, if expansion == 0 then 128 else expansion)
  {
    FullyConnectedMeans(before, Updating(before, slot, valueDist, between, c, cb, expansion), after, before[slot].level,
                        Current(entrySlot, stops));
    SameListsRelinked(Newcomer(slot, valueDist, between), before, after, WithKey(after, slot, key), before[slot].level,
                      Current(entrySlot, stops), c, cb, if expansion == 0 then 128 else expansion);
  }

  /** The keys of the nodes, slot by slot: all that the dense index keeps track of. */
  ghost function KeysOf(nodes: seq<Node>): (r: seq<nat>)
    ensures |r| == |nodes| && forall u :: 0 <= u < |nodes| ==> r[u] == nodes[u].key
  {
    seq(|nodes|, u requires 0 <= u < |nodes| => nodes[u].key)
  }

  /** An addition appends a key and changes no other. */
  lemma AddedKeys(before: seq<Node>, after: seq<Node>, entrySlot: nat, maxLevel: int, key: nat, level: nat,
                  valueDist: seq<real>, between: seq<seq<real>>, c: nat, cb: nat, expansion: nat, stops: seq<nat>)
    requires AddedNodes(before, after, entrySlot, maxLevel, key, level, valueDist, between, c, cb, expansion, stops)
    requires GraphOk(before, c, cb)
    ensures KeysOf(after) == KeysOf(before) + [key]
  {
    AddedSkeleton(before, after, entrySlot, maxLevel, key, level, valueDist, between, c, cb, expansion, stops);
  }

  /** An update replaces the key of its slot and changes no other. */
  lemma UpdatedKeys(before: seq<Node>, after: seq<Node>, entrySlot: nat, maxLevel: int, slot: nat, key: nat, valueDist: seq<real>,
                    between: seq<seq<real>>, c: nat, cb: nat, expansion: nat, stops: seq<nat>)
    requires slot < |before| && EntryOk(before, entrySlot, maxLevel)
    requires UpdatedNodes(before, after, entrySlot, maxLevel, slot, valueDist, between, c, cb, expansion, stops)
    ensures slot < |after| && KeysOf(WithKey(after, slot, key)) == KeysOf(before)[slot := key]
  {
    UpdatedOk(before, after, entrySlot, maxLevel, slot, valueDist, between, c, cb, expansion, stops);
  }

  /** Where the node table has no slot for the new node, what the addition overwrites is not part of this model. */
  datatype Addition = Added(slot: nat) | Full | NoSlot

  class HnswIndex {
    const connectivity: nat
    const connectivityBase: nat
    const context: Context
    const topForRefine: SortedBuffer

    var nodes: seq<Node>
    var capacity: nat
    /** The slots of the node table; compacting makes it as short as there are nodes, and leaves the capacity. */
    var tableSize: nat
    var entrySlot: nat
    var maxLevel: int

    ghost predicate Valid()
      reads this, topForRefine, context, context.top, context.next, context.visits, Footprint()
    {
      && 2 <= connectivity <= connectivityBase
      && |nodes| <= capacity <= FREE && |nodes| <= tableSize
      && GraphOk(nodes, connectivity, connectivityBase)
      && EntryOk(nodes, entrySlot, maxLevel)
      && context.Valid() && topForRefine.Valid()
      && Apart(topForRefine, context)
      && this !in context.Footprint()
      && (capacity > 0 ==> connectivityBase < topForRefine.elements.Length)
    }

    ghost function Footprint(): set<object>
      reads this, topForRefine, context, context.top, context.next, context.visits
    {
      {this, topForRefine, topForRefine.elements} + context.Footprint()
    }

    constructor (connectivity: nat, connectivityBase: nat, hash: nat -> nat)
      requires 2 <= connectivity <= connectivityBase
      ensures Valid() && fresh(Footprint())
      ensures nodes == [] && capacity == tableSize == 0
    {
      this.connectivity, this.connectivityBase := connectivity, connectivityBase;
      context := new Context(hash);
      topForRefine := new SortedBuffer();
      nodes, capacity, tableSize, entrySlot, maxLevel := [], 0, 0, 0, -1;
    }

    /** Makes room for `members` nodes in all; the table is made anew only if the capacity grows. */
    method Reserve(members: nat)
      requires Valid() && members <= FREE
      modifies this`capacity, this`tableSize, topForRefine
      ensures Valid() && fresh(Footprint() - old(Footprint()))
      ensures capacity == Max(members, old(capacity))
      ensures tableSize == if members <= old(capacity) then old(tableSize) else members
    {
      if members <= capacity {
        return;
      }
      topForRefine.Reserve(connectivityBase + 1);
      capacity, tableSize := members, members;
    }

    /** The descent from the entry point to just above `endLevel`. */
    method Descend(dist: seq<real>, endLevel: nat) returns (closest: nat, ghost stops: seq<nat>)
      requires Valid() && nodes != []
      ensures closest < |nodes| && Min(maxLevel, endLevel) <= nodes[closest].level
      ensures Dist(dist, closest) <= Dist(dist, entrySlot)
      ensures |stops| == if maxLevel > endLevel then maxLevel - endLevel else 0
      ensures Descent(nodes, dist, entrySlot, maxLevel, stops) && closest == Current(entrySlot, stops)
    {
      closest, stops := SearchForOne(nodes, connectivity, connectivityBase, dist, entrySlot, maxLevel, endLevel);
    }

    /** Connects a node, with this index's working memory. */
    method Connect(k: Connection, top: nat, start: nat) returns (connected: seq<Node>)
      requires Valid() && capacity > 0 && k.Valid() && k.cb == connectivityBase && |k.base| <= FREE
      requires top <= k.base[k.slot].level && start in k.Region(top)
      modifies context.Footprint(), topForRefine, topForRefine.elements
      ensures Valid() && fresh(Footprint() - old(Footprint()))
      ensures FullyConnected(k, connected, top, start)
    {
      ghost var base := nodes;
      connected := ConnectLevels(context, topForRefine, k, top, start);
      assert nodes == base;
    }

    /** Connects a new node to the members there are. */
    method AddConnected(key: nat, level: nat, valueDist: seq<real>, between: seq<seq<real>>, expansion: nat)
      returns (connected: seq<Node>, ghost stops: seq<nat>)
      requires Valid() && nodes != [] && |nodes| < capacity
      modifies context.Footprint(), topForRefine, topForRefine.elements
      ensures Valid() && fresh(Footprint() - old(Footprint()))
      ensures AddedNodes(nodes, connected, entrySlot, maxLevel, key, level, valueDist, between, connectivity, connectivityBase,
                         expansion, stops)
    {
      var closest;
      closest, stops := Descend(valueDist, level);
      AddingValid(nodes, key, level, valueDist, between, connectivity, connectivityBase, expansion);
      var k := Connection(nodes + [NewNode(key, level)], |nodes|, true, valueDist, between, connectivity, connectivityBase,
                          OrDefault(expansion, DEFAULT_EXPANSION_ADD));
      assert k.base[closest] == nodes[closest];
      connected := Connect(k, Min(level, maxLevel), closest);
    }

    /** The nodes with a new one, which the first member has nothing to be connected to. */
    method AddNode(key: nat, level: nat, valueDist: seq<real>, between: seq<seq<real>>, expansion: nat)
      returns (after: seq<Node>, ghost stops: seq<nat>)
      requires Valid() && |nodes| < capacity
      modifies context.Footprint(), topForRefine, topForRefine.elements
      ensures Valid() && fresh(Footprint() - old(Footprint()))
      ensures AddedNodes(nodes, after, entrySlot, maxLevel, key, level, valueDist, between, connectivity, connectivityBase,
                         expansion, stops)
      ensures AddedLists(nodes, after, entrySlot, maxLevel, key, level, valueDist, between, connectivity, connectivityBase,
                         expansion, stops)
    {
      after, stops := [NewNode(key, level)], [];
      if nodes != [] {
        after, stops := AddConnected(key, level, valueDist, between, expansion);
      }
      AddedMeans(nodes, after, entrySlot, maxLevel, key, level, valueDist, between, connectivity, connectivityBase, expansion, stops);
    }

    /** Adds a member at a level drawn by the caller. `valueDist` are the distances of its value from the members,
        `between` those between members; the first member is not connected to anything. That the node table has a slot
        for it is not looked at; where it has none, the node is written beyond its end. */
    method Add(key: nat, level: nat, valueDist: seq<real>, between: seq<seq<real>>, expansion: nat)
      returns (r: Addition, ghost stops: seq<nat>)
      requires Valid()
      modifies Footprint()
      ensures Valid() && fresh(Footprint() - old(Footprint())) && capacity == old(capacity) && tableSize == old(tableSize)
      ensures r.Full? <==> |old(nodes)| >= capacity
      ensures r.NoSlot? <==> tableSize <= |old(nodes)| < capacity
      ensures !r.Added? ==> nodes == old(nodes) && entrySlot == old(entrySlot) && maxLevel == old(maxLevel)
      ensures r.Added? ==>
        && r.slot == |old(nodes)|
        && AddedNodes(old(nodes), nodes, old(entrySlot), old(maxLevel), key, level, valueDist, between,
                      connectivity, connectivityBase, expansion, stops)
        && AddedLists(old(nodes), nodes, old(entrySlot), old(maxLevel), key, level, valueDist, between,
                      connectivity, connectivityBase, expansion, stops)
        && maxLevel == (if level > old(maxLevel) then level else old(maxLevel))
        && entrySlot == (if level > old(maxLevel) then r.slot else old(entrySlot))
    {
      stops := [];
      if |nodes| >= capacity {
        return Full, stops;
      }
      if |nodes| >= tableSize {
        return NoSlot, stops;
      }
      r := Added(|nodes|);
      stops := Append(key, level, valueDist, between, expansion);
    }

    /** Adds a member that there is a slot for. */
    method Append(key: nat, level: nat, valueDist: seq<real>, between: seq<seq<real>>, expansion: nat)
      returns (ghost stops: seq<nat>)
      requires Valid() && |nodes| < capacity && |nodes| < tableSize
      modifies Footprint()
      ensures Valid() && fresh(Footprint() - old(Footprint())) && capacity == old(capacity) && tableSize == old(tableSize)
      ensures AddedNodes(old(nodes), nodes, old(entrySlot), old(maxLevel), key, level, valueDist, between,
                         connectivity, connectivityBase, expansion, stops)
      ensures AddedLists(old(nodes), nodes, old(entrySlot), old(maxLevel), key, level, valueDist, between,
                         connectivity, connectivityBase, expansion, stops)
      ensures maxLevel == (if level > old(maxLevel) then level else old(maxLevel))
      ensures entrySlot == (if level > old(maxLevel) then |old(nodes)| else old(entrySlot))
    {
      var after;
      after, stops := AddNode(key, level, valueDist, between, expansion);
      AddedOk(nodes, after, entrySlot, maxLevel, key, level, valueDist, between, connectivity, connectivityBase, expansion, stops);
      Enter(after, level);
    }

    /** Takes over the nodes with a new one of `level`, which is the entry point from now on if there was none so high. */
    method Enter(after: seq<Node>, level: nat)
      requires Valid() && |after| == |nodes| + 1 && |after| <= capacity && |after| <= tableSize
      requires GraphOk(after, connectivity, connectivityBase)
      requires EntryOk(after, if level > maxLevel then |nodes| else entrySlot, if level > maxLevel then level else maxLevel)
      modifies this`nodes, this`entrySlot, this`maxLevel
      ensures Valid() && Footprint() == old(Footprint()) && nodes == after
      ensures maxLevel == (if level > old(maxLevel) then level else old(maxLevel))
      ensures entrySlot == (if level > old(maxLevel) then |old(nodes)| else old(entrySlot))
    {
      var slot := |nodes|;
      nodes := after;
      if level > maxLevel {
        entrySlot, maxLevel := slot, level;
      }
    }

    /** Descends to a level, if it is not the highest. */
    method DescendTo(dist: seq<real>, level: nat) returns (closest: nat, ghost stops: seq<nat>)
      requires Valid() && nodes != [] && level <= maxLevel
      ensures closest < |nodes| && level <= nodes[closest].level && |stops| == maxLevel - level
      ensures Descent(nodes, dist, entrySlot, maxLevel, stops) && closest == Current(entrySlot, stops)
    {
      closest, stops := entrySlot, [];
      if level != maxLevel {
        closest, stops := Descend(dist, level);
      }
    }

    /** Connects an existing node anew, for a new value. */
    method Reconnect(slot: nat, valueDist: seq<real>, between: seq<seq<real>>, expansion: nat)
      returns (connected: seq<Node>, ghost stops: seq<nat>)
      requires Valid() && slot < |nodes|
      modifies context.Footprint(), topForRefine, topForRefine.elements
      ensures Valid() && fresh(Footprint() - old(Footprint()))
      ensures UpdatedNodes(nodes, connected, entrySlot, maxLevel, slot, valueDist, between, connectivity, connectivityBase,
                           expansion, stops)
    {
      var level := nodes[slot].level;
      var closest;
      closest, stops := DescendTo(valueDist, level);
      var k := Connection(nodes, slot, false, valueDist, between, connectivity, connectivityBase,
                          OrDefault(expansion, DEFAULT_EXPANSION_ADD));
      connected := Connect(k, level, closest);
    }

    /** Gives the member at `slot` a new key and a new value. */
    method Update(slot: nat, key: nat, valueDist: seq<real>, between: seq<seq<real>>, expansion: nat)
      returns (ghost connected: seq<Node>, ghost stops: seq<nat>)
      requires Valid() && slot < |nodes|
      modifies Footprint()
      ensures Valid() && fresh(Footprint() - old(Footprint()))
      ensures capacity == old(capacity) && entrySlot == old(entrySlot) && maxLevel == old(maxLevel)
      ensures UpdatedNodes(old(nodes), connected, entrySlot, maxLevel, slot, valueDist, between, connectivity, connectivityBase,
                           expansion, stops)
      ensures slot < |connected| && nodes == WithKey(connected, slot, key)
      ensures Relinked(Newcomer(slot, valueDist, between), old(nodes), nodes, old(nodes)[slot].level,
                       if stops == [] then entrySlot else stops[|stops| - 1], connectivity, connectivityBase,
                       if expansion == 0 then 128 else expansion)
    {
      var after;
      after, stops := Reconnect(slot, valueDist, between, expansion);
      UpdatedOk(nodes, after, entrySlot, maxLevel, slot, valueDist, between, connectivity, connectivityBase, expansion, stops);
      WithKeyOk(after, slot, key, connectivity, connectivityBase, entrySlot, maxLevel);
      UpdatedMeans(nodes, after, entrySlot, maxLevel, slot, key, valueDist, between, connectivity, connectivityBase, expansion, stops);
      connected := after;
      nodes := WithKey(after, slot, key);
    }

    /** Removes the links to slots that are not allowed from every list of node `u`. */
    method StripNode(u: nat, allow: seq<bool>, ghost before: seq<Node>)
      requires Valid() && u < |nodes| && GraphOk(before, connectivity, connectivityBase) && Stripped(before, nodes, u, 0, allow)
      modifies this`nodes
      ensures Valid() && Stripped(before, nodes, u + 1, 0, allow)
    {
      for level := 0 to nodes[u].level + 1
        invariant Valid() && |nodes| == |before| && nodes[u].level == before[u].level
        invariant Stripped(before, nodes, u, level, allow)
      {
        var list := EraseIf(At(nodes, level, u), allow);
        StrippedNext(before, nodes, u, level, allow, connectivity, connectivityBase);
        ghost var old_nodes := nodes;
        nodes := WithList(nodes, u, level, list);
        SkeletonEntry(old_nodes, nodes, entrySlot, maxLevel);
      }
      StrippedNode(before, nodes, u, allow, connectivity, connectivityBase);
    }

    /** Removes the links to slots that are not allowed; the banned nodes stay, with their outgoing links. */
    method Isolate(allow: seq<bool>)
      requires Valid()
      modifies this`nodes
      ensures Valid() && SameSkeleton(old(nodes), nodes)
      ensures forall v: nat, l: nat :: At(nodes, l, v) == Kept(At(old(nodes), l, v), allow)
    {
      ghost var before := nodes;
      for u := 0 to |nodes|
        invariant Valid() && |nodes| == |before| && Stripped(before, nodes, u, 0, allow)
      {
        StripNode(u, allow, before);
      }
    }

    /** Leaves the candidates of a beam search of the base level in the context. */
    method SearchBase(dist: seq<real>, allow: seq<bool>, limit: nat) returns (ghost stops: seq<nat>, ghost s: State)
      requires Valid() && nodes != [] && limit > 0
      modifies context.Footprint()
      ensures Valid() && fresh(Footprint() - old(Footprint()))
      ensures |stops| == maxLevel && Descent(nodes, dist, entrySlot, maxLevel, stops)
      ensures BeamResult(nodes, 0, Current(entrySlot, stops), limit, dist, allow, s, context.top.contents)
    {
      var closest;
      closest, stops := Descend(dist, 0);
      s := SearchFrom(closest, stops, dist, allow, limit);
    }

    /** Searches the base level from the node where a descent ended, with this index's working memory. */
    method SearchFrom(start: nat, ghost stops: seq<nat>, dist: seq<real>, allow: seq<bool>, limit: nat) returns (ghost s: State)
      requires Valid() && start < |nodes| && limit > 0
      requires |stops| == maxLevel && Descent(nodes, dist, entrySlot, maxLevel, stops) && start == Current(entrySlot, stops)
      modifies context.Footprint()
      ensures Valid() && fresh(Footprint() - old(Footprint()))
      ensures |stops| == maxLevel && Descent(nodes, dist, entrySlot, maxLevel, stops)
      ensures BeamResult(nodes, 0, Current(entrySlot, stops), limit, dist, allow, s, context.top.contents)
    {
      ghost var base, buffer := nodes, topForRefine.contents;
      assert topForRefine !in context.Footprint() && topForRefine.elements !in context.Footprint();
      s := SearchBaseLevel(context, nodes, connectivity, connectivityBase, start, limit, dist, allow);
      assert nodes == base && topForRefine.contents == buffer;
      assert topForRefine.Valid();
    }

    /** The results of a query, closest first: the first `wanted` of the ranking of all allowed members if the
        search is exhaustive, otherwise the first `wanted` of a beam search of the base level that starts where
        the descent from the entry point ends. */
    method Search(dist: seq<real>, allow: seq<bool>, wanted: nat, expansion: nat, exact: bool)
      returns (results: seq<Candidate>, ghost stops: seq<nat>, ghost s: State, ghost found: seq<Candidate>)
      requires Valid()
      modifies context.Footprint()
      ensures Valid() && fresh(Footprint() - old(Footprint()))
      ensures nodes == [] || wanted == 0 ==> results == []
      ensures exact ==> results == Take(ExactSearch.Ranked(|nodes|, dist, allow), wanted)
      ensures !exact && nodes != [] && wanted > 0 ==>
        && |stops| == maxLevel && Descent(nodes, dist, entrySlot, maxLevel, stops)
        && BeamResult(nodes, 0, Current(entrySlot, stops), SearchLimit(wanted, expansion), dist, allow, s, found)
        && Answers(nodes, if stops == [] then entrySlot else stops[|stops| - 1],
                   if expansion > 0 then (if expansion < wanted then wanted else expansion) else if wanted < 64 then 64 else wanted,
                   dist, allow, wanted, found, results)
    {
      results, stops, s, found := [], [], State({}, {}, {}, {}, 0.0), [];
      if nodes == [] || wanted == 0 {
        return;
      }
      if exact {
        results := SearchAll(dist, allow, wanted);
      } else {
        stops, s := SearchBase(dist, allow, SearchLimit(wanted, expansion));
        found := context.top.contents;
        BeamAnswers(nodes, Current(entrySlot, stops), SearchLimit(wanted, expansion), dist, allow, wanted, s, found);
        results := TopResults(wanted);
      }
    }

    method SearchAll(dist: seq<real>, allow: seq<bool>, wanted: nat) returns (results: seq<Candidate>)
      requires Valid() && wanted > 0
      modifies context.Footprint()
      ensures Valid() && fresh(Footprint() - old(Footprint()))
      ensures results == Take(ExactSearch.Ranked(|nodes|, dist, allow), wanted)
    {
      ExactSearch.SearchExact(|nodes|, dist, allow, wanted, context.top);
      results := TopResults(wanted);
    }

    /** What is left in the context by a search, as far as it is wanted. */
    method TopResults(wanted: nat) returns (results: seq<Candidate>)
      requires Valid()
      modifies context.top
      ensures Valid() && context.top.elements == old(context.top.elements)
      ensures results == Take(old(context.top.contents), wanted)
    {
      context.top.Shrink(wanted);
      results := context.top.elements[..context.top.size];
    }

    /** Renumbers the slots by level and cluster, and answers the new numbers. In an empty index the new number of the
        entry point is looked up in an empty table. */
    method Compact(clusters: seq<nat>) returns (inside: bool, oldToNew: seq<nat>)
      requires Valid() && |clusters| == |nodes|
      modifies this`nodes, this`entrySlot, this`tableSize
      ensures inside <==> old(nodes) != []
      ensures tableSize == if inside then |nodes| else old(tableSize)
      ensures Valid() && Compaction.Isomorphic(old(nodes), nodes, oldToNew)
      ensures inside ==> entrySlot == oldToNew[old(entrySlot)]
      ensures Compaction.SlotsAscend(old(nodes), clusters, oldToNew)
      ensures forall i, j :: 0 <= i < j < |nodes| ==> nodes[i].level >= nodes[j].level
    {
      inside := nodes != [];
      if !inside {
        return false, [];
      }
      var after, newEntry, numbers, _ := Compaction.Compact(nodes, connectivity, connectivityBase, entrySlot, maxLevel, clusters);
      nodes, entrySlot, oldToNew := after, newEntry, numbers;
      tableSize := |nodes|;
    }
  }

  /** After compacting an index with members nothing can be added: either it is full, or the node table has no slot,
      however much is reserved within the capacity there is. */
  method CompactThenAdd(index: HnswIndex, clusters: seq<nat>, members: nat, key: nat, level: nat, valueDist: seq<real>,
                        between: seq<seq<real>>, expansion: nat)
    returns (r: Addition)
    requires index.Valid() && index.nodes != [] && |clusters| == |index.nodes| && members <= index.capacity
    modifies index.Footprint()
    ensures r.NoSlot? <==> |old(index.nodes)| < old(index.capacity)
    ensures r.Full? <==> |old(index.nodes)| == old(index.capacity)
  {
    var inside, oldToNew := index.Compact(clusters);
    index.Reserve(members);
    ghost var stops;
    r, stops := index.Add(key, level, valueDist, between, expansion);
  }
}
