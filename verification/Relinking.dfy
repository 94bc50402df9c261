/** What adding or updating a node does to the neighbour lists of every level, said of the graph before and after alone. */
module Relinking {
  import opened Candidates
  import opened Numbers
  import opened Graph
  import opened Links
  import opened Refine
  import opened Neighborhoods
  import opened Query
  import opened Connecting
  import BeamStates

  /** All slots but one. */
  function Others(count: nat, slot: nat): (allow: seq<bool>)
    ensures |allow| == count && forall v :: 0 <= v < count ==> (allow[v] <==> v != slot)
  {
    seq(count, v => v != slot)
  }

  /** How many neighbours a list may hold, are chosen, and are searched for. */
  datatype Room = Room(cap: nat, connectivity: nat, expansion: nat)

  /** One level: of the candidates that a search from `start` found, the node is linked to all if they are fewer than the
      connectivity, and otherwise to what pruning leaves of them; each of its new neighbours is offered a link back, and
      all other lists stay. */
  ghost predicate ConnectedAt(x: Newcomer, before: seq<Node>, after: seq<Node>, level: nat, start: nat, room: Room,
                              found: seq<Candidate>) {
    && start < |before| && level <= before[start].level
    && BestFound(before, level, start, room.expansion, x.valueDist, Others(|before|, x.slot), found)
    && (if |found| < room.connectivity then At(after, level, x.slot) == Slots(found)
        else PrunedFrom(x, Slots(found), At(after, level, x.slot), x.slot, room.connectivity))
    && (forall v :: v in At(after, level, x.slot) ==>
          LinkOffered(x, At(before, level, v), At(after, level, v), v, room.cap))
    && (forall v: nat :: v != x.slot && v !in At(after, level, x.slot) ==> At(after, level, v) == At(before, level, v))
  }

  ghost predicate ConnectedLevel(x: Newcomer, before: seq<Node>, after: seq<Node>, level: nat, start: nat, room: Room) {
    exists found :: ConnectedAt(x, before, after, level, start, room, found)
  }

  /** The search below a level whose list has become `own` starts at its closest member, if there is any. */
  ghost predicate StartsBelow(x: Newcomer, own: seq<nat>, start: nat, next: nat) {
    if own == [] then next == start
    else next == own[0] && forall w :: w in own ==> x.Near(x.slot, next) <= x.Near(x.slot, w)
  }

  /** The levels from `top` down are connected, the search of level `l` starting at `starts[l]`; higher levels stay. */
  ghost predicate ConnectedFrom(x: Newcomer, before: seq<Node>, after: seq<Node>, top: nat, starts: seq<nat>,
                                c: nat, cb: nat, expansion: nat) {
    && |starts| == top + 1
    && (forall l :: 0 <= l <= top ==>
          ConnectedLevel(x, before, after, l, starts[l], Room(if l > 0 then c else cb, c, expansion)))
    && (forall l :: 0 <= l < top ==> StartsBelow(x, At(after, l + 1, x.slot), starts[l + 1], starts[l]))
    && (forall l: nat, u: nat :: l > top ==> At(after, l, u) == At(before, l, u))
  }

  ghost predicate Relinked(x: Newcomer, before: seq<Node>, after: seq<Node>, top: nat, first: nat,
                           c: nat, cb: nat, expansion: nat) {
    exists starts: seq<nat> :: ConnectedFrom(x, before, after, top, starts, c, cb, expansion) && starts[top] == first
  }

  ghost function NewcomerOf(k: Connection): Newcomer {
    Newcomer(k.slot, k.valueDist, k.between)
  }

  /** `before` is the base, but for a new node without links at its end. */
  ghost predicate Underlies(before: seq<Node>, k: Connection) {
    && |k.base| == |before| + (if k.added then 1 else 0) && (k.added ==> k.slot == |before|)
    && (forall v :: 0 <= v < |before| ==> before[v].level == k.base[v].level)
    && forall l: nat, u: nat :: At(before, l, u) == At(k.base, l, u)
  }

  lemma SameSlotsReached(before: seq<Node>, k: Connection, level: nat, start: nat)
    requires k.Valid() && Underlies(before, k) && start in k.Region(level)
    ensures ReachSlots(k.base, level, start) == ReachSlots(before, level, start)
    ensures k.slot in ReachSlots(k.base, level, start) ==> !k.added
  {
    ReachedRegion(k, level, start);
    SameReachable(k.base, before, level, start);
    ReachSlotsSpec(k.base, level, start);
    ReachSlotsSpec(before, level, start);
  }

  /** The search that a connection makes finds what a search of the graph before would. */
  lemma FoundMeans(before: seq<Node>, k: Connection, level: nat, start: nat, s: BeamStates.State, found: seq<Candidate>)
    requires k.Valid() && Underlies(before, k) && start in k.Region(level)
    requires BeamResult(k.base, level, start, k.limit, k.valueDist, k.Allow(), s, found)
    ensures BestFound(before, level, start, k.limit, k.valueDist, Others(|before|, k.slot), found)
  {
    BeamBest(k.base, level, start, k.limit, k.valueDist, k.Allow(), s, found);
    SameSlotsReached(before, k, level, start);
  }

  lemma FoundNear(k: Connection, level: nat, start: nat, found: seq<Candidate>)
    requires k.Valid() && BestFound(k.base, level, start, k.limit, k.valueDist, k.Allow(), found) && start in k.Region(level)
    requires |found| >= k.c
    ensures Measured(NewcomerOf(k), found, k.Pruning(), k.slot)
  {
    ReachedRegion(k, level, start);
    forall i | 0 <= i < |found|
      ensures found[i].slot != k.slot && found[i].distance == Dist(k.valueDist, found[i].slot)
    {
      assert found[i] in found;
    }
  }

  /** The neighbours chosen are all that were found, or what pruning leaves of them. */
  lemma ChosenMeans(k: Connection, level: nat, start: nat, found: seq<Candidate>)
    requires k.Valid() && BestFound(k.base, level, start, k.limit, k.valueDist, k.Allow(), found) && start in k.Region(level)
    ensures if |found| < k.c then ChosenFrom(k, found) == Slots(found)
            else PrunedFrom(NewcomerOf(k), Slots(found), ChosenFrom(k, found), k.slot, k.c)
  {
    if |found| >= k.c {
      FoundNear(k, level, start, found);
      PrunedMeans(NewcomerOf(k), found, k.c, k.Pruning(), k.slot);
    }
  }

  lemma LinksMean(k: Connection, nodes: seq<Node>, level: nat, chosen: seq<nat>, v: nat)
    requires k.Valid() && LevelLinked(k, nodes, level, chosen) && v in chosen && v != k.slot
    ensures LinkOffered(NewcomerOf(k), At(k.base, level, v), At(nodes, level, v), v, if level > 0 then k.c else k.cb)
  {
    var i :| 0 <= i < |chosen| && chosen[i] == v;
    LinkedBackMeans(NewcomerOf(k), At(k.base, level, v), At(nodes, level, v), v, Cap(level, k.c, k.cb));
  }

  lemma ConnectedMeans(before: seq<Node>, k: Connection, nodes: seq<Node>, level: nat, start: nat)
    requires k.Valid() && Underlies(before, k) && Connected(k, nodes, level, start)
    ensures ConnectedLevel(NewcomerOf(k), before, nodes, level, start, Room(if level > 0 then k.c else k.cb, k.c, k.limit))
  {
    var s, found :| ConnectedBy(k, nodes, level, start, s, found);
    var chosen, x := ChosenFrom(k, found), NewcomerOf(k);
    ChosenOk(k, level, start, s, found);
    FoundMeans(before, k, level, start, s, found);
    BeamBest(k.base, level, start, k.limit, k.valueDist, k.Allow(), s, found);
    ChosenMeans(k, level, start, found);
    forall v | v in chosen
      ensures LinkOffered(x, At(before, level, v), At(nodes, level, v), v, if level > 0 then k.c else k.cb)
    {
      LinksMean(k, nodes, level, chosen, v);
    }
    assert ConnectedAt(x, before, nodes, level, start, Room(if level > 0 then k.c else k.cb, k.c, k.limit), found);
  }

  /** A node's list begins with the closest of its new neighbours. */
  lemma ClosestFirst(x: Newcomer, before: seq<Node>, after: seq<Node>, level: nat, start: nat, room: Room)
    requires ConnectedLevel(x, before, after, level, start, room)
    ensures var own := At(after, level, x.slot); forall w :: w in own ==> x.Near(x.slot, own[0]) <= x.Near(x.slot, w)
  {
    var found :| ConnectedAt(x, before, after, level, start, room, found);
    var own := At(after, level, x.slot);
    forall w | w in own
      ensures x.Near(x.slot, own[0]) <= x.Near(x.slot, w)
    {
      if |found| < room.connectivity {
        var i :| 0 <= i < |own| && own[i] == w;
        assert found[0] in found && found[i] in found;
      }
    }
  }

  /** A graph that a node was connected in, level by level, is relinked. */
  lemma FullyConnectedMeans(before: seq<Node>, k: Connection, nodes: seq<Node>, top: nat, first: nat)
    requires k.Valid() && Underlies(before, k) && FullyConnected(k, nodes, top, first)
    ensures Relinked(NewcomerOf(k), before, nodes, top, first, k.c, k.cb, k.limit)
  {
    var origins: map<nat, nat> :| ConnectedDownTo(k, nodes, top, -1, origins) && top in origins && origins[top] == first;
    var x, starts := NewcomerOf(k), seq(top + 1, l => if l in origins then origins[l] else 0);
    forall l: nat | l <= top
      ensures l in origins && ConnectedLevel(x, before, nodes, l, starts[l], Room(if l > 0 then k.c else k.cb, k.c, k.limit))
    {
      assert LevelDone(k, nodes, origins, l);
      ConnectedMeans(before, k, nodes, l, starts[l]);
    }
    forall l: nat | l < top
      ensures StartsBelow(x, At(nodes, l + 1, x.slot), starts[l + 1], starts[l])
    {
      assert LevelDone(k, nodes, origins, l + 1);
      ClosestFirst(x, before, nodes, l + 1, starts[l + 1], Room(k.c, k.c, k.limit));
    }
    assert ConnectedFrom(x, before, nodes, top, starts, k.c, k.cb, k.limit);
  }

  /** Only the lists matter. */
  lemma SameListsRelinked(x: Newcomer, before: seq<Node>, after: seq<Node>, other: seq<Node>, top: nat, first: nat,
                          c: nat, cb: nat, expansion: nat)
    requires Relinked(x, before, after, top, first, c, cb, expansion)
    requires forall l, u :: At(other, l, u) == At(after, l, u)
    ensures Relinked(x, before, other, top, first, c, cb, expansion)
  {
    var starts: seq<nat> :| ConnectedFrom(x, before, after, top, starts, c, cb, expansion) && starts[top] == first;
    forall l: nat | l <= top
      ensures ConnectedLevel(x, before, other, l, starts[l], Room(if l > 0 then c else cb, c, expansion))
    {
      var room := Room(if l > 0 then c else cb, c, expansion);
      var found :| ConnectedAt(x, before, after, l, starts[l], room, found);
      assert ConnectedAt(x, before, other, l, starts[l], room, found);
    }
    assert ConnectedFrom(x, before, other, top, starts, c, cb, expansion);
  }

  lemma TwoLinked(x: Newcomer, before: seq<Node>, after: seq<Node>, level: nat, start: nat, room: Room)
    requires |before| == x.slot == 1 && At(before, level, 0) == []
    requires ConnectedLevel(x, before, after, level, start, room) && room.connectivity > 1 && room.expansion > 0 && room.cap > 0
    ensures At(after, level, 1) == [0] && At(after, level, 0) == [1]
  {
    var found :| ConnectedAt(x, before, after, level, start, room, found);
    assert Listed(found, room.expansion, x.valueDist, 0);
    assert forall c: Candidate :: c in found ==> c.slot == 0;
    assert Members(found) <= {Candidate(Dist(x.valueDist, 0), 0)};
    DistinctSize(found);
    SubsetSize(Members(found), {Candidate(Dist(x.valueDist, 0), 0)});
    assert found[0] in found;
    assert Slots(found) == [0];
  }

  /** The first two members of an index are linked both ways, on every level they share. */
  lemma FirstTwoLinked(x: Newcomer, before: seq<Node>, after: seq<Node>, top: nat, first: nat, c: nat, cb: nat, expansion: nat)
    requires |before| == x.slot == 1 && GraphOk(before, c, cb) && 2 <= c <= cb && expansion > 0
    requires Relinked(x, before, after, top, first, c, cb, expansion)
    ensures forall l: nat :: l <= top ==> At(after, l, 1) == [0] && At(after, l, 0) == [1]
  {
    var starts: seq<nat> :| ConnectedFrom(x, before, after, top, starts, c, cb, expansion) && starts[top] == first;
    forall l: nat | l <= top
      ensures At(after, l, 1) == [0] && At(after, l, 0) == [1]
    {
      assert NodeOk(before, 0, c, cb);
      ValuesSize(At(before, l, 0));
      assert Values(At(before, l, 0)) == {};
      TwoLinked(x, before, after, l, starts[l], Room(if l > 0 then c else cb, c, expansion));
    }
  }
}
