/** What connecting a node level by level, from its top level down, makes of the graph. */
module Connecting {
  import opened Candidates
  import opened Numbers
  import opened Graph
  import opened Refine
  import opened Links
  import opened BeamStates
  import opened BeamLists
  import opened Query

  /** Everything a connection depends on: the graph before it, the slot, the distances of its value to all slots,
      the distances between stored members, and the parameters of the index. A slot that is `added` is not linked
      to yet; otherwise it is updated and may be linked to already. */
  datatype Connection = Connection(base: seq<Node>, slot: nat, added: bool, valueDist: seq<real>, between: seq<seq<real>>,
                                   c: nat, cb: nat, limit: nat)
  {
    ghost predicate Valid() {
      && slot < |base| && GraphOk(base, c, cb) && 2 <= c <= cb && limit > 0
      && (added ==> forall l, u :: slot !in At(base, l, u))
    }

    /** The slots a search of a level may start at. */
    ghost function Region(level: nat): set<nat> {
      (set v | 0 <= v < |base| && level <= base[v].level) - (if added then {slot} else {})
    }

    function Allow(): (r: seq<bool>)
      ensures |r| == |base| && forall v :: 0 <= v < |r| ==> r[v] == (added || v != slot)
    {
      seq(|base|, v => added || v != slot)
    }

    /** The search at `level` from `start`, in a graph that still has the neighbour lists of `base` there. */
    ghost function Search(nodes: seq<Node>, level: nat, start: nat): Traversal {
      Traversal(nodes, level, start, limit, valueDist, Allow(), ReachSlots(base, level, start))
    }

    function Pruning(): Metric {
      StoredMetric(between)
    }
  }

  /** `nodes` differs from the base at most in the neighbour lists of levels above `level`. */
  ghost predicate UntouchedTo(k: Connection, nodes: seq<Node>, level: int) {
    && SameSkeleton(k.base, nodes) && GraphOk(nodes, k.c, k.cb)
    && forall l: nat, u: nat :: l <= level ==> At(nodes, l, u) == At(k.base, l, u)
  }

  lemma ReachedRegion(k: Connection, level: nat, start: nat)
    requires k.Valid() && start in k.Region(level)
    ensures start in ReachSlots(k.base, level, start) && ReachSlots(k.base, level, start) <= k.Region(level)
  {
    ReachSlotsClosed(k.base, k.c, k.cb, level, start);
    ReachSlotsSpec(k.base, level, start);
    if k.added {
      NotReached(k.base, level, start, k.slot);
    }
  }

  lemma RegionClosed(k: Connection, nodes: seq<Node>, level: nat, start: nat)
    requires k.Valid() && UntouchedTo(k, nodes, level) && start in k.Region(level)
    ensures k.Search(nodes, level, start).Valid()
  {
    ReachSlotsClosed(k.base, k.c, k.cb, level, start);
    ReachSlotsSpec(k.base, level, start);
    var t := k.Search(nodes, level, start);
    forall u, v | u in t.region && v in At(nodes, level, u)
      ensures v in t.region
    {
      assert v in At(k.base, level, u);
    }
  }

  /** A search that ended in such a graph ended in the base as well. */
  lemma FinishedInBase(k: Connection, nodes: seq<Node>, level: nat, start: nat, s: State)
    requires UntouchedTo(k, nodes, level) && Finished(k.Search(nodes, level, start), s)
    ensures Finished(k.Search(k.base, level, start), s)
  {
    var t, b := k.Search(nodes, level, start), k.Search(k.base, level, start);
    assert s.KeptOk(b) && s.BestKept(b) && s.WorkKept(b) && s.VisitedOk(b);
    assert Settled(b, s);
  }

  /** The neighbours chosen from the result list of a search. */
  ghost function ChosenFrom(k: Connection, found: seq<Candidate>): seq<nat> {
    Slots(Refined(found, k.c, k.Pruning()))
  }

  /** They make a well-formed neighbour list of the slot, and an added slot gets at least one. */
  lemma ChosenOk(k: Connection, level: nat, start: nat, s: State, found: seq<Candidate>)
    requires k.Valid() && start in k.Region(level)
    requires Finished(k.Search(k.base, level, start), s) && Lists(found, s.kept, k.valueDist)
    ensures ListOk(k.base, k.slot, level, ChosenFrom(k, found), Cap(level, k.c, k.cb))
    ensures forall v :: v in ChosenFrom(k, found) ==> v in k.Region(level)
    ensures k.added ==> ChosenFrom(k, found) != []
  {
    ReachedRegion(k, level, start);
    SlotsOfRefined(found, k.c, k.Pruning());
    var t := k.Search(k.base, level, start);
    forall v | v in ChosenFrom(k, found)
      ensures v in k.Region(level) && v != k.slot
    {
      var c :| c in found && c.slot == v;
      assert v in s.kept && v in s.visited;
    }
  }

  /** At `level`, the graph went from the base to `nodes` by linking the slot to `chosen` and back. */
  ghost predicate LevelLinked(k: Connection, nodes: seq<Node>, level: nat, chosen: seq<nat>) {
    && At(nodes, level, k.slot) == chosen
    && (forall u :: u != k.slot && u !in chosen ==> At(nodes, level, u) == At(k.base, level, u))
    && (forall i :: 0 <= i < |chosen| ==>
          LinkedBack(At(k.base, level, chosen[i]), At(nodes, level, chosen[i]), k.slot, Dist(k.valueDist, chosen[i]),
                     Row(k.between, chosen[i]), Cap(level, k.c, k.cb), LinkMetric(k.slot, k.valueDist, k.between)))
  }

  /** `level` was connected: a search of the base found `found`, and the slot was linked to what was chosen from it. */
  ghost predicate ConnectedBy(k: Connection, nodes: seq<Node>, level: nat, start: nat, s: State, found: seq<Candidate>) {
    && start in k.Region(level)
    && Finished(k.Search(k.base, level, start), s) && Lists(found, s.kept, k.valueDist)
    && LevelLinked(k, nodes, level, ChosenFrom(k, found))
  }

  ghost predicate Connected(k: Connection, nodes: seq<Node>, level: nat, start: nat) {
    exists s, found :: ConnectedBy(k, nodes, level, start, s, found)
  }

  /** Where the search of the next level starts: at the closest neighbour chosen, if there is any. */
  function NextStart(start: nat, chosen: seq<nat>): nat {
    if chosen == [] then start else chosen[0]
  }

  /** Level `l` is connected from `starts[l]`, and the level below it starts accordingly. */
  ghost predicate LevelDone(k: Connection, nodes: seq<Node>, starts: map<nat, nat>, l: nat) {
    && l in starts && Connected(k, nodes, l, starts[l])
    && (l > 0 ==> l - 1 in starts && starts[l - 1] == NextStart(starts[l], At(nodes, l, k.slot)))
  }

  /** Levels from `top` down to just above `level` are connected, the search of each level starting where
      `starts` says; the other levels are as in the base. */
  ghost predicate ConnectedDownTo(k: Connection, nodes: seq<Node>, top: nat, level: int, starts: map<nat, nat>) {
    && SameSkeleton(k.base, nodes) && GraphOk(nodes, k.c, k.cb)
    && (forall l: nat {:trigger LevelDone(k, nodes, starts, l)} :: level < l <= top ==> LevelDone(k, nodes, starts, l))
    && (forall l: nat, u: nat :: l <= level || l > top ==> At(nodes, l, u) == At(k.base, l, u))
  }

  lemma LinkedLevel(k: Connection, nodes: seq<Node>, r: seq<Node>, level: nat, chosen: seq<nat>)
    requires UntouchedTo(k, nodes, level)
    requires Linked(nodes, r, k.slot, level, chosen, |chosen|, k.c, k.cb, k.valueDist, k.between)
    ensures LevelLinked(k, r, level, chosen)
  {
    assert chosen[..|chosen|] == chosen;
  }

  lemma ConnectedStays(k: Connection, nodes: seq<Node>, r: seq<Node>, l: nat, start: nat)
    requires Connected(k, nodes, l, start) && forall u: nat :: At(r, l, u) == At(nodes, l, u)
    ensures Connected(k, r, l, start)
  {
    var s, found :| ConnectedBy(k, nodes, l, start, s, found);
    assert ConnectedBy(k, r, l, start, s, found);
  }

  lemma LevelDoneStays(k: Connection, nodes: seq<Node>, r: seq<Node>, starts: map<nat, nat>, more: map<nat, nat>, l: nat)
    requires LevelDone(k, nodes, starts, l) && forall u: nat :: At(r, l, u) == At(nodes, l, u)
    requires l in more && more[l] == starts[l] && (l > 0 ==> l - 1 in more && more[l - 1] == starts[l - 1])
    ensures LevelDone(k, r, more, l)
  {
    ConnectedStays(k, nodes, r, l, starts[l]);
  }

  /** The start of the level below `level`, added to the starts there are. */
  function WithNext(starts: map<nat, nat>, level: nat, next: nat): map<nat, nat> {
    if level == 0 then starts else starts[level - 1 := next]
  }

  /** A level that was searched and linked is connected. */
  lemma ConnectedHere(k: Connection, nodes: seq<Node>, r: seq<Node>, level: nat, start: nat, s: State, found: seq<Candidate>)
    requires UntouchedTo(k, nodes, level) && start in k.Region(level)
    requires Finished(k.Search(k.base, level, start), s) && Lists(found, s.kept, k.valueDist)
    requires Linked(nodes, r, k.slot, level, ChosenFrom(k, found), |ChosenFrom(k, found)|, k.c, k.cb, k.valueDist, k.between)
    ensures Connected(k, r, level, start)
  {
    LinkedLevel(k, nodes, r, level, ChosenFrom(k, found));
    assert ConnectedBy(k, r, level, start, s, found);
  }

  lemma ConnectedNext(k: Connection, nodes: seq<Node>, r: seq<Node>, top: nat, level: nat, starts: map<nat, nat>,
                      chosen: seq<nat>)
    requires ConnectedDownTo(k, nodes, top, level, starts) && level <= top && level in starts
    requires Connected(k, r, level, starts[level]) && GraphOk(r, k.c, k.cb)
    requires Linked(nodes, r, k.slot, level, chosen, |chosen|, k.c, k.cb, k.valueDist, k.between)
    ensures ConnectedDownTo(k, r, top, level - 1, WithNext(starts, level, NextStart(starts[level], chosen)))
  {
    var more := WithNext(starts, level, NextStart(starts[level], chosen));
    forall l: nat | level <= l <= top
      ensures LevelDone(k, r, more, l)
    {
      if l == level {
        LevelDoneHere(k, nodes, r, level, starts, chosen);
      } else {
        LevelStaysDone(k, nodes, r, top, level, starts, chosen, l);
      }
    }
    SkeletonTrans(k.base, nodes, r);
  }

  lemma LevelDoneHere(k: Connection, nodes: seq<Node>, r: seq<Node>, level: nat, starts: map<nat, nat>, chosen: seq<nat>)
    requires level in starts && Connected(k, r, level, starts[level])
    requires Linked(nodes, r, k.slot, level, chosen, |chosen|, k.c, k.cb, k.valueDist, k.between)
    ensures LevelDone(k, r, WithNext(starts, level, NextStart(starts[level], chosen)), level)
  {
  }

  lemma LevelStaysDone(k: Connection, nodes: seq<Node>, r: seq<Node>, top: nat, level: nat, starts: map<nat, nat>,
                       chosen: seq<nat>, l: nat)
    requires ConnectedDownTo(k, nodes, top, level, starts) && level < l <= top && level in starts
    requires GraphOk(r, k.c, k.cb)
    requires Linked(nodes, r, k.slot, level, chosen, |chosen|, k.c, k.cb, k.valueDist, k.between)
    ensures LevelDone(k, r, WithNext(starts, level, NextStart(starts[level], chosen)), l)
  {
    assert LevelDone(k, nodes, starts, l);
    LevelDoneStays(k, nodes, r, starts, WithNext(starts, level, NextStart(starts[level], chosen)), l);
  }

  /** Between two levels: `closest` is where the search of `level` starts. */
  ghost predicate Ready(k: Connection, nodes: seq<Node>, top: nat, level: int, starts: map<nat, nat>, first: nat, closest: nat) {
    && ConnectedDownTo(k, nodes, top, level, starts)
    && -1 <= level <= top && top in starts && starts[top] == first
    && (level >= 0 ==> closest in k.Region(level) && level in starts && starts[level] == closest)
  }

  lemma ReadyNext(k: Connection, nodes: seq<Node>, r: seq<Node>, top: nat, level: nat, starts: map<nat, nat>, first: nat,
                  closest: nat, chosen: seq<nat>)
    requires Ready(k, nodes, top, level, starts, first, closest)
    requires Connected(k, r, level, closest) && GraphOk(r, k.c, k.cb)
    requires Linked(nodes, r, k.slot, level, chosen, |chosen|, k.c, k.cb, k.valueDist, k.between)
    requires forall v :: v in chosen ==> v in k.Region(level)
    ensures var next := NextStart(closest, chosen);
      Ready(k, r, top, level - 1, WithNext(starts, level, next), first, next)
  {
    ConnectedNext(k, nodes, r, top, level, starts, chosen);
    assert NextStart(closest, chosen) in k.Region(level);
  }

  ghost predicate ReadyFrom(k: Connection, nodes: seq<Node>, top: nat, level: int, first: nat, closest: nat) {
    exists starts :: Ready(k, nodes, top, level, starts, first, closest)
  }

  /** All levels from `top` down are connected, the first search having started at `first`. */
  ghost predicate FullyConnected(k: Connection, nodes: seq<Node>, top: nat, first: nat) {
    exists starts: map<nat, nat> :: ConnectedDownTo(k, nodes, top, -1, starts) && top in starts && starts[top] == first
  }

  lemma ReadyFirst(k: Connection, top: nat, first: nat)
    requires k.Valid() && first in k.Region(top)
    ensures ReadyFrom(k, k.base, top, top, first, first)
  {
    assert Ready(k, k.base, top, top, map[top := first], first, first);
  }

  lemma ReadyFromNext(k: Connection, nodes: seq<Node>, r: seq<Node>, top: nat, level: nat, first: nat, closest: nat, chosen: seq<nat>)
    requires ReadyFrom(k, nodes, top, level, first, closest)
    requires Connected(k, r, level, closest) && GraphOk(r, k.c, k.cb)
    requires Linked(nodes, r, k.slot, level, chosen, |chosen|, k.c, k.cb, k.valueDist, k.between)
    requires forall v :: v in chosen ==> v in k.Region(level)
    ensures ReadyFrom(k, r, top, level - 1, first, NextStart(closest, chosen))
  {
    var starts :| Ready(k, nodes, top, level, starts, first, closest);
    ReadyNext(k, nodes, r, top, level, starts, first, closest, chosen);
  }

  /** What a level to be connected relies on. */
  lemma ReadyFromBasics(k: Connection, nodes: seq<Node>, top: nat, level: nat, first: nat, closest: nat)
    requires ReadyFrom(k, nodes, top, level, first, closest)
    ensures UntouchedTo(k, nodes, level) && |nodes| == |k.base| && closest in k.Region(level) && level <= top
  {
  }

  lemma ReadyDone(k: Connection, nodes: seq<Node>, top: nat, first: nat, closest: nat)
    requires ReadyFrom(k, nodes, top, -1, first, closest)
    ensures FullyConnected(k, nodes, top, first)
  {
  }

  /** What one level's search, choice and linking amount to. */
  ghost predicate LevelWork(k: Connection, nodes: seq<Node>, r: seq<Node>, level: nat, start: nat, chosen: seq<nat>,
                            s: State, found: seq<Candidate>) {
    && Finished(k.Search(k.base, level, start), s) && Lists(found, s.kept, k.valueDist)
    && chosen == ChosenFrom(k, found)
    && GraphOk(r, k.c, k.cb)
    && Linked(nodes, r, k.slot, level, chosen, |chosen|, k.c, k.cb, k.valueDist, k.between)
  }

  lemma LevelWorkReady(k: Connection, nodes: seq<Node>, r: seq<Node>, top: nat, level: nat, first: nat, start: nat,
                       chosen: seq<nat>, s: State, found: seq<Candidate>)
    requires k.Valid() && ReadyFrom(k, nodes, top, level, first, start) && LevelWork(k, nodes, r, level, start, chosen, s, found)
    ensures ReadyFrom(k, r, top, level - 1, first, NextStart(start, chosen))
    ensures k.added ==> chosen != []
  {
    ReadyFromBasics(k, nodes, top, level, first, start);
    ChosenOk(k, level, start, s, found);
    ConnectedHere(k, nodes, r, level, start, s, found);
    ReadyFromNext(k, nodes, r, top, level, first, start, chosen);
  }
}
