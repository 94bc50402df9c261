/** How the containers of a traversal stand for its sets of slots. */
module BeamLists {
  import opened Numbers
  import opened Candidates
  import opened BeamStates
  import opened Graph
  import ExactSearch

  /** The result list holds exactly the slots of `kept`, each once, by distance. */
  ghost predicate Lists(list: seq<Candidate>, kept: set<nat>, dist: seq<real>) {
    && Sorted(list) && DistinctSlots(list) && |list| == |kept|
    && (forall c :: c in list ==> c.distance == Dist(dist, c.slot) && c.slot in kept)
    && (forall v :: v in kept ==> Candidate(Dist(dist, v), v) in list)
  }

  /** The heap holds exactly the slots of `queued`, each once, by negated distance. */
  ghost predicate Queues(heap: multiset<Candidate>, queued: set<nat>, dist: seq<real>) {
    && (forall c :: c in heap ==> heap[c] == 1 && c.distance == -Dist(dist, c.slot) && c.slot in queued)
    && (forall v :: v in queued ==> Candidate(-Dist(dist, v), v) in heap)
  }

  lemma QueuesAdd(heap: multiset<Candidate>, queued: set<nat>, dist: seq<real>, v: nat, after: multiset<Candidate>)
    requires Queues(heap, queued, dist) && v !in queued
    requires after == heap + multiset{Candidate(-Dist(dist, v), v)}
    ensures Queues(after, queued + {v}, dist)
  {
  }

  lemma QueuesRemove(heap: multiset<Candidate>, queued: set<nat>, dist: seq<real>, c: Candidate, after: multiset<Candidate>)
    requires Queues(heap, queued, dist) && heap == after + multiset{c}
    ensures c.slot in queued && c.distance == -Dist(dist, c.slot)
    ensures Queues(after, queued - {c.slot}, dist)
  {
    assert c in heap;
    forall e | e in after
      ensures after[e] == 1 && e.distance == -Dist(dist, e.slot) && e.slot in queued - {c.slot}
    {
      assert e in heap && heap[e] == after[e] + multiset{c}[e];
    }
  }

  ghost function SlotSet(list: seq<Candidate>): set<nat> {
    set c | c in list :: c.slot
  }

  lemma {:induction false} SlotSetSize(list: seq<Candidate>)
    requires DistinctSlots(list)
    ensures |SlotSet(list)| == |list|
  {
    if list != [] {
      var rest, last := list[..|list| - 1], list[|list| - 1];
      SlotSetSize(rest);
      assert SlotSet(list) == SlotSet(rest) + {last.slot};
    }
  }

  /** The list that an insertion leaves holds an admissible new set of slots. */
  lemma ListsAdmit(t: Traversal, s: State, list: seq<Candidate>, v: nat)
    requires t.limit > 0 && Lists(list, s.kept, t.dist) && v !in s.kept && |s.kept| <= t.limit
    requires Promising(t, s, v) && (list != [] ==> Last(list).distance == s.radius)
    ensures var r := Take(Inserted(list, Candidate(Dist(t.dist, v), v)), t.limit);
      && r != []
      && Lists(r, SlotSet(r), t.dist)
      && Admitted(t, s, v, SlotSet(r), Last(r).distance)
  {
    var x := Candidate(Dist(t.dist, v), v);
    var r := Take(Inserted(list, x), t.limit);
    TakeInserted(list, x, t.limit);
    TakeInsertedMembers(list, x, t.limit);
    TakeInsertedDistinct(list, x, t.limit);
    SlotSetSize(r);
    AdmittedMembers(t, s, list, v, r);
  }

  lemma AdmittedMembers(t: Traversal, s: State, list: seq<Candidate>, v: nat, r: seq<Candidate>)
    requires Lists(list, s.kept, t.dist) && r != [] && Sorted(r)
    requires forall c :: c in r ==> c == Candidate(Dist(t.dist, v), v) || c in list
    requires forall c :: c in list ==> c in r || (|list| == t.limit && r[|r| - 1].distance <= c.distance)
    ensures forall u :: u in SlotSet(r) <==> Candidate(Dist(t.dist, u), u) in r
    ensures forall u :: u in SlotSet(r) ==> Dist(t.dist, u) <= r[|r| - 1].distance
    ensures forall u :: u in s.kept && u !in SlotSet(r) ==> |list| == t.limit && r[|r| - 1].distance <= Dist(t.dist, u)
  {
    forall u | u in SlotSet(r)
      ensures Candidate(Dist(t.dist, u), u) in r
    {
      var c :| c in r && c.slot == u;
    }
  }

  /** The result list and the heap hold what `s` keeps and queues. */
  ghost predicate Shown(t: Traversal, s: State, list: seq<Candidate>, heap: multiset<Candidate>) {
    && Lists(list, s.kept, t.dist)
    && Queues(heap, s.queued, t.dist)
    && (list != [] ==> Last(list).distance == s.radius)
  }

  /** The state after `v` was seen and, if it is promising, queued and kept. */
  ghost function Offered(t: Traversal, s: State, v: nat, kept: set<nat>, radius: real): State {
    State(s.visited + {v}, s.expanded, if Promising(t, s, v) then s.queued + {v} else s.queued, kept, radius)
  }

  lemma OfferedKept(t: Traversal, s: State, v: nat, list: seq<Candidate>, heap: multiset<Candidate>, radius: real)
    requires Promising(t, s, v) && Allows(t.allow, v) && Queues(heap, s.queued + {v}, t.dist)
    requires list != [] && Last(list).distance == radius && Lists(list, SlotSet(list), t.dist)
    requires Admitted(t, s, v, SlotSet(list), radius)
    ensures var r := Offered(t, s, v, SlotSet(list), radius); Step(t, s, v, r) && Shown(t, r, list, heap)
  {
  }

  lemma OfferedElse(t: Traversal, s: State, v: nat, list: seq<Candidate>, heap: multiset<Candidate>)
    requires !Promising(t, s, v) || !Allows(t.allow, v)
    requires Lists(list, s.kept, t.dist) && (list != [] ==> Last(list).distance == s.radius)
    requires Queues(heap, if Promising(t, s, v) then s.queued + {v} else s.queued, t.dist)
    ensures var r := Offered(t, s, v, s.kept, s.radius); Step(t, s, v, r) && Shown(t, r, list, heap)
  {
  }

  /** Reading the radius back is safe: only one slot is excluded, so with another start something is always kept. */
  ghost predicate Rereadable(t: Traversal) {
    forall v: nat :: v < |t.nodes| && v != t.start && !Allows(t.allow, v) ==> Allows(t.allow, t.start)
  }

  /** A state between two neighbours of `current`, `done` of them looked at. */
  ghost predicate Between(t: Traversal, s: State, current: nat, done: nat) {
    s.Inv(t) && s.ExpandedOk(t, current, done) && current in s.visited
  }

  ghost predicate Grown(s: State, r: State) {
    s.visited <= r.visited && (r.visited == s.visited ==> r == s)
  }

  lemma GrownTrans(a: State, b: State, c: State)
    requires Grown(a, b) && Grown(b, c)
    ensures Grown(a, c)
  {
    if c.visited == a.visited {
      assert b.visited == a.visited;
    }
  }

  lemma BetweenNext(t: Traversal, s: State, current: nat, done: nat, r: State)
    requires t.Valid() && Between(t, s, current, done)
    requires done < |At(t.nodes, t.level, current)| && Looked(t, s, At(t.nodes, t.level, current)[done], r)
    ensures Between(t, r, current, done + 1) && Grown(s, r)
  {
    LookedInv(t, s, current, done, r);
  }

  /** What a look at neighbour number `done` relies on. */
  lemma BetweenBasics(t: Traversal, s: State, current: nat, done: nat)
    requires t.Valid() && Between(t, s, current, done) && done < |At(t.nodes, t.level, current)|
    ensures s.queued <= s.visited && s.kept <= s.visited && |s.kept| <= t.limit && t.limit > 0
    ensures var v := At(t.nodes, t.level, current)[done];
      && v < |t.nodes|
      && (Rereadable(t) && !Allows(t.allow, v) && v !in s.visited ==> s.kept != {})
  {
    var v := At(t.nodes, t.level, current)[done];
    assert v in At(t.nodes, t.level, current);
  }

  lemma BetweenPopped(t: Traversal, s: State, c: nat)
    requires s.Inv(t) && Settled(t, s) && c in s.queued
    ensures Between(t, Popped(s, c), c, 0) && |Popped(s, c).queued| < |s.queued|
  {
    PoppedInv(t, s, c);
  }

  /** The measure of the search: slots not seen, then slots queued. */
  lemma Progress(t: Traversal, s: State, r: State)
    requires t.Valid()
    requires s.Inv(t) && r.Inv(t) && Grown(s, r)
    ensures |s.visited| <= |t.nodes| && |r.visited| <= |t.nodes|
    ensures r == s || |s.visited| < |r.visited|
  {
    VisitedBound(t, s);
    VisitedBound(t, r);
    GrownSize(s.visited, r.visited);
  }

  /** The first queued slot is too far to matter, and the results are full. */
  lemma StoppedFinished(t: Traversal, s: State, list: seq<Candidate>, heap: multiset<Candidate>, c: Candidate)
    requires s.Inv(t) && Settled(t, s) && Shown(t, s, list, heap)
    requires forall e :: e in heap ==> e.distance <= c.distance
    requires |list| == t.limit && s.radius < -c.distance
    ensures Finished(t, s)
  {
    forall v | v in s.queued
      ensures s.radius < Dist(t.dist, v)
    {
      assert Candidate(-Dist(t.dist, v), v) in heap;
    }
  }

  lemma EmptyFinished(t: Traversal, s: State, list: seq<Candidate>)
    requires s.Inv(t) && Settled(t, s) && Shown(t, s, list, multiset{})
    ensures Finished(t, s)
  {
    assert s.queued == {};
  }

  lemma StartedShown(t: Traversal, list: seq<Candidate>, heap: multiset<Candidate>)
    requires list == if Allows(t.allow, t.start) then [Candidate(Dist(t.dist, t.start), t.start)] else []
    requires heap == multiset{Candidate(-Dist(t.dist, t.start), t.start)}
    ensures Shown(t, Started(t), list, heap)
  {
    StartedLists(t, list);
    StartedQueues(t, heap);
  }

  lemma StartedLists(t: Traversal, list: seq<Candidate>)
    requires list == if Allows(t.allow, t.start) then [Candidate(Dist(t.dist, t.start), t.start)] else []
    ensures Lists(list, Started(t).kept, t.dist)
  {
  }

  lemma StartedQueues(t: Traversal, heap: multiset<Candidate>)
    requires heap == multiset{Candidate(-Dist(t.dist, t.start), t.start)}
    ensures Queues(heap, Started(t).queued, t.dist)
  {
  }

  /** One slot taken off the queue and expanded. */
  ghost predicate Advanced(t: Traversal, s: State, r: State) {
    && r.Inv(t) && Settled(t, r)
    && |s.visited| <= |r.visited| <= |t.nodes|
    && (|s.visited| < |r.visited| || |r.queued| < |s.queued|)
  }

  lemma AdvancedBy(t: Traversal, s: State, c: nat, r: State)
    requires t.Valid()
    requires s.Inv(t) && Popped(s, c).Inv(t) && |Popped(s, c).queued| < |s.queued|
    requires Between(t, r, c, |At(t.nodes, t.level, c)|) && Grown(Popped(s, c), r)
    ensures Advanced(t, s, r)
  {
    ExpandedSettled(t, r, c);
    Progress(t, Popped(s, c), r);
  }
}
