/** Beam search over one level: the traversals for insertion, for update, and for queries. */
module BeamSearch {
  import opened Candidates
  import opened Graph
  import opened Numbers
  import opened GrowingHashSets
  import opened BeamStates
  import opened BeamLists
  import opened Contexts

  /** Puts `v` among the results and reads the new radius off them. */
  method Report(ctx: Context, t: Traversal, v: nat, ghost s: State) returns (r: real)
    requires ctx.Valid() && 0 < t.limit <= ctx.top.elements.Length && |s.kept| <= t.limit
    requires Lists(ctx.top.contents, s.kept, t.dist) && (ctx.top.contents != [] ==> Last(ctx.top.contents).distance == s.radius)
    requires v !in s.kept && Promising(t, s, v)
    modifies ctx.top, ctx.top.elements
    ensures ctx.Valid() && ctx.top.elements == old(ctx.top.elements)
    ensures Lists(ctx.top.contents, SlotSet(ctx.top.contents), t.dist)
    ensures ctx.top.contents != [] && Last(ctx.top.contents).distance == r
    ensures Admitted(t, s, v, SlotSet(ctx.top.contents), r)
  {
    ListsAdmit(t, s, ctx.top.contents, v);
    var added := ctx.top.Insert(Candidate(Dist(t.dist, v), v), t.limit);
    var last := ctx.top.Top();
    r := last.distance;
  }

  /** Adds `v` to the work. */
  method Enqueue(ctx: Context, t: Traversal, v: nat, ghost queued: set<nat>)
    requires ctx.Valid() && Queues(ctx.next.contents, queued, t.dist) && v !in queued
    modifies ctx.next, ctx.next.elements
    ensures ctx.Valid() && (fresh(ctx.next.elements) || ctx.next.elements == old(ctx.next.elements))
    ensures Queues(ctx.next.contents, queued + {v}, t.dist)
  {
    ghost var before := ctx.next.contents;
    ctx.next.Insert(Candidate(-Dist(t.dist, v), v));
    QueuesAdd(before, queued, t.dist, v, ctx.next.contents);
  }

  /** Queues a promising slot and puts it among the results. */
  method Admit(ctx: Context, t: Traversal, v: nat, ghost s: State) returns (r: real)
    requires ctx.Valid() && 0 < t.limit <= ctx.top.elements.Length && |s.kept| <= t.limit
    requires Shown(t, s, ctx.top.contents, ctx.next.contents) && v !in s.queued && v !in s.kept
    requires Promising(t, s, v) && Allows(t.allow, v)
    modifies ctx.top, ctx.top.elements, ctx.next, ctx.next.elements
    ensures ctx.Valid() && (fresh(ctx.next.elements) || ctx.next.elements == old(ctx.next.elements))
    ensures ctx.top.elements == old(ctx.top.elements)
    ensures var s' := Offered(t, s, v, SlotSet(ctx.top.contents), r);
      Step(t, s, v, s') && Shown(t, s', ctx.top.contents, ctx.next.contents)
  {
    Enqueue(ctx, t, v, s.queued);
    r := Report(ctx, t, v, s);
    OfferedKept(t, s, v, ctx.top.contents, ctx.next.contents, r);
  }

  /** Queues a promising slot that is not to be reported; the search for an update
      (`rereads`) reads the radius back all the same. */
  method Pass(ctx: Context, t: Traversal, v: nat, radius: real, rereads: bool, ghost queued: set<nat>) returns (r: real)
    requires ctx.Valid() && Queues(ctx.next.contents, queued, t.dist) && v !in queued
    requires rereads ==> ctx.top.contents != [] && Last(ctx.top.contents).distance == radius
    modifies ctx.next, ctx.next.elements
    ensures ctx.Valid() && (fresh(ctx.next.elements) || ctx.next.elements == old(ctx.next.elements))
    ensures Queues(ctx.next.contents, queued + {v}, t.dist) && r == radius
  {
    r := radius;
    if rereads {
      var last := ctx.top.Top();
      r := last.distance;
    }
    Enqueue(ctx, t, v, queued);
  }

  /** Queues and reports a slot seen for the first time, if it is worth it, and answers the new radius. */
  method Offer(ctx: Context, t: Traversal, v: nat, radius: real, rereads: bool, ghost s: State) returns (r: real, ghost s': State)
    requires ctx.Valid() && 0 < t.limit <= ctx.top.elements.Length && |s.kept| <= t.limit
    requires Shown(t, s, ctx.top.contents, ctx.next.contents) && radius == s.radius
    requires v !in s.queued && v !in s.kept
    requires rereads && !Allows(t.allow, v) ==> ctx.top.contents != []
    modifies ctx.top, ctx.top.elements, ctx.next, ctx.next.elements
    ensures ctx.Valid() && (fresh(ctx.next.elements) || ctx.next.elements == old(ctx.next.elements))
    ensures ctx.top.elements == old(ctx.top.elements)
    ensures Shown(t, s', ctx.top.contents, ctx.next.contents) && Step(t, s, v, s') && r == s'.radius
  {
    if ctx.top.size < t.limit || Dist(t.dist, v) < radius {
      if Allows(t.allow, v) {
        r := Admit(ctx, t, v, s);
        s' := Offered(t, s, v, SlotSet(ctx.top.contents), r);
      } else {
        r := Pass(ctx, t, v, radius, rereads, s.queued);
        s' := Offered(t, s, v, s.kept, r);
        OfferedElse(t, s, v, ctx.top.contents, ctx.next.contents);
      }
    } else {
      r, s' := radius, Offered(t, s, v, s.kept, s.radius);
      OfferedElse(t, s, v, ctx.top.contents, ctx.next.contents);
    }
  }

  /** Looks at a neighbour of the slot being expanded. */
  method Look(ctx: Context, t: Traversal, v: nat, radius: real, rereads: bool, ghost s: State) returns (r: real, ghost s': State)
    requires ctx.Valid() && 0 < t.limit <= ctx.top.elements.Length && |s.kept| <= t.limit
    requires ctx.Shows(t, s) && radius == s.radius && s.queued <= s.visited && s.kept <= s.visited
    requires rereads && !Allows(t.allow, v) && v !in s.visited ==> s.kept != {}
    requires v < FREE && ctx.visits.count < ctx.visits.slots.Length
    modifies ctx.top, ctx.top.elements, ctx.next, ctx.next.elements, ctx.visits, ctx.visits.slots
    ensures ctx.Valid() && (fresh(ctx.next.elements) || ctx.next.elements == old(ctx.next.elements))
    ensures ctx.top.elements == old(ctx.top.elements) && ctx.visits.slots == old(ctx.visits.slots)
    ensures ctx.visits.count <= old(ctx.visits.count) + 1
    ensures Looked(t, s, v, s') && ctx.Shows(t, s') && r == s'.radius
  {
    r, s' := radius, s;
    var seen := ctx.visits.Set(v);
    if !seen {
      r, s' := Offer(ctx, t, v, radius, rereads, s);
    }
  }

  /** Looks at neighbour number `i` of `current`. */
  method LookAt(ctx: Context, t: Traversal, current: nat, i: nat, radius: real, rereads: bool, ghost first: State, ghost s: State)
    returns (r: real, ghost s': State)
    requires ctx.Valid() && t.Valid() && t.limit <= ctx.top.elements.Length && |t.nodes| <= FREE
    requires Between(t, s, current, i) && i < |At(t.nodes, t.level, current)| && Grown(first, s)
    requires ctx.Shows(t, s) && radius == s.radius && (rereads ==> Rereadable(t))
    requires ctx.visits.count < ctx.visits.slots.Length
    modifies ctx.top, ctx.top.elements, ctx.next, ctx.next.elements, ctx.visits, ctx.visits.slots
    ensures ctx.Valid() && (fresh(ctx.next.elements) || ctx.next.elements == old(ctx.next.elements))
    ensures ctx.top.elements == old(ctx.top.elements) && ctx.visits.slots == old(ctx.visits.slots)
    ensures ctx.visits.count <= old(ctx.visits.count) + 1
    ensures Between(t, s', current, i + 1) && Grown(first, s')
    ensures ctx.Shows(t, s') && r == s'.radius
  {
    BetweenBasics(t, s, current, i);
    r, s' := Look(ctx, t, At(t.nodes, t.level, current)[i], radius, rereads, s);
    BetweenNext(t, s, current, i, s');
    GrownTrans(first, s, s');
  }

  /** Looks at all neighbours of `current`, which has just left the queue. */
  method Expand(ctx: Context, t: Traversal, current: nat, radius: real, rereads: bool, ghost s: State) returns (r: real, ghost s': State)
    requires ctx.Valid() && t.Valid() && t.limit <= ctx.top.elements.Length && |t.nodes| <= FREE
    requires Between(t, s, current, 0)
    requires ctx.Shows(t, s) && radius == s.radius && (rereads ==> Rereadable(t))
    modifies ctx.top, ctx.top.elements, ctx.next, ctx.next.elements, ctx.visits, ctx.visits.slots
    ensures ctx.Valid() && ctx.top.elements == old(ctx.top.elements)
    ensures fresh(ctx.next.elements) || ctx.next.elements == old(ctx.next.elements)
    ensures fresh(ctx.visits.slots) || ctx.visits.slots == old(ctx.visits.slots)
    ensures Between(t, s', current, |At(t.nodes, t.level, current)|) && Grown(s, s')
    ensures ctx.Shows(t, s') && r == s'.radius
  {
    ctx.visits.Reserve(ctx.visits.count + |At(t.nodes, t.level, current)|);
    r, s' := LookAtAll(ctx, t, current, radius, rereads, s);
  }

  method LookAtAll(ctx: Context, t: Traversal, current: nat, radius: real, rereads: bool, ghost s: State) returns (r: real, ghost s': State)
    requires ctx.Valid() && t.Valid() && t.limit <= ctx.top.elements.Length && |t.nodes| <= FREE
    requires Between(t, s, current, 0)
    requires ctx.Shows(t, s) && radius == s.radius && (rereads ==> Rereadable(t))
    requires ctx.visits.count + |At(t.nodes, t.level, current)| <= ctx.visits.slots.Length
    modifies ctx.top, ctx.top.elements, ctx.next, ctx.next.elements, ctx.visits, ctx.visits.slots
    ensures ctx.Valid() && ctx.top.elements == old(ctx.top.elements) && ctx.visits.slots == old(ctx.visits.slots)
    ensures fresh(ctx.next.elements) || ctx.next.elements == old(ctx.next.elements)
    ensures Between(t, s', current, |At(t.nodes, t.level, current)|) && Grown(s, s')
    ensures ctx.Shows(t, s') && r == s'.radius
  {
    r, s' := radius, s;
    ghost var count := ctx.visits.count;
    for i := 0 to |At(t.nodes, t.level, current)|
      invariant ctx.Valid() && ctx.top.elements == old(ctx.top.elements) && ctx.visits.slots == old(ctx.visits.slots)
      invariant fresh(ctx.next.elements) || ctx.next.elements == old(ctx.next.elements)
      invariant ctx.visits.count <= count + i
      invariant Between(t, s', current, i) && Grown(s, s')
      invariant ctx.Shows(t, s') && r == s'.radius
    {
      r, s' := LookAt(ctx, t, current, i, r, rereads, s, s');
    }
  }

  method Reset(ctx: Context)
    requires ctx.Valid()
    modifies ctx.top, ctx.next, ctx.visits, ctx.visits.slots
    ensures ctx.Valid() && ctx.visits.slots == old(ctx.visits.slots)
    ensures ctx.top.elements == old(ctx.top.elements) && ctx.next.elements == old(ctx.next.elements)
    ensures ctx.top.contents == [] && ctx.next.contents == multiset{} && ctx.visits.contents == {} && ctx.visits.count == 0
  {
    ctx.visits.Clear();
    ctx.next.Clear();
    ctx.top.Clear();
  }

  /** Makes room for `limit` candidates and for the start among the visited slots. */
  method MakeRoom(ctx: Context, limit: nat, visited: nat)
    requires ctx.Valid()
    modifies ctx.top, ctx.next, ctx.visits
    ensures ctx.Valid()
    ensures fresh(ctx.top.elements) || ctx.top.elements == old(ctx.top.elements)
    ensures fresh(ctx.next.elements) || ctx.next.elements == old(ctx.next.elements)
    ensures fresh(ctx.visits.slots) || ctx.visits.slots == old(ctx.visits.slots)
    ensures limit <= ctx.top.elements.Length && limit <= ctx.next.elements.Length && visited <= ctx.visits.slots.Length
    ensures ctx.top.contents == old(ctx.top.contents) && ctx.next.contents == old(ctx.next.contents)
    ensures ctx.top.size == old(ctx.top.size) && ctx.next.size == old(ctx.next.size)
    ensures ctx.visits.contents == old(ctx.visits.contents) && ctx.visits.count == old(ctx.visits.count)
  {
    ctx.visits.Reserve(visited);
    ctx.top.Reserve(limit);
    ctx.next.Reserve(limit);
  }

  /** Puts the start into the empty containers. */
  method Seed(ctx: Context, t: Traversal) returns (radius: real)
    requires ctx.Valid() && t.start < FREE && ctx.top.size == ctx.next.size == ctx.visits.count == 0 && ctx.visits.contents == {}
    requires ctx.top.elements.Length > 0 && ctx.next.elements.Length > 0 && ctx.visits.slots.Length > 0
    modifies ctx.top, ctx.top.elements, ctx.next, ctx.next.elements, ctx.visits, ctx.visits.slots
    ensures ctx.Valid() && ctx.visits.slots == old(ctx.visits.slots)
    ensures ctx.top.elements == old(ctx.top.elements) && ctx.next.elements == old(ctx.next.elements)
    ensures ctx.Shows(t, Started(t)) && radius == Started(t).radius
  {
    SeedNext(ctx, t);
    var seen := ctx.visits.Set(t.start);
    SeedTop(ctx, t);
    StartedShown(t, ctx.top.contents, ctx.next.contents);
    radius := Dist(t.dist, t.start);
  }

  /** Queues the start. */
  method SeedNext(ctx: Context, t: Traversal)
    requires ctx.Valid() && ctx.next.size == 0 && ctx.next.elements.Length > 0
    modifies ctx.next, ctx.next.elements
    ensures ctx.Valid() && ctx.next.elements == old(ctx.next.elements)
    ensures ctx.next.contents == multiset{Candidate(-Dist(t.dist, t.start), t.start)}
  {
    ctx.next.InsertReserved(Candidate(-Dist(t.dist, t.start), t.start));
  }

  /** Reports the start, if it is allowed. */
  method SeedTop(ctx: Context, t: Traversal)
    requires ctx.Valid() && ctx.top.size == 0 && ctx.top.elements.Length > 0
    modifies ctx.top, ctx.top.elements
    ensures ctx.Valid() && ctx.top.elements == old(ctx.top.elements)
    ensures ctx.top.contents == if Allows(t.allow, t.start) then [Candidate(Dist(t.dist, t.start), t.start)] else []
  {
    if Allows(t.allow, t.start) {
      ctx.top.InsertReserved(Candidate(Dist(t.dist, t.start), t.start));
    }
  }

  /** Takes the closest slot off the queue. */
  method TakeNext(ctx: Context, t: Traversal, ghost queued: set<nat>) returns (c: nat)
    requires ctx.Valid() && !ctx.next.Empty() && Queues(ctx.next.contents, queued, t.dist)
    modifies ctx.next, ctx.next.elements
    ensures ctx.Valid() && ctx.next.elements == old(ctx.next.elements)
    ensures c in queued && Queues(ctx.next.contents, queued - {c}, t.dist)
  {
    ghost var heap := ctx.next.contents;
    var first := ctx.next.Pop();
    QueuesRemove(heap, queued, t.dist, first, ctx.next.contents);
    c := first.slot;
  }

  /** Whether the closest queued slot is too far to improve full results. */
  method TooFar(ctx: Context, t: Traversal, radius: real, ghost s: State) returns (stop: bool)
    requires ctx.Valid() && !ctx.next.Empty() && s.Inv(t) && Settled(t, s)
    requires ctx.Shows(t, s) && radius == s.radius
    ensures stop ==> Finished(t, s)
  {
    var candidacy := ctx.next.Top();
    stop := -candidacy.distance > radius && ctx.top.size == t.limit;
    if stop {
      StoppedFinished(t, s, ctx.top.contents, ctx.next.contents, candidacy);
    }
  }

  /** Takes the closest slot off the queue and expands it. */
  method Advance(ctx: Context, t: Traversal, radius: real, rereads: bool, ghost s: State) returns (r: real, ghost s': State)
    requires ctx.Valid() && t.Valid() && t.limit <= ctx.top.elements.Length && |t.nodes| <= FREE
    requires !ctx.next.Empty() && s.Inv(t) && Settled(t, s)
    requires ctx.Shows(t, s) && radius == s.radius && (rereads ==> Rereadable(t))
    modifies ctx.top, ctx.top.elements, ctx.next, ctx.next.elements, ctx.visits, ctx.visits.slots
    ensures ctx.Valid() && ctx.top.elements == old(ctx.top.elements)
    ensures fresh(ctx.next.elements) || ctx.next.elements == old(ctx.next.elements)
    ensures fresh(ctx.visits.slots) || ctx.visits.slots == old(ctx.visits.slots)
    ensures ctx.Shows(t, s') && r == s'.radius && Advanced(t, s, s')
  {
    var c := TakeNext(ctx, t, s.queued);
    BetweenPopped(t, s, c);
    r, s' := Expand(ctx, t, c, radius, rereads, Popped(s, c));
    AdvancedBy(t, s, c, s');
  }

  /** One round of the loop: stop, or expand one more slot. */
  method Round(ctx: Context, t: Traversal, radius: real, rereads: bool, ghost s: State)
    returns (stop: bool, r: real, ghost s': State)
    requires ctx.Valid() && t.Valid() && t.limit <= ctx.top.elements.Length && |t.nodes| <= FREE
    requires !ctx.next.Empty() && s.Inv(t) && Settled(t, s)
    requires ctx.Shows(t, s) && radius == s.radius && (rereads ==> Rereadable(t))
    modifies ctx.top, ctx.top.elements, ctx.next, ctx.next.elements, ctx.visits, ctx.visits.slots
    ensures ctx.Valid() && ctx.top.elements == old(ctx.top.elements)
    ensures fresh(ctx.next.elements) || ctx.next.elements == old(ctx.next.elements)
    ensures fresh(ctx.visits.slots) || ctx.visits.slots == old(ctx.visits.slots)
    ensures ctx.Shows(t, s') && r == s'.radius
    ensures if stop then s' == s && Finished(t, s) else Advanced(t, s, s')
  {
    r, s' := radius, s;
    stop := TooFar(ctx, t, radius, s);
    if !stop {
      r, s' := Advance(ctx, t, radius, rereads, s);
    }
  }

  /** Works the queue off, closest first, until nothing in it can improve the full results. */
  method Run(ctx: Context, t: Traversal, radius: real, rereads: bool) returns (ghost s: State)
    requires ctx.Valid() && t.Valid() && t.limit <= ctx.top.elements.Length && |t.nodes| <= FREE
    requires ctx.Shows(t, Started(t)) && radius == Started(t).radius && (rereads ==> Rereadable(t))
    modifies ctx.top, ctx.top.elements, ctx.next, ctx.next.elements, ctx.visits, ctx.visits.slots
    ensures ctx.Valid() && ctx.top.elements == old(ctx.top.elements)
    ensures fresh(ctx.next.elements) || ctx.next.elements == old(ctx.next.elements)
    ensures fresh(ctx.visits.slots) || ctx.visits.slots == old(ctx.visits.slots)
    ensures Finished(t, s) && ctx.Shows(t, s)
  {
    var r := radius;
    s := Started(t);
    StartedInv(t);
    VisitedBound(t, s);
    while !ctx.next.Empty()
      invariant ctx.Valid() && ctx.top.elements == old(ctx.top.elements)
      invariant fresh(ctx.next.elements) || ctx.next.elements == old(ctx.next.elements)
      invariant fresh(ctx.visits.slots) || ctx.visits.slots == old(ctx.visits.slots)
      invariant s.Inv(t) && Settled(t, s) && |s.visited| <= |t.nodes|
      invariant ctx.Shows(t, s) && r == s.radius
      decreases |t.nodes| - |s.visited|, |s.queued|
    {
      var stop;
      stop, r, s := Round(ctx, t, r, rereads, s);
      if stop {
        return;
      }
    }
    ctx.next.EmptyContents();
    EmptyFinished(t, s, ctx.top.contents);
  }

  method Prepare(ctx: Context, t: Traversal, connectivityBase: nat) returns (radius: real)
    requires ctx.Valid() && t.limit > 0 && t.start < FREE
    modifies ctx.Footprint()
    ensures ctx.Valid() && t.limit <= ctx.top.elements.Length
    ensures fresh(ctx.top.elements) || ctx.top.elements == old(ctx.top.elements)
    ensures fresh(ctx.next.elements) || ctx.next.elements == old(ctx.next.elements)
    ensures fresh(ctx.visits.slots) || ctx.visits.slots == old(ctx.visits.slots)
    ensures ctx.Shows(t, Started(t)) && radius == Started(t).radius
  {
    Reset(ctx);
    MakeRoom(ctx, t.limit, connectivityBase + 1);
    radius := Seed(ctx, t);
  }

  /** Traverses the level from the start; `rereads` is how the search for an update treats the radius. */
  method SearchLevel(ctx: Context, t: Traversal, rereads: bool, connectivityBase: nat) returns (ghost s: State)
    requires ctx.Valid() && t.Valid() && |t.nodes| <= FREE && (rereads ==> Rereadable(t))
    modifies ctx.Footprint()
    ensures ctx.Valid()
    ensures fresh(ctx.top.elements) || ctx.top.elements == old(ctx.top.elements)
    ensures fresh(ctx.next.elements) || ctx.next.elements == old(ctx.next.elements)
    ensures fresh(ctx.visits.slots) || ctx.visits.slots == old(ctx.visits.slots)
    ensures Finished(t, s) && Lists(ctx.top.contents, s.kept, t.dist)
  {
    var radius := Prepare(ctx, t, connectivityBase);
    s := Run(ctx, t, radius, rereads);
  }
}
