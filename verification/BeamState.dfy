/** What a beam search knows while it runs: which slots it has seen, queued, worked off and kept,
    the step it repeats, and the invariant every step preserves. */
module BeamStates {
  import opened Numbers
  import opened Graph

  /** One traversal: of `level` of a graph, from `start`, for a query at distance `dist` from every slot,
      keeping at most `limit` slots that `allow` accepts. `region` is any set of slots of that level that
      the links of the level do not leave. */
  datatype Traversal = Traversal(nodes: seq<Node>, level: nat, start: nat, limit: nat,
                                 dist: seq<real>, allow: seq<bool>, ghost region: set<nat>)
  {
    ghost predicate Valid() {
      limit > 0 && start in region && RegionOk()
    }

    ghost predicate RegionOk() {
      && Closed(nodes, level, region)
      && forall v :: v in region ==> v < |nodes| && level <= nodes[v].level
    }
  }

  /** `radius` is the distance of the worst slot kept, once there is one. */
  datatype State = State(visited: set<nat>, expanded: set<nat>, queued: set<nat>, kept: set<nat>, radius: real)
  {
    /** The results are full and `v` is no closer than the worst of them. */
    ghost predicate Rejected(t: Traversal, v: nat) {
      |kept| == t.limit && radius <= Dist(t.dist, v)
    }

    ghost predicate KeptOk(t: Traversal) {
      && kept <= visited && |kept| <= t.limit
      && (forall v :: v in kept ==> Allows(t.allow, v) && Dist(t.dist, v) <= radius)
      && (Allows(t.allow, t.start) ==> kept != {})
    }

    /** Nothing better than the kept slots was seen and left out. */
    ghost predicate BestKept(t: Traversal) {
      forall v :: v in visited && Allows(t.allow, v) ==> v in kept || Rejected(t, v)
    }

    /** Whatever was seen is worked off, queued, or not worth the work; kept slots are one of the first two. */
    ghost predicate WorkKept(t: Traversal) {
      && queued <= visited && expanded <= visited && queued !! expanded
      && kept <= expanded + queued
      && (forall v :: v in visited ==> v in expanded || v in queued || Rejected(t, v))
    }

    ghost predicate VisitedOk(t: Traversal) {
      t.start in visited && visited <= t.region
    }

    /** All neighbours of the expanded slots were seen, of `current` the first `done`. */
    ghost predicate ExpandedOk(t: Traversal, current: nat, done: nat) {
      && (forall u, v :: u in expanded && u != current && v in At(t.nodes, t.level, u) ==> v in visited)
      && (forall i :: 0 <= i < done && i < |At(t.nodes, t.level, current)| ==> At(t.nodes, t.level, current)[i] in visited)
    }

    ghost predicate Inv(t: Traversal) {
      KeptOk(t) && BestKept(t) && WorkKept(t) && VisitedOk(t)
    }
  }

  ghost function Started(t: Traversal): State {
    State({t.start}, {}, {t.start}, if Allows(t.allow, t.start) then {t.start} else {}, Dist(t.dist, t.start))
  }

  lemma StartedInv(t: Traversal)
    requires t.Valid()
    ensures Started(t).Inv(t) && Settled(t, Started(t))
  {
  }

  /** Whether a slot seen for the first time is worth queueing. */
  ghost predicate Promising(t: Traversal, s: State, v: nat) {
    |s.kept| < t.limit || Dist(t.dist, v) < s.radius
  }

  /** `after` and `radius` are the kept slots and the radius once `v` has been put among them:
      one slot went if there were too many, and none that stays is farther than it. */
  ghost predicate Admitted(t: Traversal, s: State, v: nat, after: set<nat>, radius: real) {
    && v in after && after <= s.kept + {v}
    && |after| == (if |s.kept| < t.limit then |s.kept| + 1 else t.limit)
    && (forall u :: u in after ==> Dist(t.dist, u) <= radius)
    && (forall u :: u in s.kept && u !in after ==> radius <= Dist(t.dist, u))
    && (|s.kept| == t.limit ==> radius <= s.radius)
    && (|s.kept| < t.limit ==> s.kept <= after)
  }

  /** One slot seen for the first time takes the search from `s` to `r`. */
  ghost predicate Step(t: Traversal, s: State, v: nat, r: State) {
    && r.visited == s.visited + {v} && r.expanded == s.expanded
    && (if !Promising(t, s, v) then r.queued == s.queued && r.kept == s.kept && r.radius == s.radius
        else
          && r.queued == s.queued + {v}
          && if Allows(t.allow, v) then Admitted(t, s, v, r.kept, r.radius) else r.kept == s.kept && r.radius == s.radius)
  }

  lemma StepRejected(t: Traversal, s: State, v: nat, r: State, u: nat)
    requires s.KeptOk(t) && Step(t, s, v, r) && s.Rejected(t, u)
    ensures r.Rejected(t, u)
  {
  }

  lemma StepKept(t: Traversal, s: State, v: nat, r: State)
    requires s.KeptOk(t) && s.BestKept(t) && Step(t, s, v, r) && v !in s.visited
    ensures r.KeptOk(t) && r.BestKept(t)
  {
    forall u | u in r.visited && Allows(t.allow, u)
      ensures u in r.kept || r.Rejected(t, u)
    {
    }
  }

  lemma StepWork(t: Traversal, s: State, v: nat, r: State)
    requires s.KeptOk(t) && s.WorkKept(t) && Step(t, s, v, r) && v !in s.visited
    ensures r.WorkKept(t)
  {
    forall u | u in r.visited
      ensures u in r.expanded || u in r.queued || r.Rejected(t, u)
    {
      if u != v && s.Rejected(t, u) {
        StepRejected(t, s, v, r, u);
      }
    }
  }

  /** Looking at neighbour number `done` of `current`. */
  lemma StepInv(t: Traversal, s: State, current: nat, done: nat, r: State)
    requires t.Valid() && s.Inv(t) && current in s.visited
    requires done < |At(t.nodes, t.level, current)|
    requires var v := At(t.nodes, t.level, current)[done]; v !in s.visited && Step(t, s, v, r)
    ensures r.Inv(t)
  {
    var v := At(t.nodes, t.level, current)[done];
    StepKept(t, s, v, r);
    StepWork(t, s, v, r);
    assert v in At(t.nodes, t.level, current);
  }

  /** Looking at neighbour number `done` of `current`: nothing for a slot seen before, a step for a new one. */
  ghost predicate Looked(t: Traversal, s: State, v: nat, r: State) {
    if v in s.visited then r == s else Step(t, s, v, r)
  }

  lemma LookedInv(t: Traversal, s: State, current: nat, done: nat, r: State)
    requires t.Valid() && s.Inv(t) && s.ExpandedOk(t, current, done) && current in s.visited
    requires done < |At(t.nodes, t.level, current)| && Looked(t, s, At(t.nodes, t.level, current)[done], r)
    ensures r.Inv(t) && r.ExpandedOk(t, current, done + 1) && current in r.visited
    ensures s.visited <= r.visited && (r.visited == s.visited ==> r == s)
  {
    if At(t.nodes, t.level, current)[done] !in s.visited {
      StepInv(t, s, current, done, r);
    }
  }

  /** `c` leaves the queue to be expanded. */
  ghost function Popped(s: State, c: nat): State {
    s.(queued := s.queued - {c}, expanded := s.expanded + {c})
  }

  /** Every neighbour of an expanded slot was seen. */
  ghost predicate Settled(t: Traversal, s: State) {
    forall u, v :: u in s.expanded && v in At(t.nodes, t.level, u) ==> v in s.visited
  }

  lemma ExpandedSettled(t: Traversal, s: State, current: nat)
    requires s.ExpandedOk(t, current, |At(t.nodes, t.level, current)|)
    ensures Settled(t, s)
  {
    forall u, v | u in s.expanded && v in At(t.nodes, t.level, u)
      ensures v in s.visited
    {
      if u == current {
        var i :| 0 <= i < |At(t.nodes, t.level, u)| && At(t.nodes, t.level, u)[i] == v;
      }
    }
  }

  lemma PoppedInv(t: Traversal, s: State, c: nat)
    requires s.Inv(t) && Settled(t, s) && c in s.queued
    ensures Popped(s, c).Inv(t) && Popped(s, c).ExpandedOk(t, c, 0) && c in s.visited
  {
  }

  lemma VisitedBound(t: Traversal, s: State)
    requires t.Valid() && s.Inv(t)
    ensures |s.visited| <= |t.nodes|
  {
    SizeBelow(s.visited, |t.nodes|);
  }

  lemma GrownSize(s: set<nat>, r: set<nat>)
    requires s <= r
    ensures s == r || |s| < |r|
  {
    assert r == s + (r - s);
  }

  /** Nothing queued could still improve what is kept. */
  ghost predicate Finished(t: Traversal, s: State) {
    && s.Inv(t) && Settled(t, s)
    && (s.queued == {} || (|s.kept| == t.limit && forall v :: v in s.queued ==> s.radius < Dist(t.dist, v)))
  }

  /** Every kept slot was expanded, so no allowed neighbour of a kept slot is both missing and closer than the worst kept. */
  lemma FinishedOptimal(t: Traversal, s: State)
    requires Finished(t, s)
    ensures s.kept <= s.expanded
    ensures forall u, v :: u in s.kept && v in At(t.nodes, t.level, u) && Allows(t.allow, v) ==> v in s.kept || s.Rejected(t, v)
  {
  }

  /** With room for the whole region, and a region no larger than what is reachable,
      exactly the reachable allowed slots are kept. */
  lemma FinishedComplete(t: Traversal, s: State)
    requires Finished(t, s) && |t.region| <= t.limit
    requires forall v :: v in t.region ==> Reachable(t.nodes, t.level, t.start, v)
    ensures forall v :: v in s.kept <==> v in t.region && Allows(t.allow, v)
  {
    FinishedOptimal(t, s);
    if |s.kept| == t.limit {
      assert t.region == s.kept + (t.region - s.kept);
      assert t.region == s.kept;
    } else {
      assert s.expanded == s.visited;
      ReachableClosed(t.nodes, t.level, t.start, s.visited);
    }
  }
}
