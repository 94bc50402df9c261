/** What a query returns: for the exhaustive search, and for the beam search of a level. */
module Query {
  import opened Candidates
  import opened Numbers
  import opened Graph
  import opened BeamStates
  import opened BeamLists
  import opened BeamSearch
  import opened Contexts
  import opened GrowingHashSets
  import opened ExactSearch

  /** A traversal of a level that can see all that is reachable from `start`. */
  ghost function Whole(nodes: seq<Node>, level: nat, start: nat, limit: nat, dist: seq<real>, allow: seq<bool>): Traversal {
    Traversal(nodes, level, start, limit, dist, allow, ReachSlots(nodes, level, start))
  }

  lemma WholeValid(nodes: seq<Node>, c: nat, cb: nat, level: nat, start: nat, limit: nat, dist: seq<real>, allow: seq<bool>)
    requires GraphOk(nodes, c, cb) && start < |nodes| && level <= nodes[start].level && limit > 0
    ensures Whole(nodes, level, start, limit, dist, allow).Valid()
  {
    ReachSlotsClosed(nodes, c, cb, level, start);
    ReachSlotsSpec(nodes, level, start);
  }

  /** `found` is the result list of a finished search of a level from `start`. */
  ghost predicate BeamResult(nodes: seq<Node>, level: nat, start: nat, limit: nat, dist: seq<real>, allow: seq<bool>,
                             s: State, found: seq<Candidate>) {
    Finished(Whole(nodes, level, start, limit, dist, allow), s) && Lists(found, s.kept, dist)
  }

  ghost predicate NoneFarther(found: seq<Candidate>, d: real) {
    forall c :: c in found ==> c.distance <= d
  }

  /** `v` is in the list at its distance, or the list is full without it, of slots no farther. */
  ghost predicate Listed(found: seq<Candidate>, limit: nat, dist: seq<real>, v: nat) {
    Candidate(Dist(dist, v), v) in found || (|found| == limit && NoneFarther(found, Dist(dist, v)))
  }

  /** The results are allowed slots at their distances, sorted, no more than the limit; every slot the search
      visited and did not report is at least as far as the last of a full list; and every neighbour of a
      reported slot was visited, so no allowed neighbour of a result is both left out and closer than the last. */
  lemma BeamOptimal(nodes: seq<Node>, level: nat, start: nat, limit: nat, dist: seq<real>, allow: seq<bool>,
                    s: State, found: seq<Candidate>)
    requires BeamResult(nodes, level, start, limit, dist, allow, s, found)
    ensures Sorted(found) && DistinctSlots(found) && |found| <= limit
    ensures forall c :: c in found ==> Eligible(c, |nodes|, dist, allow) && c.slot in ReachSlots(nodes, level, start)
    ensures forall v :: v in s.visited && Allows(allow, v) ==> Listed(found, limit, dist, v)
    ensures forall c, v :: c in found && v in At(nodes, level, c.slot) && Allows(allow, v) ==> Listed(found, limit, dist, v)
  {
    var t := Whole(nodes, level, start, limit, dist, allow);
    FinishedOptimal(t, s);
    ReachSlotsSpec(nodes, level, start);
    forall v | s.Rejected(t, v)
      ensures |found| == limit && NoneFarther(found, Dist(dist, v))
    {
    }
    forall c, v | c in found && v in At(nodes, level, c.slot) && Allows(allow, v)
      ensures Listed(found, limit, dist, v)
    {
      assert c.slot in s.kept;
    }
  }

  /** What a search of a level promises, said without the search: the list is sorted, of allowed reachable slots at their
      distances, each once, no more than `limit` of them. The start and every neighbour of a listed slot are listed too,
      if allowed, unless the list is full of slots no farther. With room for all that is reachable, all of it is listed. */
  ghost predicate BestFound(nodes: seq<Node>, level: nat, start: nat, limit: nat, dist: seq<real>, allow: seq<bool>,
                            found: seq<Candidate>) {
    && Sorted(found) && DistinctSlots(found) && |found| <= limit
    && (forall c :: c in found ==> Eligible(c, |nodes|, dist, allow) && c.slot in ReachSlots(nodes, level, start))
    && (Allows(allow, start) ==> Listed(found, limit, dist, start))
    && (forall c, v :: c in found && v in At(nodes, level, c.slot) && Allows(allow, v) ==> Listed(found, limit, dist, v))
    && (|ReachSlots(nodes, level, start)| <= limit ==>
          forall v :: v in ReachSlots(nodes, level, start) && Allows(allow, v) ==> Candidate(Dist(dist, v), v) in found)
  }

  lemma BeamBest(nodes: seq<Node>, level: nat, start: nat, limit: nat, dist: seq<real>, allow: seq<bool>,
                 s: State, found: seq<Candidate>)
    requires BeamResult(nodes, level, start, limit, dist, allow, s, found)
    ensures BestFound(nodes, level, start, limit, dist, allow, found)
  {
    BeamOptimal(nodes, level, start, limit, dist, allow, s, found);
    var t := Whole(nodes, level, start, limit, dist, allow);
    ReachSlotsSpec(nodes, level, start);
    if |t.region| <= limit {
      FinishedComplete(t, s);
    }
  }

  /** The exhaustive ranking of the allowed slots that are reachable from `start`. */
  ghost function ReachableRanking(nodes: seq<Node>, level: nat, start: nat, dist: seq<real>, allow: seq<bool>): (r: seq<Candidate>)
    ensures Sorted(r)
  {
    Ranked(|nodes|, dist,
           seq(|nodes|, v requires 0 <= v < |nodes| => v in ReachSlots(nodes, level, start) && Allows(allow, v)))
  }

  lemma RankingMembers(nodes: seq<Node>, level: nat, start: nat, dist: seq<real>, allow: seq<bool>)
    ensures DistinctSlots(ReachableRanking(nodes, level, start, dist, allow))
    ensures forall c :: c in ReachableRanking(nodes, level, start, dist, allow) <==>
      c.slot in ReachSlots(nodes, level, start) && Allows(allow, c.slot) && c.distance == Dist(dist, c.slot)
  {
    var allowed := seq(|nodes|, v requires 0 <= v < |nodes| => v in ReachSlots(nodes, level, start) && Allows(allow, v));
    var exact := Ranked(|nodes|, dist, allowed);
    RankedSpec(|nodes|, dist, allowed);
    ReachSlotsSpec(nodes, level, start);
    forall c
      ensures c in exact <==> c.slot in ReachSlots(nodes, level, start) && Allows(allow, c.slot) && c.distance == Dist(dist, c.slot)
    {
      assert c in exact <==> Eligible(c, |nodes|, dist, allowed);
    }
    forall i, j | 0 <= i < j < |exact|
      ensures exact[i].slot != exact[j].slot
    {
      assert exact[i] in exact && exact[j] in exact;
      assert Precedes(exact[i], exact[j]);
    }
  }

  /** The results are as many as the first `wanted` of the ranking, at the same distances. */
  ghost predicate RanksAs(results: seq<Candidate>, ranking: seq<Candidate>, wanted: nat) {
    && |results| == (if wanted < |ranking| then wanted else |ranking|)
    && forall i :: 0 <= i < |results| ==> results[i].distance == ranking[i].distance
  }

  /** With an expansion of at least the number of reachable slots, the search reports as many slots, at the same
      distances, as ranking all reachable allowed slots does; so do the first `wanted` of both. */
  lemma BeamComplete(nodes: seq<Node>, level: nat, start: nat, limit: nat, dist: seq<real>, allow: seq<bool>,
                     found: seq<Candidate>, wanted: nat)
    requires BestFound(nodes, level, start, limit, dist, allow, found) && |ReachSlots(nodes, level, start)| <= limit
    ensures |found| == |ReachableRanking(nodes, level, start, dist, allow)|
    ensures RanksAs(Take(found, wanted), ReachableRanking(nodes, level, start, dist, allow), wanted)
  {
    var exact := ReachableRanking(nodes, level, start, dist, allow);
    RankingMembers(nodes, level, start, dist, allow);
    forall c
      ensures c in found <==> c in exact
    {
    }
    SameDistances(found, exact);
  }

  /** The results are the first `wanted` of what a search of the base level finds; with room for all that is reachable
      there, they rank as all of it does. */
  ghost predicate Answers(nodes: seq<Node>, start: nat, limit: nat, dist: seq<real>, allow: seq<bool>, wanted: nat,
                          found: seq<Candidate>, results: seq<Candidate>) {
    && BestFound(nodes, 0, start, limit, dist, allow, found)
    && results == found[..if wanted < |found| then wanted else |found|]
    && (forall c :: c in results ==> c.slot < |nodes| && c.slot < |allow| && allow[c.slot])
    && (forall c :: c in results && c.slot < |dist| ==> c.distance == dist[c.slot])
    && (|ReachSlots(nodes, 0, start)| <= limit ==> RanksAs(results, ReachableRanking(nodes, 0, start, dist, allow), wanted))
  }

  lemma BeamAnswers(nodes: seq<Node>, start: nat, limit: nat, dist: seq<real>, allow: seq<bool>, wanted: nat,
                    s: State, found: seq<Candidate>)
    requires BeamResult(nodes, 0, start, limit, dist, allow, s, found)
    ensures Answers(nodes, start, limit, dist, allow, wanted, found, Take(found, wanted))
  {
    BeamBest(nodes, 0, start, limit, dist, allow, s, found);
    if |ReachSlots(nodes, 0, start)| <= limit {
      BeamComplete(nodes, 0, start, limit, dist, allow, found, wanted);
    }
    forall c | c in Take(found, wanted)
      ensures c in found
    {
    }
  }

  /** A beam search of the base level from `start`. */
  method SearchBaseLevel(ctx: Context, nodes: seq<Node>, c: nat, cb: nat, start: nat, limit: nat, dist: seq<real>, allow: seq<bool>)
    returns (ghost s: State)
    requires ctx.Valid() && GraphOk(nodes, c, cb) && start < |nodes| <= FREE && limit > 0
    modifies ctx.Footprint()
    ensures ctx.Valid() && fresh(ctx.Footprint() - old(ctx.Footprint()))
    ensures BeamResult(nodes, 0, start, limit, dist, allow, s, ctx.top.contents)
  {
    WholeValid(nodes, c, cb, 0, start, limit, dist, allow);
    s := SearchLevel(ctx, Traversal(nodes, 0, start, limit, dist, allow, ReachSlots(nodes, 0, start)), false, cb);
  }
}
