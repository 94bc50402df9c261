/** The manager of the replication topology: balancing, and local repairs. */
module Topologies {
  import opened Texts
  import opened TopologyShape

  /** The followers of `source` but `except`. */
  ghost predicate Orphans(nodes: Nodes, source: string, except: string, ids: seq<string>) {
    forall f :: f in ids <==> Feeds(nodes, source, f) && f != except
  }

  /** Where `ids` have been fed anew, one after the other, each with the source chosen at that moment. */
  ghost predicate Refed(before: Nodes, after: Nodes, leader: string, ids: seq<string>)
  {
    if ids == [] then after == before
    else
      var f := ids[0];
      f in before && exists s :: Selected(before, leader, f, s) && Refed(Fed(before, f, s), after, leader, ids[1..])
  }

  lemma {:induction false} RefedSnoc(before: Nodes, after: Nodes, leader: string, ids: seq<string>, f: string, s: string)
    requires Refed(before, after, leader, ids) && f in after && Selected(after, leader, f, s)
    ensures Refed(before, Fed(after, f, s), leader, ids + [f])
    decreases |ids|
  {
    var all := ids + [f];
    if ids == [] {
      assert all[1..] == [];
      assert Refed(Fed(before, f, s), Fed(after, f, s), leader, all[1..]);
    } else {
      var t :| Selected(before, leader, ids[0], t) && Refed(Fed(before, ids[0], t), after, leader, ids[1..]);
      RefedSnoc(Fed(before, ids[0], t), after, leader, ids[1..], f, s);
      assert all[1..] == ids[1..] + [f];
    }
  }

  /** Feeding anew changes nothing but the sources of those it is for. */
  lemma {:induction false} RefedFrame(before: Nodes, after: Nodes, leader: string, ids: seq<string>)
    requires Refed(before, after, leader, ids)
    ensures after.Keys == before.Keys
    ensures forall id :: id in before && id !in ids ==> after[id] == before[id]
    ensures forall id :: id in before ==> after[id].role == before[id].role && after[id].healthy == before[id].healthy
    decreases |ids|
  {
    if ids != [] {
      var s :| Selected(before, leader, ids[0], s) && Refed(Fed(before, ids[0], s), after, leader, ids[1..]);
      RefedFrame(Fed(before, ids[0], s), after, leader, ids[1..]);
    }
  }

  /** Feeding anew those that a node has left behind makes the shape whole. */
  lemma {:induction false} RefedShape(before: Nodes, after: Nodes, leader: string, loose: string, ids: seq<string>)
    requires Refed(before, after, leader, ids) && ShapeBut(before, leader, loose) && loose != leader && !IsMentor(before, loose)
    requires forall f :: Feeds(before, loose, f) ==> f in ids
    requires forall f :: f in ids ==> f in before && before[f].healthy && before[f].role == Follower
    ensures Shape(after, leader)
    ensures Attached(before, leader) ==> Attached(after, leader)
    decreases |ids|
  {
    if ids == [] {
      ShapeWhole(before, leader, loose);
    } else {
      var f := ids[0];
      var s :| Selected(before, leader, f, s) && Refed(Fed(before, f, s), after, leader, ids[1..]);
      assert NodeOk(before, leader, loose, leader);
      FedShape(before, leader, loose, f, s);
      var mid := Fed(before, f, s);
      forall g | Feeds(mid, loose, g)
        ensures g in ids[1..]
      {
        assert Feeds(before, loose, g) && g != f;
      }
      RefedShape(mid, after, leader, loose, ids[1..]);
    }
  }

  /** What can happen to the topology. Balancing is for the healthy candidates, on a node that is itself named `self`. */
  datatype Command =
    | Register(id: string) | Promote(id: string) | Demote(id: string)
    | MarkLost(id: string) | MarkBack(id: string) | Swap(a: string, b: string)
    | Lead(id: string) | Balance(self: string, candidates: seq<string>)

  datatype Setting = Setting(nodes: Nodes, leader: string)

  ghost predicate Promoted(before: Nodes, after: Nodes, leader: string, id: string) {
    after == if id == "" then before
             else LeaderEnsured(before, leader)[id := if id == leader then LEADER else Info(Mentor, leader, true)]
  }

  /** The node is a healthy follower of the source chosen for it; then the follower it had is fed anew. */
  ghost predicate Demoted(before: Nodes, after: Nodes, leader: string, id: string, s: string, ids: seq<string>) {
    if id == "" || id == leader then after == before
    else
      var made := AsFollower(LeaderEnsured(before, leader), id);
      && Selected(made, leader, id, s) && Orphans(Fed(made, id, s), id, id, ids)
      && Refed(Fed(made, id, s), after, leader, ids)
  }

  ghost predicate FollowersSwapped(before: Nodes, after: Nodes, a: string, b: string, ofA: Found, ofB: Found) {
    if a == "" || b == "" || a == b then after == before
    else
      && FoundFollower(before, a, ofA) && FoundFollower(before, b, ofB)
      && after == Swapped(before, ofA, ofB, a, b)
  }

  /** The node is unhealthy and fed by nobody; then its followers are fed anew. The leader stays the leader. */
  ghost predicate Lost(before: Nodes, after: Nodes, leader: string, id: string, ids: seq<string>) {
    if id == "" then after == before
    else if id == leader then after == before[id := Info(Leader, "", false)]
    else
      var lost := Ensured(before, id)[id := Info(Follower, "", false)];
      Orphans(lost, id, "", ids) && Refed(lost, after, leader, ids)
  }

  /** The node is healthy; if it was fed by nobody, it is a follower of the source chosen for it. */
  ghost predicate Back(before: Nodes, after: Nodes, leader: string, id: string, s: string) {
    if id == "" then after == before
    else
      var base := Ensured(LeaderEnsured(before, leader), id);
      if id == leader then after == base
      else if base[id].source != "" then after == base[id := base[id].(healthy := true)]
      else Selected(AsFollower(base, id), leader, id, s) && after == Fed(AsFollower(base, id), id, s)
  }

  /** But for `id` and the leader, every node keeps role and health, and its source unless it was fed by `id`. */
  ghost predicate OthersKept(before: Nodes, after: Nodes, leader: string, id: string) {
    forall x :: x in before && x != id && x != leader ==>
      && x in after && after[x].role == before[x].role && after[x].healthy == before[x].healthy
      && (before[x].source != id ==> after[x].source == before[x].source)
  }

  /** A demoted node is a healthy follower of the source chosen for it. */
  lemma DemotedMeans(before: Nodes, after: Nodes, leader: string, id: string, s: string, ids: seq<string>)
    requires Demoted(before, after, leader, id, s, ids) && id != "" && id != leader
    ensures id in after && after[id] == Info(Follower, s, true)
    ensures leader != "" ==> leader in after && after[leader] == Info(Leader, "", true)
    ensures OthersKept(before, after, leader, id)
  {
    var made := AsFollower(LeaderEnsured(before, leader), id);
    RefedFrame(Fed(made, id, s), after, leader, ids);
  }

  /** A lost node is nobody's. */
  lemma LostMeans(before: Nodes, after: Nodes, leader: string, id: string, ids: seq<string>)
    requires Lost(before, after, leader, id, ids) && id != "" && id != leader
    ensures id in after && after[id] == Info(Follower, "", false)
    ensures OthersKept(before, after, leader, id)
  {
    RefedFrame(Ensured(before, id)[id := Info(Follower, "", false)], after, leader, ids);
  }

  /** A node that is back keeps role and source, if it has one, and is otherwise a follower of the source chosen for it. */
  lemma BackMeans(before: Nodes, after: Nodes, leader: string, id: string, s: string)
    requires Back(before, after, leader, id, s) && id != "" && id != leader
    ensures id in after && after[id] == if id in before && before[id].source != "" then before[id].(healthy := true)
                                        else Info(Follower, s, true)
    ensures leader != "" ==> leader in after && after[leader] == Info(Leader, "", true)
    ensures OthersKept(before, after, leader, id)
  {
  }

  /** The candidates and whom they are balanced for. */
  ghost predicate Rebalanced(before: Setting, after: Setting, self: string, c: seq<string>) {
    if before.leader == "" && self == "" then after == before
    else
      && after.leader == (if before.leader != "" then before.leader else self)
      && InOrder(c) && after.leader !in c && "" !in c
      && Balanced(after.nodes, after.leader, before.nodes.Keys, c)
  }

  /** The command takes the topology from `before` to `after`. */
  ghost predicate Does(before: Setting, after: Setting, command: Command) {
    var b, a, leader := before.nodes, after.nodes, before.leader;
    match command
    case Lead(id) => after == Setting(LeaderEnsured(b, id), id)
    case Balance(self, c) => Rebalanced(before, after, self, c)
    case Register(id) => after.leader == leader && a == if id == "" then b else Ensured(b, id)
    case Promote(id) => after.leader == leader && Promoted(b, a, leader, id)
    case Demote(id) => after.leader == leader && exists s, ids :: Demoted(b, a, leader, id, s, ids)
    case MarkLost(id) => after.leader == leader && exists ids :: Lost(b, a, leader, id, ids)
    case MarkBack(id) => after.leader == leader && exists s :: Back(b, a, leader, id, s)
    case Swap(x, y) => after.leader == leader && exists ofX, ofY :: FollowersSwapped(b, a, x, y, ofX, ofY)
  }

  lemma PromotedKeeps(before: Nodes, after: Nodes, leader: string, id: string)
    requires Promoted(before, after, leader, id) && Shape(before, leader)
    ensures Shape(after, leader) && (Attached(before, leader) ==> Attached(after, leader))
  {
    LeaderEnsuredShape(before, leader);
    if id == leader {
      assert LeaderEnsured(before, leader)[id := LEADER] == LeaderEnsured(before, leader);
    } else if id != "" {
      PromotedShape(LeaderEnsured(before, leader), leader, id);
    }
  }

  lemma DemotedKeeps(before: Nodes, after: Nodes, leader: string, id: string, s: string, ids: seq<string>)
    requires Demoted(before, after, leader, id, s, ids) && Shape(before, leader)
    ensures Shape(after, leader) && (Attached(before, leader) ==> Attached(after, leader))
  {
    if id != "" && id != leader {
      LeaderEnsuredShape(before, leader);
      AsFollowerShape(LeaderEnsured(before, leader), leader, id, s);
      RefedShape(Fed(AsFollower(LeaderEnsured(before, leader), id), id, s), after, leader, id, ids);
    }
  }

  lemma LostKeeps(before: Nodes, after: Nodes, leader: string, id: string, ids: seq<string>)
    requires Lost(before, after, leader, id, ids) && Shape(before, leader)
    ensures Shape(after, leader) && (Attached(before, leader) ==> Attached(after, leader))
  {
    if id == leader {
      LeaderUnhealthyShape(before, leader);
    } else if id != "" {
      LostShape(before, leader, id);
      RefedShape(Ensured(before, id)[id := Info(Follower, "", false)], after, leader, id, ids);
    }
  }

  lemma BackKeeps(before: Nodes, after: Nodes, leader: string, id: string, s: string)
    requires Back(before, after, leader, id, s) && Shape(before, leader)
    ensures Shape(after, leader) && (Attached(before, leader) ==> Attached(after, leader))
  {
    if id != "" {
      var led := LeaderEnsured(before, leader);
      LeaderEnsuredShape(before, leader);
      if id != leader {
        var base := Ensured(led, id);
        assert AsFollower(base, id) == AsFollower(led, id);
        if base[id].source != "" {
          StillHealthyShape(led, leader, id);
        } else {
          RevivedShape(led, leader, id, s);
        }
      }
    }
  }

  ghost predicate HasFollower(nodes: Nodes, source: string) {
    exists f :: Feeds(nodes, source, f)
  }

  /** The leader named is the present one, and a follower is only swapped to a node that may have one. */
  ghost predicate Harmless(before: Setting, command: Command) {
    match command
    case Lead(id) => id == before.leader
    case Swap(a, b) =>
      || a == "" || b == "" || a == b
      || ((HasFollower(before.nodes, a) ==> MayFeed(before.nodes, before.leader, b))
          && (HasFollower(before.nodes, b) ==> MayFeed(before.nodes, before.leader, a)))
    case _ => true
  }

  ghost predicate InShape(s: Setting) {
    Shape(s.nodes, s.leader)
  }

  lemma SwapExact(before: Setting, after: Setting, a: string, b: string)
    requires InShape(before) && Does(before, after, Swap(a, b))
    ensures InShape(after) <==> Harmless(before, Swap(a, b))
    ensures Attached(before.nodes, before.leader) ==> Attached(after.nodes, after.leader)
  {
    var ofA, ofB :| FollowersSwapped(before.nodes, after.nodes, a, b, ofA, ofB);
    if a != "" && b != "" && a != b {
      SwappedShape(before.nodes, before.leader, a, b, ofA, ofB);
      assert HasFollower(before.nodes, a) <==> ofA.Some?;
      assert HasFollower(before.nodes, b) <==> ofB.Some?;
    }
  }

  /** Of a topology in shape every command keeps the shape but two: naming another leader, and swapping a follower to a
      node that may not have one. */
  lemma CommandKeepsShape(before: Setting, after: Setting, command: Command)
    requires Does(before, after, command) && InShape(before)
    ensures InShape(after) <==> Harmless(before, command)
    ensures Attached(before.nodes, before.leader) && InShape(after) && !command.Register? ==> Attached(after.nodes, after.leader)
  {
    var b, a, leader := before.nodes, after.nodes, before.leader;
    match command {
      case Lead(id) =>
        SetLeaderShape(b, leader, id);
        LeaderEnsuredShape(b, leader);
      case Balance(self, c) => BalancedShape(a, after.leader, b.Keys, c);
      case Register(id) =>
        if id != "" {
          EnsuredShape(b, leader, id);
        }
      case Promote(id) => PromotedKeeps(b, a, leader, id);
      case Demote(id) =>
        var s, ids :| Demoted(b, a, leader, id, s, ids);
        DemotedKeeps(b, a, leader, id, s, ids);
      case MarkLost(id) =>
        var ids :| Lost(b, a, leader, id, ids);
        LostKeeps(b, a, leader, id, ids);
      case MarkBack(id) =>
        var s :| Back(b, a, leader, id, s);
        BackKeeps(b, a, leader, id, s);
      case Swap(x, y) => SwapExact(before, after, x, y);
    }
  }

  ghost predicate CommandRun(run: seq<Setting>, commands: seq<Command>) {
    && |run| == |commands| + 1
    && forall k :: 0 <= k < |commands| ==> Does(run[k], run[k + 1], commands[k])
  }

  /** A run that starts in shape stays in shape throughout exactly if every command is harmless when it is given. */
  lemma {:induction false} RunKeepsShape(run: seq<Setting>, commands: seq<Command>)
    requires CommandRun(run, commands) && InShape(run[0])
    ensures (forall k :: 0 <= k < |run| ==> InShape(run[k])) <==> (forall k :: 0 <= k < |commands| ==> Harmless(run[k], commands[k]))
  {
    if commands != [] {
      var n := |commands| - 1;
      RunFront(run, commands, n);
      RunKeepsShape(run[..n + 1], commands[..n]);
      assert Does(run[n], run[n + 1], commands[n]);
      if InShape(run[n]) {
        CommandKeepsShape(run[n], run[n + 1], commands[n]);
      }
      assert (forall k :: 0 <= k < |run| ==> InShape(run[k])) <==> (forall k :: 0 <= k <= n ==> InShape(run[k])) && InShape(run[n + 1]);
    }
  }

  lemma RunFront(run: seq<Setting>, commands: seq<Command>, n: nat)
    requires CommandRun(run, commands) && n <= |commands|
    ensures CommandRun(run[..n + 1], commands[..n])
    ensures forall k :: 0 <= k <= n ==> run[..n + 1][k] == run[k]
    ensures forall k :: 0 <= k < n ==> commands[..n][k] == commands[k]
  {
    forall k | 0 <= k < n
      ensures Does(run[..n + 1][k], run[..n + 1][k + 1], commands[..n][k])
    {
      assert Does(run[k], run[k + 1], commands[k]);
    }
  }

  /** While it does, every node that is fed at all is at most two steps from the leader, and every healthy one is fed
      unless new nodes are registered. */
  lemma {:induction false} RunReachesLeader(run: seq<Setting>, commands: seq<Command>, k: nat)
    requires CommandRun(run, commands) && k < |run| && forall j :: 0 <= j <= k ==> InShape(run[j])
    ensures forall id :: id in run[k].nodes && run[k].nodes[id].source != "" ==> ReachesLeader(run[k].nodes, run[k].leader, id, 2)
    ensures Attached(run[0].nodes, run[0].leader) && (forall j :: 0 <= j < k ==> !commands[j].Register?) ==>
            Attached(run[k].nodes, run[k].leader)
  {
    if k > 0 {
      RunReachesLeader(run, commands, k - 1);
      assert Does(run[k - 1], run[k - 1 + 1], commands[k - 1]);
      CommandKeepsShape(run[k - 1], run[k], commands[k - 1]);
    }
    forall id | id in run[k].nodes && run[k].nodes[id].source != ""
      ensures ReachesLeader(run[k].nodes, run[k].leader, id, 2)
    {
      TwoHops(run[k].nodes, run[k].leader, id);
    }
  }

  /** Balancing gives the shape whatever came before. */
  lemma BalanceRestores(before: Setting, after: Setting, self: string, c: seq<string>)
    requires Does(before, after, Balance(self, c)) && "" !in before.nodes && (before.leader != "" || self != "")
    ensures InShape(after) && Attached(after.nodes, after.leader)
  {
    BalancedShape(after.nodes, after.leader, before.nodes.Keys, c);
  }

  class TopologyManager {
    const selfId: string
    var leaderId: string
    var nodes: Nodes

    constructor (selfId: string)
      ensures Valid() && leaderId == "" && this.selfId == selfId
      ensures nodes == if selfId == "" then map[] else map[selfId := NEW_NODE]
    {
      this.selfId := selfId;
      leaderId := "";
      nodes := if selfId == "" then map[] else map[selfId := NEW_NODE];
    }

    ghost predicate Valid()
      reads this
    {
      "" !in nodes
    }

    ghost predicate InShape()
      reads this
    {
      Shape(nodes, leaderId)
    }

    ghost predicate AllAttached()
      reads this
    {
      Attached(nodes, leaderId)
    }

    /** Makes a node known. A new one is healthy but not fed by any. */
    method RegisterNode(id: string)
      requires Valid()
      modifies this`nodes
      ensures Valid() && nodes == if id == "" then old(nodes) else Ensured(old(nodes), id)
      ensures old(InShape()) ==> InShape()
    {
      if id == "" {
        return;
      }
      if InShape() {
        EnsuredShape(nodes, leaderId, id);
      }
      nodes := Ensured(nodes, id);
    }

    /** Names the leader. From a state in shape, that keeps the shape exactly if it is the same one. */
    method SetLeader(id: string)
      requires Valid()
      modifies this
      ensures Valid() && leaderId == id && nodes == LeaderEnsured(old(nodes), id)
      ensures old(InShape()) ==> (InShape() <==> id == old(leaderId))
    {
      if InShape() {
        SetLeaderShape(nodes, leaderId, id);
      }
      leaderId := id;
      nodes := LeaderEnsured(nodes, id);
    }

    method FindFollowerOf(source: string) returns (found: Found)
      ensures FoundFollower(nodes, source, found)
    {
      found := None;
      var rest := nodes.Keys;
      while rest != {}
        invariant rest <= nodes.Keys && forall f :: f in nodes.Keys - rest ==> !Feeds(nodes, source, f)
        decreases |rest|
      {
        var id :| id in rest;
        if Feeds(nodes, source, id) {
          return Some(id);
        }
        rest := rest - {id};
      }
    }

    /** The healthy mentors in order. */
    method SortedMentors() returns (mentors: seq<string>)
      ensures InOrder(mentors) && forall m :: m in mentors <==> IsMentor(nodes, m)
    {
      mentors := [];
      var rest := nodes.Keys;
      while rest != {}
        invariant rest <= nodes.Keys && InOrder(mentors)
        invariant forall m :: m in mentors <==> IsMentor(nodes, m) && m !in rest
        decreases |rest|
      {
        var id :| id in rest;
        if IsMentor(nodes, id) {
          ghost var before := mentors;
          mentors := InsertName(mentors, id);
          MembersAfter(before, mentors, id);
        }
        rest := rest - {id};
      }
    }

    /** The source for a follower: the first mentor that can take it, otherwise the leader. */
    method SelectSource(f: string) returns (s: string)
      ensures Selected(nodes, leaderId, f, s) && SourceFor(nodes, leaderId, f, s)
    {
      var mentors := SortedMentors();
      for i := 0 to |mentors|
        invariant forall k :: 0 <= k < i && mentors[k] != f ==> TakenOtherwise(nodes, mentors[k], f)
      {
        if mentors[i] != f {
          var existing := FindFollowerOf(mentors[i]);
          if existing == None || existing == Some(f) {
            assert mentors[i] in mentors;
            FirstTaking(nodes, mentors, i, f);
            SelectedMeans(nodes, leaderId, f, mentors[i]);
            return mentors[i];
          }
        }
      }
      s := if leaderId != f then leaderId else "";
      SelectedMeans(nodes, leaderId, f, s);
    }

    method FollowersOf(source: string, except: string) returns (ids: seq<string>)
      ensures InOrder(ids) && Orphans(nodes, source, except, ids)
    {
      ids := [];
      var rest := nodes.Keys;
      while rest != {}
        invariant rest <= nodes.Keys && InOrder(ids)
        invariant forall f :: f in ids <==> Feeds(nodes, source, f) && f != except && f !in rest
        decreases |rest|
      {
        var id :| id in rest;
        if Feeds(nodes, source, id) && id != except {
          ghost var before := ids;
          ids := InsertName(ids, id);
          MembersAfter(before, ids, id);
        }
        rest := rest - {id};
      }
    }

    /** Gives the followers of a node, but one, other sources, in the order of their names. */
    method ReassignFollowers(source: string, except: string) returns (ghost ids: seq<string>)
      requires Valid()
      modifies this`nodes
      ensures Valid() && Refed(old(nodes), nodes, leaderId, ids)
      ensures if source == "" then ids == [] else InOrder(ids) && Orphans(old(nodes), source, except, ids)
    {
      ids := [];
      if source == "" {
        return;
      }
      ghost var before := nodes;
      var list := FollowersOf(source, except);
      ids := list;
      for i := 0 to |list|
        invariant Refed(before, nodes, leaderId, list[..i]) && nodes.Keys == before.Keys
      {
        assert list[i] in list;
        var s := SelectSource(list[i]);
        RefedSnoc(before, nodes, leaderId, list[..i], list[i], s);
        assert list[..i + 1] == list[..i] + [list[i]];
        nodes := Fed(nodes, list[i], s);
      }
      assert list[..|list|] == list;
    }

    /** Makes a node a mentor, fed by the leader; the leader's stays the leader's. */
    method PromoteToMentor(id: string)
      requires Valid()
      modifies this`nodes
      ensures Valid() && Promoted(old(nodes), nodes, leaderId, id)
      ensures old(InShape()) ==> InShape()
    {
      ghost var before := nodes;
      if id != "" {
        nodes := LeaderEnsured(nodes, leaderId);
        nodes := nodes[id := if id == leaderId then LEADER else Info(Mentor, leaderId, true)];
      }
      if Shape(before, leaderId) {
        PromotedKeeps(before, nodes, leaderId, id);
      }
    }

    /** Makes a node a follower; the follower it had as a mentor is given another source. */
    method DemoteToFollower(id: string) returns (ghost s: string, ghost ids: seq<string>)
      requires Valid()
      modifies this`nodes
      ensures Valid() && Demoted(old(nodes), nodes, leaderId, id, s, ids)
      ensures old(InShape()) ==> InShape()
    {
      s, ids := "", [];
      if id == "" || id == leaderId {
        return;
      }
      ghost var before := nodes;
      nodes := LeaderEnsured(nodes, leaderId);
      nodes := AsFollower(nodes, id);
      var source := SelectSource(id);
      s := source;
      nodes := Fed(nodes, id, source);
      ids := ReassignFollowers(id, id);
      if Shape(before, leaderId) {
        DemotedKeeps(before, nodes, leaderId, id, s, ids);
      }
    }

    /** Lets two nodes exchange a healthy follower each, as far as they have one. */
    method SwapFollowers(a: string, b: string) returns (ghost ofA: Found, ghost ofB: Found)
      requires Valid()
      modifies this`nodes
      ensures Valid() && FollowersSwapped(old(nodes), nodes, a, b, ofA, ofB)
      ensures a != "" && b != "" && a != b && old(InShape()) ==>
        (InShape() <==> (ofA.Some? ==> MayFeed(old(nodes), leaderId, b)) && (ofB.Some? ==> MayFeed(old(nodes), leaderId, a)))
    {
      ofA, ofB := None, None;
      if a == "" || b == "" || a == b {
        return;
      }
      var followerA := FindFollowerOf(a);
      var followerB := FindFollowerOf(b);
      ofA, ofB := followerA, followerB;
      if InShape() {
        SwappedShape(nodes, leaderId, a, b, ofA, ofB);
      }
      if followerA.Some? {
        nodes := Fed(nodes, followerA.id, b);
      }
      if followerB.Some? {
        nodes := Fed(nodes, followerB.id, a);
      }
    }

    /** Notes that a node is lost: nobody feeds it, and its followers are given other sources. */
    method MarkUnhealthy(id: string) returns (ghost ids: seq<string>)
      requires Valid()
      modifies this`nodes
      ensures Valid() && Lost(old(nodes), nodes, leaderId, id, ids)
      ensures old(InShape()) ==> InShape()
    {
      ids := [];
      if id == "" {
        return;
      }
      ghost var before := nodes;
      if id == leaderId {
        nodes := nodes[id := Info(Leader, "", false)];
      } else {
        nodes := Ensured(nodes, id)[id := Info(Follower, "", false)];
        ids := ReassignFollowers(id, "");
      }
      if Shape(before, leaderId) {
        LostKeeps(before, nodes, leaderId, id, ids);
      }
    }

    /** Notes that a node is back; one without a source becomes a follower and is given one. */
    method MarkHealthy(id: string) returns (ghost s: string)
      requires Valid()
      modifies this`nodes
      ensures Valid() && Back(old(nodes), nodes, leaderId, id, s)
      ensures old(InShape()) ==> InShape()
    {
      s := "";
      if id == "" {
        return;
      }
      ghost var before := nodes;
      nodes := LeaderEnsured(nodes, leaderId);
      nodes := Ensured(nodes, id);
      if id != leaderId {
        if nodes[id].source != "" {
          nodes := nodes[id := nodes[id].(healthy := true)];
        } else {
          nodes := AsFollower(nodes, id);
          var source := SelectSource(id);
          s := source;
          nodes := Fed(nodes, id, source);
        }
      }
      if Shape(before, leaderId) {
        BackKeeps(before, nodes, leaderId, id, s);
      }
    }

    /** The listed names in order, once each, without the empty one and the leader's. */
    method Candidates(healthy: seq<string>) returns (c: seq<string>)
      ensures InOrder(c) && NamesIn(c) == NamesIn(healthy) - {"", leaderId}
    {
      var names := [];
      for i := 0 to |healthy|
        invariant forall j, k :: 0 <= j < k < |names| ==> names[j] != names[k]
        invariant NamesIn(names) == NamesIn(healthy[..i]) - {"", leaderId}
      {
        assert NamesIn(healthy[..i + 1]) == NamesIn(healthy[..i]) + {healthy[i]};
        assert healthy[i] in names <==> healthy[i] in NamesIn(names);
        if healthy[i] != "" && healthy[i] != leaderId && healthy[i] !in names {
          assert NamesIn(names + [healthy[i]]) == NamesIn(names) + {healthy[i]};
          names := names + [healthy[i]];
        }
      }
      assert healthy[..|healthy|] == healthy;
      c := SortNames(names);
    }

    /** Makes a candidate a mentor, or the follower of one of the mentors so far. */
    method AssignOne(c: seq<string>, index: nat, mentors: seq<string>, ghost known: set<string>) returns (r: seq<string>)
      requires InOrder(c) && leaderId !in c && index < |c|
      requires MentorsSo(mentors, c, index) && Placed(nodes, leaderId, known, c, index)
      modifies this`nodes
      ensures MentorsSo(r, c, index + 1) && Placed(nodes, leaderId, known, c, index + 1)
    {
      PlacedNext(nodes, leaderId, known, c, index);
      var count := MentorCount(|c|);
      if index < count {
        nodes := nodes[c[index] := Info(Mentor, leaderId, true)];
        r := mentors + [c[index]];
      } else {
        nodes := nodes[c[index] := Info(Follower, mentors[index - count], true)];
        r := mentors;
      }
    }

    /** Gives every candidate its place. */
    method Assign(c: seq<string>, ghost known: set<string>)
      requires InOrder(c) && leaderId !in c && Placed(nodes, leaderId, known, c, 0)
      modifies this`nodes
      ensures Balanced(nodes, leaderId, known, c)
    {
      var mentors: seq<string> := [];
      for index := 0 to |c|
        invariant MentorsSo(mentors, c, index) && Placed(nodes, leaderId, known, c, index)
      {
        mentors := AssignOne(c, index, mentors, known);
      }
      PlacedAll(nodes, leaderId, known, c);
    }

    /** Builds the topology anew from the healthy nodes. It fails only if nobody can be the leader. */
    method Rebalance(healthy: seq<string>) returns (done: bool, ghost c: seq<string>)
      requires Valid()
      modifies this
      ensures Valid()
      ensures done <==> old(leaderId) != "" || selfId != ""
      ensures !done ==> nodes == old(nodes) && leaderId == old(leaderId)
      ensures done ==>
        && leaderId == (if old(leaderId) != "" then old(leaderId) else selfId)
        && InOrder(c) && NamesIn(c) == NamesIn(healthy) - {"", leaderId}
        && Balanced(nodes, leaderId, old(nodes).Keys, c)
        && InShape() && AllAttached()
        && (exists m: nat :: Halved(nodes, leaderId, c, m)) && EvenlyShared(nodes)
    {
      c := [];
      if leaderId == "" {
        if selfId == "" {
          return false, c;
        }
        leaderId := selfId;
      }
      ghost var known := nodes.Keys;
      nodes := LeaderEnsured(nodes, leaderId);
      nodes := map id | id in nodes :: if id == leaderId then LEADER else Info(Follower, "", false);
      var candidates := Candidates(healthy);
      c := candidates;
      assert forall id :: id in c <==> id in NamesIn(c);
      Assign(candidates, known);
      BalancedShape(nodes, leaderId, known, c);
      BalancedHalves(nodes, leaderId, known, c);
      BalancedEvenly(nodes, leaderId, known, c, MentorCount(|c|));
      done := true;
    }
  }

  /** The mentors made from the first `n` candidates. */
  ghost predicate MentorsSo(mentors: seq<string>, c: seq<string>, n: nat) {
    && |mentors| == (if n < MentorCount(|c|) then n else MentorCount(|c|))
    && forall j :: 0 <= j < |mentors| && j < |c| ==> mentors[j] == c[j]
  }

  lemma MembersAfter(before: seq<string>, after: seq<string>, x: string)
    requires NamesIn(after) == NamesIn(before) + {x}
    ensures forall m :: m in after <==> m == x || m in before
  {
    assert forall m :: m in after <==> m in NamesIn(after);
    assert forall m :: m in before <==> m in NamesIn(before);
  }

  lemma FirstTaking(nodes: Nodes, mentors: seq<string>, i: nat, f: string)
    requires InOrder(mentors) && i < |mentors| && forall m :: m in mentors <==> IsMentor(nodes, m)
    requires forall k :: 0 <= k < i && mentors[k] != f ==> TakenOtherwise(nodes, mentors[k], f)
    ensures forall m :: IsMentor(nodes, m) && m != f && Below(m, mentors[i]) ==> TakenOtherwise(nodes, m, f)
  {
    forall m | IsMentor(nodes, m) && m != f && Below(m, mentors[i])
      ensures TakenOtherwise(nodes, m, f)
    {
      assert m in mentors;
      var k :| 0 <= k < |mentors| && mentors[k] == m;
      BelowTotal(m, mentors[i]);
      BelowIrreflexive(m);
    }
  }
}
