/** The replication topology as a map of nodes: its shape, and what keeps it. */
module TopologyShape {
  import opened Texts

  datatype Role = Leader | Mentor | Follower

  /** A node's role, the node it is fed by (none if empty), and whether it is healthy. */
  datatype Info = Info(role: Role, source: string, healthy: bool)

  type Nodes = map<string, Info>

  const NEW_NODE: Info := Info(Follower, "", true)
  const LEADER: Info := Info(Leader, "", true)

  predicate IsMentor(nodes: Nodes, id: string) {
    id in nodes && nodes[id].healthy && nodes[id].role == Mentor
  }

  /** `f` is a healthy follower fed by `source`. */
  predicate Feeds(nodes: Nodes, source: string, f: string) {
    f in nodes && nodes[f].healthy && nodes[f].role == Follower && nodes[f].source == source
  }

  /** What the node may be, given the others; followers still fed by `loose` are left aside. */
  ghost predicate NodeOk(nodes: Nodes, leader: string, loose: string, id: string)
    requires id in nodes
  {
    var n := nodes[id];
    if id == leader then n.role == Leader && n.source == ""
    else
      && n.role != Leader
      && (!n.healthy ==> n.role == Follower && n.source == "")
      && (n.role == Mentor ==> n.source == leader)
      && (n.role == Follower && n.source != loose ==> n.source == "" || n.source == leader || IsMentor(nodes, n.source))
  }

  /** A mentor feeds at most one healthy follower. */
  ghost predicate OneEach(nodes: Nodes) {
    forall m, f, g :: IsMentor(nodes, m) && Feeds(nodes, m, f) && Feeds(nodes, m, g) ==> f == g
  }

  ghost predicate ShapeBut(nodes: Nodes, leader: string, loose: string) {
    && leader != "" && leader in nodes && "" !in nodes
    && (forall id :: id in nodes ==> NodeOk(nodes, leader, loose, id))
    && OneEach(nodes)
  }

  /** One leader, mentors fed by it, each with at most one healthy follower, and followers fed by a mentor, by the
      leader or by nobody; unhealthy nodes are fed by nobody. */
  ghost predicate Shape(nodes: Nodes, leader: string) {
    ShapeBut(nodes, leader, "")
  }

  /** Every healthy node but the leader is fed by some node. */
  ghost predicate Attached(nodes: Nodes, leader: string) {
    forall id :: id in nodes && nodes[id].healthy && id != leader ==> nodes[id].source != ""
  }

  /** How many steps up the sources lead from `id` to the leader, if at most `fuel`. */
  ghost predicate ReachesLeader(nodes: Nodes, leader: string, id: string, fuel: nat)
    decreases fuel
  {
    id == leader || (fuel > 0 && id in nodes && nodes[id].source != "" && ReachesLeader(nodes, leader, nodes[id].source, fuel - 1))
  }

  /** Every node that is fed at all is at most two steps from the leader. */
  lemma TwoHops(nodes: Nodes, leader: string, id: string)
    requires Shape(nodes, leader) && id in nodes && nodes[id].source != ""
    ensures ReachesLeader(nodes, leader, id, 2)
  {
    assert NodeOk(nodes, leader, "", id);
    var source := nodes[id].source;
    if source != leader {
      assert NodeOk(nodes, leader, "", source);
      assert ReachesLeader(nodes, leader, nodes[source].source, 0);
      assert ReachesLeader(nodes, leader, source, 1);
    } else {
      assert ReachesLeader(nodes, leader, source, 1);
    }
  }

  /** The leader's node, made what it has to be. */
  function LeaderEnsured(nodes: Nodes, leader: string): (r: Nodes)
    ensures leader != "" ==> leader in r && r[leader] == Info(Leader, "", true)
  {
    if leader == "" then nodes else nodes[leader := LEADER]
  }

  /** A node made known; a new one is healthy, and nobody feeds it. */
  function Ensured(nodes: Nodes, id: string): (r: Nodes)
    ensures id in r && r[id] == if id in nodes then nodes[id] else Info(Follower, "", true)
  {
    if id in nodes then nodes else nodes[id := NEW_NODE]
  }

  lemma LeaderEnsuredShape(nodes: Nodes, leader: string)
    requires Shape(nodes, leader)
    ensures Shape(LeaderEnsured(nodes, leader), leader)
    ensures Attached(nodes, leader) ==> Attached(LeaderEnsured(nodes, leader), leader)
  {
    var after := LeaderEnsured(nodes, leader);
    assert NodeOk(nodes, leader, "", leader);
    forall id | id in after
      ensures NodeOk(after, leader, "", id)
    {
      assert NodeOk(nodes, leader, "", id);
    }
    forall m, f, g | IsMentor(after, m) && Feeds(after, m, f) && Feeds(after, m, g)
      ensures f == g
    {
      assert IsMentor(nodes, m) && Feeds(nodes, m, f) && Feeds(nodes, m, g);
    }
  }

  lemma EnsuredShape(nodes: Nodes, leader: string, id: string)
    requires Shape(nodes, leader) && id != ""
    ensures Shape(Ensured(nodes, id), leader)
  {
    var after := Ensured(nodes, id);
    forall x | x in after
      ensures NodeOk(after, leader, "", x)
    {
      assert x in nodes ==> NodeOk(nodes, leader, "", x);
    }
    forall m, f, g | IsMentor(after, m) && Feeds(after, m, f) && Feeds(after, m, g)
      ensures f == g
    {
      assert IsMentor(nodes, m) && Feeds(nodes, m, f) && Feeds(nodes, m, g);
    }
  }

  /** Naming another leader breaks the shape, because the old one keeps its role; naming the same one keeps it. */
  lemma SetLeaderShape(nodes: Nodes, leader: string, next: string)
    requires Shape(nodes, leader)
    ensures Shape(LeaderEnsured(nodes, next), next) <==> next == leader
  {
    if next == leader {
      LeaderEnsuredShape(nodes, leader);
    } else if next != "" {
      var after := LeaderEnsured(nodes, next);
      assert NodeOk(nodes, leader, "", leader);
      assert !NodeOk(after, next, "", leader);
    }
  }

  /** A node made a mentor. */
  lemma PromotedShape(nodes: Nodes, leader: string, id: string)
    requires Shape(nodes, leader) && id != leader && id != ""
    ensures Shape(nodes[id := Info(Mentor, leader, true)], leader)
    ensures Attached(nodes, leader) ==> Attached(nodes[id := Info(Mentor, leader, true)], leader)
  {
    var after := nodes[id := Info(Mentor, leader, true)];
    forall x | x in after
      ensures NodeOk(after, leader, "", x)
    {
      assert x in nodes ==> NodeOk(nodes, leader, "", x);
      assert id in nodes ==> NodeOk(nodes, leader, "", id);
    }
    forall m, f, g | IsMentor(after, m) && Feeds(after, m, f) && Feeds(after, m, g)
      ensures f == g
    {
      assert NodeOk(nodes, leader, "", f);
      assert Feeds(nodes, m, f) && Feeds(nodes, m, g);
    }
  }

  /** `m` may take `f`: it is another healthy mentor without a healthy follower, or with `f`. */
  ghost predicate Takes(nodes: Nodes, m: string, f: string) {
    IsMentor(nodes, m) && m != f && (Feeds(nodes, m, f) || forall g :: !Feeds(nodes, m, g))
  }

  /** A mentor that cannot be given `f` because it has another follower. */
  ghost predicate TakenOtherwise(nodes: Nodes, m: string, f: string) {
    exists g :: g != f && Feeds(nodes, m, g)
  }

  /** The source chosen for `f`: the first mentor in order that can take it; if there is none, the leader. */
  ghost predicate Selected(nodes: Nodes, leader: string, f: string, s: string) {
    || (Takes(nodes, s, f) && forall m :: IsMentor(nodes, m) && m != f && Below(m, s) ==> TakenOtherwise(nodes, m, f))
    || (s == (if leader != f then leader else "") && forall m :: IsMentor(nodes, m) && m != f ==> TakenOtherwise(nodes, m, f))
  }

  ghost function MentorNames(nodes: Nodes): set<string> {
    set id | id in nodes && nodes[id].role == Mentor && nodes[id].healthy
  }

  ghost function FollowerNames(nodes: Nodes): set<string> {
    set id | id in nodes && nodes[id].role == Follower && nodes[id].healthy
  }

  ghost predicate Alone(nodes: Nodes, mentor: string) {
    forall f :: f in FollowerNames(nodes) ==> nodes[f].source != mentor
  }

  /** Some healthy follower other than `f` is fed by `m`. */
  ghost predicate FeedsAnother(nodes: Nodes, m: string, f: string) {
    exists g :: g in FollowerNames(nodes) && g != f && nodes[g].source == m
  }

  /** `s` is the first healthy mentor in order, not `f` itself, that feeds no healthy follower or feeds `f`; where all the
      mentors there are feed others, it is the leader, and nobody for the leader itself. */
  ghost predicate SourceFor(nodes: Nodes, leader: string, f: string, s: string) {
    || (&& s in MentorNames(nodes) && s != f
        && ((f in FollowerNames(nodes) && nodes[f].source == s) || Alone(nodes, s))
        && forall m :: m in MentorNames(nodes) && m != f && Below(m, s) ==> FeedsAnother(nodes, m, f))
    || (&& s == (if leader != f then leader else "")
        && forall m :: m in MentorNames(nodes) && m != f ==> FeedsAnother(nodes, m, f))
  }

  lemma SelectedMeans(nodes: Nodes, leader: string, f: string, s: string)
    requires Selected(nodes, leader, f, s)
    ensures SourceFor(nodes, leader, f, s)
  {
    forall m | m in MentorNames(nodes) && TakenOtherwise(nodes, m, f)
      ensures FeedsAnother(nodes, m, f)
    {
      var g :| g != f && Feeds(nodes, m, g);
      assert g in FollowerNames(nodes);
    }
    if Takes(nodes, s, f) && !Feeds(nodes, s, f) {
      forall g | g in FollowerNames(nodes)
        ensures nodes[g].source != s
      {
        assert !Feeds(nodes, s, g);
      }
    }
  }

  function Fed(nodes: Nodes, f: string, source: string): Nodes
    requires f in nodes
  {
    nodes[f := nodes[f].(source := source)]
  }

  /** A healthy follower given the source chosen for it. */
  lemma FedShape(nodes: Nodes, leader: string, loose: string, f: string, s: string)
    requires ShapeBut(nodes, leader, loose) && loose != leader && !IsMentor(nodes, loose)
    requires f in nodes && f != leader && nodes[f].healthy && nodes[f].role == Follower
    requires Selected(nodes, leader, f, s)
    ensures ShapeBut(Fed(nodes, f, s), leader, loose) && s != loose && s != f && s != ""
    ensures !IsMentor(Fed(nodes, f, s), loose)
  {
    var after := Fed(nodes, f, s);
    forall x | x in after
      ensures NodeOk(after, leader, loose, x)
    {
      assert NodeOk(nodes, leader, loose, x);
    }
    forall m, g, h | IsMentor(after, m) && Feeds(after, m, g) && Feeds(after, m, h)
      ensures g == h
    {
      assert NodeOk(nodes, leader, loose, leader);
      assert IsMentor(nodes, m);
      assert g != f ==> Feeds(nodes, m, g);
      assert h != f ==> Feeds(nodes, m, h);
      assert Feeds(nodes, m, f) || m == s || (g != f && h != f);
    }
  }

  /** Once nobody is fed by `loose` any more the shape is whole. */
  lemma ShapeWhole(nodes: Nodes, leader: string, loose: string)
    requires ShapeBut(nodes, leader, loose) && forall f :: !Feeds(nodes, loose, f)
    ensures Shape(nodes, leader)
  {
    forall x | x in nodes
      ensures NodeOk(nodes, leader, "", x)
    {
      assert NodeOk(nodes, leader, loose, x);
      assert !Feeds(nodes, loose, x);
    }
  }

  /** A node, not the leader's, that becomes a follower, healthy or not: only its own followers are out of shape. */
  lemma DetachedShape(nodes: Nodes, leader: string, id: string, info: Info)
    requires Shape(nodes, leader) && id != leader && id != "" && info.role == Follower
    requires info.source == "" || (info.healthy && id in nodes && info.source == nodes[id].source)
    ensures ShapeBut(nodes[id := info], leader, id) && !IsMentor(nodes[id := info], id)
  {
    var after := nodes[id := info];
    forall x | x in after
      ensures NodeOk(after, leader, id, x)
    {
      assert x in nodes ==> NodeOk(nodes, leader, "", x);
    }
    forall m, f, g | IsMentor(after, m) && Feeds(after, m, f) && Feeds(after, m, g)
      ensures f == g
    {
      assert id in nodes ==> NodeOk(nodes, leader, "", id);
      assert NodeOk(nodes, leader, "", leader);
      assert Feeds(nodes, m, f) && Feeds(nodes, m, g);
    }
  }

  datatype Found = None | Some(id: string)

  /** `found` is a healthy follower fed by `source`, if there is one. */
  ghost predicate FoundFollower(nodes: Nodes, source: string, found: Found) {
    if found.Some? then Feeds(nodes, source, found.id) else forall f :: !Feeds(nodes, source, f)
  }

  function FedIfFound(nodes: Nodes, found: Found, source: string): Nodes {
    if found.Some? && found.id in nodes then Fed(nodes, found.id, source) else nodes
  }

  function Swapped(nodes: Nodes, ofA: Found, ofB: Found, a: string, b: string): Nodes {
    FedIfFound(FedIfFound(nodes, ofA, b), ofB, a)
  }

  /** Whoever gets a follower may have one. */
  ghost predicate MayFeed(nodes: Nodes, leader: string, source: string) {
    source == leader || IsMentor(nodes, source)
  }

  /** Swapping followers keeps the shape exactly if each follower that there is goes to the leader or a healthy mentor. */
  lemma SwappedShape(nodes: Nodes, leader: string, a: string, b: string, ofA: Found, ofB: Found)
    requires Shape(nodes, leader) && a != b && a != "" && b != ""
    requires FoundFollower(nodes, a, ofA) && FoundFollower(nodes, b, ofB)
    ensures Shape(Swapped(nodes, ofA, ofB, a, b), leader) <==>
            (ofA.Some? ==> MayFeed(nodes, leader, b)) && (ofB.Some? ==> MayFeed(nodes, leader, a))
    ensures Attached(nodes, leader) ==> Attached(Swapped(nodes, ofA, ofB, a, b), leader)
  {
    var after := Swapped(nodes, ofA, ofB, a, b);
    assert NodeOk(nodes, leader, "", leader);
    assert forall id :: id in after <==> id in nodes;
    assert forall id :: IsMentor(after, id) <==> IsMentor(nodes, id);
    if ofA.Some? && !MayFeed(nodes, leader, b) {
      assert NodeOk(nodes, leader, "", ofA.id);
      assert !NodeOk(after, leader, "", ofA.id);
    } else if ofB.Some? && !MayFeed(nodes, leader, a) {
      assert NodeOk(nodes, leader, "", ofB.id);
      assert !NodeOk(after, leader, "", ofB.id);
    } else {
      SwappedKeeps(nodes, leader, a, b, ofA, ofB);
    }
  }

  lemma SwappedKeeps(nodes: Nodes, leader: string, a: string, b: string, ofA: Found, ofB: Found)
    requires Shape(nodes, leader) && a != b && a != "" && b != ""
    requires FoundFollower(nodes, a, ofA) && FoundFollower(nodes, b, ofB)
    requires (ofA.Some? ==> MayFeed(nodes, leader, b)) && (ofB.Some? ==> MayFeed(nodes, leader, a))
    ensures Shape(Swapped(nodes, ofA, ofB, a, b), leader)
  {
    var after := Swapped(nodes, ofA, ofB, a, b);
    assert NodeOk(nodes, leader, "", leader);
    SwappedOneEach(nodes, leader, a, b, ofA, ofB);
    forall id | id in after
      ensures NodeOk(after, leader, "", id)
    {
      assert NodeOk(nodes, leader, "", id);
      assert nodes[id].source in nodes ==> IsMentor(after, nodes[id].source) == IsMentor(nodes, nodes[id].source);
    }
  }

  lemma SwappedOneEach(nodes: Nodes, leader: string, a: string, b: string, ofA: Found, ofB: Found)
    requires Shape(nodes, leader) && a != b && a != "" && b != ""
    requires FoundFollower(nodes, a, ofA) && FoundFollower(nodes, b, ofB)
    ensures OneEach(Swapped(nodes, ofA, ofB, a, b))
  {
    var after := Swapped(nodes, ofA, ofB, a, b);
    forall m, f, g | IsMentor(after, m) && Feeds(after, m, f) && Feeds(after, m, g)
      ensures f == g
    {
      assert IsMentor(nodes, m);
      var before := if m == a then b else if m == b then a else m;
      assert Feeds(nodes, before, f) || Feeds(nodes, m, f);
      assert Feeds(nodes, before, g) || Feeds(nodes, m, g);
    }
  }

  /** How many of `n` candidates become mentors. */
  function MentorCount(n: nat): nat {
    (n + 1) / 2
  }

  /** The nodes after balancing for the candidates `c`: the first half are mentors, the others follow one each. */
  ghost predicate Balanced(nodes: Nodes, leader: string, known: set<string>, c: seq<string>) {
    && nodes.Keys == known + {leader} + NamesIn(c)
    && nodes[leader] == LEADER
    && (forall i: nat :: i < |c| ==> c[i] in nodes && nodes[c[i]] == Place(leader, c, i))
    && (forall id :: id in nodes && id != leader && id !in c ==> nodes[id] == Info(Follower, "", false))
  }

  /** What the `i`-th candidate becomes. */
  function Place(leader: string, c: seq<string>, i: nat): Info
    requires i < |c|
  {
    var mentors := MentorCount(|c|);
    if i < mentors then Info(Mentor, leader, true) else Info(Follower, c[i - mentors], true)
  }

  ghost function FirstNames(c: seq<string>, n: nat): set<string>
    requires n <= |c|
  {
    if n == 0 then {} else FirstNames(c, n - 1) + {c[n - 1]}
  }

  lemma {:induction false} FirstNamesIn(c: seq<string>, n: nat)
    requires n <= |c|
    ensures FirstNames(c, n) == NamesIn(c[..n])
  {
    if n > 0 {
      FirstNamesIn(c, n - 1);
      assert c[..n] == c[..n - 1] + [c[n - 1]];
    }
  }

  /** The first `n` candidates have their places. */
  ghost predicate Placed(nodes: Nodes, leader: string, known: set<string>, c: seq<string>, n: nat) {
    && n <= |c| && nodes.Keys == known + {leader} + FirstNames(c, n) && nodes[leader] == LEADER
    && (forall i: nat :: i < n ==> c[i] in nodes && nodes[c[i]] == Place(leader, c, i))
    && (forall id :: id in nodes && id != leader && id !in c ==> nodes[id] == Info(Follower, "", false))
  }

  lemma PlacedNext(nodes: Nodes, leader: string, known: set<string>, c: seq<string>, n: nat)
    requires Placed(nodes, leader, known, c, n) && n < |c| && InOrder(c) && leader !in c
    ensures Placed(nodes[c[n] := Place(leader, c, n)], leader, known, c, n + 1)
  {
    Distinct(c);
    assert c[n] in c;
  }

  lemma PlacedAll(nodes: Nodes, leader: string, known: set<string>, c: seq<string>)
    requires Placed(nodes, leader, known, c, |c|)
    ensures Balanced(nodes, leader, known, c)
  {
    FirstNamesIn(c, |c|);
    assert c[..|c|] == c;
  }

  /** Balancing gives the shape and leaves no healthy node without a source. */
  lemma BalancedShape(nodes: Nodes, leader: string, known: set<string>, c: seq<string>)
    requires Balanced(nodes, leader, known, c) && InOrder(c)
    requires leader != "" && leader !in c && "" !in c && "" !in known
    ensures Shape(nodes, leader) && Attached(nodes, leader)
  {
    Distinct(c);
    assert forall id :: id in NamesIn(c) <==> id in c;
    forall id | id in nodes
      ensures NodeOk(nodes, leader, "", id) && (nodes[id].healthy && id != leader ==> nodes[id].source != "")
    {
      if id in c {
        var i :| 0 <= i < |c| && c[i] == id;
        assert nodes[c[i]] == Place(leader, c, i);
        if i >= MentorCount(|c|) {
          assert c[i - MentorCount(|c|)] in c;
          assert IsMentor(nodes, c[i - MentorCount(|c|)]);
        }
      }
    }
    forall m, f, g | IsMentor(nodes, m) && Feeds(nodes, m, f) && Feeds(nodes, m, g)
      ensures f == g
    {
      var i := FollowerAt(nodes, leader, known, c, m, f);
      var j := FollowerAt(nodes, leader, known, c, m, g);
    }
  }

  lemma Distinct(c: seq<string>)
    requires InOrder(c)
    ensures forall i, j :: 0 <= i < j < |c| ==> c[i] != c[j]
  {
    forall i, j | 0 <= i < j < |c|
      ensures c[i] != c[j]
    {
      BelowIrreflexive(c[i]);
    }
  }

  lemma FollowerAt(nodes: Nodes, leader: string, known: set<string>, c: seq<string>, m: string, f: string) returns (i: nat)
    requires Balanced(nodes, leader, known, c) && Feeds(nodes, m, f) && leader !in c
    ensures MentorCount(|c|) <= i < |c| && c[i] == f && c[i - MentorCount(|c|)] == m
  {
    assert f in c;
    i :| 0 <= i < |c| && c[i] == f;
    assert nodes[c[i]] == Place(leader, c, i);
  }

  /** The first `m` of the candidates are mentors, as many as there are others or one more, and the others follow one each,
      in order. */
  ghost predicate Halved(nodes: Nodes, leader: string, c: seq<string>, m: nat) {
    && (m + m == |c| || m + m == |c| + 1)
    && (forall i :: 0 <= i < |c| ==> c[i] in nodes)
    && (forall i :: 0 <= i < m ==> nodes[c[i]] == Info(Mentor, leader, true))
    && (forall i :: m <= i < |c| ==> nodes[c[i]] == Info(Follower, c[i - m], true))
  }

  lemma BalancedHalves(nodes: Nodes, leader: string, known: set<string>, c: seq<string>)
    requires Balanced(nodes, leader, known, c)
    ensures Halved(nodes, leader, c, MentorCount(|c|))
  {
    forall i: nat | i < |c|
      ensures c[i] in nodes && nodes[c[i]] == Place(leader, c, i)
    {
    }
  }

  /** There are as many healthy mentors as healthy followers, or one more; the mentors' names come first; and at most one
      of them has no follower. */
  ghost predicate EvenlyShared(nodes: Nodes) {
    && (|MentorNames(nodes)| == |FollowerNames(nodes)| || |MentorNames(nodes)| == |FollowerNames(nodes)| + 1)
    && (forall m, f :: m in MentorNames(nodes) && f in FollowerNames(nodes) ==> Below(m, f))
    && (forall m, n :: m in MentorNames(nodes) && n in MentorNames(nodes) && Alone(nodes, m) && Alone(nodes, n) ==> m == n)
  }

  lemma {:induction false} NamesSize(c: seq<string>)
    requires forall i, j :: 0 <= i < j < |c| ==> c[i] != c[j]
    ensures |NamesIn(c)| == |c|
  {
    if c != [] {
      var rest, last := c[..|c| - 1], c[|c| - 1];
      NamesSize(rest);
      assert c == rest + [last];
      assert NamesIn(c) == NamesIn(rest) + {last};
    }
  }

  /** Place `i` among the candidates, as it is after halving. */
  lemma HalvedAt(nodes: Nodes, leader: string, c: seq<string>, m: nat, i: nat)
    requires Halved(nodes, leader, c, m) && i < |c|
    ensures m <= |c| && c[i] in nodes
    ensures if i < m then nodes[c[i]] == Info(Mentor, leader, true) else nodes[c[i]] == Info(Follower, c[i - m], true)
  {
  }

  lemma HalvesIn(nodes: Nodes, leader: string, c: seq<string>, m: nat)
    requires Halved(nodes, leader, c, m)
    ensures m <= |c| && NamesIn(c[..m]) <= MentorNames(nodes) && NamesIn(c[m..]) <= FollowerNames(nodes)
  {
    forall id | id in c[..m]
      ensures id in MentorNames(nodes)
    {
      var i: nat :| i < m && c[..m][i] == id;
      HalvedAt(nodes, leader, c, m, i);
    }
    forall id | id in c[m..]
      ensures id in FollowerNames(nodes)
    {
      var i: nat :| i < |c| - m && c[m..][i] == id;
      HalvedAt(nodes, leader, c, m, m + i);
    }
  }

  lemma HealthyNamed(nodes: Nodes, leader: string, known: set<string>, c: seq<string>, id: string)
    requires Balanced(nodes, leader, known, c) && id in nodes && nodes[id].healthy && nodes[id].role != Leader
    ensures id in c
  {
  }

  lemma HalvesNamed(nodes: Nodes, leader: string, known: set<string>, c: seq<string>, m: nat)
    requires Balanced(nodes, leader, known, c) && Halved(nodes, leader, c, m)
    ensures m <= |c|
    ensures MentorNames(nodes) == NamesIn(c[..m]) && FollowerNames(nodes) == NamesIn(c[m..])
  {
    HalvesIn(nodes, leader, c, m);
    forall id | id in nodes && nodes[id].healthy && nodes[id].role != Leader
      ensures if nodes[id].role == Mentor then id in NamesIn(c[..m]) else id in NamesIn(c[m..])
    {
      HealthyNamed(nodes, leader, known, c, id);
      var i: nat :| i < |c| && c[i] == id;
      HalvedAt(nodes, leader, c, m, i);
      HalfOf(c, m, i);
    }
  }

  lemma HalfOf(c: seq<string>, m: nat, i: nat)
    requires m <= |c| && i < |c|
    ensures if i < m then c[i] in NamesIn(c[..m]) else c[i] in NamesIn(c[m..])
  {
    if i < m {
      assert c[..m][i] == c[i];
    } else {
      assert c[m..][i - m] == c[i];
    }
  }

  lemma FollowerThere(nodes: Nodes, leader: string, c: seq<string>, m: nat, k: nat)
    requires Halved(nodes, leader, c, m) && m <= k < |c|
    ensures !Alone(nodes, c[k - m])
  {
    assert nodes[c[k]] == Info(Follower, c[k - m], true);
    assert c[k] in FollowerNames(nodes);
  }

  lemma OneAlone(nodes: Nodes, leader: string, c: seq<string>, m: nat, a: string)
    requires Halved(nodes, leader, c, m) && m <= |c| && a in c[..m] && Alone(nodes, a)
    ensures m > 0 && a == c[m - 1]
  {
    var i: nat :| i < m && c[i] == a;
    if m + i < |c| {
      FollowerThere(nodes, leader, c, m, m + i);
    }
  }

  lemma HalvesOrdered(c: seq<string>, m: nat)
    requires InOrder(c) && m <= |c|
    ensures forall a, f :: a in c[..m] && f in c[m..] ==> Below(a, f)
  {
    forall a, f | a in c[..m] && f in c[m..]
      ensures Below(a, f)
    {
      var i :| 0 <= i < m && c[i] == a;
      var j :| m <= j < |c| && c[j] == f;
    }
  }

  /** So balancing shares the followers out evenly. */
  lemma BalancedEvenly(nodes: Nodes, leader: string, known: set<string>, c: seq<string>, m: nat)
    requires Balanced(nodes, leader, known, c) && Halved(nodes, leader, c, m) && InOrder(c) && leader !in c
    ensures EvenlyShared(nodes)
  {
    Distinct(c);
    HalvesNamed(nodes, leader, known, c, m);
    NamesSize(c[..m]);
    NamesSize(c[m..]);
    HalvesOrdered(c, m);
    assert forall id :: id in NamesIn(c[..m]) <==> id in c[..m];
    assert forall id :: id in NamesIn(c[m..]) <==> id in c[m..];
    forall a, b | a in MentorNames(nodes) && b in MentorNames(nodes) && Alone(nodes, a) && Alone(nodes, b)
      ensures a == b
    {
      OneAlone(nodes, leader, c, m, a);
      OneAlone(nodes, leader, c, m, b);
    }
  }

  /** The result depends only on which nodes are known, who leads, and which are healthy. */
  lemma BalancedUnique(a: Nodes, b: Nodes, leader: string, known: set<string>, c: seq<string>, d: seq<string>)
    requires Balanced(a, leader, known, c) && Balanced(b, leader, known, d)
    requires InOrder(c) && InOrder(d) && NamesIn(c) == NamesIn(d)
    ensures a == b
  {
    InOrderUnique(c, d);
    forall id | id in a
      ensures a[id] == b[id]
    {
      if id != leader && id in c {
        var i: nat :| i < |c| && c[i] == id;
        assert a[c[i]] == Place(leader, c, i) && b[c[i]] == Place(leader, c, i);
      }
    }
  }

  /** A node made a healthy follower, still fed as before. */
  function AsFollower(nodes: Nodes, id: string): (r: Nodes)
    ensures id in r && r[id].healthy && r[id].role == Follower
  {
    Ensured(nodes, id)[id := Ensured(nodes, id)[id].(healthy := true, role := Follower)]
  }

  /** A node made a healthy follower and given a source: only followers of its own can be out of shape. */
  lemma AsFollowerShape(nodes: Nodes, leader: string, id: string, s: string)
    requires Shape(nodes, leader) && id != leader && id != "" && Selected(AsFollower(nodes, id), leader, id, s)
    ensures var fed := Fed(AsFollower(nodes, id), id, s);
      && ShapeBut(fed, leader, id) && !IsMentor(fed, id) && !Feeds(fed, id, id)
      && (Attached(nodes, leader) ==> Attached(fed, leader))
  {
    var base, mid := Ensured(nodes, id), AsFollower(nodes, id);
    EnsuredShape(nodes, leader, id);
    assert NodeOk(base, leader, "", id);
    DetachedShape(base, leader, id, mid[id]);
    FedShape(mid, leader, id, id, s);
  }

  /** A healthy node without a source that is given one again: the shape is whole. */
  lemma RevivedShape(nodes: Nodes, leader: string, id: string, s: string)
    requires Shape(nodes, leader) && id != leader && id != "" && Selected(AsFollower(nodes, id), leader, id, s)
    requires Ensured(nodes, id)[id].source == ""
    ensures Shape(Fed(AsFollower(nodes, id), id, s), leader)
    ensures Attached(nodes, leader) ==> Attached(Fed(AsFollower(nodes, id), id, s), leader)
  {
    AsFollowerShape(nodes, leader, id, s);
    var fed := Fed(AsFollower(nodes, id), id, s);
    forall f
      ensures !Feeds(fed, id, f)
    {
      if f in nodes && f != id {
        assert NodeOk(nodes, leader, "", f);
        assert id in nodes ==> NodeOk(nodes, leader, "", id);
      }
    }
    ShapeWhole(fed, leader, id);
  }

  /** Marking a node healthy that has a source, or the leader, changes nothing that matters. */
  lemma StillHealthyShape(nodes: Nodes, leader: string, id: string)
    requires Shape(nodes, leader) && id in nodes && id != leader && nodes[id].source != ""
    ensures nodes[id := nodes[id].(healthy := true)] == nodes
  {
    assert NodeOk(nodes, leader, "", id);
  }

  /** The leader's node may be unhealthy; it stays the leader's. */
  lemma LeaderUnhealthyShape(nodes: Nodes, leader: string)
    requires Shape(nodes, leader)
    ensures Shape(nodes[leader := Info(Leader, "", false)], leader)
    ensures Attached(nodes, leader) ==> Attached(nodes[leader := Info(Leader, "", false)], leader)
  {
    var after := nodes[leader := Info(Leader, "", false)];
    assert NodeOk(nodes, leader, "", leader);
    forall x | x in after
      ensures NodeOk(after, leader, "", x)
    {
      assert NodeOk(nodes, leader, "", x);
    }
    forall m, f, g | IsMentor(after, m) && Feeds(after, m, f) && Feeds(after, m, g)
      ensures f == g
    {
      assert IsMentor(nodes, m) && Feeds(nodes, m, f) && Feeds(nodes, m, g);
    }
  }

  /** A node that is lost: its followers are out of shape. */
  lemma LostShape(nodes: Nodes, leader: string, id: string)
    requires Shape(nodes, leader) && id != leader && id != ""
    ensures var lost := Ensured(nodes, id)[id := Info(Follower, "", false)];
      && ShapeBut(lost, leader, id) && !IsMentor(lost, id)
      && (Attached(nodes, leader) ==> Attached(lost, leader))
  {
    EnsuredShape(nodes, leader, id);
    DetachedShape(Ensured(nodes, id), leader, id, Info(Follower, "", false));
  }
}
