/** What the deduplication window holds when requests are noted as pending and recorded under the same index. */
module DedupArrivals {
  import opened DedupWindow
  import opened DedupOrder

  /** `i` has the index its id was last inserted with. */
  ghost predicate Again(h: seq<Insertion>, i: Insertion) {
    i.id in Ids(h) && Newest(h, i.id).logIndex == i.entry.logIndex
  }

  /** The ids of a history in the order in which they took on their present indices. */
  ghost function Arrivals(h: seq<Insertion>): seq<string> {
    if h == [] then []
    else
      var front, i := h[..|h| - 1], h[|h| - 1];
      if Again(front, i) then Arrivals(front) else Moved(Arrivals(front), i.id)
  }

  /** Where `id` took on the index that it has. */
  ghost function TakenAt(h: seq<Insertion>, id: string): (k: int)
    ensures k < |h| && (id in Ids(h) ==> 0 <= k && StampOf(h[k]) == Stamp(Newest(h, id).logIndex, id))
  {
    if h == [] then -1
    else
      var front, i := h[..|h| - 1], h[|h| - 1];
      assert h == front + [i];
      IdsSnoc(front, i);
      if i.id == id && !Again(front, i) then |h| - 1 else TakenAt(front, id)
  }

  /** They are the ids inserted, once each, in the order of those places. */
  lemma {:induction false} ArrivalsSpec(h: seq<Insertion>)
    ensures forall id :: id in Arrivals(h) <==> id in Ids(h)
    ensures Ascends(Arrivals(h), id => TakenAt(h, id))
    ensures Distinct(Arrivals(h))
  {
    if h != [] {
      var front, i := h[..|h| - 1], h[|h| - 1];
      ArrivalsSpec(front);
      assert h == front + [i];
      IdsSnoc(front, i);
      if !Again(front, i) {
        MovedAscends(Arrivals(front), i.id, id => TakenAt(front, id), id => TakenAt(h, id));
      }
    }
  }

  ghost predicate InTime(front: seq<Insertion>, i: Insertion, limit: nat) {
    StampOf(i) in Stamps(front) ==> Again(front, i) && i.id in Last(Arrivals(front), limit)
  }

  /** No id returns to an index that it has left, or that others have pushed out of the window. */
  ghost predicate Timely(h: seq<Insertion>, limit: nat) {
    forall n :: 0 <= n < |h| ==> InTime(h[..n], h[n], limit)
  }

  /** In a timely history the place where an id took on its index is the first with that index. */
  lemma {:induction false} TimelyTaken(h: seq<Insertion>, id: string, limit: nat)
    requires Timely(h, limit) && id in Ids(h)
    ensures forall j :: 0 <= j < TakenAt(h, id) ==> StampOf(h[j]) != StampOf(h[TakenAt(h, id)])
  {
    var n := |h| - 1;
    var front, i := h[..n], h[n];
    assert h == front + [i];
    IdsSnoc(front, i);
    TimelyPrefix(h, limit);
    if i.id == id && !Again(front, i) {
      forall j | 0 <= j < n
        ensures StampOf(h[j]) != StampOf(i)
      {
        assert Stamps(front)[j] == StampOf(h[j]);
        assert InTime(h[..n], h[n], limit);
      }
    } else {
      TimelyTaken(front, id, limit);
    }
  }

  lemma TimelyPrefix(h: seq<Insertion>, limit: nat)
    requires Timely(h, limit) && h != []
    ensures Timely(h[..|h| - 1], limit)
  {
    var front := h[..|h| - 1];
    forall n | 0 <= n < |front|
      ensures InTime(front[..n], front[n], limit)
    {
      assert front[..n] == h[..n] && front[n] == h[n];
      assert InTime(h[..n], h[n], limit);
    }
  }

  /** In a timely history eviction goes by the order of arrival, and the table holds the `limit` ids that arrived last. */
  lemma {:induction false} TimelyOrder(h: seq<Insertion>, limit: nat)
    requires Timely(h, limit)
    ensures Turn(h, limit) == Last(Arrivals(h), limit)
  {
    if h != [] {
      var n := |h| - 1;
      var front, i := h[..n], h[n];
      TimelyPrefix(h, limit);
      TimelyOrder(front, limit);
      TimelyNext(front, i, limit);
    }
  }

  lemma TimelyNext(front: seq<Insertion>, i: Insertion, limit: nat)
    requires InTime(front, i, limit)
    requires Turn(front, limit) == Last(Arrivals(front), limit)
    ensures var r := Inserted(InsertedAll(front, limit), i, limit);
      Order(r.queue, r.table) == Last(if Again(front, i) then Arrivals(front) else Moved(Arrivals(front), i.id), limit)
  {
    var s := InsertedAll(front, limit);
    InsertedAllBasics(front, limit);
    InsertedAllStamped(front, limit);
    TableOfOrder(front, limit);
    if Again(front, i) {
      var k := NewestAt(front, i.id);
      assert Stamps(front)[k] == StampOf(i);
      KeptOrder(s, i, limit);
    } else {
      forall j | 0 <= j < |s.queue|
        ensures s.queue[j] != StampOf(i)
      {
        assert s.queue[j] in Stamps(front);
      }
      MovedOrder(s, i, limit);
      ArrivalsSpec(front);
      LastMoved(Arrivals(front), i.id, limit);
    }
  }

  /** The table holds exactly the `limit` ids that arrived last, each with its newest entry. */
  ghost predicate LastArrived(h: seq<Insertion>, table: map<string, Entry>, limit: nat) {
    && (forall id :: id in table <==> id in Last(Arrivals(h), limit))
    && (forall id :: id in table ==> id in Ids(h) && table[id] == Newest(h, id))
  }

  lemma {:induction false} TimelyTable(h: seq<Insertion>, limit: nat)
    requires Timely(h, limit)
    ensures LastArrived(h, InsertedAll(h, limit).table, limit)
  {
    TimelyOrder(h, limit);
    TableOfOrder(h, limit);
  }

  /** A request is noted under a log index above all before, or again under its own and newest index, while the log is
      less than `limit` entries ahead of it. */
  ghost predicate Steady(front: seq<Insertion>, i: Insertion, limit: nat) {
    || (forall j :: 0 <= j < |front| ==> front[j].entry.logIndex < i.entry.logIndex)
    || (Again(front, i) && forall j :: 0 <= j < |front| ==> front[j].entry.logIndex < i.entry.logIndex + limit)
  }

  /** Requests that are noted as pending when they enter the log, and recorded when they are applied. */
  ghost predicate Traffic(h: seq<Insertion>, limit: nat) {
    forall n :: 0 <= n < |h| ==> Steady(h[..n], h[n], limit)
  }

  ghost function IndexOf(h: seq<Insertion>, id: string): (r: nat)
    ensures id in Ids(h) ==> exists k :: 0 <= k < |h| && h[k].entry.logIndex == r
  {
    if id in Ids(h) then
      assert exists k :: 0 <= k < |h| && h[k].entry.logIndex == Newest(h, id).logIndex by {
        var k := NewestAt(h, id);
      }
      Newest(h, id).logIndex
    else 0
  }

  /** Such requests arrive in the order of their indices. */
  lemma {:induction false} TrafficAscends(h: seq<Insertion>, limit: nat)
    requires Traffic(h, limit)
    ensures Ascends(Arrivals(h), id => IndexOf(h, id))
  {
    if h != [] {
      var n := |h| - 1;
      var front, i := h[..n], h[n];
      TrafficPrefix(h, limit);
      TrafficAscends(front, limit);
      assert Steady(h[..n], h[n], limit);
      assert h == front + [i];
      SteadyAscends(front, i, limit);
    }
  }

  lemma {:induction false} SteadyAscends(front: seq<Insertion>, i: Insertion, limit: nat)
    requires Steady(front, i, limit) && Ascends(Arrivals(front), id => IndexOf(front, id))
    ensures Ascends(if Again(front, i) then Arrivals(front) else Moved(Arrivals(front), i.id), id => IndexOf(front + [i], id))
  {
    ArrivalsSpec(front);
    IndicesNext(front, i);
    var r := Arrivals(front);
    assert forall k :: 0 <= k < |r| ==> r[k] in r && r[k] in Ids(front);
    if !Again(front, i) {
      MovedAscends(r, i.id, id => IndexOf(front, id), id => IndexOf(front + [i], id));
    }
  }

  lemma {:induction false} IndicesNext(h: seq<Insertion>, i: Insertion)
    ensures forall id :: id in Ids(h) && id != i.id ==> IndexOf(h + [i], id) == IndexOf(h, id)
    ensures IndexOf(h + [i], i.id) == i.entry.logIndex
  {
    assert (h + [i])[..|h|] == h;
    IdsSnoc(h, i);
  }

  lemma TrafficPrefix(h: seq<Insertion>, limit: nat)
    requires Traffic(h, limit) && h != []
    ensures Traffic(h[..|h| - 1], limit)
  {
    var front := h[..|h| - 1];
    forall n | 0 <= n < |front|
      ensures Steady(front[..n], front[n], limit)
    {
      assert front[..n] == h[..n] && front[n] == h[n];
      assert Steady(h[..n], h[n], limit);
    }
  }

  /** Of ranks that grow, the one `d` places before another is at least `d` below it. */
  lemma {:induction false} RanksApart(order: seq<string>, rank: string -> int, p: nat, d: nat)
    requires Ascends(order, rank) && p + d < |order|
    ensures rank(order[p]) + d <= rank(order[p + d])
  {
    if d > 0 {
      RanksApart(order, rank, p, d - 1);
    }
  }

  /** They are timely: a request is recorded before it is pushed out of the window. */
  lemma {:induction false} TrafficTimely(h: seq<Insertion>, limit: nat)
    requires Traffic(h, limit)
    ensures Timely(h, limit)
  {
    forall n | 0 <= n < |h|
      ensures InTime(h[..n], h[n], limit)
    {
      forall m | 0 <= m < |h[..n]|
        ensures Steady(h[..n][..m], h[..n][m], limit)
      {
        assert h[..n][..m] == h[..m] && Steady(h[..m], h[m], limit);
      }
      assert Steady(h[..n], h[n], limit);
      SteadyInTime(h[..n], h[n], limit);
    }
  }

  lemma {:induction false} SteadyInTime(front: seq<Insertion>, i: Insertion, limit: nat)
    requires Traffic(front, limit) && Steady(front, i, limit)
    ensures InTime(front, i, limit)
  {
    if StampOf(i) in Stamps(front) {
      var j :| 0 <= j < |front| && Stamps(front)[j] == StampOf(i);
      assert front[j].entry.logIndex == i.entry.logIndex;
      RecentArrival(front, i.id, limit);
    }
  }

  lemma {:induction false} RecentArrival(h: seq<Insertion>, id: string, limit: nat)
    requires Traffic(h, limit) && id in Ids(h)
    requires forall j :: 0 <= j < |h| ==> h[j].entry.logIndex < Newest(h, id).logIndex + limit
    ensures id in Last(Arrivals(h), limit)
  {
    ArrivalsSpec(h);
    TrafficAscends(h, limit);
    var r := Arrivals(h);
    var p :| 0 <= p < |r| && r[p] == id;
    assert r[|r| - 1] in Ids(h);
    RanksApart(r, x => IndexOf(h, x), p, |r| - 1 - p);
    AmongLast(r, p, limit);
  }

  /** For ordinary traffic the table is at every moment the window of the `limit` ids with the highest indices. */
  lemma {:induction false} TrafficTable(h: seq<Insertion>, limit: nat)
    requires Traffic(h, limit)
    ensures LastArrived(h, InsertedAll(h, limit).table, limit)
    ensures Ascends(Arrivals(h), id => IndexOf(h, id))
  {
    TrafficTimely(h, limit);
    TimelyTable(h, limit);
    TrafficAscends(h, limit);
  }
}
