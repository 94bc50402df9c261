/** The order in which the deduplication window evicts, and what an insertion does to it. */
module DedupOrder {
  import opened DedupWindow

  /** The ids in the order in which eviction would remove them. */
  ghost function Order(queue: seq<Stamp>, table: map<string, Entry>): seq<string> {
    if queue == [] then []
    else if Current(table, queue[0]) then [queue[0].id] + Order(queue[1..], table - {queue[0].id})
    else Order(queue[1..], table)
  }

  ghost function Without(order: seq<string>, id: string): seq<string> {
    if order == [] then []
    else if order[0] == id then Without(order[1..], id)
    else [order[0]] + Without(order[1..], id)
  }

  /** The order holds the ids of the table. */
  lemma {:induction false} OrderIds(queue: seq<Stamp>, table: map<string, Entry>)
    ensures forall id :: id in Order(queue, table) <==> id in table && Stamp(table[id].logIndex, id) in queue
    decreases |queue|
  {
    if queue != [] {
      var rest := if Current(table, queue[0]) then table - {queue[0].id} else table;
      OrderIds(queue[1..], rest);
      assert queue == [queue[0]] + queue[1..];
    }
  }

  /** After the first stamp like this one there are only stamps of its id. */
  ghost predicate BehindAlone(queue: seq<Stamp>, stamp: Stamp) {
    forall j, l :: 0 <= j < l < |queue| && queue[j] == stamp ==> queue[l].id == stamp.id
  }

  /** A current stamp at the end of the queue, whose like is not in it or has only stamps of the same id behind it: its
      id becomes the last. */
  lemma {:induction false} OrderAppended(queue: seq<Stamp>, table: map<string, Entry>, stamp: Stamp)
    requires BehindAlone(queue, stamp) && Current(table, stamp)
    ensures Order(queue + [stamp], table) == Order(queue, table - {stamp.id}) + [stamp.id]
    decreases |queue|
  {
    var r := queue + [stamp];
    if queue == [] {
      assert r[1..] == [];
      assert Order(r[1..], table - {stamp.id}) == [];
    } else {
      var rest := queue[1..];
      assert r[0] == queue[0] && r[1..] == rest + [stamp];
      if queue[0] == stamp {
        forall k | 0 <= k < |rest|
          ensures rest[k].id == stamp.id
        {
          assert rest[k] == queue[k + 1];
        }
        OrderNone(rest + [stamp], table - {stamp.id}, stamp.id);
        OrderNone(queue, table - {stamp.id}, stamp.id);
      } else {
        forall j, l | 0 <= j < l < |rest| && rest[j] == stamp
          ensures rest[l].id == stamp.id
        {
          assert queue[j + 1] == stamp && queue[l + 1] == rest[l];
        }
        if Current(table, queue[0]) {
          assert queue[0].id != stamp.id;
          OrderAppended(rest, table - {queue[0].id}, stamp);
          assert table - {queue[0].id} - {stamp.id} == table - {stamp.id} - {queue[0].id};
        } else {
          OrderAppended(rest, table, stamp);
        }
      }
    }
  }

  lemma {:induction false} OrderNone(queue: seq<Stamp>, table: map<string, Entry>, id: string)
    requires id !in table && forall k :: 0 <= k < |queue| ==> queue[k].id == id
    ensures Order(queue, table) == []
    decreases |queue|
  {
    if queue != [] {
      OrderNone(queue[1..], table, id);
    }
  }

  /** A stamp whose like is in the queue changes nothing at its end. */
  lemma {:induction false} OrderRepeated(queue: seq<Stamp>, table: map<string, Entry>, stamp: Stamp)
    requires stamp in queue || !Current(table, stamp)
    ensures Order(queue + [stamp], table) == Order(queue, table)
    decreases |queue|
  {
    var r := queue + [stamp];
    if queue == [] {
      assert r[1..] == [];
    } else {
      assert r[0] == queue[0] && r[1..] == queue[1..] + [stamp];
      assert queue == [queue[0]] + queue[1..];
      OrderRepeated(queue[1..], if Current(table, queue[0]) then table - {queue[0].id} else table, stamp);
    }
  }

  lemma {:induction false} OrderRemoved(queue: seq<Stamp>, table: map<string, Entry>, id: string)
    ensures Order(queue, table - {id}) == Without(Order(queue, table), id)
    decreases |queue|
  {
    if queue != [] {
      var first := queue[0];
      if Current(table, first) {
        var rest := table - {first.id};
        OrderRemoved(queue[1..], rest, id);
        if first.id == id {
          assert table - {id} - {id} == table - {id};
          WithoutTwice(queue[1..], table, id);
        } else {
          assert table - {id} - {first.id} == rest - {id};
        }
      } else {
        OrderRemoved(queue[1..], table, id);
      }
    }
  }

  lemma WithoutTwice(queue: seq<Stamp>, table: map<string, Entry>, id: string)
    ensures Without(Order(queue, table - {id}), id) == Order(queue, table - {id})
  {
    OrderIds(queue, table - {id});
    WithoutAbsent(Order(queue, table - {id}), id);
  }

  lemma {:induction false} WithoutAbsent(order: seq<string>, id: string)
    requires id !in order
    ensures Without(order, id) == order
  {
    if order != [] {
      WithoutAbsent(order[1..], id);
    }
  }

  /** Entries with the same indices have the same order. */
  lemma {:induction false} OrderSame(queue: seq<Stamp>, table: map<string, Entry>, other: map<string, Entry>)
    requires table.Keys == other.Keys && forall id :: id in table ==> table[id].logIndex == other[id].logIndex
    ensures Order(queue, table) == Order(queue, other)
    decreases |queue|
  {
    if queue != [] {
      if Current(table, queue[0]) {
        OrderSame(queue[1..], table - {queue[0].id}, other - {queue[0].id});
      } else {
        OrderSame(queue[1..], table, other);
      }
    }
  }

  function Last(order: seq<string>, limit: nat): seq<string> {
    if |order| <= limit then order else order[|order| - limit..]
  }

  /** Eviction takes the ids from the front of the order. */
  lemma {:induction false} EvictedOrder(s: Window, limit: nat)
    requires Stamped(s)
    ensures |Order(s.queue, s.table)| == |s.table|
    ensures var r := Evicted(s, limit); Order(r.queue, r.table) == Last(Order(s.queue, s.table), limit)
    decreases |s.queue|
  {
    OrderSize(s.queue, s.table);
    if |s.table| > limit && s.queue != [] {
      DroppedStamped(s);
      EvictedOrder(Dropped(s), limit);
    }
  }

  lemma {:induction false} OrderSize(queue: seq<Stamp>, table: map<string, Entry>)
    requires Stamped(Window(table, queue))
    ensures |Order(queue, table)| == |table|
    decreases |queue|
  {
    if queue == [] {
      assert table == map[] by {
        forall id
          ensures id !in table
        {
          assert Stamp(0, id) !in queue;
        }
      }
    } else {
      var s := Window(table, queue);
      DroppedStamped(s);
      OrderSize(queue[1..], Dropped(s).table);
      if Current(table, queue[0]) {
        assert (table - {queue[0].id}).Keys == table.Keys - {queue[0].id};
      }
    }
  }

  /** What one insertion does to the order. An entry that keeps its index keeps its place. */
  lemma KeptOrder(s: Window, i: Insertion, limit: nat)
    requires Stamped(s) && |s.table| <= limit && Current(s.table, StampOf(i))
    ensures var r := Inserted(s, i, limit); Order(r.queue, r.table) == Order(s.queue, s.table)
  {
    var stamp, table := StampOf(i), s.table[i.id := i.entry];
    EvictedOrder(Window(table, s.queue + [stamp]), limit);
    OrderSame(s.queue, s.table, table);
    OrderRepeated(s.queue, table, stamp);
    OrderSize(s.queue, s.table);
  }

  /** Any other comes last, if no one else has come behind a stamp like its own; then the first ones go. */
  lemma MovedOrder(s: Window, i: Insertion, limit: nat)
    requires Stamped(s) && BehindAlone(s.queue, StampOf(i))
    ensures var r := Inserted(s, i, limit); Order(r.queue, r.table) == Last(Moved(Order(s.queue, s.table), i.id), limit)
  {
    var stamp, table := StampOf(i), s.table[i.id := i.entry];
    EvictedOrder(Window(table, s.queue + [stamp]), limit);
    OrderAppended(s.queue, table, stamp);
    assert table - {i.id} == s.table - {i.id};
    OrderRemoved(s.queue, s.table, i.id);
  }

  ghost predicate Distinct(order: seq<string>) {
    forall i, j :: 0 <= i < j < |order| ==> order[i] != order[j]
  }

  lemma {:induction false} WithoutMembers(order: seq<string>, id: string)
    ensures forall x :: x in Without(order, id) <==> x in order && x != id
    ensures Distinct(order) ==> Distinct(Without(order, id)) && |Without(order, id)| >= |order| - 1
  {
    if order != [] {
      var rest := order[1..];
      WithoutMembers(rest, id);
      assert order == [order[0]] + rest;
      if Distinct(order) {
        assert order[0] !in rest;
        if order[0] == id {
          WithoutAbsent(rest, id);
        } else {
          DistinctCons(order[0], Without(rest, id));
        }
      }
    }
  }

  lemma DistinctCons(x: string, order: seq<string>)
    requires Distinct(order) && x !in order
    ensures Distinct([x] + order)
  {
  }

  lemma {:induction false} WithoutConcat(a: seq<string>, b: seq<string>, id: string)
    ensures Without(a + b, id) == Without(a, id) + Without(b, id)
  {
    if a == [] {
      assert a + b == b;
    } else {
      assert (a + b)[1..] == a[1..] + b;
      WithoutConcat(a[1..], b, id);
    }
  }

  /** The order in which `id` comes last. */
  ghost function Moved(order: seq<string>, id: string): seq<string> {
    Without(order, id) + [id]
  }

  /** Only the last `limit` of an order matter for the last `limit` after an id has come last. */
  lemma LastMoved(order: seq<string>, id: string, limit: nat)
    requires Distinct(order)
    ensures Last(Moved(Last(order, limit), id), limit) == Last(Moved(order, id), limit)
  {
    if |order| > limit {
      var d := |order| - limit;
      var front, back := order[..d], order[d..];
      assert order == front + back;
      WithoutConcat(front, back, id);
      WithoutMembers(back, id);
      assert Moved(order, id) == Without(front, id) + Moved(back, id);
      LastConcat(Without(front, id), Moved(back, id), limit);
    }
  }

  lemma LastConcat(a: seq<string>, b: seq<string>, limit: nat)
    requires |b| >= limit
    ensures Last(a + b, limit) == Last(b, limit)
  {
    var all := a + b;
    assert all[|all| - limit..] == b[|b| - limit..];
  }

  /** The ranks of an order grow. */
  ghost predicate Ascends(order: seq<string>, rank: string -> int) {
    forall i, j :: 0 <= i < j < |order| ==> rank(order[i]) < rank(order[j])
  }

  lemma {:induction false} WithoutAscends(order: seq<string>, id: string, rank: string -> int)
    requires Ascends(order, rank)
    ensures Ascends(Without(order, id), rank)
  {
    if order != [] {
      var rest := order[1..];
      WithoutAscends(rest, id, rank);
      WithoutMembers(rest, id);
      if order[0] != id {
        var r := Without(rest, id);
        forall j | 0 <= j < |r|
          ensures rank(order[0]) < rank(r[j])
        {
          assert r[j] in rest;
        }
      }
    }
  }

  /** An id that comes last with a rank above all others. */
  lemma MovedAscends(order: seq<string>, id: string, before: string -> int, after: string -> int)
    requires Ascends(order, before)
    requires forall x :: x in order && x != id ==> after(x) == before(x) < after(id)
    ensures Ascends(Moved(order, id), after)
    ensures forall x :: x in Moved(order, id) <==> x in order || x == id
  {
    var r := Without(order, id);
    WithoutMembers(order, id);
    WithoutAscends(order, id, before);
    forall i | 0 <= i < |r|
      ensures r[i] in order && r[i] != id
    {
      assert r[i] in r;
    }
  }

  lemma AmongLast(order: seq<string>, p: nat, limit: nat)
    requires p < |order| <= p + limit
    ensures order[p] in Last(order, limit)
  {
    if |order| > limit {
      assert order[|order| - limit..][p - (|order| - limit)] == order[p];
    }
  }

  /** The order in which eviction would remove what the insertions have left. */
  ghost function Turn(h: seq<Insertion>, limit: nat): seq<string> {
    Order(InsertedAll(h, limit).queue, InsertedAll(h, limit).table)
  }

  /** The table holds just the ids of the order of eviction. */
  lemma TableOfOrder(h: seq<Insertion>, limit: nat)
    ensures forall id :: id in InsertedAll(h, limit).table <==> id in Turn(h, limit)
    ensures forall id :: id in InsertedAll(h, limit).table ==> id in Ids(h) && InsertedAll(h, limit).table[id] == Newest(h, id)
  {
    InsertedAllBasics(h, limit);
    InsertedAllStamped(h, limit);
    var s := InsertedAll(h, limit);
    OrderIds(s.queue, s.table);
  }
}
