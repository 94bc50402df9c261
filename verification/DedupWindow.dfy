/** The deduplication window as values: insertion, eviction, and what the table holds after any insertions. */
module DedupWindow {

  datatype Entry = Entry(committed: bool, success: bool, error: string, logIndex: nat)

  datatype Stamp = Stamp(logIndex: nat, id: string)

  datatype Insertion = Insertion(id: string, entry: Entry)

  /** The entries by request id, and the stamps of the insertions that have not been looked at for eviction. */
  datatype Window = Window(table: map<string, Entry>, queue: seq<Stamp>)

  function StampOf(i: Insertion): Stamp {
    Stamp(i.entry.logIndex, i.id)
  }

  /** The entry a stamp belongs to, unless it has been replaced since. */
  predicate Current(table: map<string, Entry>, stamp: Stamp) {
    stamp.id in table && table[stamp.id].logIndex == stamp.logIndex
  }

  /** `s` after its oldest stamp has been dropped, with the entry if the stamp is current. */
  function Dropped(s: Window): Window
    requires s.queue != []
  {
    var stamp := s.queue[0];
    Window(if Current(s.table, stamp) then s.table - {stamp.id} else s.table, s.queue[1..])
  }

  function Evicted(s: Window, limit: nat): Window
    decreases |s.queue|
  {
    if |s.table| <= limit || s.queue == [] then s else Evicted(Dropped(s), limit)
  }

  function Inserted(s: Window, i: Insertion, limit: nat): Window {
    Evicted(Window(s.table[i.id := i.entry], s.queue + [StampOf(i)]), limit)
  }

  /** Every entry has its stamp in the queue. */
  ghost predicate Stamped(s: Window) {
    forall id :: id in s.table ==> Stamp(s.table[id].logIndex, id) in s.queue
  }

  lemma DroppedStamped(s: Window)
    requires Stamped(s) && s.queue != []
    ensures Stamped(Dropped(s))
  {
    var stamp, r := s.queue[0], Dropped(s);
    forall id | id in r.table
      ensures Stamp(r.table[id].logIndex, id) in r.queue
    {
      assert s.queue == [stamp] + r.queue;
    }
  }

  lemma {:induction false} EvictedStamped(s: Window, limit: nat)
    requires Stamped(s)
    ensures Stamped(Evicted(s, limit)) && |Evicted(s, limit).table| <= limit
    decreases |s.queue|
  {
    if |s.table| > limit && s.queue != [] {
      DroppedStamped(s);
      EvictedStamped(Dropped(s), limit);
    } else if s.queue == [] {
      assert s.table == map[] by {
        forall id
          ensures id !in s.table
        {
          assert Stamp(0, id) !in s.queue;
        }
      }
    }
  }

  /** Whatever is inserted, the table never grows beyond the window. */
  lemma InsertedStamped(s: Window, i: Insertion, limit: nat)
    requires Stamped(s)
    ensures Stamped(Inserted(s, i, limit)) && |Inserted(s, i, limit).table| <= limit
  {
    EvictedStamped(Window(s.table[i.id := i.entry], s.queue + [StampOf(i)]), limit);
  }

  ghost function Ids(h: seq<Insertion>): set<string> {
    set k | 0 <= k < |h| :: h[k].id
  }

  /** The entry last inserted for `id`. */
  ghost function Newest(h: seq<Insertion>, id: string): (e: Entry)
    requires id in Ids(h)
  {
    var last := h[|h| - 1];
    if last.id == id then last.entry
    else
      assert id in Ids(h[..|h| - 1]) by {
        var k :| 0 <= k < |h| && h[k].id == id;
        assert h[..|h| - 1][k] == h[k];
      }
      Newest(h[..|h| - 1], id)
  }

  lemma IdsSnoc(h: seq<Insertion>, i: Insertion)
    ensures Ids(h + [i]) == Ids(h) + {i.id}
  {
    assert (h + [i])[|h|] == i;
    forall id | id in Ids(h)
      ensures id in Ids(h + [i])
    {
      var j :| 0 <= j < |h| && h[j].id == id;
      assert (h + [i])[j].id == id;
    }
  }

  /** Where `id` was last inserted. */
  lemma {:induction false} NewestAt(h: seq<Insertion>, id: string) returns (j: nat)
    requires id in Ids(h)
    ensures j < |h| && h[j].id == id && Newest(h, id) == h[j].entry
    ensures forall i :: j < i < |h| ==> h[i].id != id
  {
    var n := |h| - 1;
    if h[n].id == id {
      j := n;
    } else {
      var front := h[..n];
      assert id in Ids(front) by {
        var k :| 0 <= k < |h| && h[k].id == id;
        assert front[k] == h[k];
      }
      j := NewestAt(front, id);
      assert forall i :: 0 <= i < n ==> front[i] == h[i];
    }
  }

  ghost function Stamps(h: seq<Insertion>): (r: seq<Stamp>)
    ensures |r| == |h| && forall k :: 0 <= k < |h| ==> r[k] == StampOf(h[k])
  {
    seq(|h|, k requires 0 <= k < |h| => StampOf(h[k]))
  }

  ghost function InsertedAll(h: seq<Insertion>, limit: nat): Window {
    if h == [] then Window(map[], []) else Inserted(InsertedAll(h[..|h| - 1], limit), h[|h| - 1], limit)
  }

  /** Eviction takes entries from the table and stamps from the front of the queue. */
  lemma {:induction false} EvictedParts(s: Window, limit: nat) returns (k: nat)
    ensures k <= |s.queue| && Evicted(s, limit).queue == s.queue[k..]
    ensures forall id :: id in Evicted(s, limit).table ==> id in s.table && Evicted(s, limit).table[id] == s.table[id]
    decreases |s.queue|
  {
    k := 0;
    if |s.table| > limit && s.queue != [] {
      var l := EvictedParts(Dropped(s), limit);
      k := l + 1;
      assert s.queue[1..][l..] == s.queue[k..];
    }
  }

  ghost predicate Suffix(q: seq<Stamp>, all: seq<Stamp>) {
    |q| <= |all| && q == all[|all| - |q|..]
  }

  /** The queue is a last part of the stamps inserted, and whoever is in the table has the newest entry. */
  ghost predicate Basics(h: seq<Insertion>, s: Window) {
    && Suffix(s.queue, Stamps(h))
    && forall id :: id in s.table ==> id in Ids(h) && s.table[id] == Newest(h, id)
  }

  lemma BasicsNext(h: seq<Insertion>, s: Window, i: Insertion, limit: nat)
    requires Basics(h, s)
    ensures Basics(h + [i], Inserted(s, i, limit))
  {
    var grown := Window(s.table[i.id := i.entry], s.queue + [StampOf(i)]);
    var k := EvictedParts(grown, limit);
    IdsSnoc(h, i);
    SuffixSnoc(s.queue, Stamps(h), StampOf(i), k);
    assert Stamps(h + [i]) == Stamps(h) + [StampOf(i)];
    assert (h + [i])[..|h|] == h;
    forall id | id in Inserted(s, i, limit).table
      ensures id in Ids(h + [i]) && grown.table[id] == Newest(h + [i], id)
    {
      assert id in grown.table;
    }
  }

  lemma {:induction false} InsertedAllBasics(h: seq<Insertion>, limit: nat)
    ensures Basics(h, InsertedAll(h, limit))
  {
    if h != [] {
      var front, i := h[..|h| - 1], h[|h| - 1];
      InsertedAllBasics(front, limit);
      BasicsNext(front, InsertedAll(front, limit), i, limit);
      assert h == front + [i];
    }
  }

  lemma {:induction false} InsertedAllStamped(h: seq<Insertion>, limit: nat)
    ensures Stamped(InsertedAll(h, limit)) && |InsertedAll(h, limit).table| <= limit
  {
    if h != [] {
      InsertedAllStamped(h[..|h| - 1], limit);
      InsertedStamped(InsertedAll(h[..|h| - 1], limit), h[|h| - 1], limit);
    }
  }

  lemma SuffixSnoc(q: seq<Stamp>, all: seq<Stamp>, x: Stamp, k: nat)
    requires Suffix(q, all) && k <= |q| + 1
    ensures Suffix((q + [x])[k..], all + [x])
  {
    assert (all + [x])[|all| - |q|..] == q + [x];
  }

  lemma InsertedWithRoom(s: Window, i: Insertion, limit: nat)
    requires |s.table[i.id := i.entry]| <= limit
    ensures Inserted(s, i, limit) == Window(s.table[i.id := i.entry], s.queue + [StampOf(i)])
  {
  }

  /** One insertion beyond the room there is, with the oldest stamp current: its entry goes. */
  lemma InsertedWithoutRoom(s: Window, i: Insertion, limit: nat)
    requires |s.table| == limit && i.id !in s.table && s.queue != [] && Current(s.table, s.queue[0])
    ensures Inserted(s, i, limit) == Window(s.table[i.id := i.entry] - {s.queue[0].id}, s.queue[1..] + [StampOf(i)])
  {
    var grown := Window(s.table[i.id := i.entry], s.queue + [StampOf(i)]);
    assert grown.table.Keys == s.table.Keys + {i.id};
    assert |grown.table| == limit + 1;
    assert grown.queue[0] == s.queue[0] && Current(grown.table, s.queue[0]);
    var dropped := Dropped(grown);
    assert dropped.table.Keys == grown.table.Keys - {s.queue[0].id};
    assert |dropped.table| == limit;
    assert dropped.queue == s.queue[1..] + [StampOf(i)];
    assert Evicted(grown, limit) == Evicted(dropped, limit) == dropped;
  }
}
