/** When the deduplication window is exactly the ids inserted last. */
module DedupRecency {
  import opened DedupWindow
  import opened DedupOrder

  /** The place of the last insertion of `id`. */
  ghost function LastAt(h: seq<Insertion>, id: string): (k: int)
    ensures -1 <= k < |h|
    ensures k >= 0 ==> h[k].id == id
    ensures forall j :: k < j < |h| ==> h[j].id != id
  {
    if h == [] then -1 else if h[|h| - 1].id == id then |h| - 1 else LastAt(h[..|h| - 1], id)
  }

  /** The ids of a history, the one inserted last at the end. */
  ghost function Recency(h: seq<Insertion>): seq<string> {
    if h == [] then [] else Moved(Recency(h[..|h| - 1]), h[|h| - 1].id)
  }

  /** They are the ids inserted, once each, in the order of their last insertions. */
  lemma {:induction false} RecencySpec(h: seq<Insertion>)
    ensures forall id :: id in Recency(h) <==> id in Ids(h)
    ensures Ascends(Recency(h), id => LastAt(h, id))
    ensures Distinct(Recency(h))
  {
    if h != [] {
      var front, i := h[..|h| - 1], h[|h| - 1];
      RecencySpec(front);
      assert h == front + [i];
      IdsSnoc(front, i);
      MovedAscends(Recency(front), i.id, id => LastAt(front, id), id => LastAt(h, id));
    }
  }

  /** The table holds the `limit` ids inserted last, each with its newest entry. */
  ghost predicate Recent(h: seq<Insertion>, table: map<string, Entry>, limit: nat) {
    && (forall id :: id in table <==> id in Last(Recency(h), limit))
    && (forall id :: id in table ==> id in Ids(h) && table[id] == Newest(h, id))
  }

  /** Between two insertions of an id with the same index no other id is inserted. */
  ghost predicate Adjacent(h: seq<Insertion>) {
    forall j, l, k :: 0 <= j < l < k < |h| && StampOf(h[j]) == StampOf(h[k]) ==> h[l].id == h[k].id
  }

  /** An insertion that keeps the history adjacent has no one else behind a stamp like its own. */
  lemma AdjacentBehind(h: seq<Insertion>, i: Insertion, queue: seq<Stamp>)
    requires Adjacent(h + [i]) && Suffix(queue, Stamps(h))
    ensures BehindAlone(queue, StampOf(i))
  {
    var g, d := h + [i], |h| - |queue|;
    forall j, l | 0 <= j < l < |queue| && queue[j] == StampOf(i)
      ensures queue[l].id == i.id
    {
      assert g[d + j] == h[d + j] && g[d + l] == h[d + l] && g[|h|] == i;
      assert StampOf(g[d + j]) == queue[j] && StampOf(g[d + l]) == queue[l];
    }
  }

  /** As long as no id is inserted again with its index after others, eviction goes by recency. */
  lemma {:induction false} AdjacentOrder(h: seq<Insertion>, limit: nat)
    requires Adjacent(h)
    ensures Turn(h, limit) == Last(Recency(h), limit)
  {
    if h != [] {
      var front, i := h[..|h| - 1], h[|h| - 1];
      assert h == front + [i];
      AdjacentPrefix(h, |h| - 1);
      AdjacentOrder(front, limit);
      InsertedAllBasics(front, limit);
      InsertedAllStamped(front, limit);
      var s := InsertedAll(front, limit);
      AdjacentBehind(front, i, s.queue);
      MovedOrder(s, i, limit);
      RecencySpec(front);
      LastMoved(Recency(front), i.id, limit);
    }
  }

  lemma AdjacentPrefix(h: seq<Insertion>, n: nat)
    requires Adjacent(h) && n <= |h|
    ensures Adjacent(h[..n])
  {
    forall j, l, k | 0 <= j < l < k < n && StampOf(h[..n][j]) == StampOf(h[..n][k])
      ensures h[..n][l].id == h[..n][k].id
    {
      assert h[..n][j] == h[j] && h[..n][l] == h[l] && h[..n][k] == h[k];
    }
  }

  /** Every id inserted in `c` has an index that it was not inserted with before. */
  ghost predicate FreshAfter(h: seq<Insertion>, c: seq<Insertion>) {
    forall j, k :: 0 <= j < k < |h + c| && |h| <= k ==> StampOf((h + c)[j]) != StampOf((h + c)[k])
  }

  /** The window is exact when `c` has been inserted after `h`. */
  ghost predicate Exact(h: seq<Insertion>, c: seq<Insertion>, limit: nat) {
    Recent(h + c, InsertedAll(h + c, limit).table, limit)
  }

  /** The window is exact from now on, with whatever fresh insertions to come. */
  ghost predicate StaysExact(h: seq<Insertion>, limit: nat) {
    forall c :: FreshAfter(h, c) ==> Exact(h, c, limit)
  }

  lemma AdjacentStaysExact(h: seq<Insertion>, limit: nat)
    requires Adjacent(h)
    ensures StaysExact(h, limit)
  {
    forall c | FreshAfter(h, c)
      ensures Exact(h, c, limit)
    {
      var g := h + c;
      forall j, l, k | 0 <= j < l < k < |g| && StampOf(g[j]) == StampOf(g[k])
        ensures g[l].id == g[k].id
      {
        assert g[j] == h[j] && g[l] == h[l] && g[k] == h[k];
      }
      AdjacentOrder(g, limit);
      TableOfOrder(g, limit);
    }
  }

  /** What is left of the table when eviction has gone through the queue. */
  ghost function Unordered(queue: seq<Stamp>, table: map<string, Entry>): map<string, Entry> {
    if queue == [] then table
    else Unordered(queue[1..], if Current(table, queue[0]) then table - {queue[0].id} else table)
  }

  lemma {:induction false} OrderConcat(a: seq<Stamp>, b: seq<Stamp>, table: map<string, Entry>)
    ensures Order(a + b, table) == Order(a, table) + Order(b, Unordered(a, table))
    ensures forall id :: id in Order(a, table) ==> id !in Order(b, Unordered(a, table))
    decreases |a|
  {
    OrderIds(b, Unordered(a, table));
    UnorderedIds(a, table);
    if a == [] {
      assert a + b == b;
    } else {
      assert (a + b)[0] == a[0] && (a + b)[1..] == a[1..] + b;
      OrderConcat(a[1..], b, if Current(table, a[0]) then table - {a[0].id} else table);
    }
  }

  lemma {:induction false} UnorderedIds(queue: seq<Stamp>, table: map<string, Entry>)
    ensures Unordered(queue, table).Keys <= table.Keys
    ensures forall id :: id in Order(queue, table) ==> id !in Unordered(queue, table)
    decreases |queue|
  {
    if queue != [] {
      UnorderedIds(queue[1..], if Current(table, queue[0]) then table - {queue[0].id} else table);
    }
  }

  /** A window with room for every id keeps everything. */
  lemma {:induction false} InsertedAllWithRoom(h: seq<Insertion>, limit: nat)
    requires |Ids(h)| <= limit
    ensures InsertedAll(h, limit).table.Keys == Ids(h) && InsertedAll(h, limit).queue == Stamps(h)
  {
    if h != [] {
      var front, i := h[..|h| - 1], h[|h| - 1];
      assert h == front + [i];
      IdsSnoc(front, i);
      assert Ids(h) == Ids(front) + (Ids(h) - Ids(front));
      InsertedAllWithRoom(front, limit);
      var s := InsertedAll(front, limit);
      assert s.table[i.id := i.entry].Keys == Ids(h);
      InsertedWithRoom(s, i, limit);
      assert Stamps(h) == Stamps(front) + [StampOf(i)];
    }
  }

  ghost function LongestId(h: seq<Insertion>): (n: nat)
    ensures forall id :: id in Ids(h) ==> |id| <= n
  {
    if h == [] then 0
    else
      assert Ids(h) == Ids(h[..|h| - 1]) + {h[|h| - 1].id} by {
        assert h == h[..|h| - 1] + [h[|h| - 1]];
        IdsSnoc(h[..|h| - 1], h[|h| - 1]);
      }
      var n, m := LongestId(h[..|h| - 1]), |h[|h| - 1].id|;
      if n < m then m else n
  }

  ghost function Strange(length: nat): (i: Insertion)
    ensures |i.id| == length
  {
    Insertion(seq(length, _ => 'x'), Entry(false, false, "", 0))
  }

  /** Insertions of ids that are longer and longer. */
  ghost function Strangers(length: nat, n: nat): (c: seq<Insertion>)
    ensures |c| == n && forall k :: 0 <= k < n ==> c[k] == Strange(length + k)
  {
    seq(n, k requires 0 <= k < n => Strange(length + k))
  }

  ghost function IdsInOrder(c: seq<Insertion>): (r: seq<string>)
    ensures |r| == |c| && forall k :: 0 <= k < |r| ==> r[k] == c[k].id
  {
    seq(|c|, k requires 0 <= k < |c| => c[k].id)
  }

  /** The strangers have come last, both in the order of eviction and by recency. */
  ghost predicate StrangersLast(h: seq<Insertion>, c: seq<Insertion>, limit: nat) {
    && Turn(h + c, limit) == Last(Turn(h, limit) + IdsInOrder(c), limit)
    && Recency(h + c) == Recency(h) + IdsInOrder(c)
  }

  /** No id is inserted that was inserted before. */
  ghost predicate NewIds(h: seq<Insertion>, c: seq<Insertion>) {
    forall k :: 0 <= k < |c| ==> c[k].id !in Ids(h + c[..k])
  }

  lemma {:induction false} StrangersCome(h: seq<Insertion>, c: seq<Insertion>, limit: nat)
    requires NewIds(h, c)
    ensures StrangersLast(h, c, limit)
  {
    if c == [] {
      NobodyComes(h, limit);
    } else {
      var front := c[..|c| - 1];
      forall k | 0 <= k < |front|
        ensures front[k].id !in Ids(h + front[..k])
      {
        assert front[..k] == c[..k] && front[k] == c[k];
      }
      StrangersCome(h, front, limit);
      OneMoreLast(h, front, c[|c| - 1], limit);
      assert c == front + [c[|c| - 1]];
    }
  }

  lemma NobodyComes(h: seq<Insertion>, limit: nat)
    ensures StrangersLast(h, [], limit)
  {
    assert h + [] == h;
    InsertedAllBasics(h, limit);
    InsertedAllStamped(h, limit);
    OrderSize(InsertedAll(h, limit).queue, InsertedAll(h, limit).table);
    assert Turn(h, limit) + IdsInOrder([]) == Turn(h, limit);
    assert Recency(h) + IdsInOrder([]) == Recency(h);
  }

  lemma NewIdsFresh(h: seq<Insertion>, c: seq<Insertion>)
    requires NewIds(h, c)
    ensures FreshAfter(h, c)
  {
    var g := h + c;
    forall j, k | 0 <= j < k < |g| && |h| <= k
      ensures StampOf(g[j]) != StampOf(g[k])
    {
      var before := h + c[..k - |h|];
      assert before[j] == g[j] && before[j].id in Ids(before);
      assert c[k - |h|].id !in Ids(before);
    }
  }

  lemma StrangersNew(h: seq<Insertion>, n: nat)
    ensures NewIds(h, Strangers(LongestId(h) + 1, n))
  {
    var length := LongestId(h) + 1;
    var c := Strangers(length, n);
    forall k | 0 <= k < n
      ensures c[k].id !in Ids(h + c[..k])
    {
      var before := h + c[..k];
      forall j | 0 <= j < |before|
        ensures |before[j].id| < length + k
      {
        if j < |h| {
          assert before[j] == h[j] && h[j].id in Ids(h);
        } else {
          assert before[j] == c[j - |h|];
        }
      }
    }
  }

  lemma {:induction false} OneMoreLast(h: seq<Insertion>, c: seq<Insertion>, i: Insertion, limit: nat)
    requires StrangersLast(h, c, limit) && i.id !in Ids(h + c)
    ensures StrangersLast(h, c + [i], limit)
  {
    NewcomerLast(h + c, i, limit);
    assert h + (c + [i]) == h + c + [i];
    assert IdsInOrder(c + [i]) == IdsInOrder(c) + [i.id];
    ListsGrow(Turn(h, limit), Recency(h), IdsInOrder(c), i.id, limit);
  }

  lemma ListsGrow(turn: seq<string>, recency: seq<string>, later: seq<string>, id: string, limit: nat)
    ensures Last(Last(turn + later, limit) + [id], limit) == Last(turn + (later + [id]), limit)
    ensures recency + later + [id] == recency + (later + [id])
  {
    LastSnoc(turn + later, id, limit);
    assert turn + later + [id] == turn + (later + [id]);
  }

  /** An id never inserted before. */
  lemma {:induction false} NewcomerLast(g: seq<Insertion>, i: Insertion, limit: nat)
    requires i.id !in Ids(g)
    ensures Recency(g + [i]) == Recency(g) + [i.id]
    ensures Turn(g + [i], limit) == Last(Turn(g, limit) + [i.id], limit)
  {
    assert (g + [i])[..|g|] == g;
    NewcomerBehind(g, i, limit);
    InsertedAllStamped(g, limit);
    MovedOrder(InsertedAll(g, limit), i, limit);
    TableOfOrder(g, limit);
    WithoutAbsent(Turn(g, limit), i.id);
    RecencySpec(g);
    WithoutAbsent(Recency(g), i.id);
  }

  lemma {:induction false} NewcomerBehind(g: seq<Insertion>, i: Insertion, limit: nat)
    requires i.id !in Ids(g)
    ensures BehindAlone(InsertedAll(g, limit).queue, StampOf(i)) && i.id !in InsertedAll(g, limit).table
  {
    InsertedAllBasics(g, limit);
    var queue := InsertedAll(g, limit).queue;
    forall j | 0 <= j < |queue|
      ensures queue[j] != StampOf(i)
    {
      assert queue[j] == StampOf(g[|g| - |queue| + j]);
      assert g[|g| - |queue| + j].id in Ids(g);
    }
  }

  lemma LastSnoc(order: seq<string>, id: string, limit: nat)
    ensures Last(Last(order, limit) + [id], limit) == Last(order + [id], limit)
  {
  }

  /** What eviction would go through first, and what is left for later. */
  lemma SplitOrder(h: seq<Insertion>, j: nat, l: nat, limit: nat) returns (first: seq<string>, second: seq<string>)
    requires h != [] && Adjacent(h[..|h| - 1]) && limit == |Ids(h)|
    requires j < l < |h| - 1 && StampOf(h[j]) == StampOf(h[|h| - 1]) && h[l].id != h[j].id
    ensures Turn(h, limit) == first + second
    ensures |first + second| == limit && |first| < limit && h[j].id !in second
  {
    var s := InsertedAll(h, limit);
    InsertedAllWithRoom(h, limit);
    InsertedAllBasics(h, limit);
    InsertedAllStamped(h, limit);
    OrderSize(s.queue, s.table);
    assert |s.table| == |s.table.Keys|;
    var front, back := s.queue[..j + 1], s.queue[j + 1..];
    assert s.queue == front + back;
    first, second := Order(front, s.table), Order(back, Unordered(front, s.table));
    OrderConcat(front, back, s.table);
    OvertakenInFront(h, j, l, s.table, front);
    OrderIds(front, s.table);
    OrderIds(s.queue, s.table);
    assert h[l].id in first + second;
  }

  /** An id inserted again with the index it had, after another: in a window with room for all it stays ahead of the
      other, and goes first when others come, although it was inserted last. */
  lemma {:induction false} OvertakenNotExact(h: seq<Insertion>, j: nat, l: nat)
    requires h != [] && Adjacent(h[..|h| - 1])
    requires j < l < |h| - 1 && StampOf(h[j]) == StampOf(h[|h| - 1]) && h[l].id != h[j].id
    ensures !StaysExact(h, |Ids(h)|)
  {
    var limit := |Ids(h)|;
    var first, second := SplitOrder(h, j, l, limit);
    StrangersNew(h, |first|);
    StrangersEvict(h, first, second, Strangers(LongestId(h) + 1, |first|), limit);
  }

  /** As many strangers as come before the id inserted last, in the order of eviction, take it out of the table. */
  lemma {:induction false} StrangersEvict(h: seq<Insertion>, first: seq<string>, second: seq<string>, c: seq<Insertion>, limit: nat)
    requires h != [] && Turn(h, limit) == first + second && |first + second| == limit
    requires NewIds(h, c) && |c| == |first| < limit && h[|h| - 1].id !in second
    ensures !StaysExact(h, limit)
  {
    NewIdsFresh(h, c);
    StrangersCome(h, c, limit);
    EvictedByStrangers(h, first, second, c, limit, h[|h| - 1].id);
    LastInserted(h, c, limit);
    NotExact(h, c, h[|h| - 1].id, limit);
  }

  lemma {:induction false} NotExact(h: seq<Insertion>, c: seq<Insertion>, id: string, limit: nat)
    requires FreshAfter(h, c) && id in Last(Recency(h + c), limit) && id !in InsertedAll(h + c, limit).table
    ensures !StaysExact(h, limit)
  {
    assert !Exact(h, c, limit);
  }

  /** Who was inserted last before fewer than `limit` strangers is among the last `limit`. */
  lemma {:induction false} LastInserted(h: seq<Insertion>, c: seq<Insertion>, limit: nat)
    requires h != [] && StrangersLast(h, c, limit) && |c| < limit
    ensures h[|h| - 1].id in Last(Recency(h + c), limit)
  {
    StillRecent(Recency(h), IdsInOrder(c), limit);
  }

  /** The last of an order is still among the last `limit` when fewer than that have come after it. */
  lemma StillRecent(order: seq<string>, later: seq<string>, limit: nat)
    requires order != [] && |later| < limit
    ensures order[|order| - 1] in Last(order + later, limit)
  {
    AmongLast(order + later, |order| - 1, limit);
  }

  lemma {:induction false} EvictedByStrangers(h: seq<Insertion>, first: seq<string>, second: seq<string>, c: seq<Insertion>,
                                              limit: nat, id: string)
    requires Turn(h, limit) == first + second && StrangersLast(h, c, limit) && NewIds(h, c)
    requires |c| == |first| && |first + second| == limit && id !in second && id in Ids(h)
    ensures id !in InsertedAll(h + c, limit).table
  {
    TableOfOrder(h + c, limit);
    FirstGo(first, second, IdsInOrder(c));
    forall k | 0 <= k < |c|
      ensures c[k].id != id
    {
      IdsPrefix(h, c[..k], id);
    }
  }

  lemma {:induction false} IdsPrefix(h: seq<Insertion>, c: seq<Insertion>, id: string)
    requires id in Ids(h)
    ensures id in Ids(h + c)
  {
    var k :| 0 <= k < |h| && h[k].id == id;
    assert (h + c)[k].id == id;
  }

  lemma FirstGo(first: seq<string>, second: seq<string>, later: seq<string>)
    requires |later| == |first|
    ensures Last(first + second + later, |first + second|) == second + later
  {
    assert first + second + later == first + (second + later);
  }

  lemma {:induction false} NotAcross(g: seq<Insertion>, x: nat, j: nat, t: nat)
    requires Adjacent(g) && x <= j < t < |g| && g[j].id != g[t].id
    ensures StampOf(g[x]) != StampOf(g[t])
  {
  }

  lemma {:induction false} OvertakenInFront(h: seq<Insertion>, j: nat, l: nat, table: map<string, Entry>, front: seq<Stamp>)
    requires h != [] && Adjacent(h[..|h| - 1])
    requires j < l < |h| - 1 && StampOf(h[j]) == StampOf(h[|h| - 1]) && h[l].id != h[j].id
    requires table.Keys == Ids(h) && forall id :: id in table ==> table[id] == Newest(h, id)
    requires front == Stamps(h)[..j + 1]
    ensures h[j].id in table && Stamp(table[h[j].id].logIndex, h[j].id) in front
    ensures h[l].id in table && Stamp(table[h[l].id].logIndex, h[l].id) !in front
  {
    var g, b := h[..|h| - 1], h[l].id;
    assert h[j].id in Ids(h) && b in Ids(h);
    assert front[j] == StampOf(h[j]);
    var t := NewestAt(h, b);
    assert l <= t < |g| && g[t] == h[t] && g[j] == h[j];
    forall x | 0 <= x <= j
      ensures front[x] != StampOf(g[t])
    {
      assert front[x] == StampOf(g[x]);
      NotAcross(g, x, j, t);
    }
  }

  /** The first insertion that comes back to an index after others. */
  lemma {:induction false} FirstReturn(h: seq<Insertion>) returns (n: nat)
    requires !Adjacent(h)
    ensures 0 < n <= |h| && Adjacent(h[..n - 1]) && !Adjacent(h[..n])
  {
    if Adjacent(h[..|h| - 1]) {
      n := |h|;
      assert h[..n] == h;
    } else {
      n := FirstReturn(h[..|h| - 1]);
      assert h[..|h| - 1][..n] == h[..n] && h[..|h| - 1][..n - 1] == h[..n - 1];
    }
  }

  /** At every moment the window is exact for now and for whatever fresh insertions to come, whatever its size, exactly
      if no id was inserted again with an index it had after another id was. */
  lemma ExactIffAdjacent(h: seq<Insertion>)
    ensures (forall n: nat, limit: nat :: n <= |h| ==> StaysExact(h[..n], limit)) <==> Adjacent(h)
  {
    if Adjacent(h) {
      forall n: nat, limit: nat | n <= |h|
        ensures StaysExact(h[..n], limit)
      {
        AdjacentPrefix(h, n);
        AdjacentStaysExact(h[..n], limit);
      }
    } else {
      var n := FirstReturn(h);
      var g := h[..n];
      assert g[..n - 1] == h[..n - 1];
      var j, l := LastReturns(g);
      OvertakenNotExact(g, j, l);
      assert !StaysExact(h[..n], |Ids(g)|);
    }
  }

  lemma LastReturns(h: seq<Insertion>) returns (j: nat, l: nat)
    requires !Adjacent(h) && h != [] && Adjacent(h[..|h| - 1])
    ensures j < l < |h| - 1 && StampOf(h[j]) == StampOf(h[|h| - 1]) && h[l].id != h[j].id
  {
    var front := h[..|h| - 1];
    forall j, l, k | 0 <= j < l < k < |h| - 1 && StampOf(h[j]) == StampOf(h[k])
      ensures h[l].id == h[k].id
    {
      assert front[j] == h[j] && front[l] == h[l] && front[k] == h[k];
    }
    var k;
    j, l, k :| 0 <= j < l < k < |h| && StampOf(h[j]) == StampOf(h[k]) && h[l].id != h[k].id;
  }
}
