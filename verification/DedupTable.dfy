/** The request deduplication table, and the snapshot it is saved to and loaded from. */
module DedupTables {
  import opened Texts
  import opened DedupWindow
  import opened DedupOrder
  import opened DedupArrivals

  /** A committed entry as it is saved. */
  datatype Record = Record(id: string, logIndex: nat, success: bool, error: string)

  /** What opening and parsing the file yields. */
  datatype File = Missing | Unreadable | Garbled | Records(records: seq<Record>)

  datatype CheckResult = NotFound | PendingCommit | AlreadyCommitted

  datatype LoadResult = Loaded | CannotOpen | CannotParse | EmptyId

  const NO_ENTRY: Entry := Entry(false, false, "", 0)

  predicate Earlier(a: Record, b: Record) {
    a.logIndex < b.logIndex || (a.logIndex == b.logIndex && Below(a.id, b.id))
  }

  ghost predicate Ascending(rs: seq<Record>) {
    forall i, j :: 0 <= i < j < |rs| ==> Earlier(rs[i], rs[j])
  }

  /** In order, where several records may have the same id and index. */
  ghost predicate NotDescending(rs: seq<Record>) {
    forall i, j :: 0 <= i < j < |rs| ==> !Earlier(rs[j], rs[i])
  }

  function EntryOf(r: Record): Entry {
    Entry(true, r.success, r.error, r.logIndex)
  }

  function RecordOf(id: string, e: Entry): Record {
    Record(id, e.logIndex, e.success, e.error)
  }

  /** `rs` are the committed entries of the table, by log index and then by id. */
  ghost predicate SnapshotOf(table: map<string, Entry>, rs: seq<Record>) {
    && Ascending(rs)
    && forall r :: r in rs <==> r.id in table && table[r.id] == EntryOf(r)
  }

  lemma EarlierOrder(a: Record, b: Record)
    ensures !(Earlier(a, b) && Earlier(b, a)) && !Earlier(a, a)
    ensures a.id != b.id ==> Earlier(a, b) || Earlier(b, a)
  {
    BelowTotal(a.id, b.id);
    BelowIrreflexive(a.id);
  }

  lemma EarlierTrans(a: Record, b: Record, c: Record)
    requires Earlier(a, b) && Earlier(b, c)
    ensures Earlier(a, c)
  {
    if a.logIndex == b.logIndex == c.logIndex {
      BelowTrans(a.id, b.id, c.id);
    }
  }

  /** Ascending lists of the same records are the same list. */
  lemma {:induction false} AscendingUnique(a: seq<Record>, b: seq<Record>)
    requires Ascending(a) && Ascending(b) && forall r :: r in a <==> r in b
    ensures a == b
  {
    if a == [] {
      assert forall k :: 0 <= k < |b| ==> b[k] in b;
    } else {
      assert a[0] in b && b[0] in a;
      EarlierOrder(a[0], b[0]);
      assert a[0] == b[0];
      forall r
        ensures r in a[1..] <==> r in b[1..]
      {
        EarlierOrder(a[0], a[0]);
        assert r in a <==> r == a[0] || r in a[1..];
        assert r in b <==> r == b[0] || r in b[1..];
      }
      AscendingUnique(a[1..], b[1..]);
    }
  }

  /** A table has one snapshot, however its entries are gone through. */
  lemma SnapshotUnique(table: map<string, Entry>, a: seq<Record>, b: seq<Record>)
    requires SnapshotOf(table, a) && SnapshotOf(table, b)
    ensures a == b
  {
    AscendingUnique(a, b);
  }

  ghost function Insertions(rs: seq<Record>): (h: seq<Insertion>)
    ensures |h| == |rs| && forall k :: 0 <= k < |h| ==> h[k] == Insertion(rs[k].id, EntryOf(rs[k]))
  {
    seq(|rs|, k requires 0 <= k < |rs| => Insertion(rs[k].id, EntryOf(rs[k])))
  }

  ghost predicate DistinctIds(rs: seq<Record>) {
    forall i, j :: 0 <= i < j < |rs| ==> rs[i].id != rs[j].id
  }

  function LastRecords(rs: seq<Record>, limit: nat): seq<Record> {
    if |rs| <= limit then rs else rs[|rs| - limit..]
  }

  ghost function IdsOf(rs: seq<Record>): set<string> {
    set k | 0 <= k < |rs| :: rs[k].id
  }

  ghost function StampsOf(rs: seq<Record>): (r: seq<Stamp>)
    ensures |r| == |rs| && forall k :: 0 <= k < |r| ==> r[k] == Stamp(rs[k].logIndex, rs[k].id)
  {
    seq(|rs|, k requires 0 <= k < |rs| => Stamp(rs[k].logIndex, rs[k].id))
  }

  /** The table holds just the entries of the records. */
  ghost predicate Holds(rs: seq<Record>, table: map<string, Entry>) {
    && table.Keys == IdsOf(rs)
    && forall k :: 0 <= k < |rs| ==> rs[k].id in table && table[rs[k].id] == EntryOf(rs[k])
  }

  /** The window holds just the entries of the records, and their stamps are queued in the order of the records. */
  ghost predicate WindowOf(rs: seq<Record>, s: Window) {
    Holds(rs, s.table) && s.queue == StampsOf(rs)
  }

  lemma IdsOfSnoc(rs: seq<Record>, r: Record)
    ensures IdsOf(rs + [r]) == IdsOf(rs) + {r.id}
  {
    var all := rs + [r];
    assert all[|rs|] == r;
    forall id | id in IdsOf(rs)
      ensures id in IdsOf(all)
    {
      var k :| 0 <= k < |rs| && rs[k].id == id;
      assert all[k].id == id;
    }
  }

  lemma {:induction false} IdsOfSize(rs: seq<Record>)
    requires DistinctIds(rs)
    ensures |IdsOf(rs)| == |rs|
  {
    if rs != [] {
      var front, last := rs[..|rs| - 1], rs[|rs| - 1];
      IdsOfSize(front);
      assert rs == front + [last];
      IdsOfSnoc(front, last);
      assert last.id !in IdsOf(front);
    }
  }

  /** Without its first record the rest holds the rest of the table. */
  lemma HoldsRest(rs: seq<Record>, table: map<string, Entry>)
    requires DistinctIds(rs) && rs != [] && Holds(rs, table)
    ensures Holds(rs[1..], table - {rs[0].id})
  {
    forall id
      ensures id in IdsOf(rs[1..]) <==> id in IdsOf(rs) && id != rs[0].id
    {
      if id in IdsOf(rs) && id != rs[0].id {
        var k :| 0 <= k < |rs| && rs[k].id == id;
        assert rs[1..][k - 1].id == id;
      }
      if id in IdsOf(rs[1..]) {
        var k :| 0 <= k < |rs[1..]| && rs[1..][k].id == id;
        assert rs[k + 1].id == id;
      }
    }
    forall k | 0 <= k < |rs[1..]|
      ensures rs[1..][k].id in table - {rs[0].id}
    {
      assert rs[1..][k] == rs[k + 1] && rs[k + 1].id in IdsOf(rs);
    }
  }

  lemma StampsSnoc(rs: seq<Record>, r: Record)
    ensures StampsOf(rs + [r]) == StampsOf(rs) + [StampOf(Insertion(r.id, EntryOf(r)))]
  {
  }

  lemma StampsRest(rs: seq<Record>, r: Record)
    requires rs != []
    ensures StampsOf((rs + [r])[1..]) == StampsOf(rs)[1..] + [StampOf(Insertion(r.id, EntryOf(r)))]
  {
  }

  lemma HoldsSize(rs: seq<Record>, table: map<string, Entry>)
    requires DistinctIds(rs) && Holds(rs, table)
    ensures |table| == |rs|
  {
    IdsOfSize(rs);
    assert |table.Keys| == |rs|;
  }

  lemma HoldsSnoc(rs: seq<Record>, table: map<string, Entry>, r: Record)
    requires DistinctIds(rs + [r]) && Holds(rs, table)
    ensures r.id !in table && Holds(rs + [r], table[r.id := EntryOf(r)])
  {
    IdsOfFront(rs, r);
    IdsOfSnoc(rs, r);
    var all, after := rs + [r], table[r.id := EntryOf(r)];
    assert after.Keys == IdsOf(all);
    forall k | 0 <= k < |all|
      ensures all[k].id in after && after[all[k].id] == EntryOf(all[k])
    {
      if k < |rs| {
        assert all[k] == rs[k] && rs[k].id in table;
      }
    }
  }

  lemma IdsOfFront(rs: seq<Record>, r: Record)
    requires DistinctIds(rs + [r])
    ensures DistinctIds(rs) && r.id !in IdsOf(rs)
  {
    var all := rs + [r];
    assert all[|rs|] == r && forall k :: 0 <= k < |rs| ==> all[k] == rs[k];
  }

  lemma WindowNextWithRoom(rs: seq<Record>, s: Window, r: Record, limit: nat)
    requires DistinctIds(rs + [r]) && |rs| < limit && WindowOf(rs, s)
    ensures WindowOf(rs + [r], Inserted(s, Insertion(r.id, EntryOf(r)), limit))
  {
    var i := Insertion(r.id, EntryOf(r));
    IdsOfFront(rs, r);
    HoldsSize(rs, s.table);
    HoldsSnoc(rs, s.table, r);
    StampsSnoc(rs, r);
    assert s.table[i.id := i.entry].Keys == s.table.Keys + {i.id};
    InsertedWithRoom(s, i, limit);
  }

  lemma WindowNextFull(rs: seq<Record>, s: Window, r: Record)
    requires DistinctIds(rs + [r]) && rs != [] && WindowOf(rs, s)
    ensures WindowOf((rs + [r])[1..], Inserted(s, Insertion(r.id, EntryOf(r)), |rs|))
  {
    var all, i := rs + [r], Insertion(r.id, EntryOf(r));
    IdsOfFront(rs, r);
    HoldsSize(rs, s.table);
    HoldsSnoc(rs, s.table, r);
    StampsRest(rs, r);
    HoldsRest(all, s.table[i.id := i.entry]);
    assert all[0] == rs[0] && s.queue[0] == Stamp(rs[0].logIndex, rs[0].id);
    InsertedWithoutRoom(s, i, |rs|);
  }

  /** Inserting records with distinct ids leaves the last ones. */
  lemma {:induction false} InsertedRecords(rs: seq<Record>, limit: nat)
    requires DistinctIds(rs)
    ensures WindowOf(LastRecords(rs, limit), InsertedAll(Insertions(rs), limit))
  {
    if rs == [] {
      NothingInserted(limit);
    } else {
      RecordsFront(rs);
      InsertedRecords(rs[..|rs| - 1], limit);
      NextInserted(rs[..|rs| - 1], rs[|rs| - 1], limit);
    }
  }

  lemma RecordsFront(rs: seq<Record>)
    requires rs != [] && DistinctIds(rs)
    ensures rs[..|rs| - 1] + [rs[|rs| - 1]] == rs && DistinctIds(rs[..|rs| - 1])
  {
  }

  lemma NothingInserted(limit: nat)
    ensures WindowOf(LastRecords([], limit), InsertedAll(Insertions([]), limit))
  {
    assert IdsOf([]) == {};
  }

  lemma NextInserted(rs: seq<Record>, r: Record, limit: nat)
    requires DistinctIds(rs + [r]) && WindowOf(LastRecords(rs, limit), InsertedAll(Insertions(rs), limit))
    ensures WindowOf(LastRecords(rs + [r], limit), InsertedAll(Insertions(rs + [r]), limit))
  {
    InsertedLast(rs, r, limit);
    NextRecord(rs, r, InsertedAll(Insertions(rs), limit), limit);
  }

  lemma InsertedLast(rs: seq<Record>, r: Record, limit: nat)
    ensures InsertedAll(Insertions(rs + [r]), limit) ==
            Inserted(InsertedAll(Insertions(rs), limit), Insertion(r.id, EntryOf(r)), limit)
  {
    var h := Insertions(rs + [r]);
    assert h[..|rs|] == Insertions(rs);
  }

  lemma NextRecord(rs: seq<Record>, r: Record, s: Window, limit: nat)
    requires DistinctIds(rs + [r]) && WindowOf(LastRecords(rs, limit), s)
    ensures WindowOf(LastRecords(rs + [r], limit), Inserted(s, Insertion(r.id, EntryOf(r)), limit))
  {
    var kept, all := LastRecords(rs, limit), rs + [r];
    var d := |rs| - |kept|;
    assert all[d..] == kept + [r];
    DistinctTail(all, d);
    if |kept| < limit {
      WindowNextWithRoom(kept, s, r, limit);
    } else if limit > 0 {
      WindowNextFull(kept, s, r);
      assert (kept + [r])[1..] == LastRecords(all, limit);
    } else {
      NothingKept(s, Insertion(r.id, EntryOf(r)));
      assert LastRecords(all, limit) == [];
    }
  }

  lemma DistinctTail(rs: seq<Record>, d: nat)
    requires DistinctIds(rs) && d <= |rs|
    ensures DistinctIds(rs[d..])
  {
  }

  lemma NothingKept(s: Window, i: Insertion)
    requires WindowOf([], s)
    ensures WindowOf([], Inserted(s, i, 0))
  {
    assert IdsOf([]) == {} && s.queue == [];
    var grown := Window(s.table[i.id := i.entry], s.queue + [StampOf(i)]);
    assert grown.queue[0] == StampOf(i) && i.id in grown.table;
    assert Current(grown.table, grown.queue[0]);
    assert Dropped(grown).table.Keys == {} && Dropped(grown).queue == [];
    assert |grown.table| > 0;
    assert Evicted(grown, 0) == Evicted(Dropped(grown), 0);
  }

  lemma SnapshotDistinct(table: map<string, Entry>, rs: seq<Record>)
    requires SnapshotOf(table, rs)
    ensures DistinctIds(rs)
  {
    forall i, j | 0 <= i < j < |rs|
      ensures rs[i].id != rs[j].id
    {
      assert rs[i] in rs && rs[j] in rs;
      EarlierOrder(rs[i], rs[j]);
    }
  }

  /** A table that holds just the records has them as its snapshot. */
  lemma SnapshotOfRecords(rs: seq<Record>, table: map<string, Entry>)
    requires Ascending(rs) && Holds(rs, table)
    ensures SnapshotOf(table, rs)
  {
    forall r
      ensures r in rs <==> r.id in table && table[r.id] == EntryOf(r)
    {
      if r in rs {
        var k :| 0 <= k < |rs| && rs[k] == r;
      }
      if r.id in table && table[r.id] == EntryOf(r) {
        var k :| 0 <= k < |rs| && rs[k].id == r.id;
        assert EntryOf(rs[k]) == EntryOf(r);
        assert rs[k] == r;
      }
    }
  }

  /** Records in order with distinct ids, sorted: nothing moves. */
  lemma SortedAlready(rs: seq<Record>, sorted: seq<Record>)
    requires Ascending(rs) && DistinctIds(rs) && NotDescending(sorted) && multiset(sorted) == multiset(rs)
    ensures sorted == rs
  {
    forall i, j | 0 <= i < j < |sorted|
      ensures Earlier(sorted[i], sorted[j])
    {
      DistinctInPermutation(rs, sorted, i, j);
      EarlierOrder(sorted[i], sorted[j]);
    }
    forall r
      ensures r in sorted <==> r in rs
    {
      assert r in sorted <==> r in multiset(sorted);
      assert r in rs <==> r in multiset(rs);
    }
    AscendingUnique(sorted, rs);
  }

  lemma DistinctInPermutation(rs: seq<Record>, sorted: seq<Record>, i: nat, j: nat)
    requires DistinctIds(rs) && multiset(sorted) == multiset(rs) && i < j < |sorted|
    ensures sorted[i].id != sorted[j].id
  {
    assert sorted[i] in multiset(rs) && sorted[j] in multiset(rs);
    var k :| 0 <= k < |rs| && rs[k] == sorted[i];
    var l :| 0 <= l < |rs| && rs[l] == sorted[j];
    if k == l {
      OccursTwice(sorted, i, j);
      OccursOnce(rs, k);
    }
  }

  lemma OccursTwice(rs: seq<Record>, i: nat, j: nat)
    requires i < j < |rs| && rs[i] == rs[j]
    ensures multiset(rs)[rs[i]] >= 2
  {
    var front, back := rs[..j], rs[j..];
    assert rs == front + back;
    assert front[i] in multiset(front) && back[0] in multiset(back);
  }

  lemma OccursOnce(rs: seq<Record>, k: nat)
    requires DistinctIds(rs) && k < |rs|
    ensures multiset(rs)[rs[k]] == 1
  {
    assert rs == rs[..k] + [rs[k]] + rs[k + 1..];
    assert rs[k] !in rs[..k] && rs[k] !in rs[k + 1..];
  }

  /** Saving a table and loading what was saved into a window of any size: the committed entries, the last ones by log
      index and id if they are too many, with the oldest to go first; saving again yields the same records. */
  lemma RoundTrip(table: map<string, Entry>, rs: seq<Record>, sorted: seq<Record>, limit: nat)
    requires SnapshotOf(table, rs) && NotDescending(sorted) && multiset(sorted) == multiset(rs)
    ensures var s, kept := InsertedAll(Insertions(sorted), limit), LastRecords(rs, limit);
      && SnapshotOf(s.table, kept)
      && s.queue == StampsOf(kept)
      && (|rs| <= limit ==>
            && (forall id :: id in s.table <==> id in table && table[id].committed)
            && (forall id :: id in s.table ==> id in table && s.table[id] == table[id]))
  {
    SnapshotDistinct(table, rs);
    SortedAlready(rs, sorted);
    InsertedRecords(rs, limit);
    var kept, s := LastRecords(rs, limit), InsertedAll(Insertions(rs), limit);
    AscendingLast(rs, limit);
    SnapshotOfRecords(kept, s.table);
    if |rs| <= limit {
      LoadedCommitted(table, rs, s.table);
    }
  }

  lemma AscendingLast(rs: seq<Record>, limit: nat)
    requires Ascending(rs)
    ensures Ascending(LastRecords(rs, limit))
  {
  }

  lemma LoadedCommitted(table: map<string, Entry>, rs: seq<Record>, loaded: map<string, Entry>)
    requires SnapshotOf(table, rs) && Holds(rs, loaded)
    ensures forall id :: id in loaded <==> id in table && table[id].committed
    ensures forall id :: id in loaded ==> id in table && loaded[id] == table[id]
  {
    forall id | id in loaded
      ensures id in table && table[id].committed && loaded[id] == table[id]
    {
      var k :| 0 <= k < |rs| && rs[k].id == id;
      assert rs[k] in rs;
    }
    forall id | id in table && table[id].committed
      ensures id in loaded
    {
      var r := RecordOf(id, table[id]);
      assert EntryOf(r) == table[id];
      assert r in rs;
    }
  }

  /** Where a record belongs among ones in order: after all that are not later. */
  method InsertRecord(rs: seq<Record>, r: Record) returns (after: seq<Record>)
    requires NotDescending(rs)
    ensures NotDescending(after) && multiset(after) == multiset(rs) + multiset{r}
  {
    var k := 0;
    while k < |rs| && !Earlier(r, rs[k])
      invariant k <= |rs| && forall i :: 0 <= i < k ==> !Earlier(r, rs[i])
    {
      k := k + 1;
    }
    after := rs[..k] + [r] + rs[k..];
    InsertedInOrder(rs, r, k);
    assert rs == rs[..k] + rs[k..];
  }

  lemma InsertedInOrder(rs: seq<Record>, r: Record, k: nat)
    requires NotDescending(rs) && k <= |rs|
    requires forall i :: 0 <= i < k ==> !Earlier(r, rs[i])
    requires k < |rs| ==> Earlier(r, rs[k])
    ensures NotDescending(rs[..k] + [r] + rs[k..])
  {
    var after := rs[..k] + [r] + rs[k..];
    forall i | k <= i < |rs|
      ensures !Earlier(rs[i], r)
    {
      if Earlier(rs[i], r) {
        EarlierTrans(rs[i], r, rs[k]);
        EarlierOrder(rs[k], rs[i]);
      }
    }
  }

  /** Sorts records by log index and id; ones that agree in both may come in any order. */
  method SortRecords(rs: seq<Record>) returns (sorted: seq<Record>)
    ensures NotDescending(sorted) && multiset(sorted) == multiset(rs)
  {
    sorted := [];
    for i := 0 to |rs|
      invariant NotDescending(sorted) && multiset(sorted) == multiset(rs[..i])
    {
      assert rs[..i + 1] == rs[..i] + [rs[i]];
      sorted := InsertRecord(sorted, rs[i]);
    }
    assert rs[..|rs|] == rs;
  }

  class DedupTable {
    const windowSize: nat
    var table: map<string, Entry>
    var queue: seq<Stamp>
    /** What has been inserted since the table was last empty. */
    ghost var history: seq<Insertion>

    ghost function State(): Window
      reads this
    {
      Window(table, queue)
    }

    ghost predicate Valid()
      reads this
    {
      && Stamped(State()) && |table| <= windowSize
      && State() == InsertedAll(history, windowSize)
    }

    constructor (windowSize: nat)
      ensures Valid() && table == map[] && this.windowSize == windowSize
    {
      this.windowSize := windowSize;
      table, queue, history := map[], [], [];
    }

    function Size(): nat
      reads this
    {
      |table|
    }

    function Status(id: string): CheckResult
      reads this
    {
      if id !in table then NotFound else if table[id].committed then AlreadyCommitted else PendingCommit
    }

    /** What is known of a request: nothing exactly if it has no entry, and otherwise its entry, committed or not. */
    method Check(id: string) returns (r: CheckResult, e: Entry)
      ensures r == NotFound <==> id !in table
      ensures r == PendingCommit <==> id in table && !table[id].committed
      ensures r == AlreadyCommitted <==> id in table && table[id].committed
      ensures id in table ==> e == table[id]
    {
      r, e := Status(id), if id in table then table[id] else NO_ENTRY;
    }

    /** In ordinary traffic the table holds the requests that arrived last, in the order of their log indices. */
    lemma WindowOfTraffic()
      requires Valid() && Traffic(history, windowSize)
      ensures LastArrived(history, table, windowSize)
    {
      TrafficTable(history, windowSize);
    }

    method EvictIfNeeded()
      modifies this`table, this`queue
      ensures State() == Evicted(old(State()), windowSize)
    {
      while |table| > windowSize && queue != []
        invariant Evicted(State(), windowSize) == Evicted(old(State()), windowSize)
        decreases |queue|
      {
        var stamp := queue[0];
        queue := queue[1..];
        if stamp.id in table && table[stamp.id].logIndex == stamp.logIndex {
          table := table - {stamp.id};
        }
      }
    }

    method InsertOrUpdate(id: string, e: Entry)
      requires Valid()
      modifies this
      ensures Valid() && State() == Inserted(old(State()), Insertion(id, e), windowSize)
      ensures history == old(history) + [Insertion(id, e)]
    {
      InsertedStamped(State(), Insertion(id, e), windowSize);
      table := table[id := e];
      queue := queue + [Stamp(e.logIndex, id)];
      history := history + [Insertion(id, e)];
      EvictIfNeeded();
    }

    /** Notes that a request is on its way, unless the table knows it. */
    method TrackPending(id: string, logIndex: nat) returns (r: CheckResult, e: Entry)
      requires Valid()
      modifies this
      ensures Valid()
      ensures r == if id == "" then NotFound else old(Status(id))
      ensures id == "" || r != NotFound ==> State() == old(State()) && history == old(history)
      ensures id != "" && r == NotFound ==>
        && e == Entry(false, false, "", logIndex)
        && State() == Inserted(old(State()), Insertion(id, e), windowSize)
        && history == old(history) + [Insertion(id, e)]
      ensures r != NotFound ==> id in table && e == table[id]
    {
      if id == "" {
        return NotFound, NO_ENTRY;
      }
      r := Status(id);
      if r != NotFound {
        return r, table[id];
      }
      e := Entry(false, false, "", logIndex);
      InsertOrUpdate(id, e);
    }

    /** Notes the result of a request. */
    method Record(id: string, logIndex: nat, success: bool, error: string)
      requires Valid()
      modifies this
      ensures Valid()
      ensures id == "" ==> State() == old(State()) && history == old(history)
      ensures id != "" ==>
        && State() == Inserted(old(State()), Insertion(id, Entry(true, success, error, logIndex)), windowSize)
        && history == old(history) + [Insertion(id, Entry(true, success, error, logIndex))]
    {
      if id != "" {
        InsertOrUpdate(id, Entry(true, success, error, logIndex));
      }
    }

    /** The committed entries in the order in which they are saved. */
    method SaveTo() returns (records: seq<Record>)
      ensures SnapshotOf(table, records)
      ensures forall i, j :: 0 <= i < j < |records| ==>
        records[i].logIndex < records[j].logIndex || (records[i].logIndex == records[j].logIndex && Below(records[i].id, records[j].id))
      ensures forall r :: r in records <==>
        && r.id in table && table[r.id].committed
        && r.logIndex == table[r.id].logIndex && r.success == table[r.id].success && r.error == table[r.id].error
    {
      var rest := table.Keys;
      var gathered := [];
      while rest != {}
        invariant rest <= table.Keys && GatheredFrom(table, table.Keys - rest, gathered)
        decreases |rest|
      {
        var id :| id in rest;
        GatheredNext(table, table.Keys - rest, gathered, id);
        if table[id].committed {
          gathered := gathered + [RecordOf(id, table[id])];
        }
        rest := rest - {id};
        assert table.Keys - rest == table.Keys - (rest + {id}) + {id};
      }
      records := SortRecords(gathered);
      GatheredSorted(table, gathered, records);
    }

    /** Replaces the table by the records of the file, the oldest inserted first. A missing file empties the table, any
        other problem leaves it as it is. */
    method LoadFrom(file: File) returns (r: LoadResult, ghost sorted: seq<Record>)
      requires Valid()
      modifies this
      ensures Valid()
      ensures r == match file
                   case Missing => Loaded
                   case Unreadable => CannotOpen
                   case Garbled => CannotParse
                   case Records(rs) => if HasEmptyId(rs) then EmptyId else Loaded
      ensures r != Loaded ==> State() == old(State()) && history == old(history)
      ensures r == Loaded && file == Missing ==> State() == Window(map[], []) && history == []
      ensures r == Loaded && file.Records? ==>
        && NotDescending(sorted) && multiset(sorted) == multiset(file.records)
        && history == Insertions(sorted) && State() == InsertedAll(history, windowSize)
        && forall i, j :: 0 <= i < j < |sorted| ==>
             sorted[i].logIndex < sorted[j].logIndex || (sorted[i].logIndex == sorted[j].logIndex && !Below(sorted[j].id, sorted[i].id))
    {
      sorted := [];
      match file {
        case Missing =>
          table, queue, history := map[], [], [];
          return Loaded, sorted;
        case Unreadable =>
          return CannotOpen, sorted;
        case Garbled =>
          return CannotParse, sorted;
        case Records(rs) =>
          for i := 0 to |rs|
            invariant forall k :: 0 <= k < i ==> rs[k].id != ""
          {
            if rs[i].id == "" {
              return EmptyId, sorted;
            }
          }
          var ordered := SortRecords(rs);
          sorted := ordered;
          InsertSorted(ordered);
          return Loaded, sorted;
      }
    }

    method InsertSorted(records: seq<Record>)
      modifies this
      ensures Valid() && history == Insertions(records)
    {
      table, queue, history := map[], [], [];
      for i := 0 to |records|
        invariant Valid() && history == Insertions(records[..i])
      {
        InsertionsSnoc(records[..i], records[i]);
        assert records[..i + 1] == records[..i] + [records[i]];
        InsertOrUpdate(records[i].id, EntryOf(records[i]));
      }
      assert records[..|records|] == records;
    }
  }

  predicate HasEmptyId(rs: seq<Record>) {
    exists k :: 0 <= k < |rs| && rs[k].id == ""
  }

  lemma InsertionsSnoc(rs: seq<Record>, r: Record)
    ensures Insertions(rs + [r]) == Insertions(rs) + [Insertion(r.id, EntryOf(r))]
  {
  }

  /** `rs` are the committed entries with one of the ids, once each, in any order. */
  ghost predicate GatheredFrom(table: map<string, Entry>, ids: set<string>, rs: seq<Record>) {
    && DistinctIds(rs)
    && forall r :: r in rs <==> r.id in ids && r.id in table && table[r.id] == EntryOf(r)
  }

  lemma GatheredNext(table: map<string, Entry>, ids: set<string>, rs: seq<Record>, id: string)
    requires GatheredFrom(table, ids, rs) && id in table && id !in ids
    ensures GatheredFrom(table, ids + {id}, if table[id].committed then rs + [RecordOf(id, table[id])] else rs)
  {
    var x := RecordOf(id, table[id]);
    var after := if table[id].committed then rs + [x] else rs;
    assert forall k :: 0 <= k < |rs| ==> rs[k] in rs;
    forall r
      ensures r in after <==> r.id in ids + {id} && r.id in table && table[r.id] == EntryOf(r)
    {
      assert table[id].committed ==> (r in after <==> r in rs || r == x);
    }
  }

  lemma GatheredSorted(table: map<string, Entry>, gathered: seq<Record>, sorted: seq<Record>)
    requires GatheredFrom(table, table.Keys, gathered) && NotDescending(sorted) && multiset(sorted) == multiset(gathered)
    ensures SnapshotOf(table, sorted)
  {
    forall i, j | 0 <= i < j < |sorted|
      ensures Earlier(sorted[i], sorted[j])
    {
      DistinctInPermutation(gathered, sorted, i, j);
      EarlierOrder(sorted[i], sorted[j]);
    }
    forall r
      ensures r in sorted <==> r in gathered
    {
      assert r in sorted <==> r in multiset(sorted);
      assert r in gathered <==> r in multiset(gathered);
    }
  }
}
