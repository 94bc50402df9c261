/** The multi-set of entries behind the key lookups: linear probing, deletion marks, growth by rehashing. */
module FlatHashMultiSets {
  import opened Numbers
  import opened Probing
  import opened ProbeTables
  import opened ProbeAnswers
  import opened EqualRanges

  /** Slots come in buckets of this many. */
  const BUCKET: nat := 64

  function WholeBuckets(slots: nat): nat {
    (slots + BUCKET - 1) / BUCKET * BUCKET
  }

  /** The slots reserved for `capacity` entries: a power of two, rounded up to whole buckets. */
  function SizeFor(capacity: nat): nat {
    WholeBuckets(Ceil2(capacity * 3 / 2))
  }

  /** The slots after reserving for `capacity` entries, if there are `present`. */
  function SlotsFor(capacity: nat, present: nat): nat {
    if capacity * 3 <= present * 2 then present else SizeFor(capacity)
  }

  lemma {:induction false} Pow2Buckets(p: nat)
    requires IsPow2(p)
    ensures p < BUCKET ==> p == 1 || p == 2 || p == 4 || p == 8 || p == 16 || p == 32
    ensures p >= BUCKET ==> p % BUCKET == 0
  {
    if p != 1 {
      var half: nat :| half < p && half + half == p && IsPow2(half);
      Pow2Buckets(half);
    }
  }

  lemma BucketIsPow2()
    ensures IsPow2(BUCKET)
  {
    assert IsPow2(1) && 1 + 1 == 2 && IsPow2(2) && 2 + 2 == 4 && IsPow2(4) && 4 + 4 == 8 && IsPow2(8);
    assert 8 + 8 == 16 && IsPow2(16) && 16 + 16 == 32 && IsPow2(32) && 32 + 32 == 64;
  }

  /** Whole buckets keep the size a power of two, as masking requires, and the load within two thirds. */
  lemma SizeForSpec(capacity: nat, present: nat)
    requires capacity * 3 > present * 2
    ensures var n := SizeFor(capacity);
      && IsPow2(n) && 64 <= n && present <= n && capacity * 3 < n * 2 + 2
      && (n > 64 ==> n < capacity * 3)
  {
    WholeBucketsPow2(Ceil2(capacity * 3 / 2));
  }

  lemma WholeBucketsPow2(p: nat)
    requires IsPow2(p)
    ensures WholeBuckets(p) == Max(p, BUCKET) && IsPow2(WholeBuckets(p))
  {
    Pow2Buckets(p);
    BucketIsPow2();
    if p >= BUCKET {
      var q := p / BUCKET;
      assert p == q * BUCKET;
      assert (p + BUCKET - 1) / BUCKET == q;
    }
  }

  /** Up to this many entries one bucket is enough. */
  lemma SmallestSize(capacity: nat)
    requires 0 < capacity <= BUCKET / 3
    ensures SizeFor(capacity) == BUCKET
  {
    WholeBucketsPow2(Ceil2(capacity * 3 / 2));
  }

  /** A slot that takes an entry: an unused one becomes populated, a deleted one loses its mark. */
  function Populated(s: Slot, e: Entry): (r: Slot)
    ensures (s.deleted ==> s.populated) ==> r == Slot(true, false, e)
  {
    if s.populated then s.(entry := e, deleted := false) else s.(entry := e, populated := true)
  }

  /** Puts an entry into the first slot from its home that has no live one. */
  method Place(slots: array<Slot>, hash: nat -> nat, e: Entry)
    requires Table(slots[..], hash) && |Entries(slots[..])| < slots.Length
    modifies slots
    ensures Table(slots[..], hash) && Entries(slots[..]) == old(Entries(slots[..])) + multiset{e}
  {
    var n := slots.Length;
    ghost var h := Home(hash(e.key), n);
    ghost var all := slots[..];
    ghost var ring := Around(all, h);
    SomeRoom(all, h);
    var index := Home(hash(e.key), n);
    ghost var d := 0;
    while Live(slots[index])
      invariant d < n && index == Wrap(h, d, n)
      invariant forall k :: 0 <= k < d ==> Live(ring[k])
      decreases n - d
    {
      assert Live(ring[d]);
      index := Wrap(index, 1, n);
      d := d + 1;
    }
    assert ring[d] == all[index];
    Placed(all, hash, e, d);
    slots[index] := Populated(slots[index], e);
    assert slots[..] == all[index := Slot(true, false, e)];
  }

  /** What iterating over a range yields. */
  datatype Iteration = Ends(found: seq<Entry>) | Endless

  class FlatHashMultiSet {
    /** The live entries. */
    ghost var contents: multiset<Entry>

    const hash: nat -> nat
    var slots: array<Slot>
    var size: nat

    /** Deletion marks do not count towards the load, so that no slot need be left that was never used. */
    ghost predicate Valid()
      reads this, slots
    {
      && contents == Entries(slots[..]) && size == |contents|
      && Table(slots[..], hash)
      && (slots.Length > 0 ==> IsPow2(slots.Length) && BUCKET <= slots.Length)
      && size * 3 < slots.Length * 2 + 3
    }

    constructor (hash: nat -> nat)
      ensures Valid() && fresh(slots) && contents == multiset{} && slots.Length == 0 && this.hash == hash
    {
      this.hash := hash;
      slots, size, contents := new Slot[0], 0, multiset{};
    }

    /** Forgets all entries; the slots stay reserved. */
    method Clear()
      requires Valid()
      modifies this, slots
      ensures Valid() && contents == multiset{} && slots == old(slots)
      ensures forall i :: 0 <= i < slots.Length ==> !slots[i].populated
    {
      for i := 0 to slots.Length
        modifies slots
        invariant forall k :: 0 <= k < i ==> slots[k] == EMPTY
      {
        slots[i] := EMPTY;
      }
      size, contents := 0, multiset{};
      NoneLive(slots[..]);
    }

    /** Moves the live entries into new slots, dropping the deletion marks. */
    method Rehash(moved: array<Slot>)
      requires Valid() && slots.Length <= moved.Length && moved != slots
      requires forall i :: 0 <= i < moved.Length ==> moved[i] == EMPTY
      modifies moved
      ensures Table(moved[..], hash) && Entries(moved[..]) == Entries(slots[..])
    {
      NoneLive(moved[..]);
      for i := 0 to slots.Length
        invariant Table(moved[..], hash) && Entries(moved[..]) == Entries(slots[..i])
        invariant slots[..] == old(slots[..])
      {
        EntriesStep(slots[..], i);
        assert slots[..][..i] == slots[..i] && slots[..][..i + 1] == slots[..i + 1];
        EntriesSize(slots[..i]);
        ghost var before := slots[..];
        if Live(slots[i]) {
          Place(moved, hash, slots[i].entry);
        }
        assert slots[..] == before;
      }
      assert slots[..slots.Length] == slots[..];
    }

    /** Makes room for `capacity` entries at a load of two thirds, rehashing if there is not enough. */
    method TryReserve(capacity: nat)
      requires Valid()
      modifies this
      ensures Valid() && contents == old(contents)
      ensures slots == old(slots) || fresh(slots)
      ensures capacity * 3 < slots.Length * 2 + 2 && old(slots.Length) <= slots.Length
      ensures slots.Length == SlotsFor(capacity, old(slots.Length))
    {
      if capacity * 3 <= slots.Length * 2 {
        return;
      }
      SizeForSpec(capacity, slots.Length);
      var moved := new Slot[SizeFor(capacity)](_ => EMPTY);
      Rehash(moved);
      slots := moved;
    }

    /** Adds an entry, next to any others with the same key. */
    method TryEmplace(e: Entry)
      requires Valid()
      modifies this, slots
      ensures Valid() && contents == old(contents) + multiset{e}
      ensures (slots == old(slots) || fresh(slots)) && old(slots.Length) <= slots.Length
      ensures old(size) * 3 < old(slots.Length) * 2 ==> slots == old(slots)
    {
      if size * 3 >= slots.Length * 2 {
        TryReserve(size + 1);
      }
      Add(e);
    }

    /** Adds an entry for which there is room. */
    method Add(e: Entry)
      requires Valid() && (size + 1) * 3 < slots.Length * 2 + 3
      modifies this, slots
      ensures Valid() && contents == old(contents) + multiset{e} && slots == old(slots)
    {
      assert size < slots.Length;
      Place(slots, hash, e);
      contents, size := contents + multiset{e}, size + 1;
    }

    /** The first slot with a live entry for the key, in probe order. */
    method FirstMatch(key: nat) returns (found: bool, index: nat)
      ensures found <==> Probed(slots[..], hash, key) > 0
      ensures found ==> index < slots.Length && Matches(slots[index], key)
    {
      found, index := false, 0;
      var n := slots.Length;
      if n == 0 {
        return;
      }
      index := Home(hash(key), n);
      var start := index;
      ghost var all, d := slots[..], 0;
      var more := true;
      while more
        invariant d <= n && (more <==> d < n) && index == (if d < n then Wrap(start, d, n) else start)
        invariant Unmatched(all, start, d, key) && Reach(all, start, d) == Reach(all, start, 0)
        decreases n - d
      {
        if !slots[index].populated {
          NothingPassed(all, start, d, key);
          return;
        }
        if Matches(slots[index], key) {
          SomethingPassed(all, start, d, key);
          return true, index;
        }
        index := Wrap(index, 1, n);
        d := d + 1;
        more := index != start;
      }
      NothingPassed(all, start, d, key);
    }

    /** Some entry with the key, if a probe passes one. */
    method Find(key: nat) returns (found: bool, e: Entry)
      ensures found <==> Probed(slots[..], hash, key) > 0
      ensures found ==> e in Entries(slots[..]) && e.key == key
      ensures Valid() && !found ==> Only(contents, key) == multiset{}
    {
      var index;
      found, index := FirstMatch(key);
      e := if found then slots[index].entry else Entry(0, 0);
      if found {
        EntriesMember(slots[..], e);
      }
      WholeTable(key);
    }

    method Contains(key: nat) returns (found: bool)
      ensures found <==> Probed(slots[..], hash, key) > 0
      ensures Valid() ==> (found <==> Only(contents, key) != multiset{})
    {
      var e;
      found, e := Find(key);
    }

    /** Removes some entry with the key, if there is one. */
    method PopFirst(key: nat) returns (found: bool, e: Entry)
      requires Valid()
      modifies this, slots
      ensures Valid() && slots == old(slots)
      ensures found ==> e.key == key && old(contents) == contents + multiset{e}
      ensures !found ==> contents == old(contents) && Only(contents, key) == multiset{}
    {
      var index;
      found, index := FirstMatch(key);
      WholeTable(key);
      e := Entry(0, 0);
      if found {
        e := slots[index].entry;
        ghost var all := slots[..];
        Tombstoned(all, hash, index);
        slots[index] := Tombstone(slots[index]);
        assert slots[..] == all[index := Tombstone(all[index])];
        contents, size := Entries(slots[..]), size - 1;
      }
    }

    /** What a probe tells of a table whose chains are whole. */
    lemma WholeTable(key: nat)
      ensures Valid() ==> Probed(slots[..], hash, key) == |Only(contents, key)|
    {
      if Valid() {
        ProbedAll(slots[..], hash, key);
      }
    }

    /** How many entries have the key, as far as a probe can tell. */
    method Count(key: nat) returns (count: nat)
      ensures count == Probed(slots[..], hash, key)
      ensures Valid() ==> count == |Only(contents, key)|
    {
      count := CountPassed(key);
      WholeTable(key);
    }

    method CountPassed(key: nat) returns (count: nat)
      ensures count == Probed(slots[..], hash, key)
    {
      count := 0;
      var n := slots.Length;
      if n == 0 {
        return;
      }
      var index := Home(hash(key), n);
      var start := index;
      ghost var all, d := slots[..], 0;
      var more := true;
      while more
        invariant d <= n && (more <==> d < n) && index == (if d < n then Wrap(start, d, n) else start)
        invariant count == Passed(all, start, d, key) && Reach(all, start, d) == Reach(all, start, 0)
        decreases n - d
      {
        if !slots[index].populated {
          return;
        }
        if Matches(slots[index], key) {
          count := count + 1;
        }
        index := Wrap(index, 1, n);
        d := d + 1;
        more := index != start;
      }
    }

    /** Marks all slots that match deleted, and answers how many there were. */
    method MarkMatches(key: nat) returns (count: nat)
      requires slots.Length > 0 && Table(slots[..], hash)
      modifies slots
      ensures Table(slots[..], hash) && AllErased(old(slots[..]), slots[..], key)
      ensures count == |Only(old(Entries(slots[..])), key)|
    {
      count := 0;
      var n := slots.Length;
      var index := Home(hash(key), n);
      var start := index;
      ghost var all, d := slots[..], 0;
      var more := true;
      while more && slots[index].populated
        invariant d <= n && (more <==> d < n) && index == (if d < n then Wrap(start, d, n) else start)
        invariant ErasedUpTo(all, slots[..], key, start, d)
        invariant more ==> slots[index] == all[index]
        invariant count == Passed(all, start, d, key)
        decreases n - d
      {
        if Matches(slots[index], key) {
          ghost var before := slots[..];
          slots[index] := Tombstone(slots[index]);
          assert slots[..][index := all[index]] == before;
          count := count + 1;
        } else {
          assert slots[..][index := all[index]] == slots[..];
        }
        ErasedNext(all, slots[..], key, start, d);
        index := Wrap(index, 1, n);
        d := d + 1;
        more := index != start;
        NextUntouched(all, slots[..], key, start, d);
      }
      PassedAll(all, hash, key, d);
      ErasedAll(all, slots[..], key, start, d);
      ErasedTable(all, slots[..], hash, key, start, d);
    }

    /** Removes all entries with the key, and answers how many there were. */
    method Erase(key: nat) returns (count: nat)
      requires Valid()
      modifies this, slots
      ensures Valid() && slots == old(slots)
      ensures old(contents) == contents + Only(old(contents), key) && count == |Only(old(contents), key)|
      ensures HasUnused(slots[..]) == old(HasUnused(slots[..]))
    {
      if slots.Length == 0 {
        OnlyNoMatch(slots[..], key);
        return 0;
      }
      ghost var all := slots[..];
      count := MarkMatches(key);
      AllErasedEntries(all, slots[..], key);
      AllErasedUnused(all, slots[..], key);
      contents, size := Entries(slots[..]), size - count;
    }

    /** The first unused slot after `first`, or `start` if there is none before it. */
    method EndOfRange(start: nat, first: nat, ghost d: nat) returns (last: nat)
      requires start < slots.Length && d < slots.Length && first == Wrap(start, d, slots.Length)
      ensures LastAfter(slots[..], start, d, last)
    {
      var n := slots.Length;
      ghost var all, e := slots[..], d + 1;
      last := Wrap(first, 1, n);
      while slots[last].populated && last != start
        invariant d < e <= n && last == Wrap(start, e, n)
        invariant forall k: nat {:trigger Wrap(start, k, n)} :: d < k < e ==> slots[Wrap(start, k, n)].populated
        decreases n - e
      {
        last := Wrap(last, 1, n);
        e := e + 1;
      }
      assert e == n || LastAt(all, start, d, last, e);
      assert LastAt(all, start, d, last, e);
    }

    /** The ends of the range of entries with the key. */
    method EqualRange(key: nat) returns (first: nat, last: nat)
      requires Valid()
      ensures IsRange(slots[..], hash, key, first, last)
    {
      var n := slots.Length;
      if n == 0 {
        return n, n;
      }
      first := Home(hash(key), n);
      var start := first;
      ghost var all, d := slots[..], 0;
      var more := true;
      while more && !Matches(slots[first], key)
        invariant d <= n && (more <==> d < n) && first == (if d < n then Wrap(start, d, n) else start)
        invariant Unmatched(all, start, d, key) && PopulatedUpTo(all, start, d)
        decreases n - d
      {
        if !slots[first].populated {
          assert RangeAt(all, start, key, n, n, d);
          return n, n;
        }
        first := Wrap(first, 1, n);
        d := d + 1;
        more := first != start;
      }
      last := EndOfRange(start, first, if d == n then 0 else d);
      assert RangeAt(all, start, key, first, last, d);
    }

    /** Increments an iterator that has somewhere to go. */
    method Advance(index: nat, key: nat) returns (next: nat)
      requires index < slots.Length && exists j: nat :: Successor(slots[..], key, index, j)
      ensures Successor(slots[..], key, index, next)
    {
      ghost var j: nat :| Successor(slots[..], key, index, j);
      ghost var step: nat :| SuccessorAt(slots[..], key, index, j, step);
      var n := slots.Length;
      next := Wrap(index, 1, n);
      ghost var t := 1;
      while !Stops(slots[next], key)
        invariant 1 <= t <= step && next == Wrap(index, t, n)
        invariant forall k: nat {:trigger Wrap(index, k, n)} :: 1 <= k < t ==> !Stops(slots[Wrap(index, k, n)], key)
        decreases step - t
      {
        next := Wrap(next, 1, n);
        t := t + 1;
      }
      assert SuccessorAt(slots[..], key, index, next, t);
    }

    /** Follows an iterator that comes to `last`. */
    method Collect(key: nat, first: nat, last: nat, ghost trace: seq<nat>) returns (found: seq<Entry>)
      requires Visits(slots[..], key, first, last, trace)
      ensures Listed(slots[..], trace, found)
    {
      var index := first;
      ghost var all, rest := slots[..], trace;
      found := [];
      while index != last
        invariant Visits(all, key, index, last, rest)
        invariant |found| <= |trace| && rest == trace[|found|..] && Listed(all, trace[..|found|], found)
        decreases |rest|
      {
        VisitsStep(all, key, index, last, rest);
        assert slots[..] == all;
        ListedNext(all, trace, found, |found|, rest);
        found := found + [slots[index].entry];
        index := Advance(index, key);
        rest := rest[1..];
      }
      assert trace[..|found|] == trace;
    }

    /** The entries with the key, in the order in which iterating over their range visits them. Where all slots are used
        and there are such entries, the range is empty if one of them is at home, and otherwise iterating never ends. */
    method Matching(key: nat) returns (r: Iteration)
      requires Valid()
      ensures r.Endless? <==> NeverEnding(slots[..], hash, key)
      ensures r.Ends? ==> multiset(r.found) == if Missed(slots[..], hash, key) then multiset{} else Only(contents, key)
    {
      var first, last := EqualRange(key);
      RangeKinds(slots[..], hash, key, first, last);
      if first == last {
        r := Ends([]);
      } else if HasUnused(slots[..]) {
        ghost var trace :| Iterates(slots[..], key, first, last, trace);
        var found := Collect(key, first, last, trace);
        ListedEntries(slots[..], trace, found);
        r := Ends(found);
      } else {
        r := Endless;
      }
    }

    /** The first `limit` entries that an iteration visits that never ends. */
    method GoRound(key: nat, limit: nat) returns (found: seq<Entry>)
      requires Valid() && NeverEnding(slots[..], hash, key)
      ensures |found| == limit && forall k :: 0 <= k < limit ==> found[k] in Only(contents, key)
    {
      var index: nat, last: nat := EqualRange(key);
      RangeNeverEnds(slots[..], hash, key, index, last, []);
      found := [];
      for i := 0 to limit
        invariant index < slots.Length && Matches(slots[index], key)
        invariant |found| == i && forall k :: 0 <= k < i ==> found[k] in Only(contents, key)
      {
        MatchIsEntry(slots[..], index, key);
        found := found + [slots[index].entry];
        index := NextMatch(index, key);
      }
    }

    /** The match after one, where all slots are used. */
    method NextMatch(index: nat, key: nat) returns (next: nat)
      requires index < slots.Length && Matches(slots[index], key) && !HasUnused(slots[..])
      ensures next < slots.Length && Matches(slots[next], key)
    {
      ghost var expected := SuccessorExists(slots[..], key, index, 1);
      next := Advance(index, key);
      SuccessorUnique(slots[..], key, index, next, expected);
    }

    /** Becomes a copy of `other`: the same entries in the same slots, without the deletion marks. Afterwards a key is
        counted right exactly if no entry with it was reached across a deletion mark in the other. */
    method CopyFrom(other: FlatHashMultiSet)
      requires other.Valid() && other.slots.Length > 0 && other != this && hash == other.hash
      modifies this
      ensures fresh(slots) && slots[..] == Copied(other.slots[..])
      ensures contents == other.contents && size == other.size
      ensures forall key :: Probed(slots[..], hash, key) == |Only(contents, key)| <==>
        KeyChainedByLive(other.slots[..], hash, key)
      ensures Valid() <==> forall i {:trigger ChainedByLive(other.slots[..], hash, i)} ::
        0 <= i < other.slots.Length ==> ChainedByLive(other.slots[..], hash, i)
    {
      slots := CopySlots(other.slots);
      size, contents := other.size, other.contents;
      CopyAnswers(other.slots[..], slots[..], hash);
    }
  }

  /** A table with the live entries in the same slots. */
  method CopySlots(present: array<Slot>) returns (slots: array<Slot>)
    requires forall i :: 0 <= i < present.Length && present[i].deleted ==> present[i].populated
    ensures fresh(slots) && slots[..] == Copied(present[..])
  {
    var n := present.Length;
    slots := new Slot[n](_ => EMPTY);
    for i := 0 to n
      invariant forall k :: 0 <= k < n ==> slots[k] == if k < i && Live(present[k]) then present[k] else EMPTY
      modifies slots
    {
      if Live(present[i]) {
        slots[i] := Populated(slots[i], present[i].entry);
      }
    }
    assert slots[..] == Copied(present[..]);
  }

  lemma CopyAnswers(slots: seq<Slot>, copy: seq<Slot>, hash: nat -> nat)
    requires Table(slots, hash) && copy == Copied(slots)
    ensures Entries(copy) == Entries(slots)
    ensures forall key :: Probed(copy, hash, key) == |Only(Entries(slots), key)| <==> KeyChainedByLive(slots, hash, key)
    ensures Table(copy, hash) <==> forall i {:trigger ChainedByLive(slots, hash, i)} ::
      0 <= i < |slots| ==> ChainedByLive(slots, hash, i)
  {
    CopiedEntries(slots, copy);
    CopyProbeable(slots, hash);
    forall key
      ensures Probed(copy, hash, key) == |Only(Entries(slots), key)| <==> KeyChainedByLive(slots, hash, key)
    {
      CopyCount(slots, hash, key);
    }
  }

  lemma {:induction false} NoneLive(s: seq<Slot>)
    requires forall i :: 0 <= i < |s| ==> !s[i].populated
    ensures Entries(s) == multiset{}
  {
    if s != [] {
      NoneLive(s[..|s| - 1]);
    }
  }
}
