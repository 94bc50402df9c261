/** Tables with linear probing and deletion marks, as values: what a table holds, and what a probe can rely on. */
module ProbeTables {
  import opened Probing

  /** A key and the slot of the member that has it; entries are equal to a query by key alone. */
  datatype Entry = Entry(key: nat, slot: nat)

  /** A slot that was never used is not populated; a removed entry leaves its slot populated and deleted. */
  datatype Slot = Slot(populated: bool, deleted: bool, entry: Entry)

  const EMPTY: Slot := Slot(false, false, Entry(0, 0))

  predicate Live(s: Slot) {
    s.populated && !s.deleted
  }

  predicate Matches(s: Slot, key: nat) {
    Live(s) && s.entry.key == key
  }

  ghost function Part(s: Slot): multiset<Entry> {
    if Live(s) then multiset{s.entry} else multiset{}
  }

  /** The live entries. */
  ghost function Entries(s: seq<Slot>): multiset<Entry> {
    if s == [] then multiset{} else Entries(s[..|s| - 1]) + Part(s[|s| - 1])
  }

  lemma Regroup(a: multiset<Entry>, b: multiset<Entry>, c: multiset<Entry>)
    ensures (a + b) + c == a + (b + c) && (a + b) + c == (a + c) + b
  {
  }

  lemma {:induction false} EntriesConcat(a: seq<Slot>, b: seq<Slot>)
    ensures Entries(a + b) == Entries(a) + Entries(b)
  {
    if b == [] {
      assert a + b == a;
    } else {
      var front, last := b[..|b| - 1], b[|b| - 1];
      EntriesConcat(a, front);
      assert (a + b)[..|a + b| - 1] == a + front;
      assert (a + b)[|a + b| - 1] == last;
      Regroup(Entries(a), Entries(front), Part(last));
    }
  }

  lemma EntriesSplit(s: seq<Slot>, k: nat)
    requires k <= |s|
    ensures Entries(s) == Entries(s[..k]) + Entries(s[k..])
  {
    assert s == s[..k] + s[k..];
    EntriesConcat(s[..k], s[k..]);
  }

  lemma EntriesStep(s: seq<Slot>, k: nat)
    requires k < |s|
    ensures Entries(s[..k + 1]) == Entries(s[..k]) + Part(s[k])
  {
    assert s[..k + 1][..k] == s[..k];
  }

  /** Replacing a slot replaces its part of the entries. */
  lemma EntriesUpdate(s: seq<Slot>, i: nat, x: Slot)
    requires i < |s|
    ensures Entries(s[i := x]) + Part(s[i]) == Entries(s) + Part(x)
  {
    EntriesAt(s, i);
    EntriesAt(s[i := x], i);
    assert s[i := x][..i] == s[..i] && s[i := x][i + 1..] == s[i + 1..];
  }

  lemma EntriesAt(s: seq<Slot>, i: nat)
    requires i < |s|
    ensures Entries(s) == Entries(s[..i]) + Part(s[i]) + Entries(s[i + 1..])
  {
    EntriesSplit(s, i + 1);
    EntriesStep(s, i);
  }

  lemma {:induction false} EntriesSize(s: seq<Slot>)
    ensures |Entries(s)| <= |s|
    ensures |Entries(s)| == |s| ==> forall i :: 0 <= i < |s| ==> Live(s[i])
    ensures (forall i :: 0 <= i < |s| ==> Live(s[i])) ==> |Entries(s)| == |s|
  {
    if s != [] {
      EntriesSize(s[..|s| - 1]);
    }
  }

  lemma {:induction false} EntriesMember(s: seq<Slot>, e: Entry)
    ensures e in Entries(s) <==> exists i :: 0 <= i < |s| && Live(s[i]) && s[i].entry == e
  {
    if s != [] {
      var rest := s[..|s| - 1];
      EntriesMember(rest, e);
      assert forall i :: 0 <= i < |rest| ==> rest[i] == s[i];
    }
  }

  /** The entries of `m` with the given key. */
  ghost function Only(m: multiset<Entry>, key: nat): (r: multiset<Entry>)
    ensures forall e :: r[e] == if e.key == key then m[e] else 0
    decreases |m|
  {
    if m == multiset{} then multiset{}
    else
      var e :| e in m;
      Only(m - multiset{e}, key) + (if e.key == key then multiset{e} else multiset{})
  }

  lemma OnlySum(a: multiset<Entry>, b: multiset<Entry>, key: nat)
    ensures Only(a + b, key) == Only(a, key) + Only(b, key)
  {
  }

  lemma OnlyNone(m: multiset<Entry>, key: nat)
    requires forall e :: e in m ==> e.key != key
    ensures Only(m, key) == multiset{}
  {
    assert forall e :: Only(m, key)[e] == 0;
  }

  /** The entries of the first `k + 1` slots with the key: the one at `k` joins if it matches. */
  lemma OnlyStep(s: seq<Slot>, k: nat, key: nat)
    requires k < |s|
    ensures Only(Entries(s[..k + 1]), key) ==
      if Matches(s[k], key) then Only(Entries(s[..k]), key) + multiset{s[k].entry} else Only(Entries(s[..k]), key)
  {
    EntriesStep(s, k);
    OnlySum(Entries(s[..k]), Part(s[k]), key);
    if Matches(s[k], key) {
      assert Only(Part(s[k]), key) == multiset{s[k].entry};
    } else {
      OnlyNone(Part(s[k]), key);
    }
  }

  ghost function OnlySize(s: seq<Slot>, k: nat, key: nat): nat
    requires k <= |s|
  {
    |Only(Entries(s[..k]), key)|
  }

  lemma {:induction false} OnlySizeNext(s: seq<Slot>, k: nat, key: nat)
    requires 0 < k <= |s|
    ensures OnlySize(s, k, key) == OnlySize(s, k - 1, key) + if Matches(s[k - 1], key) then 1 else 0
  {
    assert s[..(k - 1) + 1] == s[..k];
    OnlyStep(s, k - 1, key);
  }

  lemma {:induction false} OnlySizeStart(s: seq<Slot>, key: nat)
    ensures OnlySize(s, 0, key) == 0
  {
    OnlyNoMatch(s[..0], key);
  }

  lemma {:induction false} OnlySizeCounts(s: seq<Slot>, k: nat, key: nat)
    requires k <= |s|
    ensures MatchCount(s, k, key) == OnlySize(s, k, key)
  {
    if k == 0 {
      OnlySizeStart(s, key);
    } else {
      OnlySizeCounts(s, k - 1, key);
      OnlySizeNext(s, k, key);
    }
  }

  lemma OnlyNoMatch(s: seq<Slot>, key: nat)
    requires forall i :: 0 <= i < |s| ==> !Matches(s[i], key)
    ensures Only(Entries(s), key) == multiset{}
  {
    forall e | e in Entries(s)
      ensures e.key != key
    {
      EntriesMember(s, e);
      var i :| 0 <= i < |s| && Live(s[i]) && s[i].entry == e;
      assert !Matches(s[i], key);
    }
    OnlyNone(Entries(s), key);
  }

  /** Every slot from the home of the live entry at `i` up to `i` is populated. */
  ghost predicate Chained(slots: seq<Slot>, hash: nat -> nat, i: nat)
    requires i < |slots|
  {
    Live(slots[i]) ==>
      var h := Home(hash(slots[i].entry.key), |slots|);
      forall d :: 0 <= d < Gap(h, i, |slots|) ==> slots[Wrap(h, d, |slots|)].populated
  }

  ghost predicate Table(slots: seq<Slot>, hash: nat -> nat) {
    && (forall i :: 0 <= i < |slots| && slots[i].deleted ==> slots[i].populated)
    && (forall i {:trigger Chained(slots, hash, i)} :: 0 <= i < |slots| ==> Chained(slots, hash, i))
  }

  /** The slots in the order a probe from `h` passes them. */
  ghost function Around(slots: seq<Slot>, h: nat): (r: seq<Slot>)
    requires h < |slots|
    ensures |r| == |slots|
    ensures forall d {:trigger r[d]} :: 0 <= d < |slots| ==> r[d] == slots[Wrap(h, d, |slots|)]
  {
    slots[h..] + slots[..h]
  }

  lemma AroundEntries(slots: seq<Slot>, h: nat)
    requires h < |slots|
    ensures Entries(Around(slots, h)) == Entries(slots)
  {
    var r := Around(slots, h);
    EntriesSplit(slots, h);
    EntriesSplit(r, |slots| - h);
    assert r[..|slots| - h] == slots[h..] && r[|slots| - h..] == slots[..h];
  }

  /** A probe for a key that has come to a slot never used has passed all entries with that key. */
  lemma NothingBeyond(slots: seq<Slot>, hash: nat -> nat, key: nat, d: nat)
    requires Table(slots, hash) && d < |slots|
    requires !Around(slots, Home(hash(key), |slots|))[d].populated
    ensures var ring := Around(slots, Home(hash(key), |slots|));
      && (forall k :: d <= k < |ring| ==> !Matches(ring[k], key))
      && Only(Entries(ring[..d]), key) == Only(Entries(slots), key)
  {
    var h := Home(hash(key), |slots|);
    var ring := Around(slots, h);
    forall k: nat | d <= k < |ring|
      ensures !Matches(ring[k], key)
    {
      var i := Wrap(h, k, |slots|);
      assert Chained(slots, hash, i);
      GapUnique(h, k, |slots|);
      assert ring[d] == slots[Wrap(h, d, |slots|)];
    }
    OnlyNoMatch(ring[d..], key);
    EntriesSplit(ring, d);
    OnlySum(Entries(ring[..d]), Entries(ring[d..]), key);
    AroundEntries(slots, h);
  }

  /** How many entries with the key a probe from `h` passes in its first `d` steps. */
  ghost function Passed(slots: seq<Slot>, h: nat, d: nat, key: nat): nat
    requires h < |slots| && d <= |slots|
    decreases d
  {
    if d == 0 then 0
    else Passed(slots, h, d - 1, key) + if Matches(slots[Wrap(h, d - 1, |slots|)], key) then 1 else 0
  }

  ghost predicate Unmatched(slots: seq<Slot>, h: nat, d: nat, key: nat)
    requires h < |slots| && d <= |slots|
  {
    forall k: nat {:trigger Wrap(h, k, |slots|)} :: k < d ==> !Matches(slots[Wrap(h, k, |slots|)], key)
  }

  ghost function MatchCount(s: seq<Slot>, k: nat, key: nat): nat
    requires k <= |s|
  {
    if k == 0 then 0 else MatchCount(s, k - 1, key) + if Matches(s[k - 1], key) then 1 else 0
  }

  lemma MatchCountEntries(s: seq<Slot>, k: nat, key: nat)
    requires k <= |s|
    ensures MatchCount(s, k, key) == |Only(Entries(s[..k]), key)|
  {
    OnlySizeCounts(s, k, key);
  }

  lemma {:induction false} PassedCount(slots: seq<Slot>, h: nat, d: nat, key: nat)
    requires h < |slots| && d <= |slots|
    ensures Passed(slots, h, d, key) == MatchCount(Around(slots, h), d, key)
    decreases d
  {
    if d > 0 {
      PassedCount(slots, h, d - 1, key);
    }
  }

  /** A probe that has gone all the way round, or has come to a slot never used, has passed all entries with the key. */
  lemma PassedEntries(slots: seq<Slot>, hash: nat -> nat, key: nat, d: nat)
    requires |slots| > 0 && Table(slots, hash) && d <= |slots|
    requires d < |slots| ==> !slots[Wrap(Home(hash(key), |slots|), d, |slots|)].populated
    ensures Only(Entries(Around(slots, Home(hash(key), |slots|))[..d]), key) == Only(Entries(slots), key)
  {
    var h := Home(hash(key), |slots|);
    if d < |slots| {
      NothingBeyond(slots, hash, key, d);
    } else {
      AroundEntries(slots, h);
      assert Around(slots, h)[..d] == Around(slots, h);
    }
  }

  lemma NoneAhead(slots: seq<Slot>, hash: nat -> nat, key: nat, d: nat)
    requires |slots| > 0 && Table(slots, hash) && d <= |slots|
    requires d < |slots| ==> !slots[Wrap(Home(hash(key), |slots|), d, |slots|)].populated
    ensures var h := Home(hash(key), |slots|);
      forall k: nat {:trigger Wrap(h, k, |slots|)} :: d <= k < |slots| ==> !Matches(slots[Wrap(h, k, |slots|)], key)
  {
    var h := Home(hash(key), |slots|);
    forall k: nat | d <= k < |slots|
      ensures !Matches(slots[Wrap(h, k, |slots|)], key)
    {
      NothingBeyond(slots, hash, key, d);
      assert !Matches(Around(slots, h)[k], key);
    }
  }

  /** What such a probe knows. */
  lemma PassedAll(slots: seq<Slot>, hash: nat -> nat, key: nat, d: nat)
    requires |slots| > 0 && Table(slots, hash) && d <= |slots|
    requires d < |slots| ==> !slots[Wrap(Home(hash(key), |slots|), d, |slots|)].populated
    ensures var h := Home(hash(key), |slots|);
      && Passed(slots, h, d, key) == |Only(Entries(slots), key)|
      && (Unmatched(slots, h, d, key) ==> Only(Entries(slots), key) == multiset{})
      && (forall k: nat {:trigger Wrap(h, k, |slots|)} :: d <= k < |slots| ==> !Matches(slots[Wrap(h, k, |slots|)], key))
  {
    var h := Home(hash(key), |slots|);
    PassedCount(slots, h, d, key);
    MatchCountEntries(Around(slots, h), d, key);
    PassedEntries(slots, hash, key, d);
    NoneAhead(slots, hash, key, d);
    UnmatchedNone(slots, h, d, key);
  }

  lemma UnmatchedNone(slots: seq<Slot>, h: nat, d: nat, key: nat)
    requires h < |slots| && d <= |slots|
    ensures Unmatched(slots, h, d, key) ==> Only(Entries(Around(slots, h)[..d]), key) == multiset{}
  {
    if Unmatched(slots, h, d, key) {
      var passed := Around(slots, h)[..d];
      forall i: nat | i < |passed|
        ensures !Matches(passed[i], key)
      {
        assert passed[i] == slots[Wrap(h, i, |slots|)];
      }
      OnlyNoMatch(passed, key);
    }
  }

  /** An entry put where a probe from its home first meets a slot without a live entry. */
  lemma Placed(slots: seq<Slot>, hash: nat -> nat, e: Entry, d: nat)
    requires Table(slots, hash) && d < |slots|
    requires var ring := Around(slots, Home(hash(e.key), |slots|));
      !Live(ring[d]) && forall k :: 0 <= k < d ==> Live(ring[k])
    ensures var r := slots[Wrap(Home(hash(e.key), |slots|), d, |slots|) := Slot(true, false, e)];
      Table(r, hash) && Entries(r) == Entries(slots) + multiset{e}
  {
    var h := Home(hash(e.key), |slots|);
    var i := Wrap(h, d, |slots|);
    var r := slots[i := Slot(true, false, e)];
    EntriesUpdate(slots, i, r[i]);
    GapUnique(h, d, |slots|);
    forall j: nat | j < d
      ensures slots[Wrap(h, j, |slots|)].populated
    {
      assert Live(Around(slots, h)[j]);
    }
    assert Chained(r, hash, i);
    forall k | 0 <= k < |r|
      ensures Chained(r, hash, k)
    {
      assert Chained(slots, hash, k);
    }
  }

  /** Some slot has no live entry unless there are as many entries as slots. */
  lemma SomeRoom(slots: seq<Slot>, h: nat)
    requires h < |slots| && |Entries(slots)| < |slots|
    ensures exists d :: 0 <= d < |slots| && !Live(Around(slots, h)[d])
  {
    AroundEntries(slots, h);
    EntriesSize(Around(slots, h));
  }

  /** Removing the live entry at `i` breaks no chain. */
  lemma Tombstoned(slots: seq<Slot>, hash: nat -> nat, i: nat)
    requires Table(slots, hash) && i < |slots| && Live(slots[i])
    ensures var r := slots[i := Tombstone(slots[i])];
      Table(r, hash) && Entries(slots) == Entries(r) + multiset{slots[i].entry}
  {
    var r := slots[i := Tombstone(slots[i])];
    EntriesUpdate(slots, i, r[i]);
    forall k | 0 <= k < |r|
      ensures Chained(r, hash, k)
    {
      assert Chained(slots, hash, k);
    }
  }

  function Tombstone(s: Slot): Slot {
    s.(deleted := true)
  }

  /** The slots with those marked deleted that match and that a probe from `h` passes in its first `d` steps. */
  ghost predicate ErasedUpTo(before: seq<Slot>, after: seq<Slot>, key: nat, h: nat, d: nat)
    requires h < |before|
  {
    && |after| == |before|
    && forall i: nat {:trigger after[i]} :: i < |before| ==>
         after[i] == if Gap(h, i, |before|) < d && Matches(before[i], key) then Tombstone(before[i]) else before[i]
  }

  lemma ErasedNext(before: seq<Slot>, after: seq<Slot>, key: nat, h: nat, d: nat)
    requires h < |before| == |after| && d < |before|
    requires var i := Wrap(h, d, |before|);
      after[i] == if Matches(before[i], key) then Tombstone(before[i]) else before[i]
    requires ErasedUpTo(before, after[Wrap(h, d, |before|) := before[Wrap(h, d, |before|)]], key, h, d)
    ensures ErasedUpTo(before, after, key, h, d + 1)
  {
    var i := Wrap(h, d, |before|);
    var last := after[i := before[i]];
    GapUnique(h, d, |before|);
    forall k: nat | k < |before|
      ensures after[k] == if Gap(h, k, |before|) < d + 1 && Matches(before[k], key) then Tombstone(before[k]) else before[k]
    {
      assert k != i ==> last[k] == after[k] && Gap(h, k, |before|) != d;
    }
  }

  lemma NextUntouched(before: seq<Slot>, after: seq<Slot>, key: nat, h: nat, d: nat)
    requires h < |before| && ErasedUpTo(before, after, key, h, d)
    ensures d < |before| ==> after[Wrap(h, d, |before|)] == before[Wrap(h, d, |before|)]
  {
    if d < |before| {
      GapUnique(h, d, |before|);
    }
  }

  /** Once a probe has passed all slots that match, all are erased. */
  lemma ErasedAll(before: seq<Slot>, after: seq<Slot>, key: nat, h: nat, d: nat)
    requires h < |before| && d <= |before| && ErasedUpTo(before, after, key, h, d)
    requires forall k: nat {:trigger Wrap(h, k, |before|)} :: d <= k < |before| ==> !Matches(before[Wrap(h, k, |before|)], key)
    ensures AllErased(before, after, key)
  {
    forall i: nat | i < |before|
      ensures after[i] == if Matches(before[i], key) then Tombstone(before[i]) else before[i]
    {
      assert before[Wrap(h, Gap(h, i, |before|), |before|)] == before[i];
    }
  }

  /** Marking slots deleted keeps every other entry in its chain. */
  lemma ErasedTable(before: seq<Slot>, after: seq<Slot>, hash: nat -> nat, key: nat, h: nat, d: nat)
    requires h < |before| && Table(before, hash) && ErasedUpTo(before, after, key, h, d)
    ensures Table(after, hash)
  {
    forall i | 0 <= i < |after|
      ensures Chained(after, hash, i)
    {
      assert Chained(before, hash, i);
    }
  }

  ghost predicate AllErased(before: seq<Slot>, after: seq<Slot>, key: nat) {
    && |after| == |before|
    && forall i :: 0 <= i < |before| ==> after[i] == if Matches(before[i], key) then Tombstone(before[i]) else before[i]
  }

  lemma {:induction false} AllErasedEntries(before: seq<Slot>, after: seq<Slot>, key: nat)
    requires AllErased(before, after, key)
    ensures Entries(before) == Entries(after) + Only(Entries(before), key)
  {
    if before == [] {
      OnlyNone(multiset{}, key);
    } else {
      var n := |before| - 1;
      AllErasedEntries(before[..n], after[..n], key);
      OnlyStep(before, n, key);
      assert before[..n + 1] == before;
    }
  }

  /** The copy of a table: live entries keep their slot, deletion marks are not copied. */
  ghost function Copied(slots: seq<Slot>): (r: seq<Slot>)
    ensures |r| == |slots| && forall i :: 0 <= i < |slots| ==> r[i] == if Live(slots[i]) then slots[i] else EMPTY
  {
    seq(|slots|, i requires 0 <= i < |slots| => if Live(slots[i]) then slots[i] else EMPTY)
  }

  lemma {:induction false} CopiedEntries(slots: seq<Slot>, copy: seq<Slot>)
    requires copy == Copied(slots)
    ensures Entries(copy) == Entries(slots)
  {
    if slots != [] {
      var n := |slots| - 1;
      CopiedEntries(slots[..n], copy[..n]);
    }
  }

  /** No tombstone stands between the home of the live entry at `i` and `i`. */
  ghost predicate ChainedByLive(slots: seq<Slot>, hash: nat -> nat, i: nat)
    requires i < |slots|
  {
    Live(slots[i]) ==>
      var h := Home(hash(slots[i].entry.key), |slots|);
      forall d :: 0 <= d < Gap(h, i, |slots|) ==> Live(slots[Wrap(h, d, |slots|)])
  }

  /** A copy can be probed exactly if no live entry had been reached across a tombstone. */
  lemma CopyProbeable(slots: seq<Slot>, hash: nat -> nat)
    requires Table(slots, hash)
    ensures Table(Copied(slots), hash) <==> forall i {:trigger ChainedByLive(slots, hash, i)} ::
      0 <= i < |slots| ==> ChainedByLive(slots, hash, i)
  {
    var copy := Copied(slots);
    forall i | 0 <= i < |slots|
      ensures Chained(copy, hash, i) <==> ChainedByLive(slots, hash, i)
    {
      if Live(slots[i]) {
        var h := Home(hash(slots[i].entry.key), |slots|);
        forall d | 0 <= d < Gap(h, i, |slots|)
          ensures copy[Wrap(h, d, |slots|)].populated <==> Live(slots[Wrap(h, d, |slots|)])
        {
        }
      }
    }
  }
}
