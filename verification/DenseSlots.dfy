/** The bookkeeping of a dense index, as values: node keys, free slots and key lookup, and how they stay consistent. */
module DenseSlots {
  import opened Graph
  import opened ProbeTables
  import opened Tapes

  /** The key that marks the node of a removed member; it is never the key of a member. */
  const FREE_KEY: nat := 0xFFFF_FFFF_FFFF_FFFF

  /** A vector as it is stored: the bytes of its scalars. */
  type Vector = Bytes

  /** `ring` holds every slot whose key marks it free, once. */
  ghost predicate FreeSlots(keys: seq<nat>, ring: seq<nat>) {
    && NoDuplicates(ring)
    && forall slot: nat :: slot in ring <==> slot < |keys| && keys[slot] == FREE_KEY
  }

  ghost predicate HasKey(keys: seq<nat>, e: Entry) {
    e.slot < |keys| && keys[e.slot] == e.key && e.key != FREE_KEY
  }

  /** `entries` holds every slot with a member, under its key, once. */
  ghost predicate LookedUp(keys: seq<nat>, entries: multiset<Entry>) {
    forall e {:trigger entries[e]} :: entries[e] == if HasKey(keys, e) then 1 else 0
  }

  ghost predicate UniqueKeys(keys: seq<nat>) {
    forall i, j :: 0 <= i < j < |keys| && keys[i] != FREE_KEY ==> keys[i] != keys[j]
  }

  /** Every slot is either live, with exactly one lookup entry, or free, and exactly once in the ring. */
  ghost predicate Consistent(keys: seq<nat>, ring: seq<nat>, entries: multiset<Entry>, multi: bool) {
    FreeSlots(keys, ring) && LookedUp(keys, entries) && (multi || UniqueKeys(keys))
  }

  /** The number of members is the number of nodes without the free ones. */
  lemma SizeAgrees(keys: seq<nat>, ring: seq<nat>, entries: multiset<Entry>)
    requires FreeSlots(keys, ring) && LookedUp(keys, entries)
    ensures |entries| == |keys| - |ring|
  {
    ValuesSize(ring);
    FreeCount(keys, Values(ring), entries);
  }

  lemma {:induction false} FreeCount(keys: seq<nat>, free: set<nat>, entries: multiset<Entry>)
    requires forall slot: nat :: slot in free <==> slot < |keys| && keys[slot] == FREE_KEY
    requires LookedUp(keys, entries)
    ensures |entries| + |free| == |keys|
  {
    if keys == [] {
      assert free == {};
      forall e
        ensures e !in entries
      {
        assert entries[e] == 0;
      }
      assert entries == multiset{};
    } else {
      var n := |keys| - 1;
      var rest := LookedUpFront(keys, entries);
      FreeCount(keys[..n], if keys[n] == FREE_KEY then free - {n} else free, rest);
    }
  }

  /** A key that no member has. */
  ghost predicate Unused(keys: seq<nat>, key: nat) {
    forall slot: nat :: slot < |keys| ==> keys[slot] != key
  }

  /** The same for all keys but the one that marks free slots, of which there may be any entries. */
  ghost predicate KeysLookedUp(keys: seq<nat>, entries: multiset<Entry>) {
    forall e: Entry {:trigger entries[e]} :: e.key != FREE_KEY ==> entries[e] == if HasKey(keys, e) then 1 else 0
  }

  /** Looking a key up says whether a member has it. */
  lemma NoEntryUnused(keys: seq<nat>, entries: multiset<Entry>, key: nat)
    requires KeysLookedUp(keys, entries) && key != FREE_KEY
    ensures Only(entries, key) == multiset{} <==> Unused(keys, key)
  {
    if Only(entries, key) == multiset{} {
      forall slot: nat | slot < |keys|
        ensures keys[slot] != key
      {
        assert Only(entries, key)[Entry(key, slot)] == 0;
      }
    } else {
      var e :| e in Only(entries, key);
      assert entries[e] > 0;
    }
  }

  /** The keys with one for a slot that is there or the next one. */
  function WithKey(keys: seq<nat>, slot: nat, key: nat): seq<nat>
    requires slot <= |keys|
  {
    if slot < |keys| then keys[slot := key] else keys + [key]
  }

  /** A key appended for a new node: all stays consistent exactly if it is not the one that marks free slots. */
  lemma Appended(keys: seq<nat>, ring: seq<nat>, entries: multiset<Entry>, multi: bool, key: nat)
    requires Consistent(keys, ring, entries, multi) && (multi || Unused(keys, key) || key == FREE_KEY)
    ensures Consistent(keys + [key], ring, entries + multiset{Entry(key, |keys|)}, multi) <==> key != FREE_KEY
  {
    var after, added := keys + [key], entries + multiset{Entry(key, |keys|)};
    if key != FREE_KEY {
      forall e
        ensures added[e] == if HasKey(after, e) then 1 else 0
      {
        assert entries[e] == if HasKey(keys, e) then 1 else 0;
      }
    } else {
      assert |keys| !in ring;
      assert after[|keys|] == FREE_KEY;
    }
  }

  /** A removed member's slot that gets a key again. */
  lemma Reused(keys: seq<nat>, ring: seq<nat>, entries: multiset<Entry>, multi: bool, key: nat)
    requires Consistent(keys, ring, entries, multi) && (multi || Unused(keys, key)) && key != FREE_KEY && ring != []
    ensures ring[0] < |keys|
    ensures Consistent(keys[ring[0] := key], ring[1..], entries + multiset{Entry(key, ring[0])}, multi)
  {
    var slot := ring[0];
    assert slot in ring;
    var after, added := keys[slot := key], entries + multiset{Entry(key, slot)};
    forall e
      ensures added[e] == if HasKey(after, e) then 1 else 0
    {
      assert entries[e] == if HasKey(keys, e) then 1 else 0;
    }
    forall s: nat
      ensures s in ring[1..] <==> s < |after| && after[s] == FREE_KEY
    {
      assert slot !in ring[1..];
      assert s in ring <==> s == slot || s in ring[1..];
    }
  }

  /** The slot that the next member gets: the next free one if there is any. */
  function NextSlot(keys: seq<nat>, ring: seq<nat>): nat {
    if ring != [] then ring[0] else |keys|
  }

  /** A slot taken for a new member: all stays consistent exactly if its key is not the
      one that marks free slots. */
  lemma Taken(keys: seq<nat>, ring: seq<nat>, entries: multiset<Entry>, multi: bool, key: nat)
    requires Consistent(keys, ring, entries, multi) && (multi || Unused(keys, key) || key == FREE_KEY)
    ensures NextSlot(keys, ring) <= |keys| && (ring != [] ==> NextSlot(keys, ring) < |keys|)
    ensures var slot, rest := NextSlot(keys, ring), if ring != [] then ring[1..] else ring;
      Consistent(WithKey(keys, slot, key), rest, entries + multiset{Entry(key, slot)}, multi) <==> key != FREE_KEY
  {
    if ring == [] {
      Appended(keys, ring, entries, multi, key);
    } else {
      assert ring[0] in ring;
      if key != FREE_KEY {
        Reused(keys, ring, entries, multi, key);
      } else {
        assert ring[0] !in ring[1..];
        assert WithKey(keys, ring[0], key)[ring[0]] == FREE_KEY;
      }
    }
  }

  /** The keys with those of the given key marked free. */
  function WithoutKey(keys: seq<nat>, key: nat): (r: seq<nat>)
    ensures |r| == |keys| && forall s :: 0 <= s < |keys| ==> r[s] == if keys[s] == key then FREE_KEY else keys[s]
  {
    seq(|keys|, s requires 0 <= s < |keys| => if keys[s] == key then FREE_KEY else keys[s])
  }

  function SlotsOf(found: seq<Entry>): (r: seq<nat>)
    ensures |r| == |found| && forall k :: 0 <= k < |r| ==> r[k] == found[k].slot
  {
    seq(|found|, k requires 0 <= k < |found| => found[k].slot)
  }

  lemma RepeatedTwice(s: seq<Entry>, i: nat, j: nat)
    requires i < j < |s|
    ensures s[i] == s[j] ==> multiset(s)[s[i]] >= 2
  {
    assert s == s[..i] + [s[i]] + s[i + 1..j] + [s[j]] + s[j + 1..];
  }

  /** `found` lists the members with the key, each once. */
  lemma FoundSlots(keys: seq<nat>, entries: multiset<Entry>, key: nat, found: seq<Entry>)
    requires LookedUp(keys, entries) && multiset(found) == Only(entries, key)
    ensures NoDuplicates(SlotsOf(found))
    ensures forall k :: 0 <= k < |found| ==> HasKey(keys, found[k]) && found[k].key == key
    ensures key != FREE_KEY ==> forall s: nat :: s in SlotsOf(found) <==> s < |keys| && keys[s] == key
    ensures key == FREE_KEY ==> found == []
  {
    forall k | 0 <= k < |found|
      ensures HasKey(keys, found[k]) && found[k].key == key
    {
      assert found[k] in multiset(found);
      assert entries[found[k]] > 0;
    }
    forall i, j | 0 <= i < j < |found|
      ensures found[i].slot != found[j].slot
    {
      assert entries[found[i]] == 1 && Only(entries, key)[found[i]] <= 1;
      RepeatedTwice(found, i, j);
    }
    if key != FREE_KEY {
      forall s: nat | s < |keys| && keys[s] == key
        ensures s in SlotsOf(found)
      {
        assert entries[Entry(key, s)] == 1;
        assert Entry(key, s) in multiset(found);
        var k :| 0 <= k < |found| && found[k] == Entry(key, s);
        assert SlotsOf(found)[k] == s;
      }
    }
  }

  lemma RemovedEntries(keys: seq<nat>, entries: multiset<Entry>, key: nat, rest: multiset<Entry>)
    requires LookedUp(keys, entries) && entries == rest + Only(entries, key) && key != FREE_KEY
    ensures LookedUp(WithoutKey(keys, key), rest)
  {
    var after := WithoutKey(keys, key);
    forall e
      ensures rest[e] == if HasKey(after, e) then 1 else 0
    {
      assert entries[e] == rest[e] + Only(entries, key)[e];
      assert entries[e] == if HasKey(keys, e) then 1 else 0;
    }
  }

  lemma RemovedSlots(keys: seq<nat>, ring: seq<nat>, key: nat, slots: seq<nat>)
    requires FreeSlots(keys, ring) && NoDuplicates(slots) && key != FREE_KEY
    requires forall s: nat :: s in slots <==> s < |keys| && keys[s] == key
    ensures FreeSlots(WithoutKey(keys, key), ring + slots)
  {
    var r := ring + slots;
    forall i, j | 0 <= i < j < |r|
      ensures r[i] != r[j]
    {
      assert i < |ring| ==> ring[i] in ring;
      assert j >= |ring| ==> slots[j - |ring|] in slots;
    }
  }

  /** Removing a key: its slots join the ring, its entries go, everything else stays. */
  lemma Removed(keys: seq<nat>, ring: seq<nat>, entries: multiset<Entry>, multi: bool, key: nat, found: seq<Entry>,
                rest: multiset<Entry>)
    requires Consistent(keys, ring, entries, multi) && multiset(found) == Only(entries, key)
    requires entries == rest + Only(entries, key)
    ensures Consistent(WithoutKey(keys, key), ring + SlotsOf(found), rest, multi)
  {
    FoundSlots(keys, entries, key, found);
    if key == FREE_KEY {
      assert WithoutKey(keys, key) == keys && ring + SlotsOf(found) == ring;
      assert Only(entries, key) == multiset([]);
      assert rest == entries;
    } else {
      RemovedEntries(keys, entries, key, rest);
      RemovedSlots(keys, ring, key, SlotsOf(found));
    }
  }

  /** The keys with the given slots marked free. */
  function Freed(keys: seq<nat>, slots: seq<nat>): (r: seq<nat>)
    ensures |r| == |keys|
  {
    if slots == [] then keys
    else
      var r := Freed(keys, slots[..|slots| - 1]);
      var slot := slots[|slots| - 1];
      if slot < |keys| then r[slot := FREE_KEY] else r
  }

  lemma FreedNext(keys: seq<nat>, slots: seq<nat>, k: nat)
    requires k < |slots| && slots[k] < |keys|
    ensures Freed(keys, slots[..k + 1]) == Freed(keys, slots[..k])[slots[k] := FREE_KEY]
  {
    assert slots[..k + 1][..k] == slots[..k];
  }

  lemma {:induction false} FreedAt(keys: seq<nat>, slots: seq<nat>, s: nat)
    requires s < |keys|
    ensures Freed(keys, slots)[s] == if s in slots then FREE_KEY else keys[s]
  {
    if slots != [] {
      FreedAt(keys, slots[..|slots| - 1], s);
      assert slots == slots[..|slots| - 1] + [slots[|slots| - 1]];
    }
  }

  lemma FoundInRange(keys: seq<nat>, entries: multiset<Entry>, key: nat, found: seq<Entry>)
    requires LookedUp(keys, entries) && multiset(found) == Only(entries, key)
    ensures forall k :: 0 <= k < |found| ==> found[k].slot < |keys|
  {
    FoundSlots(keys, entries, key, found);
  }

  /** Freeing the slots found is removing the key. */
  lemma FreedFound(keys: seq<nat>, entries: multiset<Entry>, key: nat, found: seq<Entry>)
    requires LookedUp(keys, entries) && multiset(found) == Only(entries, key)
    ensures Freed(keys, SlotsOf(found)) == WithoutKey(keys, key)
  {
    FoundSlots(keys, entries, key, found);
    forall s: nat | s < |keys|
      ensures Freed(keys, SlotsOf(found))[s] == WithoutKey(keys, key)[s]
    {
      FreedAt(keys, SlotsOf(found), s);
    }
  }

  /** How many members have the key. */
  ghost function KeyCount(keys: seq<nat>, key: nat): nat {
    if keys == [] || key == FREE_KEY then 0 else KeyCount(keys[..|keys| - 1], key) + if keys[|keys| - 1] == key then 1 else 0
  }

  lemma {:induction false} OnlyCount(keys: seq<nat>, entries: multiset<Entry>, key: nat)
    requires LookedUp(keys, entries) && key != FREE_KEY
    ensures |Only(entries, key)| == KeyCount(keys, key)
  {
    if keys == [] {
      assert forall e :: e in entries ==> entries[e] > 0;
      OnlyNone(entries, key);
    } else {
      var n := |keys| - 1;
      var rest := LookedUpFront(keys, entries);
      OnlyCount(keys[..n], rest, key);
      OnlyAdded(rest, Entry(keys[n], n), key);
    }
  }

  lemma LookedUpFront(keys: seq<nat>, entries: multiset<Entry>) returns (rest: multiset<Entry>)
    requires LookedUp(keys, entries) && keys != []
    ensures var n := |keys| - 1;
      && LookedUp(keys[..n], rest)
      && entries == if keys[n] == FREE_KEY then rest else rest + multiset{Entry(keys[n], n)}
  {
    var n := |keys| - 1;
    var e := Entry(keys[n], n);
    rest := if keys[n] == FREE_KEY then entries else entries - multiset{e};
    assert keys[n] != FREE_KEY ==> entries[e] == 1;
    forall x
      ensures rest[x] == if HasKey(keys[..n], x) then 1 else 0
    {
      assert entries[x] == if HasKey(keys, x) then 1 else 0;
    }
  }

  lemma OnlyAdded(rest: multiset<Entry>, e: Entry, key: nat)
    ensures |Only(rest + multiset{e}, key)| == |Only(rest, key)| + if e.key == key then 1 else 0
  {
    OnlySum(rest, multiset{e}, key);
    if e.key == key {
      assert Only(multiset{e}, key) == multiset{e};
    } else {
      OnlyNone(multiset{e}, key);
    }
  }

  /** How many slots removing the listed keys can free at most. */
  ghost function Owed(keys: seq<nat>, list: seq<nat>): nat {
    if list == [] then 0 else Owed(keys, list[..|list| - 1]) + KeyCount(keys, list[|list| - 1])
  }

  lemma {:induction false} KeyCountWithout(keys: seq<nat>, key: nat, other: nat)
    ensures KeyCount(WithoutKey(keys, key), other) <= KeyCount(keys, other)
  {
    if keys != [] {
      var n := |keys| - 1;
      KeyCountWithout(keys[..n], key, other);
      assert WithoutKey(keys, key)[..n] == WithoutKey(keys[..n], key);
    }
  }

  /** Removing a key leaves no more owed for the others. */
  lemma {:induction false} OwedWithout(keys: seq<nat>, key: nat, list: seq<nat>)
    ensures Owed(WithoutKey(keys, key), list) <= Owed(keys, list)
  {
    if list != [] {
      OwedWithout(keys, key, list[..|list| - 1]);
      KeyCountWithout(keys, key, list[|list| - 1]);
    }
  }

  lemma {:induction false} OwedHead(keys: seq<nat>, list: seq<nat>)
    requires list != []
    ensures Owed(keys, list) == KeyCount(keys, list[0]) + Owed(keys, list[1..])
  {
    var n := |list| - 1;
    if n > 0 {
      OwedHead(keys, list[..n]);
      assert list[..n][1..] == list[1..][..n - 1];
    }
  }

  /** The keys with all of those listed marked free. */
  function WithoutKeys(keys: seq<nat>, list: seq<nat>): (r: seq<nat>)
    ensures |r| == |keys|
  {
    if list == [] then keys else WithoutKey(WithoutKeys(keys, list[..|list| - 1]), list[|list| - 1])
  }

  /** A member is removed exactly if its key is listed. */
  lemma {:induction false} WithoutKeysAt(keys: seq<nat>, list: seq<nat>, s: nat)
    requires s < |keys|
    ensures WithoutKeys(keys, list)[s] == if keys[s] in list then FREE_KEY else keys[s]
  {
    if list != [] {
      WithoutKeysAt(keys, list[..|list| - 1], s);
      assert list == list[..|list| - 1] + [list[|list| - 1]];
    }
  }

  /** The keys with `from` replaced where members have it. */
  function Renamed(keys: seq<nat>, from: nat, to: nat): (r: seq<nat>)
    ensures |r| == |keys| && forall s :: 0 <= s < |keys| ==> r[s] == if keys[s] == from && from != FREE_KEY then to else keys[s]
  {
    seq(|keys|, s requires 0 <= s < |keys| => if keys[s] == from && from != FREE_KEY then to else keys[s])
  }

  /** One round of renaming: an entry popped under its old key and put back under the new one. */
  lemma RenamedOne(keys: seq<nat>, entries: multiset<Entry>, mid: multiset<Entry>, from: nat, to: nat, slot: nat)
    requires KeysLookedUp(keys, entries) && entries == mid + multiset{Entry(from, slot)} && from != to && from != FREE_KEY
    ensures slot < |keys| && keys[slot] == from
    ensures KeysLookedUp(keys[slot := to], mid + multiset{Entry(to, slot)})
    ensures to != FREE_KEY && LookedUp(keys, entries) ==> LookedUp(keys[slot := to], mid + multiset{Entry(to, slot)})
  {
    assert entries[Entry(from, slot)] > 0;
    var after := mid + multiset{Entry(to, slot)};
    forall e
      ensures after[e] == entries[e] + (if e == Entry(to, slot) then 1 else 0) - (if e == Entry(from, slot) then 1 else 0)
    {
    }
    RenamedEntries(keys, entries, after, from, to, slot);
  }

  lemma RenamedEntries(keys: seq<nat>, entries: multiset<Entry>, after: multiset<Entry>, from: nat, to: nat, slot: nat)
    requires KeysLookedUp(keys, entries) && from != to && from != FREE_KEY && slot < |keys| && keys[slot] == from
    requires forall e {:trigger after[e]} ::
      after[e] == entries[e] + (if e == Entry(to, slot) then 1 else 0) - (if e == Entry(from, slot) then 1 else 0)
    ensures KeysLookedUp(keys[slot := to], after)
    ensures to != FREE_KEY && LookedUp(keys, entries) ==> LookedUp(keys[slot := to], after)
  {
  }

  /** Free slots stay the free slots exactly if it is not a member whose key becomes the one that marks them. */
  lemma FreeAfterRenaming(keys: seq<nat>, ring: seq<nat>, from: nat, to: nat)
    requires FreeSlots(keys, ring)
    ensures FreeSlots(Renamed(keys, from, to), ring) <==> to != FREE_KEY || from == FREE_KEY || Unused(keys, from)
  {
    var after := Renamed(keys, from, to);
    if to == FREE_KEY && from != FREE_KEY && !Unused(keys, from) {
      var slot: nat :| slot < |keys| && keys[slot] == from;
      assert slot !in ring && after[slot] == FREE_KEY;
    } else {
      forall slot: nat
        ensures slot < |keys| && keys[slot] == FREE_KEY <==> slot < |after| && after[slot] == FREE_KEY
      {
      }
    }
  }

  /** After renaming everything agrees exactly if it is not a member whose key becomes the one that marks free slots. */
  lemma RenamedConsistent(keys: seq<nat>, ring: seq<nat>, entries: multiset<Entry>, multi: bool, from: nat, to: nat)
    requires FreeSlots(keys, ring) && (multi || UniqueKeys(keys)) && (multi || to == FREE_KEY || Unused(keys, to))
    requires to != FREE_KEY || Renamed(keys, from, to) == keys ==> LookedUp(Renamed(keys, from, to), entries)
    ensures Consistent(Renamed(keys, from, to), ring, entries, multi) <==>
            to != FREE_KEY || from == FREE_KEY || Unused(keys, from)
  {
    FreeAfterRenaming(keys, ring, from, to);
    if to != FREE_KEY {
      if !multi {
        UniqueRenamed(keys, from, to);
      }
    } else if from == FREE_KEY || Unused(keys, from) {
      assert Renamed(keys, from, to) == keys;
    }
  }

  /** Renaming to the key that marks free slots is like forgetting. */
  lemma RenamedToFree(keys: seq<nat>, from: nat)
    requires from != FREE_KEY
    ensures Renamed(keys, from, FREE_KEY) == WithoutKey(keys, from)
  {
  }

  /** Every round leaves one member less with the old key. */
  lemma {:induction false} KeyCountLess(keys: seq<nat>, slot: nat, from: nat, to: nat)
    requires slot < |keys| && keys[slot] == from && from != FREE_KEY && from != to
    ensures KeyCount(keys, from) == KeyCount(keys[slot := to], from) + 1
  {
    var n := |keys| - 1;
    if slot < n {
      KeyCountLess(keys[..n], slot, from, to);
      assert keys[slot := to][..n] == keys[..n][slot := to];
    } else {
      assert keys[slot := to][..n] == keys[..n];
    }
  }

  lemma {:induction false} KeyCountNone(keys: seq<nat>, key: nat)
    requires key == FREE_KEY || Unused(keys, key)
    ensures KeyCount(keys, key) == 0
  {
    if keys != [] && key != FREE_KEY {
      KeyCountNone(keys[..|keys| - 1], key);
    }
  }

  /** `after` is `keys` with `from` replaced in some places. */
  ghost predicate PartlyRenamed(keys: seq<nat>, after: seq<nat>, from: nat, to: nat) {
    && |after| == |keys|
    && forall s :: 0 <= s < |keys| ==> after[s] == keys[s] || (keys[s] == from && from != FREE_KEY && after[s] == to)
  }

  lemma AllRenamed(keys: seq<nat>, after: seq<nat>, from: nat, to: nat)
    requires PartlyRenamed(keys, after, from, to) && (from == FREE_KEY || Unused(after, from))
    ensures after == Renamed(keys, from, to)
  {
  }

  lemma UniqueRenamed(keys: seq<nat>, from: nat, to: nat)
    requires UniqueKeys(keys) && Unused(keys, to)
    ensures UniqueKeys(Renamed(keys, from, to))
  {
  }

  /** What the rounds of renaming work on. */
  datatype Labelling = Labelling(keys: seq<nat>, entries: multiset<Entry>)

  /** One round takes out the entry of `slot` under one key and puts it back under the other. */
  ghost predicate RoundAt(a: Labelling, b: Labelling, from: nat, to: nat, slot: nat) {
    && Entry(from, slot) in a.entries && slot < |a.keys|
    && b == Labelling(a.keys[slot := to], a.entries - multiset{Entry(from, slot)} + multiset{Entry(to, slot)})
  }

  ghost predicate Round(a: Labelling, b: Labelling, from: nat, to: nat) {
    exists slot: nat :: RoundAt(a, b, from, to, slot)
  }

  /** At least `n` rounds follow, whichever entry each of them takes out. */
  ghost predicate RoundsFollow(a: Labelling, from: nat, to: nat, n: nat)
    decreases n
  {
    n > 0 ==> exists b :: Round(a, b, from, to) && RoundsFollow(b, from, to, n - 1)
  }

  /** However many rounds there have been, another one follows. */
  ghost predicate Endless(a: Labelling, from: nat, to: nat) {
    forall n: nat :: RoundsFollow(a, from, to, n)
  }

  /** Between different keys there are no more rounds than members with the old key. */
  lemma {:induction false} RoundsCounted(a: Labelling, from: nat, to: nat, n: nat)
    requires KeysLookedUp(a.keys, a.entries) && from != to && from != FREE_KEY && RoundsFollow(a, from, to, n)
    ensures n <= KeyCount(a.keys, from)
    decreases n
  {
    if n > 0 {
      var b :| Round(a, b, from, to) && RoundsFollow(b, from, to, n - 1);
      var slot: nat :| RoundAt(a, b, from, to, slot);
      assert a.entries[Entry(from, slot)] > 0;
      var mid := a.entries - multiset{Entry(from, slot)};
      assert a.entries == mid + multiset{Entry(from, slot)};
      RenamedOne(a.keys, a.entries, mid, from, to, slot);
      KeyCountLess(a.keys, slot, from, to);
      RoundsCounted(b, from, to, n - 1);
    }
  }

  /** Renaming a key to itself puts back what it took out, so that another round follows. */
  lemma {:induction false} RoundsToItself(a: Labelling, key: nat, slot: nat, n: nat)
    requires LookedUp(a.keys, a.entries) && HasKey(a.keys, Entry(key, slot))
    ensures RoundsFollow(a, key, key, n)
    decreases n
  {
    if n > 0 {
      assert a.entries[Entry(key, slot)] == 1;
      assert a.keys[slot := key] == a.keys;
      assert a.entries - multiset{Entry(key, slot)} + multiset{Entry(key, slot)} == a.entries;
      assert RoundAt(a, a, key, key, slot);
      assert Round(a, a, key, key);
      RoundsToItself(a, key, slot, n - 1);
    }
  }

  lemma NoFirstRound(a: Labelling, from: nat, to: nat, n: nat)
    requires LookedUp(a.keys, a.entries) && (from == FREE_KEY || Unused(a.keys, from)) && n > 0
    ensures !RoundsFollow(a, from, to, n)
  {
    forall b, slot: nat
      ensures !RoundAt(a, b, from, to, slot)
    {
      assert a.entries[Entry(from, slot)] == 0;
    }
  }

  /** Where keys are unique, one that is in use is refused before the first round. */
  ghost predicate RoundsBegin(keys: seq<nat>, multi: bool, to: nat) {
    multi || to == FREE_KEY || Unused(keys, to)
  }

  /** Renaming goes on for ever exactly if keys may repeat, the two keys are the same, and some member has it. */
  lemma RenameEndless(keys: seq<nat>, entries: multiset<Entry>, multi: bool, from: nat, to: nat)
    requires LookedUp(keys, entries)
    ensures (RoundsBegin(keys, multi, to) && Endless(Labelling(keys, entries), from, to)) <==>
            (multi && from == to && from != FREE_KEY && !Unused(keys, from))
  {
    var a := Labelling(keys, entries);
    if from == FREE_KEY || Unused(keys, from) {
      NoFirstRound(a, from, to, 1);
    } else if from != to {
      if Endless(a, from, to) {
        RoundsCounted(a, from, to, KeyCount(keys, from) + 1);
      }
    } else {
      var slot: nat :| slot < |keys| && keys[slot] == from;
      forall n: nat
        ensures RoundsFollow(a, from, to, n)
      {
        RoundsToItself(a, from, slot, n);
      }
    }
  }

  /** An index with one member, whose key is renamed to itself. */
  lemma OneMemberEndless()
    ensures LookedUp([7], multiset{Entry(7, 0)}) && Endless(Labelling([7], multiset{Entry(7, 0)}), 7, 7)
  {
    RenameEndless([7], multiset{Entry(7, 0)}, true, 7, 7);
  }

  /** The slots of the first `limit` of the entries. */
  function FirstSlots(found: seq<Entry>, limit: nat): (r: seq<nat>)
    ensures |r| == (if limit < |found| then limit else |found|) && forall k :: 0 <= k < |r| ==> r[k] == found[k].slot
  {
    SlotsOf(if limit < |found| then found[..limit] else found)
  }

  /** The vectors of the given slots. */
  function VectorsOf(vectors: seq<Vector>, slots: seq<nat>): (r: seq<Vector>)
    requires forall k :: 0 <= k < |slots| ==> slots[k] < |vectors|
    ensures |r| == |slots| && forall k :: 0 <= k < |r| ==> r[k] == vectors[slots[k]]
  {
    seq(|slots|, k requires 0 <= k < |slots| => vectors[slots[k]])
  }

  ghost function LiveKeys(keys: seq<nat>): set<nat> {
    set slot: nat | slot < |keys| && keys[slot] != FREE_KEY :: keys[slot]
  }

  ghost function SlotOf(keys: seq<nat>, key: nat): (slot: nat)
    requires key in LiveKeys(keys)
    ensures slot < |keys| && keys[slot] == key
  {
    var slot: nat :| slot < |keys| && keys[slot] == key;
    slot
  }

  /** The vectors of the members by key, where keys are unique. */
  ghost function Stored(keys: seq<nat>, vectors: seq<Vector>): (r: map<nat, Vector>)
    requires |keys| <= |vectors|
  {
    map key | key in LiveKeys(keys) :: vectors[SlotOf(keys, key)]
  }

  function Without(stored: map<nat, Vector>, key: nat): map<nat, Vector> {
    map k: nat | k in stored && k != key :: stored[k]
  }

  /** The vector of `from` under the key `to`. */
  function Carried(stored: map<nat, Vector>, from: nat, to: nat): map<nat, Vector> {
    if from in stored then Without(stored, from)[to := stored[from]] else stored
  }

  lemma StoredAt(keys: seq<nat>, vectors: seq<Vector>, slot: nat)
    requires |keys| <= |vectors| && UniqueKeys(keys) && slot < |keys| && keys[slot] != FREE_KEY
    ensures keys[slot] in Stored(keys, vectors) && Stored(keys, vectors)[keys[slot]] == vectors[slot]
  {
    assert keys[slot] in LiveKeys(keys);
  }

  /** Adding under a new key, in a new or a free slot, stores the vector under the key and changes nothing else. */
  lemma StoredAdded(keys: seq<nat>, vectors: seq<Vector>, after: seq<nat>, slot: nat, key: nat, v: Vector)
    requires |keys| <= |vectors| && UniqueKeys(keys) && Unused(keys, key) && key != FREE_KEY && slot < |vectors|
    requires (slot == |keys| && after == keys + [key]) || (slot < |keys| && keys[slot] == FREE_KEY && after == keys[slot := key])
    ensures UniqueKeys(after) && Stored(after, vectors[slot := v]) == Stored(keys, vectors)[key := v]
  {
    var stored, changed := Stored(keys, vectors), vectors[slot := v];
    assert LiveKeys(after) == LiveKeys(keys) + {key} by {
      assert after[slot] == key;
      forall k | k in LiveKeys(keys)
        ensures k in LiveKeys(after)
      {
        assert after[SlotOf(keys, k)] == k;
      }
    }
    forall k | k in LiveKeys(after)
      ensures Stored(after, changed)[k] == stored[key := v][k]
    {
      var s := SlotOf(after, k);
      if s != slot {
        StoredAt(keys, vectors, s);
      }
    }
  }

  /** The same for the slot that the bookkeeping hands out. */
  lemma StoredTaken(keys: seq<nat>, ring: seq<nat>, vectors: seq<Vector>, slot: nat, key: nat, v: Vector)
    requires FreeSlots(keys, ring) && slot == (if ring != [] then ring[0] else |keys|)
    requires |keys| <= |vectors| && UniqueKeys(keys) && Unused(keys, key) && key != FREE_KEY && slot < |vectors|
    ensures slot <= |keys| && |WithKey(keys, slot, key)| <= |vectors|
    ensures Stored(WithKey(keys, slot, key), vectors[slot := v]) == Stored(keys, vectors)[key := v]
  {
    assert ring != [] ==> ring[0] in ring;
    StoredAdded(keys, vectors, WithKey(keys, slot, key), slot, key, v);
  }

  lemma StoredRemoved(keys: seq<nat>, vectors: seq<Vector>, key: nat)
    requires |keys| <= |vectors| && UniqueKeys(keys)
    ensures UniqueKeys(WithoutKey(keys, key)) && Stored(WithoutKey(keys, key), vectors) == Without(Stored(keys, vectors), key)
  {
    var after := WithoutKey(keys, key);
    assert LiveKeys(after) == LiveKeys(keys) - {key} by {
      forall k | k in LiveKeys(keys) - {key}
        ensures k in LiveKeys(after)
      {
        assert after[SlotOf(keys, k)] == k;
      }
      forall k | k in LiveKeys(after)
        ensures k in LiveKeys(keys) - {key}
      {
        assert keys[SlotOf(after, k)] == k;
      }
    }
    forall k | k in LiveKeys(after)
      ensures Stored(after, vectors)[k] == Stored(keys, vectors)[k]
    {
      StoredAt(keys, vectors, SlotOf(after, k));
    }
  }

  lemma LiveRenamed(keys: seq<nat>, from: nat, to: nat)
    requires to != FREE_KEY && from != FREE_KEY
    ensures from in LiveKeys(keys) ==> LiveKeys(Renamed(keys, from, to)) == LiveKeys(keys) - {from} + {to} || from == to
    ensures from !in LiveKeys(keys) ==> Renamed(keys, from, to) == keys
  {
    var after := Renamed(keys, from, to);
    forall k | k in LiveKeys(keys)
      ensures (if k == from then to else k) in LiveKeys(after)
    {
      assert after[SlotOf(keys, k)] in LiveKeys(after);
    }
    forall k | k in LiveKeys(after)
      ensures k == to || (k in LiveKeys(keys) && k != from)
    {
      assert keys[SlotOf(after, k)] in LiveKeys(keys);
    }
    forall s: nat | s < |keys| && from !in LiveKeys(keys)
      ensures after[s] == keys[s]
    {
      assert keys[s] in LiveKeys(keys) || keys[s] == FREE_KEY;
    }
  }

  lemma CarriedAt(keys: seq<nat>, vectors: seq<Vector>, from: nat, to: nat, slot: nat)
    requires |keys| <= |vectors| && UniqueKeys(keys) && Unused(keys, to) && from in LiveKeys(keys) && from != FREE_KEY
    requires slot < |keys| && keys[slot] != FREE_KEY
    ensures var k := if keys[slot] == from then to else keys[slot];
      k in Carried(Stored(keys, vectors), from, to) && Carried(Stored(keys, vectors), from, to)[k] == vectors[slot]
  {
    StoredAt(keys, vectors, slot);
  }

  /** Renaming carries the vector over to the new key. */
  lemma StoredRenamed(keys: seq<nat>, vectors: seq<Vector>, from: nat, to: nat)
    requires |keys| <= |vectors| && UniqueKeys(keys) && Unused(keys, to) && to != FREE_KEY && from != FREE_KEY
    ensures UniqueKeys(Renamed(keys, from, to))
    ensures Stored(Renamed(keys, from, to), vectors) == Carried(Stored(keys, vectors), from, to)
  {
    UniqueRenamed(keys, from, to);
    LiveRenamed(keys, from, to);
    if from in LiveKeys(keys) {
      assert keys[SlotOf(keys, from)] == from;
      var after := Renamed(keys, from, to);
      assert Carried(Stored(keys, vectors), from, to).Keys == LiveKeys(after);
      forall k | k in LiveKeys(after)
        ensures Stored(after, vectors)[k] == Carried(Stored(keys, vectors), from, to)[k]
      {
        RenamedAt(keys, vectors, from, to, k);
      }
    }
  }

  lemma {:induction false} RenamedAt(keys: seq<nat>, vectors: seq<Vector>, from: nat, to: nat, k: nat)
    requires |keys| <= |vectors| && UniqueKeys(keys) && Unused(keys, to) && from in LiveKeys(keys) && from != FREE_KEY
    requires k in LiveKeys(Renamed(keys, from, to))
    ensures k in Carried(Stored(keys, vectors), from, to)
    ensures Stored(Renamed(keys, from, to), vectors)[k] == Carried(Stored(keys, vectors), from, to)[k]
  {
    CarriedAt(keys, vectors, from, to, SlotOf(Renamed(keys, from, to), k));
  }

  /** The free slots of the first `n` nodes, in ascending order. */
  ghost function FreeAscending(keys: seq<nat>, n: nat): (r: seq<nat>)
    requires n <= |keys|
  {
    if n == 0 then []
    else if keys[n - 1] == FREE_KEY then FreeAscending(keys, n - 1) + [n - 1]
    else FreeAscending(keys, n - 1)
  }

  /** The number of members. */
  ghost function LiveCount(keys: seq<nat>): nat {
    var free := |FreeAscending(keys, |keys|)|;
    if free <= |keys| then |keys| - free else 0
  }

  lemma {:induction false} FreeAscendingLength(keys: seq<nat>, n: nat)
    requires n <= |keys|
    ensures |FreeAscending(keys, n)| <= n && |FreeAscending(keys, n)| <= |FreeAscending(keys, |keys|)|
    ensures n - |FreeAscending(keys, n)| <= LiveCount(keys)
    decreases |keys| - n
  {
    FreeAscendingShort(keys, n);
    if n < |keys| {
      FreeAscendingLength(keys, n + 1);
    }
  }

  lemma {:induction false} FreeAscendingShort(keys: seq<nat>, n: nat)
    requires n <= |keys|
    ensures |FreeAscending(keys, n)| <= n
  {
    if n > 0 {
      FreeAscendingShort(keys, n - 1);
    }
  }

  lemma {:induction false} FreeAscendingOrder(keys: seq<nat>, n: nat)
    requires n <= |keys|
    ensures forall i :: 0 <= i < |FreeAscending(keys, n)| ==> FreeAscending(keys, n)[i] < n
    ensures forall i, j :: 0 <= i < j < |FreeAscending(keys, n)| ==> FreeAscending(keys, n)[i] < FreeAscending(keys, n)[j]
  {
    if n > 0 {
      FreeAscendingOrder(keys, n - 1);
    }
  }

  lemma {:induction false} FreeAscendingMembers(keys: seq<nat>, n: nat)
    requires n <= |keys|
    ensures forall slot: nat :: slot in FreeAscending(keys, n) <==> slot < n && keys[slot] == FREE_KEY
  {
    if n > 0 {
      FreeAscendingMembers(keys, n - 1);
    }
  }

  /** It holds the free slots, in ascending order. */
  lemma FreeAscendingSpec(keys: seq<nat>, n: nat)
    requires n <= |keys|
    ensures FreeSlots(keys[..n], FreeAscending(keys, n))
    ensures forall i, j :: 0 <= i < j < |FreeAscending(keys, n)| ==> FreeAscending(keys, n)[i] < FreeAscending(keys, n)[j]
  {
    FreeAscendingOrder(keys, n);
    FreeAscendingMembers(keys, n);
  }

  lemma LookedUpNext(keys: seq<nat>, n: nat, entries: multiset<Entry>)
    requires n < |keys| && LookedUp(keys[..n], entries)
    ensures LookedUp(keys[..n + 1], if keys[n] == FREE_KEY then entries else entries + multiset{Entry(keys[n], n)})
  {
    var after := if keys[n] == FREE_KEY then entries else entries + multiset{Entry(keys[n], n)};
    forall e
      ensures after[e] == if HasKey(keys[..n + 1], e) then 1 else 0
    {
      assert entries[e] == if HasKey(keys[..n], e) then 1 else 0;
    }
  }

  /** The first `n` nodes have been gone through. */
  ghost predicate PartlyIndexed(keys: seq<nat>, n: nat, ring: seq<nat>, entries: multiset<Entry>) {
    && n <= |keys| && ring == FreeAscending(keys, n) && LookedUp(keys[..n], entries) && |entries| + |ring| == n
  }

  lemma PartlyIndexedNext(keys: seq<nat>, n: nat, ring: seq<nat>, entries: multiset<Entry>)
    requires PartlyIndexed(keys, n, ring, entries) && n < |keys|
    ensures keys[n] == FREE_KEY ==>
      |ring| < |FreeAscending(keys, |keys|)| && PartlyIndexed(keys, n + 1, ring + [n], entries)
    ensures keys[n] != FREE_KEY ==>
      |entries| < LiveCount(keys) && PartlyIndexed(keys, n + 1, ring, entries + multiset{Entry(keys[n], n)})
  {
    FreeAscendingLength(keys, n + 1);
    LookedUpNext(keys, n, entries);
  }

  /** What the keys determine: the lookup and, apart from its order, the ring. */
  lemma ConsistentUnique(keys: seq<nat>, ring: seq<nat>, entries: multiset<Entry>, ring2: seq<nat>, entries2: multiset<Entry>)
    requires FreeSlots(keys, ring) && LookedUp(keys, entries) && FreeSlots(keys, ring2) && LookedUp(keys, entries2)
    ensures entries == entries2 && Values(ring) == Values(ring2) && |ring| == |ring2|
  {
    forall e
      ensures entries[e] == entries2[e]
    {
      assert entries[e] == if HasKey(keys, e) then 1 else 0;
    }
    ValuesSize(ring);
    ValuesSize(ring2);
  }
}
