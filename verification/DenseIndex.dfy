/** The dense index: members are added, removed, renamed and fetched by key; the slots of removed ones are used again. */
module DenseIndices {
  import opened Numbers
  import opened Graph
  import opened Rings
  import opened Probing
  import opened ProbeTables
  import opened EqualRanges
  import opened FlatHashMultiSets
  import opened DenseSlots

  /** Where there is no room for the vector it is written beyond the table of the vectors. */
  datatype AddResult = Added(slot: nat) | DuplicateKey | OverCapacity | NoRoom

  datatype RenameResult = Renaming(completed: nat) | KeyInUse | Forever

  /** Removing may never be done, or leave members without entries; what comes then is not part of this model. */
  datatype Removal = Done(completed: nat) | NeverDone | Lost

  class DenseIndex {
    const multi: bool
    const lookup: FlatHashMultiSet
    const free: Ring<nat>
    /** The keys of the nodes of the graph, slot by slot. */
    var keys: seq<nat>
    var capacity: nat
    var vectors: array<Vector>

    ghost predicate Valid()
      reads this, lookup, lookup.slots, free, free.elements, vectors
    {
      && lookup.Valid() && free.Valid()
      && |keys| <= capacity && |keys| <= vectors.Length
      && Consistent(keys, free.contents, lookup.contents, multi)
    }

    ghost function Footprint(): set<object>
      reads this, lookup, free
    {
      {this, lookup, lookup.slots, free, free.elements, vectors}
    }

    /** Every slot up to the capacity has room for a vector; clearing gives that room back. */
    ghost predicate Ready()
      reads this
    {
      capacity <= vectors.Length
    }

    /** Neither the graph nor the vectors have more room than the lookup. Loading an index may break this: the lookup is
        then made for the members that are left, not for all nodes. */
    ghost predicate InStep()
      reads this, lookup
    {
      capacity <= lookup.slots.Length && vectors.Length <= lookup.slots.Length
    }

    /** The vectors by key. */
    ghost function StoredVectors(): map<nat, Vector>
      reads this, vectors
      requires |keys| <= vectors.Length
    {
      Stored(keys, vectors[..])
    }

    constructor (multi: bool, hash: nat -> nat)
      ensures Valid() && Ready() && InStep() && fresh(Footprint()) && keys == [] && capacity == 0
    {
      this.multi := multi;
      lookup := new FlatHashMultiSet(hash);
      free := new Ring<nat>();
      vectors := new Vector[0];
      keys, capacity := [], 0;
    }

    /** Nodes and vectors read from a file, before their keys are gone through. */
    constructor Unindexed(multi: bool, hash: nat -> nat, keys: seq<nat>, vectors: seq<Vector>)
      requires |keys| == |vectors|
      ensures fresh(Footprint()) && lookup.Valid() && free.Valid() && lookup.slots.Length == 0
      ensures this.multi == multi && this.keys == keys && this.vectors[..] == vectors && capacity == |keys|
    {
      this.multi := multi;
      lookup := new FlatHashMultiSet(hash);
      free := new Ring<nat>();
      this.vectors := new Vector[|vectors|](u requires 0 <= u < |vectors| => vectors[u]);
      this.keys, capacity := keys, |keys|;
      new;
      assert this.vectors[..] == vectors;
    }

    function Size(): (n: nat)
      reads this, lookup, lookup.slots, free, free.elements, vectors
      requires Valid()
      ensures n == |lookup.contents|
    {
      SizeAgrees(keys, free.contents, lookup.contents);
      |keys| - free.Size()
    }

    method Contains(key: nat) returns (found: bool)
      requires Valid()
      ensures found <==> key != 0xFFFF_FFFF_FFFF_FFFF && !Unused(keys, key)
    {
      found := lookup.Contains(key);
      HasEntry(keys, lookup.contents, key);
    }

    /** The slot of the next member and the key of its node. */
    method TakeSlot(key: nat) returns (taken: bool, slot: nat)
      requires Valid() && (multi || Unused(keys, key) || key == FREE_KEY)
      modifies this`keys, free
      ensures free.Valid() && free.elements == old(free.elements)
      ensures taken == (old(free.contents) != [] || |old(keys)| < capacity)
      ensures !taken ==> keys == old(keys) && free.contents == old(free.contents)
      ensures taken ==>
        && slot == NextSlot(old(keys), old(free.contents)) <= |old(keys)|
        && keys == WithKey(old(keys), slot, key) && |keys| <= capacity
        && free.contents == (if old(free.contents) != [] then old(free.contents)[1..] else [])
        && (Consistent(keys, free.contents, lookup.contents + multiset{Entry(key, slot)}, multi) <==> key != FREE_KEY)
    {
      Taken(keys, free.contents, lookup.contents, multi, key);
      taken, slot := free.TryPop();
      if taken {
        keys := keys[slot := key];
      } else if |keys| < capacity {
        taken, slot := true, |keys|;
        keys := keys + [key];
      }
    }

    /** The lookup entry and the vector of the member in `slot`. */
    method Enter(key: nat, slot: nat, vector: Vector)
      requires lookup.Valid() && free.Valid() && slot < vectors.Length
      modifies lookup, lookup.slots, vectors
      ensures lookup.Valid() && lookup.contents == old(lookup.contents) + multiset{Entry(key, slot)}
      ensures (lookup.slots == old(lookup.slots) || fresh(lookup.slots)) && old(lookup.slots.Length) <= lookup.slots.Length
      ensures free.Valid() && free.contents == old(free.contents)
      ensures vectors[..] == old(vectors[..])[slot := vector]
    {
      lookup.TryEmplace(Entry(key, slot));
      vectors[slot] := vector;
    }

    /** Adds a member whose key may be added. */
    method Insert(key: nat, vector: Vector) returns (r: AddResult)
      requires Valid() && (multi || Unused(keys, key) || key == FREE_KEY)
      modifies Footprint()
      ensures fresh(Footprint() - old(Footprint())) && capacity == old(capacity) && vectors == old(vectors)
      ensures old(lookup.slots.Length) <= lookup.slots.Length && !r.DuplicateKey?
      ensures r.OverCapacity? <==> old(free.contents) == [] && |old(keys)| >= capacity
      ensures r.NoRoom? <==> !r.OverCapacity? && NextSlot(old(keys), old(free.contents)) >= vectors.Length
      ensures !r.NoRoom? ==> (Valid() <==> !r.Added? || key != FREE_KEY)
      ensures r.OverCapacity? ==> keys == old(keys) && vectors[..] == old(vectors[..])
      ensures r.Added? ==>
        && r.slot == NextSlot(old(keys), old(free.contents)) <= |old(keys)| && keys == WithKey(old(keys), r.slot, key)
        && r.slot < vectors.Length && vectors[..] == old(vectors[..])[r.slot := vector]
        && free.contents == (if old(free.contents) != [] then old(free.contents)[1..] else [])
    {
      var taken, slot := TakeSlot(key);
      if !taken {
        r := OverCapacity;
      } else if slot >= vectors.Length {
        r := NoRoom;
      } else {
        EnterTaken(key, slot, vector);
        r := Added(slot);
      }
    }

    /** Enters a member whose slot was taken; all is consistent then exactly if it was with the entry. */
    method EnterTaken(key: nat, slot: nat, vector: Vector)
      requires lookup.Valid() && free.Valid() && slot < vectors.Length && |keys| <= capacity && |keys| <= vectors.Length
      modifies lookup, lookup.slots, vectors
      ensures (lookup.slots == old(lookup.slots) || fresh(lookup.slots)) && old(lookup.slots.Length) <= lookup.slots.Length
      ensures Valid() <==> Consistent(keys, old(free.contents), old(lookup.contents) + multiset{Entry(key, slot)}, multi)
      ensures free.contents == old(free.contents)
      ensures vectors[..] == old(vectors[..])[slot := vector]
    {
      Enter(key, slot, vector);
    }

    /** Adds a member, in a slot of a removed one if there is any. The key that marks free slots is not refused. Nor is it
        looked at whether there is room for the vector, and where there is none nothing is promised. */
    method Add(key: nat, vector: Vector) returns (r: AddResult)
      requires Valid()
      modifies Footprint()
      ensures fresh(Footprint() - old(Footprint())) && capacity == old(capacity) && vectors == old(vectors)
      ensures old(lookup.slots.Length) <= lookup.slots.Length
      ensures r.DuplicateKey? <==> !multi && key != FREE_KEY && !Unused(old(keys), key)
      ensures r.OverCapacity? <==> !r.DuplicateKey? && old(free.contents) == [] && |old(keys)| >= capacity
      ensures r.NoRoom? <==>
        !r.DuplicateKey? && !r.OverCapacity? && NextSlot(old(keys), old(free.contents)) >= vectors.Length
      ensures !r.NoRoom? ==> (Valid() <==> !r.Added? || key != FREE_KEY)
      ensures r.DuplicateKey? || r.OverCapacity? ==> keys == old(keys) && vectors[..] == old(vectors[..])
      ensures r.Added? ==>
        && r.slot == NextSlot(old(keys), old(free.contents)) <= |old(keys)| && keys == WithKey(old(keys), r.slot, key)
        && r.slot < vectors.Length && vectors[..] == old(vectors[..])[r.slot := vector]
        && free.contents == (if old(free.contents) != [] then old(free.contents)[1..] else [])
      ensures r.Added? && !multi && key != FREE_KEY ==> StoredVectors() == old(StoredVectors())[key := vector]
    {
      ghost var before, ring, table := keys, free.contents, vectors[..];
      var present := false;
      if !multi {
        present := Contains(key);
      }
      if present {
        r := DuplicateKey;
      } else {
        r := Insert(key, vector);
        if r.Added? && !multi && key != FREE_KEY {
          StoredTaken(before, ring, table, r.slot, key, vector);
        }
      }
    }

    /** Where every slot up to the capacity has room for a vector, there is room for one more member's. */
    lemma RoomForNext()
      requires Valid() && Ready() && (free.contents != [] || |keys| < capacity)
      ensures NextSlot(keys, free.contents) < vectors.Length
    {
      assert free.contents != [] ==> free.contents[0] in free.contents;
    }

    /** Frees the slots of the entries: they are queued for reuse, and their nodes get the key that marks them. */
    method FreeAll(found: seq<Entry>)
      requires free.Valid() && |free.contents| + |found| <= free.elements.Length
      requires forall k :: 0 <= k < |found| ==> found[k].slot < |keys|
      modifies this`keys, free, free.elements
      ensures free.Valid() && free.elements == old(free.elements)
      ensures free.contents == old(free.contents) + SlotsOf(found)
      ensures keys == Freed(old(keys), SlotsOf(found))
    {
      var slots := SlotsOf(found);
      ghost var before, ring := keys, free.contents;
      for k := 0 to |found|
        invariant free.Valid() && free.elements == old(free.elements)
        invariant free.contents == ring + slots[..k]
        invariant |keys| == |before| && keys == Freed(before, slots[..k])
      {
        FreedNext(before, slots, k);
        assert slots[..k + 1] == slots[..k] + [slots[k]];
        FreeOne(slots[k]);
      }
      assert slots[..|found|] == slots;
    }

    method FreeOne(slot: nat)
      requires free.Valid() && |free.contents| < free.elements.Length && slot < |keys|
      modifies this`keys, free, free.elements
      ensures free.Valid() && free.elements == old(free.elements)
      ensures free.contents == old(free.contents) + [slot] && keys == old(keys)[slot := FREE_KEY]
    {
      free.Push(slot);
      keys := keys[slot := FREE_KEY];
    }

    method Unlist(key: nat)
      requires lookup.Valid() && free.Valid()
      modifies lookup, lookup.slots
      ensures lookup.Valid() && free.Valid() && lookup.slots == old(lookup.slots) && free.contents == old(free.contents)
      ensures old(lookup.contents) == lookup.contents + Only(old(lookup.contents), key)
      ensures HasUnused(lookup.slots[..]) == old(HasUnused(lookup.slots[..]))
    {
      var erased := lookup.Erase(key);
    }

    /** Removes the members with a key, given the entries their range holds. */
    method RemoveFound(key: nat, found: seq<Entry>)
      requires Valid() && multiset(found) == Only(lookup.contents, key)
      requires |free.contents| + |found| <= free.elements.Length
      modifies this`keys, free, free.elements, lookup, lookup.slots
      ensures Valid() && free.elements == old(free.elements) && lookup.slots == old(lookup.slots)
      ensures keys == WithoutKey(old(keys), key) && free.contents == old(free.contents) + SlotsOf(found)
      ensures HasUnused(lookup.slots[..]) == old(HasUnused(lookup.slots[..]))
    {
      ghost var before, ring, entries := keys, free.contents, lookup.contents;
      FoundInRange(before, entries, key, found);
      FreeAll(found);
      ghost var freed, queued := keys, free.contents;
      Unlist(key);
      assert keys == freed && free.contents == queued;
      RemovedAndFreed(before, ring, entries, multi, key, found, lookup.contents);
    }

    /** Room for `count` more free slots. */
    method ReserveFree(count: nat)
      requires Valid()
      modifies free
      ensures Valid() && free.contents == old(free.contents) && |free.contents| + count <= free.elements.Length
      ensures free.elements == old(free.elements) || fresh(free.elements)
    {
      var reserved := free.Reserve(free.Size() + count);
    }

    /** Removes all members with the key. Where all slots of the lookup are used and there are such members, none is found
        if one of them is at home, and otherwise looking for them never ends. */
    method Remove(key: nat) returns (r: Removal)
      requires Valid()
      modifies this`keys, free, free.elements, lookup, lookup.slots
      ensures Valid() && fresh(Footprint() - old(Footprint())) && lookup.slots == old(lookup.slots) && r != Lost
      ensures r == NeverDone <==> old(NeverEnding(lookup.slots[..], lookup.hash, key))
      ensures r == NeverDone || old(Missed(lookup.slots[..], lookup.hash, key)) ==>
        keys == old(keys) && free.contents == old(free.contents)
      ensures r.Done? ==> |free.contents| == |old(free.contents)| + r.completed
      ensures r.Done? && !old(Missed(lookup.slots[..], lookup.hash, key)) ==>
        && keys == WithoutKey(old(keys), key) && r.completed == KeyCount(old(keys), key)
        && (!multi ==> StoredVectors() == Without(old(StoredVectors()), key))
      ensures old(free.contents) <= free.contents
    {
      if !multi {
        StoredRemoved(keys, vectors[..], key);
      }
      r := RemoveMembers(key);
    }

    method RemoveMembers(key: nat) returns (r: Removal)
      requires Valid()
      modifies this`keys, free, free.elements, lookup, lookup.slots
      ensures Valid() && (free.elements == old(free.elements) || fresh(free.elements)) && lookup.slots == old(lookup.slots)
      ensures r != Lost && (r == NeverDone <==> old(NeverEnding(lookup.slots[..], lookup.hash, key)))
      ensures r == NeverDone || old(Missed(lookup.slots[..], lookup.hash, key)) ==>
        keys == old(keys) && free.contents == old(free.contents)
      ensures r.Done? ==> |free.contents| == |old(free.contents)| + r.completed
      ensures r.Done? && !old(Missed(lookup.slots[..], lookup.hash, key)) ==>
        keys == WithoutKey(old(keys), key) && r.completed == KeyCount(old(keys), key)
      ensures old(free.contents) <= free.contents
    {
      var range := FindAll(key);
      match range {
        case Endless => r := NeverDone;
        case Ends(found) =>
          if found == [] {
            NothingFound(keys, lookup.contents, key);
          } else {
            ReserveAndRemove(key, found);
          }
          r := Done(|found|);
      }
    }

    method ReserveAndRemove(key: nat, found: seq<Entry>)
      requires Valid() && multiset(found) == Only(lookup.contents, key)
      modifies this`keys, free, free.elements, lookup, lookup.slots
      ensures Valid() && (free.elements == old(free.elements) || fresh(free.elements)) && lookup.slots == old(lookup.slots)
      ensures keys == WithoutKey(old(keys), key) && free.contents == old(free.contents) + SlotsOf(found)
      ensures HasUnused(lookup.slots[..]) == old(HasUnused(lookup.slots[..]))
    {
      ghost var slots := lookup.slots[..];
      ReserveFree(|found|);
      assert lookup.slots[..] == slots;
      RemoveFound(key, found);
    }

    /** The entries with the key, as iterating over their range yields them. */
    method FindAll(key: nat) returns (r: Iteration)
      requires Valid()
      ensures r.Endless? <==> NeverEnding(lookup.slots[..], lookup.hash, key)
      ensures r.Ends? && Missed(lookup.slots[..], lookup.hash, key) ==> r.found == []
      ensures r.Ends? && !Missed(lookup.slots[..], lookup.hash, key) ==>
        multiset(r.found) == Only(lookup.contents, key) && |r.found| == KeyCount(keys, key)
      ensures r.Ends? ==> forall k :: 0 <= k < |r.found| ==> r.found[k].slot < |keys|
    {
      r := lookup.Matching(key);
      if r.Ends? {
        if Missed(lookup.slots[..], lookup.hash, key) {
          assert |multiset(r.found)| == |r.found|;
        } else {
          FoundCount(keys, lookup.contents, key, r.found);
          FoundInRange(keys, lookup.contents, key, r.found);
        }
      }
    }

    /** Whether there is trouble with a key: exactly if all slots of the lookup are used and a member has it. */
    lemma TroubleIfUsed(key: nat)
      requires Valid()
      ensures NeverEnding(lookup.slots[..], lookup.hash, key) || Missed(lookup.slots[..], lookup.hash, key) <==>
              !HasUnused(lookup.slots[..]) && key != FREE_KEY && !Unused(keys, key)
    {
      HasEntry(keys, lookup.contents, key);
      if AtHome(lookup.slots[..], lookup.hash, key) {
        MatchIsEntry(lookup.slots[..], Home(lookup.hash(key), lookup.slots.Length), key);
      }
    }

    /** How many members have the key. */
    method Count(key: nat) returns (count: nat)
      requires Valid()
      ensures count == KeyCount(keys, key)
    {
      count := lookup.Count(key);
      EntryCount(keys, lookup.contents, key);
    }

    method CountListed(list: seq<nat>) returns (owed: nat)
      requires Valid()
      ensures owed == Owed(keys, list)
    {
      owed := 0;
      for k := 0 to |list|
        invariant owed == Owed(keys, list[..k])
      {
        var count := Count(list[k]);
        assert list[..k + 1][..k] == list[..k];
        owed := owed + count;
      }
      assert list[..|list|] == list;
    }

    /** Removes all members with one of the keys. Where all slots of the lookup are used, the first listed key that is in use
        decides: if one of its members is at home, they lose their entries and keep their slots, and from then on nothing
        is promised; otherwise looking for them never ends. */
    method RemoveListed(list: seq<nat>) returns (r: Removal)
      requires Valid()
      modifies this`keys, free, free.elements, lookup, lookup.slots
      ensures Valid() && fresh(Footprint() - old(Footprint())) && lookup.slots == old(lookup.slots)
      ensures r.Done? <==> old(HasUnused(lookup.slots[..])) || NoneUsed(old(keys), list)
      ensures r.Done? ==> keys == WithoutKeys(old(keys), list) && |free.contents| == |old(free.contents)| + r.completed
      ensures !r.Done? ==>
        && FirstUsed(old(keys), list) < |list|
        && (r == Lost <==> old(AtHome(lookup.slots[..], lookup.hash, list[FirstUsed(keys, list)])))
      ensures r.Done? ==> old(free.contents) <= free.contents
    {
      var owed := CountListed(list);
      ghost var slots := lookup.slots[..];
      ReserveFree(owed);
      assert lookup.slots[..] == slots;
      ghost var before, k := keys, 0;
      r, k := RemoveReserved(list);
      if !r.Done? {
        NoneUsedStep(before, list, k);
      }
    }

    /** Removes the members with a key, where their slots have room in the ring. */
    method RemoveOne(key: nat) returns (r: Removal)
      requires Valid() && |free.contents| + KeyCount(keys, key) <= free.elements.Length
      modifies this`keys, free, free.elements, lookup, lookup.slots
      ensures Valid() && free.elements == old(free.elements) && lookup.slots == old(lookup.slots)
      ensures r.Done? <==> old(HasUnused(lookup.slots[..])) || key == FREE_KEY || Unused(old(keys), key)
      ensures r.Done? ==> keys == WithoutKey(old(keys), key) && r.completed == KeyCount(old(keys), key)
      ensures r.Done? ==> |free.contents| == |old(free.contents)| + r.completed
      ensures !r.Done? ==> (r == Lost <==> old(AtHome(lookup.slots[..], lookup.hash, key)))
      ensures HasUnused(lookup.slots[..]) == old(HasUnused(lookup.slots[..]))
      ensures key == FREE_KEY || Unused(old(keys), key) || !r.Done? ==> keys == old(keys) && lookup.slots[..] == old(lookup.slots[..])
      ensures r.Done? ==> old(free.contents) <= free.contents
    {
      var found;
      r, found := Seek(key);
      if r.Done? {
        RemoveRange(key, found);
      }
    }

    /** What removing the members with a key would come to, and their entries. */
    method Seek(key: nat) returns (r: Removal, found: seq<Entry>)
      requires Valid()
      ensures r.Done? <==> HasUnused(lookup.slots[..]) || key == FREE_KEY || Unused(keys, key)
      ensures r.Done? ==> multiset(found) == Only(lookup.contents, key) && r.completed == |found| == KeyCount(keys, key)
      ensures !r.Done? ==> (r == Lost <==> AtHome(lookup.slots[..], lookup.hash, key))
    {
      TroubleIfUsed(key);
      found := [];
      var range := FindAll(key);
      if range.Endless? {
        r := NeverDone;
      } else if Missed(lookup.slots[..], lookup.hash, key) {
        r := Lost;
      } else {
        found := range.found;
        r := Done(|found|);
      }
    }

    method RemoveRange(key: nat, found: seq<Entry>)
      requires Valid() && multiset(found) == Only(lookup.contents, key) && |free.contents| + |found| <= free.elements.Length
      modifies this`keys, free, free.elements, lookup, lookup.slots
      ensures Valid() && free.elements == old(free.elements) && lookup.slots == old(lookup.slots)
      ensures keys == WithoutKey(old(keys), key) && |free.contents| == |old(free.contents)| + |found|
      ensures HasUnused(lookup.slots[..]) == old(HasUnused(lookup.slots[..]))
      ensures key == FREE_KEY || Unused(old(keys), key) ==> lookup.slots[..] == old(lookup.slots[..])
      ensures old(free.contents) <= free.contents
    {
      HasEntry(keys, lookup.contents, key);
      if found == [] {
        NothingFound(keys, lookup.contents, key);
      } else {
        RemoveFound(key, found);
      }
    }

    method RemoveReserved(list: seq<nat>) returns (r: Removal, ghost at: nat)
      requires Valid() && |free.contents| + Owed(keys, list) <= free.elements.Length
      modifies this`keys, free, free.elements, lookup, lookup.slots
      ensures Valid() && free.elements == old(free.elements) && lookup.slots == old(lookup.slots)
      ensures r.Done? ==> old(HasUnused(lookup.slots[..])) || NoneUsed(old(keys), list)
      ensures r.Done? ==> keys == WithoutKeys(old(keys), list) && |free.contents| == |old(free.contents)| + r.completed
      ensures !r.Done? ==>
        && !old(HasUnused(lookup.slots[..]))
        && at < |list| && NoneUsed(old(keys), list[..at]) && list[at] != FREE_KEY && !Unused(old(keys), list[at])
        && (r == Lost <==> old(AtHome(lookup.slots[..], lookup.hash, list[at])))
      ensures r.Done? ==> old(free.contents) <= free.contents
    {
      ghost var before, unused := keys, HasUnused(lookup.slots[..]);
      var completed: nat := 0;
      at := 0;
      for k := 0 to |list|
        invariant Valid() && free.elements == old(free.elements) && lookup.slots == old(lookup.slots)
        invariant HasUnused(lookup.slots[..]) == unused
        invariant !unused ==> NoneUsed(before, list[..k]) && keys == before && lookup.slots[..] == old(lookup.slots[..])
        invariant keys == WithoutKeys(before, list[..k])
        invariant |free.contents| == |old(free.contents)| + completed && old(free.contents) <= free.contents
        invariant |free.contents| + Owed(keys, list[k..]) <= free.elements.Length
      {
        OwedStep(keys, list, k);
        OwedStep(before, list, k);
        NoneUsedStep(before, list, k);
        r := RemoveOne(list[k]);
        if !r.Done? {
          at := k;
          return;
        }
        completed := completed + r.completed;
      }
      assert list[..|list|] == list;
      r := Done(completed);
    }

    method PopEntry(key: nat) returns (found: bool, slot: nat)
      requires lookup.Valid() && free.Valid()
      requires KeysLookedUp(keys, lookup.contents) && (key == FREE_KEY ==> LookedUp(keys, lookup.contents))
      modifies lookup, lookup.slots
      ensures lookup.Valid() && free.Valid() && lookup.slots == old(lookup.slots) && free.contents == old(free.contents)
      ensures found <==> key != FREE_KEY && !Unused(keys, key)
      ensures found ==> old(lookup.contents) == lookup.contents + multiset{Entry(key, slot)}
      ensures !found ==> lookup.contents == old(lookup.contents)
    {
      ghost var entries := lookup.contents;
      var e;
      found, e := lookup.PopFirst(key);
      slot := e.slot;
      if key == FREE_KEY {
        HasEntry(keys, entries, key);
      } else {
        NoEntryUnused(keys, entries, key);
      }
      if found {
        NotEmpty(entries, lookup.contents, e);
      }
    }

    method PutEntry(key: nat, slot: nat)
      requires lookup.Valid() && free.Valid()
      modifies lookup, lookup.slots
      ensures lookup.Valid() && free.Valid() && free.contents == old(free.contents)
      ensures lookup.contents == old(lookup.contents) + multiset{Entry(key, slot)}
      ensures (lookup.slots == old(lookup.slots) || fresh(lookup.slots)) && old(lookup.slots.Length) <= lookup.slots.Length
      ensures |old(lookup.contents)| * 3 < old(lookup.slots.Length) * 2 ==> lookup.slots == old(lookup.slots)
    {
      lookup.TryEmplace(Entry(key, slot));
    }

    /** Pops an entry with one key and enters its slot under another, if there is any. */
    method RenameOne(from: nat, to: nat) returns (more: bool, slot: nat)
      requires lookup.Valid() && free.Valid() && (from != to || from == FREE_KEY || Unused(keys, from))
      requires KeysLookedUp(keys, lookup.contents) && (from == FREE_KEY ==> LookedUp(keys, lookup.contents))
      modifies this`keys, lookup, lookup.slots
      ensures lookup.Valid() && free.Valid() && free.contents == old(free.contents) && KeysLookedUp(keys, lookup.contents)
      ensures old(LookedUp(keys, lookup.contents)) && (to != FREE_KEY || !more) ==> LookedUp(keys, lookup.contents)
      ensures (lookup.slots == old(lookup.slots) || fresh(lookup.slots)) && old(lookup.slots.Length) <= lookup.slots.Length
      ensures more <==> from != FREE_KEY && !Unused(old(keys), from)
      ensures !more ==> keys == old(keys)
      ensures more ==> slot < |old(keys)| && old(keys)[slot] == from && keys == old(keys)[slot := to]
    {
      more, slot := PopEntry(from);
      if more {
        Replace(from, to, slot);
      }
    }

    /** Puts an entry taken out under one key back under another. */
    method Replace(from: nat, to: nat, slot: nat)
      requires lookup.Valid() && free.Valid() && from != to && from != FREE_KEY
      requires KeysLookedUp(keys, lookup.contents + multiset{Entry(from, slot)})
      modifies this`keys, lookup, lookup.slots
      ensures lookup.Valid() && free.Valid() && free.contents == old(free.contents) && KeysLookedUp(keys, lookup.contents)
      ensures old(LookedUp(keys, lookup.contents + multiset{Entry(from, slot)})) && to != FREE_KEY ==>
        LookedUp(keys, lookup.contents)
      ensures (lookup.slots == old(lookup.slots) || fresh(lookup.slots)) && old(lookup.slots.Length) <= lookup.slots.Length
      ensures slot < |old(keys)| && old(keys)[slot] == from && keys == old(keys)[slot := to]
    {
      ghost var mid := lookup.contents;
      RenamedOne(keys, mid + multiset{Entry(from, slot)}, mid, from, to, slot);
      PutEntry(to, slot);
      keys := keys[slot := to];
    }

    /** Gives the members with one key another one; where keys are unique, one that is not in use. Where keys may repeat, a
        key in use that is renamed to itself is popped and put back for ever. That the new key is the one that marks free
        slots is not looked at. */
    method Rename(from: nat, to: nat) returns (r: RenameResult)
      requires Valid()
      modifies this`keys, lookup, lookup.slots
      ensures fresh(Footprint() - old(Footprint())) && (old(InStep()) ==> InStep())
      ensures r.KeyInUse? <==> !multi && to != FREE_KEY && !Unused(old(keys), to)
      ensures r.Forever? <==> multi && from == to && from != FREE_KEY && !Unused(old(keys), from)
      ensures keys == if r.Renaming? then Renamed(old(keys), from, to) else old(keys)
      ensures Valid() <==> !r.Renaming? || to != FREE_KEY || from == FREE_KEY || Unused(old(keys), from)
      ensures r.Renaming? ==> r.completed == KeyCount(old(keys), from)
      ensures |keys| <= vectors.Length
      ensures !multi && from != FREE_KEY && r.Renaming? ==>
        StoredVectors() == (if to == FREE_KEY then Without(old(StoredVectors()), from)
                            else Carried(old(StoredVectors()), from, to))
    {
      if !multi {
        var present := Contains(to);
        if present {
          return KeyInUse;
        }
        RenamedVectors(from, to);
      } else if from == to {
        var present := Contains(from);
        if present {
          return Forever;
        }
      }
      var completed := RenameAll(from, to);
      r := Renaming(completed);
    }

    lemma RenamedVectors(from: nat, to: nat)
      requires Valid() && !multi && (to == FREE_KEY || Unused(keys, to))
      ensures from != FREE_KEY ==>
        Stored(Renamed(keys, from, to), vectors[..]) == (if to == FREE_KEY then Without(StoredVectors(), from)
                                                         else Carried(StoredVectors(), from, to))
    {
      if from != FREE_KEY && to == FREE_KEY {
        RenamedToFree(keys, from);
        StoredRemoved(keys, vectors[..], from);
      } else if from != FREE_KEY {
        StoredRenamed(keys, vectors[..], from, to);
      }
    }

    method RenameAll(from: nat, to: nat) returns (completed: nat)
      requires Valid() && (multi || to == FREE_KEY || Unused(keys, to)) && (from != to || from == FREE_KEY || Unused(keys, from))
      modifies this`keys, lookup, lookup.slots
      ensures fresh(Footprint() - old(Footprint())) && old(lookup.slots.Length) <= lookup.slots.Length
      ensures Valid() <==> to != FREE_KEY || from == FREE_KEY || Unused(old(keys), from)
      ensures keys == Renamed(old(keys), from, to) && completed == KeyCount(old(keys), from)
    {
      ghost var before := keys;
      completed := RenameRounds(from, to);
      RenamedConsistent(before, free.contents, lookup.contents, multi, from, to);
    }

    /** One round of renaming, of a number that grows smaller. */
    method RenameCounted(from: nat, to: nat, ghost before: seq<nat>) returns (more: bool)
      requires lookup.Valid() && free.Valid() && (from != to || from == FREE_KEY || Unused(keys, from))
      requires KeysLookedUp(keys, lookup.contents) && (to != FREE_KEY || keys == before ==> LookedUp(keys, lookup.contents))
      requires PartlyRenamed(before, keys, from, to)
      requires from == FREE_KEY ==> keys == before
      modifies this`keys, lookup, lookup.slots
      ensures lookup.Valid() && free.Valid() && free.contents == old(free.contents)
      ensures (lookup.slots == old(lookup.slots) || fresh(lookup.slots)) && old(lookup.slots.Length) <= lookup.slots.Length
      ensures KeysLookedUp(keys, lookup.contents) && (to != FREE_KEY || keys == before ==> LookedUp(keys, lookup.contents))
      ensures PartlyRenamed(before, keys, from, to) && (from != to || from == FREE_KEY || Unused(keys, from))
      ensures KeyCount(keys, from) + (if more then 1 else 0) == KeyCount(old(keys), from)
      ensures !more ==> from == FREE_KEY || Unused(keys, from)
      ensures from == FREE_KEY ==> keys == before
    {
      ghost var mid := keys;
      var slot;
      more, slot := RenameOne(from, to);
      if more {
        KeyCountLess(mid, slot, from, to);
      }
    }

    /** Rounds of renaming until no member with the old key is left. */
    method RenameRounds(from: nat, to: nat) returns (completed: nat)
      requires lookup.Valid() && free.Valid() && LookedUp(keys, lookup.contents)
      requires from != to || from == FREE_KEY || Unused(keys, from)
      modifies this`keys, lookup, lookup.slots
      ensures lookup.Valid() && free.Valid() && free.contents == old(free.contents)
      ensures lookup.slots == old(lookup.slots) || fresh(lookup.slots)
      ensures old(lookup.slots.Length) <= lookup.slots.Length
      ensures to != FREE_KEY || keys == old(keys) ==> LookedUp(keys, lookup.contents)
      ensures keys == Renamed(old(keys), from, to) && completed == KeyCount(old(keys), from)
    {
      ghost var before := keys;
      completed := 0;
      var more := true;
      while more
        invariant lookup.Valid() && free.Valid() && free.contents == old(free.contents)
        invariant KeysLookedUp(keys, lookup.contents)
        invariant to != FREE_KEY || keys == before ==> LookedUp(keys, lookup.contents)
        invariant (lookup.slots == old(lookup.slots) || fresh(lookup.slots)) && old(lookup.slots.Length) <= lookup.slots.Length
        invariant PartlyRenamed(before, keys, from, to) && (from != to || from == FREE_KEY || Unused(keys, from))
        invariant completed + KeyCount(keys, from) == KeyCount(before, from)
        invariant !more ==> from == FREE_KEY || Unused(keys, from)
        invariant from == FREE_KEY ==> keys == before
        decreases KeyCount(keys, from), more
      {
        more := RenameCounted(from, to, before);
        if more {
          completed := completed + 1;
        }
      }
      KeyCountNone(keys, from);
      AllRenamed(before, keys, from, to);
    }

    /** The vector of a member with the key. */
    method Get(key: nat) returns (found: bool, vector: Vector, ghost slot: nat)
      requires Valid()
      ensures found <==> key != FREE_KEY && !Unused(keys, key)
      ensures found ==> slot < |keys| && keys[slot] == key && vector == vectors[slot]
      ensures !multi ==> (found <==> key in StoredVectors()) && (found ==> vector == StoredVectors()[key])
    {
      HasEntry(keys, lookup.contents, key);
      var e;
      found, e := lookup.Find(key);
      slot, vector := e.slot, [];
      if found {
        assert lookup.contents[e] > 0;
        vector := vectors[e.slot];
        if !multi {
          StoredAt(keys, vectors[..], slot);
        }
      } else {
        NotStored(keys, key);
      }
    }

    /** The vectors of the first `limit` entries that iterating over the range of the key visits. Where all slots of the
        lookup are used, that may be none, or the same ones again and again. */
    method GetAll(key: nat, limit: nat) returns (exported: seq<Vector>, found: seq<Entry>)
      requires Valid()
      ensures forall k :: 0 <= k < |found| ==> found[k] in Only(lookup.contents, key) && found[k].slot < |keys|
      ensures exported == VectorsOf(vectors[..], FirstSlots(found, limit))
      ensures if NeverEnding(lookup.slots[..], lookup.hash, key) then |found| == limit
              else if Missed(lookup.slots[..], lookup.hash, key) then found == []
              else multiset(found) == Only(lookup.contents, key)
    {
      var range := FindAll(key);
      match range {
        case Ends(all) =>
          found := all;
          AllInMultiset(found);
        case Endless =>
          found := lookup.GoRound(key, limit);
          EntriesInRange(keys, lookup.contents, key, found);
      }
      exported := Fetch(vectors, FirstSlots(found, limit));
    }

    /** Makes room for `members` members; the capacity follows that of the lookup. That the vectors there are fit into
        as many slots as the lookup has is not looked at; where they do not, they are copied beyond the end of the new table. */
    method Reserve(members: nat) returns (fits: bool)
      requires Valid()
      modifies this`capacity, this`vectors, lookup
      ensures Valid() && fresh(Footprint() - old(Footprint())) && keys == old(keys)
      ensures lookup.slots.Length == SlotsFor(members, old(lookup.slots.Length))
      ensures fits <==> old(vectors.Length) <= SlotsFor(members, old(lookup.slots.Length))
      ensures fits ==> capacity == Max(old(capacity), lookup.slots.Length) && members <= capacity
      ensures fits ==> old(vectors.Length) <= vectors.Length == lookup.slots.Length
      ensures fits ==> vectors[..old(vectors.Length)] == old(vectors[..])
      ensures old(InStep()) ==> fits && Ready() && InStep()
    {
      lookup.TryReserve(members);
      var limit := lookup.slots.Length;
      fits := vectors.Length <= limit;
      if !fits {
        return;
      }
      if limit != vectors.Length {
        vectors := Enlarged(vectors, limit);
      }
      capacity := Max(capacity, limit);
    }

    /** Removes all members; no slot is left that has room for a vector. */
    method Clear()
      requires Valid()
      modifies this`keys, this`vectors, free, lookup, lookup.slots
      ensures Valid() && fresh(Footprint() - old(Footprint())) && capacity == old(capacity) && (old(InStep()) ==> InStep())
      ensures keys == [] && vectors.Length == 0
    {
      lookup.Clear();
      free.Clear();
      keys, vectors := [], new Vector[0];
      NothingConsistent(multi);
    }

    /** Empties the ring and the lookup and makes room in them for what the keys say. */
    method StartOver(removed: nat)
      requires lookup.Valid() && free.Valid() && removed == |FreeAscending(keys, |keys|)| <= |keys|
      modifies free, lookup, lookup.slots
      ensures lookup.Valid() && free.Valid() && lookup.contents == multiset{} && free.contents == []
      ensures lookup.slots == old(lookup.slots) || fresh(lookup.slots)
      ensures free.elements == old(free.elements) || fresh(free.elements)
      ensures removed <= free.elements.Length
      ensures lookup.slots.Length == SlotsFor(LiveCount(keys), old(lookup.slots.Length))
      ensures LiveCount(keys) * 3 < lookup.slots.Length * 2 + 2
    {
      MakeRoom(|keys| - removed, removed);
    }

    /** Empties the ring and the lookup and makes room in them. */
    method MakeRoom(members: nat, removed: nat)
      requires lookup.Valid() && free.Valid()
      modifies free, lookup, lookup.slots
      ensures lookup.Valid() && free.Valid() && lookup.contents == multiset{} && free.contents == []
      ensures lookup.slots == old(lookup.slots) || fresh(lookup.slots)
      ensures free.elements == old(free.elements) || fresh(free.elements)
      ensures removed <= free.elements.Length
      ensures lookup.slots.Length == SlotsFor(members, old(lookup.slots.Length))
      ensures members * 3 < lookup.slots.Length * 2 + 2
    {
      ClearLookup(members);
      ClearFree(removed);
    }

    method ClearFree(removed: nat)
      requires lookup.Valid() && free.Valid()
      modifies free
      ensures lookup.Valid() && free.Valid() && free.contents == [] && removed <= free.elements.Length
      ensures free.elements == old(free.elements) || fresh(free.elements)
    {
      free.Clear();
      var reserved := free.Reserve(removed);
    }

    method ClearLookup(members: nat)
      requires lookup.Valid() && free.Valid()
      modifies lookup, lookup.slots
      ensures lookup.Valid() && free.Valid() && lookup.contents == multiset{}
      ensures lookup.slots == old(lookup.slots) || fresh(lookup.slots)
      ensures lookup.slots.Length == SlotsFor(members, old(lookup.slots.Length)) && members * 3 < lookup.slots.Length * 2 + 2
    {
      lookup.Clear();
      lookup.TryReserve(members);
    }

    /** Puts the slot of node `i` into the ring or the lookup. */
    method Reindex(i: nat)
      requires lookup.Valid() && free.Valid() && i < |keys| && PartlyIndexed(keys, i, free.contents, lookup.contents)
      requires |FreeAscending(keys, |keys|)| <= free.elements.Length && LiveCount(keys) * 3 < lookup.slots.Length * 2 + 2
      modifies free, free.elements, lookup, lookup.slots
      ensures lookup.Valid() && free.Valid() && free.elements == old(free.elements) && lookup.slots == old(lookup.slots)
      ensures PartlyIndexed(keys, i + 1, free.contents, lookup.contents)
    {
      PartlyIndexedNext(keys, i, free.contents, lookup.contents);
      if keys[i] == FREE_KEY {
        free.Push(i);
      } else {
        PutEntry(keys[i], i);
      }
    }

    method CountRemoved() returns (removed: nat)
      ensures removed == |FreeAscending(keys, |keys|)| <= |keys|
    {
      removed := 0;
      for i := 0 to |keys|
        invariant removed == |FreeAscending(keys, i)| <= i
      {
        if keys[i] == FREE_KEY {
          removed := removed + 1;
        }
      }
    }

    /** Rebuilds the lookup and the ring from the keys of the nodes; whether keys that must not repeat do is not looked at.
        The lookup is made for the members that are left. */
    method ReindexKeys()
      requires lookup.Valid() && free.Valid() && |keys| <= capacity && |keys| <= vectors.Length
      modifies free, free.elements, lookup, lookup.slots
      ensures Valid() <==> multi || UniqueKeys(keys)
      ensures fresh(Footprint() - old(Footprint()))
      ensures FreeSlots(keys, free.contents) && LookedUp(keys, lookup.contents)
      ensures free.contents == FreeAscending(keys, |keys|)
      ensures lookup.slots.Length == SlotsFor(LiveCount(keys), old(lookup.slots.Length))
    {
      var removed := CountRemoved();
      StartOver(removed);
      ReindexAll();
      Reindexed(keys, lookup.contents, multi);
    }

    method ReindexAll()
      requires lookup.Valid() && free.Valid() && lookup.contents == multiset{} && free.contents == []
      requires |FreeAscending(keys, |keys|)| <= free.elements.Length && LiveCount(keys) * 3 < lookup.slots.Length * 2 + 2
      modifies free, free.elements, lookup, lookup.slots
      ensures lookup.Valid() && free.Valid() && free.elements == old(free.elements) && lookup.slots == old(lookup.slots)
      ensures PartlyIndexed(keys, |keys|, free.contents, lookup.contents)
    {
      NothingConsistent(multi);
      for i := 0 to |keys|
        invariant lookup.Valid() && free.Valid() && free.elements == old(free.elements) && lookup.slots == old(lookup.slots)
        invariant PartlyIndexed(keys, i, free.contents, lookup.contents)
      {
        Reindex(i);
      }
    }
  }

  lemma RemovedAndFreed(keys: seq<nat>, ring: seq<nat>, entries: multiset<Entry>, multi: bool, key: nat, found: seq<Entry>,
                        rest: multiset<Entry>)
    requires Consistent(keys, ring, entries, multi) && multiset(found) == Only(entries, key)
    requires entries == rest + Only(entries, key)
    ensures Freed(keys, SlotsOf(found)) == WithoutKey(keys, key)
    ensures Consistent(Freed(keys, SlotsOf(found)), ring + SlotsOf(found), rest, multi)
  {
    Removed(keys, ring, entries, multi, key, found, rest);
    FreedFound(keys, entries, key, found);
  }

  /** An index with nodes and vectors read from a file. */
  method FromFile(multi: bool, hash: nat -> nat, keys: seq<nat>, vectors: seq<Vector>) returns (index: DenseIndex)
    requires |keys| == |vectors|
    ensures fresh(index) && fresh(index.Footprint())
    ensures index.multi == multi && index.keys == keys && index.vectors[..] == vectors && index.capacity == |keys|
    ensures index.Valid() <==> multi || UniqueKeys(keys)
    ensures FreeSlots(keys, index.free.contents) && LookedUp(keys, index.lookup.contents)
    ensures index.lookup.slots.Length == SlotsFor(LiveCount(keys), 0)
  {
    index := new DenseIndex.Unindexed(multi, hash, keys, vectors);
    index.ReindexKeys();
  }

  lemma Reindexed(keys: seq<nat>, entries: multiset<Entry>, multi: bool)
    requires LookedUp(keys[..|keys|], entries)
    ensures FreeSlots(keys, FreeAscending(keys, |keys|)) && LookedUp(keys, entries)
    ensures Consistent(keys, FreeAscending(keys, |keys|), entries, multi) <==> multi || UniqueKeys(keys)
  {
    FreeAscendingSpec(keys, |keys|);
    assert keys[..|keys|] == keys;
  }

  /** Reserving for as many members as there are vectors is safe. */
  lemma ReservingAll(members: nat, present: nat, vectors: nat)
    requires vectors <= members
    ensures vectors <= SlotsFor(members, present)
  {
    if members * 3 > present * 2 {
      SizeForSpec(members, present);
    }
  }

  /** Reserving after loading stays inside the new vector table exactly if the nodes are no more than the slots that the
      lookup, made for the members that are left, comes to have. */
  method LoadThenReserve(multi: bool, hash: nat -> nat, keys: seq<nat>, vectors: seq<Vector>, members: nat) returns (fits: bool)
    requires |keys| == |vectors| && (multi || UniqueKeys(keys))
    ensures fits <==> |keys| <= SlotsFor(members, SlotsFor(LiveCount(keys), 0))
  {
    var index := FromFile(multi, hash, keys, vectors);
    fits := index.Reserve(members);
  }

  /** The keys of `n` nodes, of which the first `removed` have been removed. */
  function FirstNodesRemoved(n: nat, removed: nat): (keys: seq<nat>)
    requires removed <= n <= FREE_KEY
    ensures |keys| == n && forall u :: 0 <= u < n ==> keys[u] == if u < removed then FREE_KEY else u
  {
    seq(n, u requires 0 <= u < n => if u < removed then FREE_KEY else u)
  }

  lemma {:induction false} RemovedAscending(keys: seq<nat>, removed: nat, n: nat)
    requires n <= |keys| <= FREE_KEY && removed <= |keys| && keys == FirstNodesRemoved(|keys|, removed)
    ensures |FreeAscending(keys, n)| == Min(n, removed)
  {
    if n > 0 {
      RemovedAscending(keys, removed, n - 1);
    }
  }

  /** Of a hundred nodes ninety are removed: loading makes the lookup for ten, and reserving for twenty keeps it, while
      there are a hundred vectors to copy. */
  method ReservingFewer(hash: nat -> nat, vectors: seq<Vector>) returns (fits: bool)
    requires |vectors| == 100
    ensures !fits
  {
    var keys := FirstNodesRemoved(100, 90);
    RemovedAscending(keys, 90, 100);
    SmallestSize(10);
    assert LiveCount(keys) == 10;
    fits := LoadThenReserve(false, hash, keys, vectors, 20);
  }

  /** Copies the vectors of the given slots. */
  method Fetch(vectors: array<Vector>, slots: seq<nat>) returns (exported: seq<Vector>)
    requires forall k :: 0 <= k < |slots| ==> slots[k] < vectors.Length
    ensures exported == VectorsOf(vectors[..], slots)
  {
    exported := [];
    for k := 0 to |slots|
      invariant |exported| == k && forall j :: 0 <= j < k ==> exported[j] == vectors[slots[j]]
    {
      exported := exported + [vectors[slots[k]]];
    }
  }

  method Enlarged(present: array<Vector>, length: nat) returns (larger: array<Vector>)
    requires present.Length <= length
    ensures fresh(larger) && larger.Length == length && larger[..present.Length] == present[..]
  {
    larger := new Vector[length];
    for i := 0 to present.Length
      modifies larger
      invariant larger[..i] == present[..i]
    {
      larger[i] := present[i];
    }
  }

  lemma NothingConsistent(multi: bool)
    ensures Consistent([], [], multiset{}, multi)
  {
  }

  lemma OwedStep(keys: seq<nat>, list: seq<nat>, k: nat)
    requires k < |list|
    ensures Owed(keys, list[k..]) >= KeyCount(keys, list[k]) + Owed(WithoutKey(keys, list[k]), list[k + 1..])
    ensures WithoutKeys(keys, list[..k + 1]) == WithoutKey(WithoutKeys(keys, list[..k]), list[k])
  {
    OwedHead(keys, list[k..]);
    assert list[k..][1..] == list[k + 1..] && list[..k + 1][..k] == list[..k];
    OwedWithout(keys, list[k], list[k + 1..]);
  }

  lemma NotEmpty(entries: multiset<Entry>, rest: multiset<Entry>, e: Entry)
    requires entries == rest + multiset{e}
    ensures Only(entries, e.key) != multiset{} && entries == rest + multiset{Entry(e.key, e.slot)}
  {
    assert e in Only(entries, e.key);
  }

  lemma NotStored(keys: seq<nat>, key: nat)
    requires key == FREE_KEY || Unused(keys, key)
    ensures key !in LiveKeys(keys)
  {
  }

  lemma FoundCount(keys: seq<nat>, entries: multiset<Entry>, key: nat, found: seq<Entry>)
    requires LookedUp(keys, entries) && multiset(found) == Only(entries, key)
    ensures |found| == KeyCount(keys, key)
  {
    assert |multiset(found)| == |found|;
    EntryCount(keys, entries, key);
  }

  lemma EntryCount(keys: seq<nat>, entries: multiset<Entry>, key: nat)
    requires LookedUp(keys, entries)
    ensures |Only(entries, key)| == KeyCount(keys, key)
  {
    if key == FREE_KEY {
      HasEntry(keys, entries, key);
    } else {
      OnlyCount(keys, entries, key);
    }
  }

  /** None of the listed keys is in use. */
  ghost predicate NoneUsed(keys: seq<nat>, list: seq<nat>) {
    forall k :: 0 <= k < |list| ==> list[k] == FREE_KEY || Unused(keys, list[k])
  }

  /** The place of the first listed key that is in use. */
  ghost function FirstUsed(keys: seq<nat>, list: seq<nat>): (k: nat)
    ensures k <= |list| && NoneUsed(keys, list[..k])
    ensures k < |list| ==> list[k] != FREE_KEY && !Unused(keys, list[k])
  {
    if list == [] then 0
    else if list[0] != FREE_KEY && !Unused(keys, list[0]) then 0
    else FirstUsed(keys, list[1..]) + 1
  }

  lemma NoneUsedStep(keys: seq<nat>, list: seq<nat>, k: nat)
    requires k < |list|
    ensures NoneUsed(keys, list[..k + 1]) <==> NoneUsed(keys, list[..k]) && (list[k] == FREE_KEY || Unused(keys, list[k]))
    ensures NoneUsed(keys, list[..k]) && list[k] != FREE_KEY && !Unused(keys, list[k]) ==>
      FirstUsed(keys, list) == k && !NoneUsed(keys, list)
  {
    var f := FirstUsed(keys, list);
    assert list[..k + 1] == list[..k] + [list[k]];
    assert f < k ==> list[..k][f] == list[f];
    assert f > k ==> list[..f][k] == list[k];
  }

  lemma NothingFound(keys: seq<nat>, entries: multiset<Entry>, key: nat)
    requires LookedUp(keys, entries)
    ensures Only(entries, key) == multiset{} ==> WithoutKey(keys, key) == keys && KeyCount(keys, key) == 0
  {
    HasEntry(keys, entries, key);
    if Only(entries, key) == multiset{} {
      KeyCountNone(keys, key);
      assert WithoutKey(keys, key) == keys;
    }
  }

  lemma AllInMultiset(found: seq<Entry>)
    ensures forall k :: 0 <= k < |found| ==> found[k] in multiset(found)
  {
  }

  lemma EntriesInRange(keys: seq<nat>, entries: multiset<Entry>, key: nat, found: seq<Entry>)
    requires LookedUp(keys, entries) && forall k :: 0 <= k < |found| ==> found[k] in Only(entries, key)
    ensures forall k :: 0 <= k < |found| ==> found[k].slot < |keys|
  {
    forall k | 0 <= k < |found|
      ensures found[k].slot < |keys|
    {
      assert entries[found[k]] == if HasKey(keys, found[k]) then 1 else 0;
    }
  }

  lemma HasEntry(keys: seq<nat>, entries: multiset<Entry>, key: nat)
    requires LookedUp(keys, entries)
    ensures Only(entries, key) != multiset{} <==> key != FREE_KEY && !Unused(keys, key)
  {
    if key == FREE_KEY {
      forall e | e in entries
        ensures e.key != key
      {
        assert entries[e] > 0;
      }
      OnlyNone(entries, key);
    } else {
      NoEntryUnused(keys, entries, key);
    }
  }
}
