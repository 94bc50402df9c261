/** The set of nodes a traversal has visited: open addressing, no deletions, explicit growth. */
module GrowingHashSets {
  import opened Numbers
  import opened Probing

  /** The value that marks an unused slot; it is never a member. */
  const FREE: nat := 0xFFFF_FFFF

  ghost function Members(slots: seq<nat>): set<nat> {
    set i | 0 <= i < |slots| && slots[i] != FREE :: slots[i]
  }

  ghost function UsedPositions(slots: seq<nat>): set<nat> {
    set i | 0 <= i < |slots| && slots[i] != FREE
  }

  /** Every slot from the home of what is stored at `i` up to `i` is in use. */
  ghost predicate Chained(slots: seq<nat>, hash: nat -> nat, i: nat)
    requires i < |slots|
  {
    slots[i] != FREE ==>
      var h := Home(hash(slots[i]), |slots|);
      forall d :: 0 <= d < Gap(h, i, |slots|) ==> slots[Wrap(h, d, |slots|)] != FREE
  }

  /** No member is stored twice, and every member is chained to its home. */
  ghost predicate ProbeOrder(slots: seq<nat>, hash: nat -> nat) {
    && (forall i, j :: 0 <= i < j < |slots| && slots[i] != FREE ==> slots[i] != slots[j])
    && (forall i {:trigger Chained(slots, hash, i)} :: 0 <= i < |slots| ==> Chained(slots, hash, i))
  }

  lemma NoMembers(slots: seq<nat>)
    requires |UsedPositions(slots)| == 0
    ensures Members(slots) == {} && forall i :: 0 <= i < |slots| ==> slots[i] == FREE
  {
    forall i | 0 <= i < |slots|
      ensures slots[i] == FREE
    {
      assert i in UsedPositions(slots) <==> slots[i] != FREE;
    }
  }

  lemma MissIsAbsent(slots: seq<nat>, hash: nat -> nat, elem: nat, d: nat)
    requires ProbeOrder(slots, hash) && d < |slots| && elem != FREE
    requires var h := Home(hash(elem), |slots|);
      && slots[Wrap(h, d, |slots|)] == FREE
      && forall k :: 0 <= k < d ==> slots[Wrap(h, k, |slots|)] != elem
    ensures elem !in Members(slots)
  {
    forall x | x in Members(slots)
      ensures x != elem
    {
      var i :| 0 <= i < |slots| && slots[i] != FREE && slots[i] == x;
      assert Chained(slots, hash, i);
      var home := Home(hash(x), |slots|);
      var reached := slots[Wrap(home, Gap(home, i, |slots|), |slots|)];
    }
  }

  lemma AddedAtMiss(slots: seq<nat>, hash: nat -> nat, elem: nat, d: nat)
    requires ProbeOrder(slots, hash) && d < |slots| && elem != FREE && elem !in Members(slots)
    requires var h := Home(hash(elem), |slots|);
      && slots[Wrap(h, d, |slots|)] == FREE
      && forall k :: 0 <= k < d ==> slots[Wrap(h, k, |slots|)] != FREE
    ensures var at := Wrap(Home(hash(elem), |slots|), d, |slots|);
      && ProbeOrder(slots[at := elem], hash)
      && Members(slots[at := elem]) == Members(slots) + {elem}
      && UsedPositions(slots[at := elem]) == UsedPositions(slots) + {at}
  {
    var h := Home(hash(elem), |slots|);
    var at := Wrap(h, d, |slots|);
    GapUnique(h, d, |slots|);
    var r := slots[at := elem];
    assert r[at] == elem;
    forall i | 0 <= i < |r|
      ensures Chained(r, hash, i)
    {
      assert Chained(slots, hash, i);
    }
    forall x | x in Members(slots)
      ensures x in Members(r)
    {
      var i :| 0 <= i < |slots| && slots[i] != FREE && slots[i] == x;
      assert r[i] == x;
    }
  }

  lemma {:induction false} UsedInPrefix(slots: seq<nat>, k: nat)
    requires k <= |slots|
    ensures UsedPositions(slots[..k]) <= UsedPositions(slots)
    ensures |UsedPositions(slots[..k])| <= k
    ensures k < |slots| && slots[k] != FREE ==> UsedPositions(slots[..k + 1]) == UsedPositions(slots[..k]) + {k}
    ensures k < |slots| && slots[k] == FREE ==> UsedPositions(slots[..k + 1]) == UsedPositions(slots[..k])
    decreases k
  {
    if k > 0 {
      UsedInPrefix(slots, k - 1);
    }
  }

  lemma MembersInPrefix(slots: seq<nat>, hash: nat -> nat, k: nat)
    requires k < |slots| && ProbeOrder(slots, hash)
    ensures slots[k] != FREE ==> slots[k] !in Members(slots[..k])
    ensures slots[k] != FREE ==> Members(slots[..k + 1]) == Members(slots[..k]) + {slots[k]}
    ensures slots[k] == FREE ==> Members(slots[..k + 1]) == Members(slots[..k])
  {
    forall x | x in Members(slots[..k])
      ensures x in Members(slots[..k + 1])
    {
      var i :| 0 <= i < k && slots[i] != FREE && slots[i] == x;
      assert slots[..k + 1][i] == x;
    }
    assert slots[..k + 1][k] == slots[k];
  }

  class GrowingHashSet {
    /** The members. */
    ghost var contents: set<nat>

    const hash: nat -> nat
    var slots: array<nat>
    var count: nat

    ghost predicate Valid()
      reads this, slots
    {
      && (slots.Length == 0 || IsPow2(slots.Length))
      && ProbeOrder(slots[..], hash)
      && count == |UsedPositions(slots[..])|
      && contents == Members(slots[..])
    }

    constructor (hash: nat -> nat)
      ensures Valid() && fresh(slots) && contents == {} && count == 0
      ensures this.hash == hash
    {
      this.hash := hash;
      slots := new nat[0];
      count := 0;
      contents := {};
    }

    lemma FreeSlotExists() returns (i: nat)
      requires Valid() && count < slots.Length
      ensures i < slots.Length && slots[i] == FREE
    {
      i := SomeMissing(UsedPositions(slots[..]), slots.Length);
    }

    /** Walks from the home of `elem` to `elem` or to the first free slot. */
    method Probe(elem: nat) returns (index: nat, ghost d: nat)
      requires Valid() && count < slots.Length && elem != FREE
      ensures d < slots.Length && index == Wrap(Home(hash(elem), slots.Length), d, slots.Length)
      ensures slots[index] == FREE || slots[index] == elem
      ensures forall k :: 0 <= k < d ==>
        slots[Wrap(Home(hash(elem), slots.Length), k, slots.Length)] !in {FREE, elem}
    {
      var n := slots.Length;
      ghost var free := FreeSlotExists();
      ghost var h := Home(hash(elem), n);
      ghost var stop := Gap(h, free, n);
      index := Home(hash(elem), n);
      d := 0;
      while slots[index] != FREE && slots[index] != elem
        invariant d <= stop && index == Wrap(h, d, n)
        invariant forall k :: 0 <= k < d ==> slots[Wrap(h, k, n)] !in {FREE, elem}
        decreases stop - d
      {
        index := Wrap(index, 1, n);
        d := d + 1;
      }
    }

    method Test(elem: nat) returns (found: bool)
      requires Valid() && count < slots.Length && elem != FREE
      ensures found <==> elem in contents
    {
      var index, d := Probe(elem);
      found := slots[index] == elem;
      if !found {
        MissIsAbsent(slots[..], hash, elem, d);
      }
    }

    /** Adds `elem`; the result says whether it was a member already. */
    method Set(elem: nat) returns (found: bool)
      requires Valid() && count < slots.Length && elem != FREE
      modifies this, slots
      ensures Valid() && contents == old(contents) + {elem} && slots == old(slots)
      ensures found <==> elem in old(contents)
      ensures count == old(count) + if found then 0 else 1
    {
      var index, d := Probe(elem);
      if slots[index] == elem {
        return true;
      }
      MissIsAbsent(slots[..], hash, elem, d);
      AddedAtMiss(slots[..], hash, elem, d);
      ghost var before := slots[..];
      slots[index] := elem;
      assert slots[..] == before[index := elem];
      count := count + 1;
      contents := contents + {elem};
      found := false;
    }

    method Clear()
      requires Valid()
      modifies this, slots
      ensures Valid() && contents == {} && count == 0 && slots == old(slots)
    {
      forall i | 0 <= i < slots.Length {
        slots[i] := FREE;
      }
      count := 0;
      contents := {};
      assert UsedPositions(slots[..]) == {};
    }

    /** Puts `elem` into the first free slot of `fresher` from its home on. */
    method Rehash(fresher: array<nat>, elem: nat)
      requires ProbeOrder(fresher[..], hash) && elem != FREE && elem !in Members(fresher[..])
      requires |UsedPositions(fresher[..])| < fresher.Length
      modifies fresher
      ensures ProbeOrder(fresher[..], hash)
      ensures Members(fresher[..]) == old(Members(fresher[..])) + {elem}
      ensures |UsedPositions(fresher[..])| == old(|UsedPositions(fresher[..])|) + 1
    {
      var n := fresher.Length;
      ghost var free := SomeMissing(UsedPositions(fresher[..]), n);
      ghost var h := Home(hash(elem), n);
      ghost var stop, d := Gap(h, free, n), 0;
      var index := Home(hash(elem), n);
      while fresher[index] != FREE
        invariant 0 <= d <= stop && index == Wrap(h, d, n)
        invariant forall k :: 0 <= k < d ==> fresher[Wrap(h, k, n)] != FREE
        decreases stop - d
      {
        index := Wrap(index, 1, n);
        d := d + 1;
      }
      ghost var before := fresher[..];
      AddedAtMiss(before, hash, elem, d);
      fresher[index] := elem;
      assert fresher[..] == before[index := elem];
    }

    /** Copies every member into `grown`, a larger table that has none yet. */
    method RehashAll(grown: array<nat>)
      requires Valid() && slots.Length < grown.Length && grown != slots
      requires forall i :: 0 <= i < grown.Length ==> grown[i] == FREE
      modifies grown
      ensures ProbeOrder(grown[..], hash)
      ensures Members(grown[..]) == contents && |UsedPositions(grown[..])| == count
    {
      ghost var before := slots[..];
      assert UsedPositions(grown[..]) == {};
      for i := 0 to slots.Length
        invariant ProbeOrder(grown[..], hash)
        invariant Members(grown[..]) == Members(before[..i])
        invariant |UsedPositions(grown[..])| == |UsedPositions(before[..i])|
      {
        UsedInPrefix(before, i);
        MembersInPrefix(before, hash, i);
        if slots[i] != FREE {
          Rehash(grown, slots[i]);
        }
      }
      assert before[..slots.Length] == before;
    }

    /** Grows to at least five thirds of `n` slots, so that `n` members leave a slot free. */
    method Reserve(n: nat)
      requires Valid()
      modifies this
      ensures Valid() && contents == old(contents) && count == old(count)
      ensures n * 5 / 3 <= slots.Length && old(slots.Length) <= slots.Length
      ensures n >= 2 ==> n < slots.Length
      ensures slots == old(slots) || fresh(slots)
    {
      var wanted := n * 5 / 3;
      if wanted <= slots.Length {
        return;
      }
      var grown := new nat[Ceil2(wanted)](_ => FREE);
      if count > 0 {
        RehashAll(grown);
      } else {
        NoMembers(slots[..]);
        assert UsedPositions(grown[..]) == {};
        NoMembers(grown[..]);
      }
      slots := grown;
    }
  }
}
