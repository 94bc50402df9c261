/** What a probe answers on any table, whether or not its chains are whole, and what it answers on a copy. */
module ProbeAnswers {
  import opened Probing
  import opened ProbeTables

  /** Where a probe from `h` that has gone `d` steps ends: at a slot never used, or all the way round. */
  ghost function Reach(slots: seq<Slot>, h: nat, d: nat): (r: nat)
    requires h < |slots| && d <= |slots|
    ensures d <= r <= |slots|
    ensures forall k: nat {:trigger Wrap(h, k, |slots|)} :: d <= k < r ==> slots[Wrap(h, k, |slots|)].populated
    ensures r < |slots| ==> !slots[Wrap(h, r, |slots|)].populated
    decreases |slots| - d
  {
    if d < |slots| && slots[Wrap(h, d, |slots|)].populated then Reach(slots, h, d + 1) else d
  }

  /** How many entries with the key a probe from its home passes. */
  ghost function Probed(slots: seq<Slot>, hash: nat -> nat, key: nat): nat {
    if slots == [] then 0
    else
      var h := Home(hash(key), |slots|);
      Passed(slots, h, Reach(slots, h, 0), key)
  }

  lemma {:induction false} PassedBetween(slots: seq<Slot>, h: nat, d: nat, e: nat, key: nat)
    requires h < |slots| && d <= e <= |slots|
    ensures Passed(slots, h, d, key) <= Passed(slots, h, e, key)
    ensures Passed(slots, h, d, key) == Passed(slots, h, e, key) <==>
            forall k: nat {:trigger Wrap(h, k, |slots|)} :: d <= k < e ==> !Matches(slots[Wrap(h, k, |slots|)], key)
    decreases e
  {
    if d < e {
      PassedBetween(slots, h, d, e - 1, key);
      assert forall k: nat {:trigger Wrap(h, k, |slots|)} :: d <= k < e ==> k == e - 1 || k < e - 1;
    }
  }

  /** A probe that has met no match. */
  lemma {:induction false} NothingPassed(slots: seq<Slot>, h: nat, d: nat, key: nat)
    requires h < |slots| && d <= |slots| && Unmatched(slots, h, d, key)
    ensures Passed(slots, h, d, key) == 0
  {
    PassedBetween(slots, h, 0, d, key);
  }

  /** A probe that has met a match before its end. */
  lemma {:induction false} SomethingPassed(slots: seq<Slot>, h: nat, d: nat, key: nat)
    requires h < |slots| && d < |slots| && Matches(slots[Wrap(h, d, |slots|)], key)
    requires Reach(slots, h, d) == Reach(slots, h, 0)
    ensures Passed(slots, h, Reach(slots, h, 0), key) > 0
  {
    PassedBetween(slots, h, d + 1, Reach(slots, h, d), key);
  }

  /** Where the chains are whole, a probe passes all entries with the key. */
  lemma {:induction false} ProbedAll(slots: seq<Slot>, hash: nat -> nat, key: nat)
    requires Table(slots, hash)
    ensures Probed(slots, hash, key) == |Only(Entries(slots), key)|
  {
    if slots == [] {
      OnlyNoMatch(slots, key);
    } else {
      PassedAll(slots, hash, key, Reach(slots, Home(hash(key), |slots|), 0));
    }
  }

  /** All entries with the key are passed by a probe that goes all the way round. */
  lemma {:induction false} RoundCount(slots: seq<Slot>, h: nat, key: nat)
    requires h < |slots|
    ensures Passed(slots, h, |slots|, key) == |Only(Entries(slots), key)|
  {
    PassedCount(slots, h, |slots|, key);
    MatchCountEntries(Around(slots, h), |slots|, key);
    assert Around(slots, h)[..|slots|] == Around(slots, h);
    AroundEntries(slots, h);
  }

  /** No tombstone stands between the home of a live entry with the key and that entry. */
  ghost predicate KeyChainedByLive(slots: seq<Slot>, hash: nat -> nat, key: nat) {
    forall i: nat {:trigger ChainedByLive(slots, hash, i)} ::
      i < |slots| && Matches(slots[i], key) ==> ChainedByLive(slots, hash, i)
  }

  /** On a copy, an entry is within reach exactly if the entry copied was not reached across a tombstone. */
  lemma {:induction false} WithinReach(slots: seq<Slot>, copy: seq<Slot>, hash: nat -> nat, i: nat)
    requires i < |slots| && Live(slots[i]) && copy == Copied(slots)
    ensures var h := Home(hash(slots[i].entry.key), |slots|);
      Gap(h, i, |slots|) < Reach(copy, h, 0) <==> ChainedByLive(slots, hash, i)
  {
    var n := |slots|;
    var h := Home(hash(slots[i].entry.key), n);
    var g, d := Gap(h, i, n), Reach(copy, h, 0);
    assert slots[Wrap(h, g, n)] == slots[i] && copy[i].populated;
    if g < d {
      forall k | 0 <= k < g
        ensures Live(slots[Wrap(h, k, n)])
      {
        assert copy[Wrap(h, k, n)].populated;
      }
    } else {
      assert !Live(slots[Wrap(h, d, n)]);
      assert d != g;
    }
  }

  /** A count on the copy is right for a key exactly if no entry with that key was reached across a tombstone. */
  lemma {:induction false} CopyCount(slots: seq<Slot>, hash: nat -> nat, key: nat)
    ensures Probed(Copied(slots), hash, key) == |Only(Entries(slots), key)| <==> KeyChainedByLive(slots, hash, key)
  {
    var copy := Copied(slots);
    CopiedEntries(slots, copy);
    if slots == [] {
      OnlyNoMatch(slots, key);
    } else {
      var n := |slots|;
      var h := Home(hash(key), n);
      var d := Reach(copy, h, 0);
      RoundCount(copy, h, key);
      PassedBetween(copy, h, d, n, key);
      if KeyChainedByLive(slots, hash, key) {
        forall k: nat | d <= k < n
          ensures !Matches(copy[Wrap(h, k, n)], key)
        {
          var i := Wrap(h, k, n);
          GapUnique(h, k, n);
          if Matches(slots[i], key) {
            WithinReach(slots, copy, hash, i);
          }
        }
      } else {
        var i: nat :| i < n && Matches(slots[i], key) && !ChainedByLive(slots, hash, i);
        WithinReach(slots, copy, hash, i);
        assert Matches(copy[Wrap(h, Gap(h, i, n), n)], key);
      }
    }
  }

  /** Where nothing is marked deleted, a copy answers like the table it is made of. */
  lemma {:induction false} UnmarkedCopy(slots: seq<Slot>, hash: nat -> nat, key: nat)
    requires Table(slots, hash) && forall i :: 0 <= i < |slots| ==> !slots[i].deleted
    ensures Probed(Copied(slots), hash, key) == |Only(Entries(slots), key)|
  {
    forall i: nat | i < |slots| && Matches(slots[i], key)
      ensures ChainedByLive(slots, hash, i)
    {
      assert Chained(slots, hash, i);
    }
    CopyCount(slots, hash, key);
  }

  /** Two keys with the same home, the first of them removed. */
  function FirstRemoved(): (slots: seq<Slot>)
    ensures |slots| == 64 && slots[0] == Slot(true, true, Entry(64, 1)) && slots[1] == Slot(true, false, Entry(0, 2))
    ensures forall i :: 2 <= i < 64 ==> slots[i] == EMPTY
  {
    [Slot(true, true, Entry(64, 1)), Slot(true, false, Entry(0, 2))] + seq(62, _ => EMPTY)
  }

  /** The table finds the second, its copy does not. */
  lemma {:induction false} CopyLosesEntry(hash: nat -> nat)
    requires hash(0) == 0
    ensures var slots := FirstRemoved();
      Table(slots, hash) && Probed(slots, hash, 0) == 1 == |Only(Entries(slots), 0)| && Probed(Copied(slots), hash, 0) == 0
  {
    var slots := FirstRemoved();
    assert forall i :: 0 <= i < 64 ==> Chained(slots, hash, i);
    SecondPassed(slots);
    ProbedAll(slots, hash, 0);
    FirstMissing(Copied(slots));
  }

  lemma {:induction false} SecondPassed(slots: seq<Slot>)
    requires slots == FirstRemoved()
    ensures Passed(slots, 0, Reach(slots, 0, 0), 0) == 1
  {
    assert slots[Wrap(0, 0, 64)].populated && slots[Wrap(0, 1, 64)].populated && !slots[Wrap(0, 2, 64)].populated;
    assert Passed(slots, 0, 0, 0) == 0 && Passed(slots, 0, 1, 0) == 0;
  }

  lemma {:induction false} FirstMissing(slots: seq<Slot>)
    requires |slots| == 64 && !slots[0].populated
    ensures Passed(slots, 0, Reach(slots, 0, 0), 0) == 0
  {
    assert slots[Wrap(0, 0, 64)] == slots[0];
  }
}
