/** The range of entries with one key: what its two ends are, and when stepping from one to the other visits
    exactly the entries with the key. */
module EqualRanges {
  import opened Probing
  import opened ProbeTables

  /** Where the iterator comes to rest: at an unused slot, or at a live entry with the key. */
  predicate Stops(s: Slot, key: nat) {
    !s.populated || (!s.deleted && s.entry.key == key)
  }

  ghost predicate SuccessorAt(slots: seq<Slot>, key: nat, i: nat, j: nat, step: nat)
    requires i < |slots|
  {
    && 1 <= step <= |slots| && j == Wrap(i, step, |slots|) && Stops(slots[j], key)
    && forall t: nat {:trigger Wrap(i, t, |slots|)} :: 1 <= t < step ==> !Stops(slots[Wrap(i, t, |slots|)], key)
  }

  /** Incrementing an iterator at `i` leads to `j`. */
  ghost predicate Successor(slots: seq<Slot>, key: nat, i: nat, j: nat)
    requires i < |slots|
  {
    exists step: nat :: SuccessorAt(slots, key, i, j, step)
  }

  lemma SuccessorUnique(slots: seq<Slot>, key: nat, i: nat, j: nat, k: nat)
    requires i < |slots| && Successor(slots, key, i, j) && Successor(slots, key, i, k)
    ensures j == k && j < |slots|
  {
    var s: nat :| SuccessorAt(slots, key, i, j, s);
    var t: nat :| SuccessorAt(slots, key, i, k, t);
    assert Wrap(i, s, |slots|) == j && Wrap(i, t, |slots|) == k;
  }

  /** An iterator at `i` visits the positions in `trace` and then equals one at `last`. */
  ghost predicate Visits(slots: seq<Slot>, key: nat, i: nat, last: nat, trace: seq<nat>)
    decreases |trace|
  {
    if i == last then trace == []
    else
      && i < |slots| && trace != [] && trace[0] == i
      && exists j: nat :: Successor(slots, key, i, j) && Visits(slots, key, j, last, trace[1..])
  }

  /** Wherever an iterator that comes to its end goes from `i`, its visits go on from there. */
  lemma VisitsStep(slots: seq<Slot>, key: nat, i: nat, last: nat, trace: seq<nat>)
    requires Visits(slots, key, i, last, trace) && i != last
    ensures i < |slots| && trace != [] && trace[0] == i && exists j: nat :: Successor(slots, key, i, j)
    ensures forall j: nat :: Successor(slots, key, i, j) ==> Visits(slots, key, j, last, trace[1..])
  {
    var k: nat :| Successor(slots, key, i, k) && Visits(slots, key, k, last, trace[1..]);
    forall j: nat | Successor(slots, key, i, j)
      ensures Visits(slots, key, j, last, trace[1..])
    {
      SuccessorUnique(slots, key, i, j, k);
    }
  }

  ghost function TraceEntries(slots: seq<Slot>, trace: seq<nat>): multiset<Entry> {
    if trace == [] then multiset{}
    else (if trace[0] < |slots| then multiset{slots[trace[0]].entry} else multiset{}) + TraceEntries(slots, trace[1..])
  }

  ghost predicate Listed(slots: seq<Slot>, trace: seq<nat>, found: seq<Entry>) {
    |found| == |trace| && forall k :: 0 <= k < |trace| ==> trace[k] < |slots| && found[k] == slots[trace[k]].entry
  }

  lemma {:induction false} ListedEntries(slots: seq<Slot>, trace: seq<nat>, found: seq<Entry>)
    requires Listed(slots, trace, found)
    ensures multiset(found) == TraceEntries(slots, trace)
  {
    if trace != [] {
      ListedEntries(slots, trace[1..], found[1..]);
      assert found == [found[0]] + found[1..];
    }
  }

  lemma ListedNext(slots: seq<Slot>, trace: seq<nat>, found: seq<Entry>, k: nat, rest: seq<nat>)
    requires k <= |trace| && Listed(slots, trace[..k], found) && rest == trace[k..] && rest != [] && rest[0] < |slots|
    ensures k < |trace| && Listed(slots, trace[..k + 1], found + [slots[rest[0]].entry]) && rest[1..] == trace[k + 1..]
  {
  }

  /** From `d` steps after `h` on, the first unused slot is `last`, or it is `h`, once round. */
  ghost predicate LastAfter(slots: seq<Slot>, h: nat, d: nat, last: nat)
    requires h < |slots|
  {
    exists e: nat :: LastAt(slots, h, d, last, e)
  }

  ghost predicate LastAt(slots: seq<Slot>, h: nat, d: nat, last: nat, e: nat)
    requires h < |slots|
  {
    && d < e <= |slots| && last == Wrap(h, e, |slots|) && (e < |slots| ==> !slots[last].populated)
    && forall k: nat {:trigger Wrap(h, k, |slots|)} :: d < k < e ==> slots[Wrap(h, k, |slots|)].populated
  }

  ghost predicate PopulatedUpTo(slots: seq<Slot>, h: nat, d: nat)
    requires h < |slots| && d <= |slots|
  {
    forall k: nat {:trigger Wrap(h, k, |slots|)} :: k < d ==> slots[Wrap(h, k, |slots|)].populated
  }

  /** The ends of the range, if the probe comes to a match or an unused slot after `d` steps, or round without either. */
  ghost predicate RangeAt(slots: seq<Slot>, h: nat, key: nat, first: nat, last: nat, d: nat)
    requires h < |slots| && d <= |slots|
  {
    && Unmatched(slots, h, d, key) && PopulatedUpTo(slots, h, d)
    && if d == |slots| then first == h && LastAfter(slots, h, 0, last)
       else if Matches(slots[Wrap(h, d, |slots|)], key) then first == Wrap(h, d, |slots|) && LastAfter(slots, h, d, last)
       else !slots[Wrap(h, d, |slots|)].populated && first == last == |slots|
  }

  /** What `equal_range` answers; the capacity stands for the end of an empty range. */
  ghost predicate IsRange(slots: seq<Slot>, hash: nat -> nat, key: nat, first: nat, last: nat) {
    if slots == [] then first == last == 0
    else exists d: nat :: d <= |slots| && RangeAt(slots, Home(hash(key), |slots|), key, first, last, d)
  }

  predicate HasUnused(slots: seq<Slot>) {
    exists i :: 0 <= i < |slots| && !slots[i].populated
  }

  /** Erasing makes no slot unused. */
  lemma AllErasedUnused(before: seq<Slot>, after: seq<Slot>, key: nat)
    requires AllErased(before, after, key)
    ensures HasUnused(after) <==> HasUnused(before)
  {
    assert forall i :: 0 <= i < |before| ==> after[i].populated == before[i].populated;
  }

  lemma WrapAdd(h: nat, d: nat, t: nat, n: nat)
    requires h < n && d < n && d + t <= n
    ensures Wrap(Wrap(h, d, n), t, n) == Wrap(h, d + t, n)
  {
  }

  /** The positions of the matches from `d` to `e` steps after `h`. */
  ghost function MatchesBetween(slots: seq<Slot>, h: nat, key: nat, d: nat, e: nat): seq<nat>
    requires h < |slots| && e <= |slots|
    decreases e - d
  {
    if d >= e then []
    else
      var i := Wrap(h, d, |slots|);
      (if Matches(slots[i], key) then [i] else []) + MatchesBetween(slots, h, key, d + 1, e)
  }

  lemma {:induction false} MatchesBetweenEntries(slots: seq<Slot>, h: nat, key: nat, d: nat, e: nat)
    requires h < |slots| && d <= e <= |slots|
    ensures var ring := Around(slots, h);
      Only(Entries(ring[..d]), key) + TraceEntries(slots, MatchesBetween(slots, h, key, d, e)) == Only(Entries(ring[..e]), key)
    decreases e - d
  {
    if d < e {
      var i, rest := Wrap(h, d, |slots|), MatchesBetween(slots, h, key, d + 1, e);
      MatchesBetweenEntries(slots, h, key, d + 1, e);
      OnlyStep(Around(slots, h), d, key);
      if Matches(slots[i], key) {
        assert ([i] + rest)[1..] == rest;
        Regroup(Only(Entries(Around(slots, h)[..d]), key), multiset{slots[i].entry}, TraceEntries(slots, rest));
      } else {
        assert [] + rest == rest;
      }
    }
  }

  /** The next stop after `d`, searched from `x` on. */
  lemma {:induction false} NextStop(slots: seq<Slot>, h: nat, key: nat, d: nat, x: nat, e: nat) returns (y: nat)
    requires h < |slots| && d < x <= e < |slots| && !slots[Wrap(h, e, |slots|)].populated
    requires forall k: nat {:trigger Wrap(h, k, |slots|)} :: d < k < e ==> slots[Wrap(h, k, |slots|)].populated
    requires forall k: nat {:trigger Wrap(h, k, |slots|)} :: d < k < x ==> !Stops(slots[Wrap(h, k, |slots|)], key)
    ensures x <= y <= e && (y == e || Matches(slots[Wrap(h, y, |slots|)], key))
    ensures Successor(slots, key, Wrap(h, d, |slots|), Wrap(h, y, |slots|))
    ensures MatchesBetween(slots, h, key, x, e) == MatchesBetween(slots, h, key, y, e)
    decreases e - x
  {
    if Stops(slots[Wrap(h, x, |slots|)], key) {
      y := x;
      var i := Wrap(h, d, |slots|);
      forall t: nat | 1 <= t < x - d
        ensures !Stops(slots[Wrap(i, t, |slots|)], key)
      {
        WrapAdd(h, d, t, |slots|);
      }
      WrapAdd(h, d, x - d, |slots|);
      assert SuccessorAt(slots, key, i, Wrap(h, x, |slots|), x - d);
    } else {
      y := NextStop(slots, h, key, d, x + 1, e);
    }
  }

  /** Up to an unused slot, the iterator visits the matches in probe order. */
  lemma {:induction false} VisitsMatches(slots: seq<Slot>, h: nat, key: nat, d: nat, e: nat)
    requires h < |slots| && d <= e < |slots| && !slots[Wrap(h, e, |slots|)].populated
    requires forall k: nat {:trigger Wrap(h, k, |slots|)} :: d < k < e ==> slots[Wrap(h, k, |slots|)].populated
    requires d == e || Matches(slots[Wrap(h, d, |slots|)], key)
    ensures Visits(slots, key, Wrap(h, d, |slots|), Wrap(h, e, |slots|), MatchesBetween(slots, h, key, d, e))
    decreases e - d
  {
    if d < e {
      var y := NextStop(slots, h, key, d, d + 1, e);
      VisitsMatches(slots, h, key, y, e);
      var trace := MatchesBetween(slots, h, key, d, e);
      assert trace[1..] == MatchesBetween(slots, h, key, y, e);
    }
  }

  /** The iterator visits the entries with the key, each as often as it is held, and comes to its end. */
  ghost predicate Iterates(slots: seq<Slot>, key: nat, first: nat, last: nat, trace: seq<nat>) {
    Visits(slots, key, first, last, trace) && TraceEntries(slots, trace) == Only(Entries(slots), key)
  }

  lemma NoMatchInRange(slots: seq<Slot>, hash: nat -> nat, key: nat, first: nat, last: nat)
    requires Table(slots, hash) && IsRange(slots, hash, key, first, last) && Only(Entries(slots), key) == multiset{}
    ensures Iterates(slots, key, first, last, [])
  {
    if slots != [] {
      var h := Home(hash(key), |slots|);
      var d: nat :| d <= |slots| && RangeAt(slots, h, key, first, last, d);
      MatchIsOne(slots, h, d, key);
      if d == |slots| {
        var e: nat :| LastAt(slots, h, 0, last, e);
      }
    }
  }

  lemma MatchIsOne(slots: seq<Slot>, h: nat, d: nat, key: nat)
    requires h < |slots| && Only(Entries(slots), key) == multiset{}
    ensures d < |slots| ==> !Matches(slots[Wrap(h, d, |slots|)], key)
  {
    if d < |slots| {
      var s := slots[Wrap(h, d, |slots|)];
      EntriesMember(slots, s.entry);
      assert Only(Entries(slots), key)[s.entry] == 0;
    }
  }

  /** While some slot has never been used, iterating visits exactly the entries with the key. */
  lemma IteratesWithUnused(slots: seq<Slot>, hash: nat -> nat, key: nat, first: nat, last: nat) returns (trace: seq<nat>)
    requires Table(slots, hash) && IsRange(slots, hash, key, first, last) && HasUnused(slots)
    ensures Iterates(slots, key, first, last, trace)
  {
    var h := Home(hash(key), |slots|);
    var d: nat :| d <= |slots| && RangeAt(slots, h, key, first, last, d);
    var u :| 0 <= u < |slots| && !slots[u].populated;
    assert Wrap(h, Gap(h, u, |slots|), |slots|) == u;
    if Matches(slots[Wrap(h, d, |slots|)], key) {
      var e: nat :| LastAt(slots, h, d, last, e);
      trace := MatchesBetween(slots, h, key, d, e);
      VisitsMatches(slots, h, key, d, e);
      MatchesBetweenEntries(slots, h, key, d, e);
      NothingBefore(slots, h, key, d);
      NothingBeyond(slots, hash, key, e);
    } else {
      trace := [];
      PassedAll(slots, hash, key, d);
    }
  }

  lemma NothingBefore(slots: seq<Slot>, h: nat, key: nat, d: nat)
    requires h < |slots| && d <= |slots| && Unmatched(slots, h, d, key)
    ensures Only(Entries(Around(slots, h)[..d]), key) == multiset{}
  {
    OnlyNoMatch(Around(slots, h)[..d], key);
  }

  /** Where all slots are used, an iterator that stands at a match never comes to a slot that is none. */
  lemma {:induction false} NeverEnds(slots: seq<Slot>, key: nat, i: nat, last: nat, trace: seq<nat>)
    requires !HasUnused(slots) && last < |slots| && !Matches(slots[last], key)
    requires i < |slots| && Matches(slots[i], key)
    ensures !Visits(slots, key, i, last, trace)
    decreases |trace|
  {
    if Visits(slots, key, i, last, trace) {
      var j: nat :| Successor(slots, key, i, j) && Visits(slots, key, j, last, trace[1..]);
      var step: nat :| SuccessorAt(slots, key, i, j, step);
      NeverEnds(slots, key, j, last, trace[1..]);
    }
  }

  /** A match stands where a probe for the key begins. */
  predicate AtHome(slots: seq<Slot>, hash: nat -> nat, key: nat) {
    slots != [] && Matches(slots[Home(hash(key), |slots|)], key)
  }

  /** Where all slots are used, a range that begins at home is taken for empty. */
  predicate Missed(slots: seq<Slot>, hash: nat -> nat, key: nat) {
    !HasUnused(slots) && AtHome(slots, hash, key)
  }

  /** Where all slots are used, a range that begins elsewhere never ends. */
  ghost predicate NeverEnding(slots: seq<Slot>, hash: nat -> nat, key: nat) {
    !HasUnused(slots) && Only(Entries(slots), key) != multiset{} && !AtHome(slots, hash, key)
  }

  lemma RangeMissed(slots: seq<Slot>, hash: nat -> nat, key: nat, first: nat, last: nat)
    requires IsRange(slots, hash, key, first, last) && Missed(slots, hash, key)
    ensures first == last && Only(Entries(slots), key) != multiset{}
  {
    var h := Home(hash(key), |slots|);
    var d: nat :| d <= |slots| && RangeAt(slots, h, key, first, last, d);
    assert Wrap(h, 0, |slots|) == h;
    assert d == 0;
    var e: nat :| LastAt(slots, h, 0, last, e);
    MatchIsEntry(slots, h, key);
  }

  lemma MatchIsEntry(slots: seq<Slot>, i: nat, key: nat)
    requires i < |slots| && Matches(slots[i], key)
    ensures slots[i].entry in Only(Entries(slots), key)
  {
    EntriesMember(slots, slots[i].entry);
    assert Only(Entries(slots), key)[slots[i].entry] > 0;
  }

  lemma RangeNeverEnds(slots: seq<Slot>, hash: nat -> nat, key: nat, first: nat, last: nat, trace: seq<nat>)
    requires Table(slots, hash) && IsRange(slots, hash, key, first, last) && NeverEnding(slots, hash, key)
    ensures first != last && first < |slots| && Matches(slots[first], key) && !Visits(slots, key, first, last, trace)
  {
    if slots == [] {
      OnlyNoMatch(slots, key);
    } else {
      var h := Home(hash(key), |slots|);
      var d: nat :| d <= |slots| && RangeAt(slots, h, key, first, last, d);
      assert Wrap(h, 0, |slots|) == h;
      if d == |slots| {
        PassedAll(slots, hash, key, d);
      } else {
        assert 0 < d && Matches(slots[Wrap(h, d, |slots|)], key);
        var e: nat :| LastAt(slots, h, d, last, e);
        assert last == h;
        NeverEnds(slots, key, first, last, trace);
      }
    }
  }

  /** Where all slots are used and there is a match, iterating misses it, or does not end. */
  lemma NeverIterates(slots: seq<Slot>, hash: nat -> nat, key: nat, first: nat, last: nat, trace: seq<nat>)
    requires Table(slots, hash) && IsRange(slots, hash, key, first, last)
    requires !HasUnused(slots) && Only(Entries(slots), key) != multiset{}
    ensures !Iterates(slots, key, first, last, trace)
  {
    if AtHome(slots, hash, key) {
      RangeMissed(slots, hash, key, first, last);
    } else {
      RangeNeverEnds(slots, hash, key, first, last, trace);
    }
  }

  /** Iterating the range is right exactly if some slot has never been used or there is no match. */
  lemma RangeExact(slots: seq<Slot>, hash: nat -> nat, key: nat, first: nat, last: nat)
    requires Table(slots, hash) && IsRange(slots, hash, key, first, last)
    ensures (exists trace :: Iterates(slots, key, first, last, trace)) <==>
            (HasUnused(slots) || Only(Entries(slots), key) == multiset{})
  {
    if HasUnused(slots) {
      var trace := IteratesWithUnused(slots, hash, key, first, last);
    } else if Only(Entries(slots), key) == multiset{} {
      NoMatchInRange(slots, hash, key, first, last);
    } else {
      forall trace
        ensures !Iterates(slots, key, first, last, trace)
      {
        NeverIterates(slots, hash, key, first, last, trace);
      }
    }
  }

  /** The ends of a range differ exactly if iterating visits something, or never ends. */
  lemma RangeKinds(slots: seq<Slot>, hash: nat -> nat, key: nat, first: nat, last: nat)
    requires Table(slots, hash) && IsRange(slots, hash, key, first, last)
    ensures first == last <==> Only(Entries(slots), key) == multiset{} || Missed(slots, hash, key)
    ensures HasUnused(slots) ==> exists trace :: Iterates(slots, key, first, last, trace)
  {
    if Only(Entries(slots), key) == multiset{} {
      NoMatchInRange(slots, hash, key, first, last);
    }
    if HasUnused(slots) {
      var trace := IteratesWithUnused(slots, hash, key, first, last);
    } else if Missed(slots, hash, key) {
      RangeMissed(slots, hash, key, first, last);
    } else if NeverEnding(slots, hash, key) {
      RangeNeverEnds(slots, hash, key, first, last, []);
    }
  }

  /** Where all slots are used, an iterator at a match has somewhere to go: in the worst case, round to where it is. */
  lemma {:induction false} SuccessorExists(slots: seq<Slot>, key: nat, i: nat, step: nat) returns (j: nat)
    requires i < |slots| && Matches(slots[i], key) && 1 <= step <= |slots|
    requires forall t: nat {:trigger Wrap(i, t, |slots|)} :: 1 <= t < step ==> !Stops(slots[Wrap(i, t, |slots|)], key)
    ensures j < |slots| && Successor(slots, key, i, j) && (!HasUnused(slots) ==> Matches(slots[j], key))
    decreases |slots| - step
  {
    j := Wrap(i, step, |slots|);
    if Stops(slots[j], key) {
      assert SuccessorAt(slots, key, i, j, step);
    } else {
      assert step < |slots|;
      j := SuccessorExists(slots, key, i, step + 1);
    }
  }

  /** A table of 64 used slots: one live entry, `d` steps from the beginning, and marks of removed ones. */
  function OneLeft(d: nat): (slots: seq<Slot>)
    requires d < 64
    ensures |slots| == 64 && forall i :: 0 <= i < 64 ==> slots[i] == Slot(true, i != d, Entry(0, i))
  {
    seq(64, i requires 0 <= i < 64 => Slot(true, i != d, Entry(0, i)))
  }

  lemma {:induction false} OneLeftTable(d: nat, hash: nat -> nat)
    requires d < 2 && hash(0) == 0
    ensures Table(OneLeft(d), hash) && !HasUnused(OneLeft(d)) && (AtHome(OneLeft(d), hash, 0) <==> d == 0)
    ensures Only(Entries(OneLeft(d)), 0) != multiset{}
  {
    var slots := OneLeft(d);
    assert Matches(slots[d], 0);
    MatchIsEntry(slots, d, 0);
    assert Home(hash(0), 64) == 0;
    forall i | 0 <= i < 64
      ensures Chained(slots, hash, i)
    {
    }
  }

  /** The range of its key is taken for empty if the entry is at home, and never ends if it is one step further. */
  lemma {:induction false} OneLeftLost(hash: nat -> nat, first: nat, last: nat, trace: seq<nat>)
    requires hash(0) == 0
    ensures Table(OneLeft(0), hash) && Table(OneLeft(1), hash)
    ensures IsRange(OneLeft(0), hash, 0, first, last) ==> first == last && Only(Entries(OneLeft(0)), 0) != multiset{}
    ensures IsRange(OneLeft(1), hash, 0, first, last) ==> !Visits(OneLeft(1), 0, first, last, trace)
  {
    OneLeftTable(0, hash);
    OneLeftTable(1, hash);
    if IsRange(OneLeft(0), hash, 0, first, last) {
      RangeMissed(OneLeft(0), hash, 0, first, last);
    }
    if IsRange(OneLeft(1), hash, 0, first, last) {
      RangeNeverEnds(OneLeft(1), hash, 0, first, last, trace);
    }
  }
}
