/** The (distance, slot) pairs every search of the index works on, and the two
    sequence operations behind the sorted candidate list. */
module Candidates {

  /** Pairs are compared by distance alone, whatever their slots. */
  datatype Candidate = Candidate(distance: real, slot: nat)

  ghost predicate Sorted(s: seq<Candidate>) {
    forall i, j :: 0 <= i < j < |s| ==> s[i].distance <= s[j].distance
  }

  ghost predicate DistinctSlots(s: seq<Candidate>) {
    forall i, j :: 0 <= i < j < |s| ==> s[i].slot != s[j].slot
  }

  function Last(s: seq<Candidate>): Candidate
    requires s != []
  {
    s[|s| - 1]
  }

  function Slots(s: seq<Candidate>): (r: seq<nat>)
    ensures |r| == |s|
    ensures forall i :: 0 <= i < |s| ==> r[i] == s[i].slot
  {
    seq(|s|, i requires 0 <= i < |s| => s[i].slot)
  }

  /** As much of a list as is wanted. */
  function Take(s: seq<Candidate>, limit: nat): seq<Candidate> {
    if |s| <= limit then s else s[..limit]
  }

  /** `k` is where `std::lower_bound` points for `x` in a sorted `s`. */
  ghost predicate IsLowerBound(s: seq<Candidate>, x: Candidate, k: nat) {
    && k <= |s|
    && (forall i :: 0 <= i < k ==> s[i].distance < x.distance)
    && (forall i :: k <= i < |s| ==> x.distance <= s[i].distance)
  }

  /** The position of `x` in a sorted `s`: before every candidate that is not closer. */
  function LowerBound(s: seq<Candidate>, x: Candidate): (k: nat)
    ensures k <= |s|
    ensures forall i :: 0 <= i < k ==> s[i].distance < x.distance
    ensures k < |s| ==> x.distance <= s[k].distance
    ensures Sorted(s) ==> IsLowerBound(s, x, k)
  {
    if s == [] || x.distance <= s[0].distance then 0 else 1 + LowerBound(s[1..], x)
  }

  lemma LowerBoundUnique(s: seq<Candidate>, x: Candidate, k: nat)
    requires IsLowerBound(s, x, k)
    ensures k == LowerBound(s, x)
  {
    var atK := if k < |s| then s[k] else x;
  }

  /** `s` with `x` put at its lower bound, ahead of the candidates it ties with. */
  function Inserted(s: seq<Candidate>, x: Candidate): (r: seq<Candidate>)
    ensures |r| == |s| + 1
  {
    var k := LowerBound(s, x);
    s[..k] + [x] + s[k..]
  }

  lemma InsertedSorted(s: seq<Candidate>, x: Candidate)
    requires Sorted(s)
    ensures Sorted(Inserted(s, x))
    ensures multiset(Inserted(s, x)) == multiset(s) + multiset{x}
  {
    var k := LowerBound(s, x);
    assert s == s[..k] + s[k..];
  }

  /** What an insertion into a list of at most `limit` leaves, place by place. */
  lemma TakeInserted(s: seq<Candidate>, x: Candidate, limit: nat)
    requires Sorted(s) && |s| <= limit
    ensures var r := Take(Inserted(s, x), limit); var k := LowerBound(s, x);
      && |r| == (if |s| == limit then limit else |s| + 1)
      && Sorted(r)
      && (forall i :: 0 <= i < k ==> r[i] == s[i])
      && (k < limit ==> r[k] == x)
      && (forall i :: k < i < |r| ==> r[i] == s[i - 1])
  {
    InsertedSorted(s, x);
    InsertedPlaces(s, x);
  }

  lemma InsertedPlaces(s: seq<Candidate>, x: Candidate)
    ensures var r := Inserted(s, x); var k := LowerBound(s, x);
      k <= |s| && r[k] == x && (forall i :: 0 <= i < k ==> r[i] == s[i]) && (forall i :: k < i < |r| ==> r[i] == s[i - 1])
  {
  }

  /** Keeping only the first `limit` before an insertion loses nothing of the first `limit` after it. */
  lemma InsertedThenTake(s: seq<Candidate>, x: Candidate, limit: nat)
    requires Sorted(s)
    ensures Take(Inserted(Take(s, limit), x), limit) == Take(Inserted(s, x), limit)
  {
    if limit < |s| {
      var t := s[..limit];
      var k := LowerBound(s, x);
      if k < limit {
        LowerBoundUnique(t, x, k);
        assert t[..k] == s[..k] && t[k..] == s[k..limit];
        assert (t[..k] + [x] + t[k..])[..limit] == (s[..k] + [x] + s[k..])[..limit];
      } else {
        LowerBoundUnique(t, x, limit);
        assert t[..limit] == t && (t + [x] + t[limit..])[..limit] == t;
        assert s[..k][..limit] == t && (s[..k] + [x] + s[k..])[..limit] == t;
      }
    }
  }

  /** Members after an insertion that has room or beats the last: only the last can have gone. */
  lemma TakeInsertedMembers(s: seq<Candidate>, x: Candidate, limit: nat)
    requires Sorted(s) && |s| <= limit && limit > 0
    requires |s| < limit || x.distance < s[|s| - 1].distance
    ensures var r := Take(Inserted(s, x), limit);
      && r != [] && x in r
      && (forall c :: c in r ==> c == x || c in s)
      && (forall c :: c in s ==> c in r || (|s| == limit && r[|r| - 1].distance <= c.distance))
  {
    TakeInserted(s, x, limit);
    var r, k := Take(Inserted(s, x), limit), LowerBound(s, x);
    assert r[k] == x;
    forall c | c in s
      ensures c in r || (|s| == limit && r[|r| - 1].distance <= c.distance)
    {
      var i :| 0 <= i < |s| && s[i] == c;
      if i < k {
        assert r[i] == c;
      } else if i + 1 < |r| {
        assert r[i + 1] == c;
      }
    }
  }

  lemma TakeInsertedDistinct(s: seq<Candidate>, x: Candidate, limit: nat)
    requires Sorted(s) && |s| <= limit && DistinctSlots(s) && forall c :: c in s ==> c.slot != x.slot
    ensures DistinctSlots(Take(Inserted(s, x), limit))
  {
    TakeInserted(s, x, limit);
    var r, k := Take(Inserted(s, x), limit), LowerBound(s, x);
    forall i, j | 0 <= i < j < |r|
      ensures r[i].slot != r[j].slot
    {
      var a := if i < k then i else i - 1;
      var b := if j < k then j else j - 1;
      assert i != k ==> s[a] in s && r[i] == s[a];
      assert j != k ==> s[b] in s && r[j] == s[b];
    }
  }

  ghost function Members(s: seq<Candidate>): set<Candidate> {
    set c | c in s
  }

  lemma {:induction false} DistinctSize(s: seq<Candidate>)
    requires DistinctSlots(s)
    ensures |Members(s)| == |s|
  {
    if s != [] {
      var rest, last := s[..|s| - 1], s[|s| - 1];
      DistinctSize(rest);
      assert Members(s) == Members(rest) + {last};
      assert last !in rest;
    }
  }

  lemma SubsetSize(a: set<Candidate>, b: set<Candidate>)
    requires a <= b
    ensures |a| <= |b|
  {
    assert b == a + (b - a);
  }

  /** Two sorted lists of the same candidates show the same distances, however they order ties. */
  lemma SameDistances(a: seq<Candidate>, b: seq<Candidate>)
    requires Sorted(a) && Sorted(b) && DistinctSlots(a) && DistinctSlots(b)
    requires forall c :: c in a <==> c in b
    ensures |a| == |b| && forall i :: 0 <= i < |a| ==> a[i].distance == b[i].distance
  {
    DistinctSize(a);
    DistinctSize(b);
    assert Members(a) == Members(b);
    forall i | 0 <= i < |a|
      ensures a[i].distance == b[i].distance
    {
      NotCloser(a, b, i);
      NotCloser(b, a, i);
    }
  }

  lemma NotCloser(a: seq<Candidate>, b: seq<Candidate>, i: nat)
    requires Sorted(a) && Sorted(b) && DistinctSlots(a) && DistinctSlots(b) && i < |a| == |b|
    requires forall c :: c in a ==> c in b
    ensures b[i].distance <= a[i].distance
  {
    var early, before := a[..i + 1], b[..i];
    DistinctSize(early);
    DistinctSize(before);
    if forall c :: c in early ==> c in before {
      SubsetSize(Members(early), Members(before));
    } else {
      forall k | 0 <= k < i
        ensures b[k] in before
      {
        assert before[k] == b[k];
      }
      var c :| c in early && c !in before;
      assert c in a;
      var k :| 0 <= k < |b| && b[k] == c;
    }
  }
}
