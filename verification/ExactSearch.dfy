/** Exhaustive search: the bounded list against the full ranking of the members. */
module ExactSearch {
  import opened Numbers
  import opened Candidates
  import opened SortedBuffers

  /** The strict order of the results: closer first, and of two equally close ones the later slot first. */
  ghost predicate Precedes(a: Candidate, b: Candidate) {
    a.distance < b.distance || (a.distance == b.distance && a.slot > b.slot)
  }

  ghost predicate Ordered(s: seq<Candidate>) {
    forall i, j :: 0 <= i < j < |s| ==> Precedes(s[i], s[j])
  }

  /** `c` stands for one of the first `n` slots, at its distance, and may be reported. */
  ghost predicate Eligible(c: Candidate, n: nat, dist: seq<real>, allow: seq<bool>) {
    c.slot < n && Allows(allow, c.slot) && c.distance == Dist(dist, c.slot)
  }

  /** All eligible members in the order in which inserting slot after slot leaves them. */
  ghost function Ranked(n: nat, dist: seq<real>, allow: seq<bool>): (r: seq<Candidate>)
    ensures Sorted(r)
  {
    if n == 0 then []
    else if Allows(allow, n - 1) then
      InsertedSorted(Ranked(n - 1, dist, allow), Candidate(Dist(dist, n - 1), n - 1));
      Inserted(Ranked(n - 1, dist, allow), Candidate(Dist(dist, n - 1), n - 1))
    else Ranked(n - 1, dist, allow)
  }

  lemma InsertedOrdered(s: seq<Candidate>, x: Candidate)
    requires Ordered(s) && forall i :: 0 <= i < |s| ==> s[i].slot < x.slot
    ensures Ordered(Inserted(s, x))
  {
    assert Sorted(s);
    assert IsLowerBound(s, x, LowerBound(s, x));
  }

  lemma InsertedMembers(s: seq<Candidate>, x: Candidate, c: Candidate)
    ensures c in Inserted(s, x) <==> c == x || c in s
  {
    var k := LowerBound(s, x);
    assert s == s[..k] + s[k..];
  }

  /** The ranking holds the eligible members, each once, in strictly increasing order. */
  lemma {:induction false} RankedSpec(n: nat, dist: seq<real>, allow: seq<bool>)
    ensures Ordered(Ranked(n, dist, allow))
    ensures forall c :: c in Ranked(n, dist, allow) <==> Eligible(c, n, dist, allow)
  {
    if n > 0 {
      RankedSpec(n - 1, dist, allow);
      var s, x := Ranked(n - 1, dist, allow), Candidate(Dist(dist, n - 1), n - 1);
      if Allows(allow, n - 1) {
        forall i | 0 <= i < |s|
          ensures s[i].slot < x.slot
        {
          assert s[i] in s;
        }
        InsertedOrdered(s, x);
        forall c
          ensures c in Inserted(s, x) <==> Eligible(c, n, dist, allow)
        {
          InsertedMembers(s, x, c);
        }
      }
    }
  }

  /** A strictly ordered list is determined by its members. */
  lemma {:induction false} OrderedUnique(s: seq<Candidate>, t: seq<Candidate>)
    requires Ordered(s) && Ordered(t)
    requires forall c :: c in s <==> c in t
    ensures s == t
  {
    if s == [] {
      var first := if t == [] then Candidate(0.0, 0) else t[0];
      assert first !in s;
    } else {
      assert s[0] in s && s[0] in t;
      assert t[0] in t && t[0] in s;
      assert s[0] == t[0];
      forall c
        ensures c in s[1..] <==> c in t[1..]
      {
        assert c in s[1..] <==> c in s && c != s[0];
        assert c in t[1..] <==> c in t && c != t[0];
      }
      OrderedUnique(s[1..], t[1..]);
    }
  }

  /** The ranking is the only strictly ordered list of the eligible members. */
  lemma RankedUnique(n: nat, dist: seq<real>, allow: seq<bool>, s: seq<Candidate>)
    requires Ordered(s) && forall c :: c in s <==> Eligible(c, n, dist, allow)
    ensures s == Ranked(n, dist, allow)
  {
    RankedSpec(n, dist, allow);
    OrderedUnique(s, Ranked(n, dist, allow));
  }

  lemma {:induction false} RankedAll(n: nat, dist: seq<real>, allow: seq<bool>)
    requires forall i: nat :: i < n ==> Allows(allow, i)
    ensures |Ranked(n, dist, allow)| == n
  {
    if n > 0 {
      RankedAll(n - 1, dist, allow);
    }
  }

  lemma RankedStep(n: nat, dist: seq<real>, allow: seq<bool>, count: nat)
    requires n > 0
    ensures Take(Ranked(n, dist, allow), count) ==
      if Allows(allow, n - 1)
      then Take(Inserted(Take(Ranked(n - 1, dist, allow), count), Candidate(Dist(dist, n - 1), n - 1)), count)
      else Take(Ranked(n - 1, dist, allow), count)
  {
    InsertedThenTake(Ranked(n - 1, dist, allow), Candidate(Dist(dist, n - 1), n - 1), count);
  }

  /** What a list of at most `count` candidates holds when the first `n` members have been offered to it. */
  ghost function Offered(n: nat, dist: seq<real>, allow: seq<bool>, count: nat): seq<Candidate> {
    if n == 0 then []
    else if Allows(allow, n - 1) then
      Take(Inserted(Offered(n - 1, dist, allow, count), Candidate(Dist(dist, n - 1), n - 1)), count)
    else Offered(n - 1, dist, allow, count)
  }

  /** Offering the members one by one leaves the first `count` of the ranking. */
  lemma {:induction false} OfferedRanked(n: nat, dist: seq<real>, allow: seq<bool>, count: nat)
    ensures Offered(n, dist, allow, count) == Take(Ranked(n, dist, allow), count)
  {
    if n > 0 {
      OfferedRanked(n - 1, dist, allow, count);
      RankedStep(n, dist, allow, count);
    }
  }

  lemma {:induction false} OfferedSize(n: nat, dist: seq<real>, allow: seq<bool>, count: nat)
    ensures |Offered(n, dist, allow, count)| <= count
  {
    if n > 0 {
      OfferedSize(n - 1, dist, allow, count);
    }
  }

  /** Scans every member through a buffer of at most `count`: the first `count` of the ranking remain. */
  method SearchExact(n: nat, dist: seq<real>, allow: seq<bool>, count: nat, top: SortedBuffer)
    requires top.Valid()
    modifies top, top.elements
    ensures top.Valid() && top.contents == Take(Ranked(n, dist, allow), count)
    ensures top.elements == old(top.elements) || fresh(top.elements)
  {
    top.Clear();
    top.Reserve(count);
    for i := 0 to n
      invariant top.Valid() && count <= top.elements.Length && top.size <= count
      invariant top.elements == old(top.elements) || fresh(top.elements)
      invariant top.contents == Offered(i, dist, allow, count)
    {
      OfferedSize(i + 1, dist, allow, count);
      if Allows(allow, i) {
        var added := top.Insert(Candidate(Dist(dist, i), i), count);
      }
    }
    OfferedRanked(n, dist, allow, count);
  }
}
