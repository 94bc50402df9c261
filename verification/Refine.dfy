/** The neighbour-pruning heuristic: of the sorted candidates, keep those not closer to a kept one than to the target. */
module Refine {
  import opened Candidates
  import opened Numbers
  import opened SortedBuffers

  /** Distances between stored members, with the up-to-date distances of the one slot, if any, whose
      stored vector is stale. */
  datatype Metric = Metric(between: seq<seq<real>>, overridden: bool, overrideSlot: nat, overrideDist: seq<real>)

  function Between(m: Metric, a: nat, b: nat): real {
    if m.overridden && a == m.overrideSlot then Dist(m.overrideDist, b)
    else if m.overridden && b == m.overrideSlot then Dist(m.overrideDist, a)
    else if a < |m.between| then Dist(m.between[a], b) else 0.0
  }

  /** `c` is at least as close to the target as to every one of `kept`. */
  ghost predicate Good(c: Candidate, kept: seq<Candidate>, m: Metric) {
    forall k :: 0 <= k < |kept| ==> c.distance <= Between(m, c.slot, kept[k].slot)
  }

  ghost function Chosen(s: seq<Candidate>, picked: seq<nat>): (r: seq<Candidate>)
    requires forall k :: 0 <= k < |picked| ==> picked[k] < |s|
    ensures |r| == |picked| && forall k :: 0 <= k < |r| ==> r[k] == s[picked[k]]
  {
    seq(|picked|, k requires 0 <= k < |picked| => s[picked[k]])
  }

  /** The positions kept of the first `n` candidates. */
  ghost function Picked(s: seq<Candidate>, n: nat, needed: nat, m: Metric): (r: seq<nat>)
    requires n <= |s|
    ensures forall k :: 0 <= k < |r| ==> r[k] < n
    ensures |r| <= needed && |r| <= n
  {
    if n == 0 then []
    else
      var r := Picked(s, n - 1, needed, m);
      if |r| < needed && Good(s[n - 1], Chosen(s, r), m) then r + [n - 1] else r
  }

  /** The candidates kept of the first `n`. */
  ghost function Kept(s: seq<Candidate>, n: nat, needed: nat, m: Metric): (r: seq<Candidate>)
    requires n <= |s|
    ensures |r| == |Picked(s, n, needed, m)| <= n && |r| <= needed
  {
    Chosen(s, Picked(s, n, needed, m))
  }

  /** What is left of the candidates `s`: all of them if fewer than `needed`, otherwise the kept ones. */
  ghost function Refined(s: seq<Candidate>, needed: nat, m: Metric): seq<Candidate> {
    if |s| < needed then s else Chosen(s, Picked(s, |s|, needed, m))
  }

  /** The selection keeps the order and starts with the closest, and each kept candidate
      is no nearer to an earlier kept one than to the target. */
  lemma {:induction false} PickedKept(s: seq<Candidate>, n: nat, needed: nat, m: Metric)
    requires n <= |s| && needed > 0
    ensures var r := Picked(s, n, needed, m);
      && (n > 0 ==> r != [] && r[0] == 0)
      && (forall j, k :: 0 <= j < k < |r| ==> r[j] < r[k])
      && (forall j, k :: 0 <= j < k < |r| ==> s[r[k]].distance <= Between(m, s[r[k]].slot, s[r[j]].slot))
  {
    if n > 0 {
      PickedKept(s, n - 1, needed, m);
    }
  }

  /** Position `p` is not kept: some kept candidate before it is nearer to it than its target is,
      or enough were kept before it was examined. */
  ghost predicate Dropped(s: seq<Candidate>, picked: seq<nat>, p: nat, needed: nat, m: Metric)
    requires p < |s| && forall k :: 0 <= k < |picked| ==> picked[k] < |s|
  {
    || (exists k :: 0 <= k < |picked| && picked[k] < p && Between(m, s[p].slot, s[picked[k]].slot) < s[p].distance)
    || (|picked| == needed > 0 && picked[needed - 1] < p)
  }

  lemma DroppedStays(s: seq<Candidate>, before: seq<nat>, after: seq<nat>, p: nat, needed: nat, m: Metric)
    requires p < |s| && forall k :: 0 <= k < |after| ==> after[k] < |s|
    requires before <= after && |after| <= needed && Dropped(s, before, p, needed, m)
    ensures Dropped(s, after, p, needed, m)
  {
    if k :| 0 <= k < |before| && before[k] < p && Between(m, s[p].slot, s[before[k]].slot) < s[p].distance {
      assert after[k] == before[k];
    }
  }

  /** Each examined candidate that is gone was nearer to some kept one before it than to the target. */
  lemma {:induction false} PickedDropped(s: seq<Candidate>, n: nat, needed: nat, m: Metric, p: nat)
    requires p < n <= |s| && needed > 0 && p !in Picked(s, n, needed, m)
    ensures Dropped(s, Picked(s, n, needed, m), p, needed, m)
  {
    var before, r := Picked(s, n - 1, needed, m), Picked(s, n, needed, m);
    if p < n - 1 {
      assert forall k :: 0 <= k < |before| ==> r[k] == before[k];
      PickedDropped(s, n - 1, needed, m, p);
      DroppedStays(s, before, r, p, needed, m);
    } else if |before| < needed {
      var k :| 0 <= k < |before| && !(s[p].distance <= Between(m, s[p].slot, Chosen(s, before)[k].slot));
      assert before[k] < p;
    } else {
      assert before[needed - 1] < p;
    }
  }

  /** Refining keeps candidates of a sorted list without repetition sorted, distinct, and drawn from the list. */
  lemma RefinedMembers(s: seq<Candidate>, needed: nat, m: Metric)
    requires Sorted(s) && DistinctSlots(s) && needed > 0
    ensures var r := Refined(s, needed, m);
      && |r| <= needed && (|s| < needed ==> r == s) && (s != [] ==> r != [] && r[0] == s[0])
      && Sorted(r) && DistinctSlots(r) && forall c :: c in r ==> c in s
  {
    PickedKept(s, |s|, needed, m);
  }

  lemma {:induction false} PickedFull(s: seq<Candidate>, n: nat, needed: nat, m: Metric)
    requires n <= |s| && |Picked(s, n, needed, m)| == needed
    ensures Picked(s, |s|, needed, m) == Picked(s, n, needed, m)
    decreases |s| - n
  {
    if n < |s| {
      PickedFull(s, n + 1, needed, m);
    }
  }

  lemma KeptFirst(s: seq<Candidate>, needed: nat, m: Metric)
    requires s != [] && needed > 0
    ensures Kept(s, 1, needed, m) == [s[0]]
  {
    assert Picked(s, 0, needed, m) == [];
    assert Picked(s, 1, needed, m) == [0];
  }

  lemma KeptNext(s: seq<Candidate>, n: nat, needed: nat, m: Metric)
    requires n < |s| && |Kept(s, n, needed, m)| < needed
    ensures var before := Kept(s, n, needed, m);
      Kept(s, n + 1, needed, m) == if Good(s[n], before, m) then before + [s[n]] else before
  {
  }

  /** Compares `c` with the first `submitted` elements, stopping at the first that is nearer to it than the target. */
  method Examine(elements: array<Candidate>, c: Candidate, submitted: nat, m: Metric) returns (good: bool)
    requires submitted <= elements.Length
    ensures good <==> Good(c, elements[..submitted], m)
  {
    good := true;
    for idx := 0 to submitted
      invariant good && forall k :: 0 <= k < idx ==> c.distance <= Between(m, c.slot, elements[..submitted][k].slot)
    {
      if Between(m, c.slot, elements[idx].slot) < c.distance {
        assert elements[..submitted][idx] == elements[idx];
        return false;
      }
    }
  }

  /** The array part of the heuristic: compacts the kept candidates to the front. */
  method Select(elements: array<Candidate>, count: nat, needed: nat, m: Metric) returns (submitted: nat)
    requires 0 < needed <= count <= elements.Length
    modifies elements
    ensures submitted <= count
    ensures elements[..submitted] == Refined(old(elements[..count]), needed, m)
  {
    ghost var s := elements[..count];
    KeptFirst(s, needed, m);
    assert elements[..1] == [s[0]];
    ghost var consumed;
    submitted, consumed := ConsiderAll(elements, s, count, needed, m);
    KeptFull(s, consumed, needed, m);
  }

  /** Considers one candidate after the other behind the first, until enough are kept. */
  method ConsiderAll(elements: array<Candidate>, ghost s: seq<Candidate>, count: nat, needed: nat, m: Metric)
    returns (submitted: nat, ghost all: nat)
    requires 0 < needed <= count == |s| <= elements.Length && elements[..count] == s
    requires elements[..1] == Kept(s, 1, needed, m)
    modifies elements
    ensures submitted <= all <= count && (all < count ==> submitted == needed)
    ensures elements[..submitted] == Kept(s, all, needed, m)
  {
    submitted := 1;
    var consumed := 1;
    while submitted < needed && consumed < count
      invariant 0 < submitted <= consumed <= count && submitted <= needed
      invariant elements[..submitted] == Kept(s, consumed, needed, m)
      invariant forall k :: consumed <= k < count ==> elements[k] == s[k]
    {
      submitted := Consider(elements, s, consumed, submitted, needed, m);
      consumed := consumed + 1;
    }
    all := consumed;
  }

  /** Moves the next candidate behind the kept ones, if it is to be kept. */
  method Consider(elements: array<Candidate>, ghost s: seq<Candidate>, consumed: nat, submitted: nat, needed: nat, m: Metric)
    returns (after: nat)
    requires submitted <= consumed < |s| <= elements.Length && submitted < needed
    requires elements[..submitted] == Kept(s, consumed, needed, m) && elements[consumed] == s[consumed]
    modifies elements
    ensures submitted <= after <= consumed + 1 && after <= needed
    ensures elements[..after] == Kept(s, consumed + 1, needed, m)
    ensures forall k :: consumed < k < elements.Length ==> elements[k] == old(elements[k])
  {
    ghost var kept := elements[..submitted];
    KeptNext(s, consumed, needed, m);
    var c := elements[consumed];
    var good := Examine(elements, c, submitted, m);
    after := submitted;
    if good {
      elements[submitted] := c;
      after := submitted + 1;
      assert elements[..after] == kept + [s[consumed]];
    }
  }

  lemma KeptFull(s: seq<Candidate>, n: nat, needed: nat, m: Metric)
    requires n <= |s| && needed <= |s| && (n < |s| ==> |Kept(s, n, needed, m)| == needed)
    ensures Kept(s, n, needed, m) == Refined(s, needed, m)
  {
    if n < |s| {
      PickedFull(s, n, needed, m);
    }
  }

  /** Prunes the candidates of `top` to at most `needed`; a list shorter than that is left alone. */
  method RefineTop(top: SortedBuffer, needed: nat, m: Metric)
    requires top.Valid() && DistinctSlots(top.contents) && needed > 0
    modifies top, top.elements
    ensures top.Valid() && top.elements == old(top.elements)
    ensures top.contents == Refined(old(top.contents), needed, m)
  {
    if top.size < needed {
      return;
    }
    RefinedMembers(top.contents, needed, m);
    ghost var kept := Refined(top.contents, needed, m);
    var submitted := Select(top.elements, top.size, needed, m);
    top.size := submitted;
    top.contents := kept;
  }
}
