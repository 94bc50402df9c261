/** What pruning keeps and what linking back makes of a neighbour list, said of the lists before and after alone. */
module Neighborhoods {
  import opened Candidates
  import opened Numbers
  import opened Graph
  import opened Refine
  import opened Links

  /** A node to be linked: its slot, the distances of its value from all slots, and those between stored members. */
  datatype Newcomer = Newcomer(slot: nat, valueDist: seq<real>, between: seq<seq<real>>)
  {
    /** The distance between two slots, where the value at `slot` is the new one. */
    ghost function Near(a: nat, b: nat): real {
      if a == slot then Dist(valueDist, b)
      else if b == slot then Dist(valueDist, a)
      else if a < |between| then Dist(between[a], b)
      else 0.0
    }
  }

  /** `u` was left out of `r`: some member is no farther from the owner `v`, and nearer to `u` than the owner is;
      or `cap` members no farther were kept. */
  ghost predicate LeftOut(x: Newcomer, r: seq<nat>, v: nat, u: nat, cap: nat) {
    || (exists w :: w in r && x.Near(v, w) <= x.Near(v, u) && x.Near(u, w) < x.Near(v, u))
    || (|r| == cap && forall w :: w in r ==> x.Near(v, w) <= x.Near(v, u))
  }

  /** `r` is what pruning leaves of `all` for the owner `v`: at most `cap` members, each once and by distance, that begin
      with the closest of all. Each is at least as near to the owner as to every member before it, and whatever is left
      out is nearer to such a member, or the list is full. */
  ghost predicate PrunedFrom(x: Newcomer, all: seq<nat>, r: seq<nat>, v: nat, cap: nat) {
    && 0 < |r| <= cap && NoDuplicates(r)
    && (forall u :: u in r ==> u in all)
    && (forall i, j :: 0 <= i < j < |r| ==> x.Near(v, r[i]) <= x.Near(v, r[j]))
    && (forall u :: u in all ==> x.Near(v, r[0]) <= x.Near(v, u))
    && (forall i, j :: 0 <= i < j < |r| ==> x.Near(v, r[j]) <= x.Near(r[j], r[i]))
    && (forall u :: u in all && u !in r ==> LeftOut(x, r, v, u, cap))
  }

  /** What offering a link to `x` makes of the list of `v`: nothing if it is linked to already, the list followed by the
      slot if there is room, and otherwise what pruning leaves of both. */
  ghost predicate LinkOffered(x: Newcomer, before: seq<nat>, after: seq<nat>, v: nat, cap: nat) {
    if x.slot in before then after == before
    else if |before| < cap then after == before + [x.slot]
    else PrunedFrom(x, before + [x.slot], after, v, cap)
  }

  /** The distances that the candidates and the metric hold are those of the newcomer, `v` being the owner. */
  ghost predicate Measured(x: Newcomer, s: seq<Candidate>, m: Metric, v: nat) {
    && (forall i :: 0 <= i < |s| ==> s[i].distance == x.Near(v, s[i].slot))
    && (forall i, j :: 0 <= i < |s| && 0 <= j < |s| ==> Between(m, s[i].slot, s[j].slot) == x.Near(s[i].slot, s[j].slot))
  }

  /** `r` are the slots of the candidates at the positions `picked`. */
  ghost predicate SlotsAt(s: seq<Candidate>, picked: seq<nat>, r: seq<nat>) {
    |r| == |picked| && forall i :: 0 <= i < |r| ==> picked[i] < |s| && r[i] == s[picked[i]].slot
  }

  lemma PickedSlots(s: seq<Candidate>, needed: nat, m: Metric)
    requires 0 < needed <= |s|
    ensures SlotsAt(s, Picked(s, |s|, needed, m), Slots(Refined(s, needed, m)))
  {
  }

  lemma PickedOrder(x: Newcomer, s: seq<Candidate>, m: Metric, v: nat, picked: seq<nat>, r: seq<nat>)
    requires Sorted(s) && DistinctSlots(s) && Measured(x, s, m, v) && SlotsAt(s, picked, r)
    requires forall j, k :: 0 <= j < k < |picked| ==> picked[j] < picked[k]
    requires forall j, k :: 0 <= j < k < |picked| ==> s[picked[k]].distance <= Between(m, s[picked[k]].slot, s[picked[j]].slot)
    ensures NoDuplicates(r)
    ensures forall i, j :: 0 <= i < j < |r| ==> x.Near(v, r[i]) <= x.Near(v, r[j])
    ensures forall i, j :: 0 <= i < j < |r| ==> x.Near(v, r[j]) <= x.Near(r[j], r[i])
  {
    forall i, j | 0 <= i < j < |r|
      ensures r[i] != r[j] && x.Near(v, r[i]) <= x.Near(v, r[j]) && x.Near(v, r[j]) <= x.Near(r[j], r[i])
    {
      assert picked[i] < picked[j];
    }
  }

  lemma PickedDrawn(x: Newcomer, s: seq<Candidate>, m: Metric, v: nat, picked: seq<nat>, r: seq<nat>)
    requires Sorted(s) && Measured(x, s, m, v) && SlotsAt(s, picked, r) && r != [] && picked[0] == 0
    ensures forall u :: u in r ==> u in Slots(s)
    ensures forall u :: u in Slots(s) ==> x.Near(v, r[0]) <= x.Near(v, u)
  {
    forall u | u in r
      ensures u in Slots(s)
    {
      var i :| 0 <= i < |r| && r[i] == u;
      assert Slots(s)[picked[i]] == u;
    }
    forall u | u in Slots(s)
      ensures x.Near(v, r[0]) <= x.Near(v, u)
    {
      var p :| 0 <= p < |s| && Slots(s)[p] == u;
      assert s[0].distance <= s[p].distance;
    }
  }

  lemma DroppedLeftOut(x: Newcomer, s: seq<Candidate>, needed: nat, m: Metric, v: nat, picked: seq<nat>, r: seq<nat>, p: nat)
    requires Sorted(s) && Measured(x, s, m, v) && SlotsAt(s, picked, r) && p < |s|
    requires forall j, k :: 0 <= j < k < |picked| ==> picked[j] < picked[k]
    requires Dropped(s, picked, p, needed, m)
    ensures LeftOut(x, r, v, s[p].slot, needed)
  {
    if k :| 0 <= k < |picked| && picked[k] < p && Between(m, s[p].slot, s[picked[k]].slot) < s[p].distance {
      assert r[k] in r;
    } else {
      forall w | w in r
        ensures x.Near(v, w) <= x.Near(v, s[p].slot)
      {
        var i :| 0 <= i < |r| && r[i] == w;
        assert picked[i] <= picked[needed - 1];
      }
    }
  }

  /** What the heuristic keeps of candidates by distance is what pruning leaves of their slots. */
  lemma PrunedMeans(x: Newcomer, s: seq<Candidate>, needed: nat, m: Metric, v: nat)
    requires Sorted(s) && DistinctSlots(s) && 0 < needed <= |s| && Measured(x, s, m, v)
    ensures PrunedFrom(x, Slots(s), Slots(Refined(s, needed, m)), v, needed)
  {
    var picked, r := Picked(s, |s|, needed, m), Slots(Refined(s, needed, m));
    PickedKept(s, |s|, needed, m);
    PickedSlots(s, needed, m);
    PickedOrder(x, s, m, v, picked, r);
    PickedDrawn(x, s, m, v, picked, r);
    forall u | u in Slots(s) && u !in r
      ensures LeftOut(x, r, v, u, needed)
    {
      var p :| 0 <= p < |s| && Slots(s)[p] == u;
      forall i | 0 <= i < |picked|
        ensures picked[i] != p
      {
        assert r[i] in r;
      }
      PickedDropped(s, |s|, needed, m, p);
      DroppedLeftOut(x, s, needed, m, v, picked, r, p);
    }
  }

  lemma PrunedSame(x: Newcomer, all: seq<nat>, other: seq<nat>, r: seq<nat>, v: nat, cap: nat)
    requires PrunedFrom(x, all, r, v, cap) && forall u :: u in all <==> u in other
    ensures PrunedFrom(x, other, r, v, cap)
  {
  }

  lemma CandidatesMeasured(x: Newcomer, s: seq<Candidate>, list: seq<nat>, v: nat)
    requires v != x.slot && x.slot !in list
    requires PruneCandidates(s, list, x.slot, Dist(x.valueDist, v), Row(x.between, v))
    ensures Measured(x, s, LinkMetric(x.slot, x.valueDist, x.between), v)
    ensures forall u :: u in Slots(s) <==> u in list + [x.slot]
  {
    forall i | 0 <= i < |s|
      ensures s[i].distance == x.Near(v, s[i].slot) && s[i].slot in list + [x.slot]
    {
      assert s[i] in s;
    }
    forall u | u in list + [x.slot]
      ensures u in Slots(s)
    {
      var c := if u == x.slot then Candidate(Dist(x.valueDist, v), u) else Candidate(Dist(Row(x.between, v), u), u);
      assert c in s;
      var i :| 0 <= i < |s| && s[i] == c;
      assert Slots(s)[i] == u;
    }
  }

  /** What linking back computes is what the offer of a link makes of a list. */
  lemma LinkedBackMeans(x: Newcomer, before: seq<nat>, after: seq<nat>, v: nat, cap: nat)
    requires v != x.slot && cap > 0
    requires LinkedBack(before, after, x.slot, Dist(x.valueDist, v), Row(x.between, v), cap,
                        LinkMetric(x.slot, x.valueDist, x.between))
    ensures LinkOffered(x, before, after, v, cap)
  {
    if x.slot !in before && |before| >= cap {
      var m := LinkMetric(x.slot, x.valueDist, x.between);
      var s :| PruneCandidates(s, before, x.slot, Dist(x.valueDist, v), Row(x.between, v)) && after == Slots(Refined(s, cap, m));
      CandidatesMeasured(x, s, before, v);
      PrunedMeans(x, s, cap, m, v);
      PrunedSame(x, Slots(s), before + [x.slot], after, v, cap);
    }
  }
}
