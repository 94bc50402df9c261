/** Proposals between two collections, in rounds: what every round keeps, and what the matching is worth at the end. */
module Matching {
  import opened Numbers
  import opened Candidates
  import opened ExactSearch
  import opened Graph

  /** The slot that stands for no partner. */
  const MISSING: nat := 0xFFFF_FFFF

  /** Proposals are counted in 16 bits. */
  const COUNT_MAX: nat := 0xFFFF

  function Counted(k: nat): nat {
    k % (COUNT_MAX + 1)
  }

  /** The distances a proposal reads: `ask[m][w]` from a man's value to a woman, `reply[w][m]` from a woman's to a man's. */
  datatype Party = Party(men: nat, women: nat, limit: nat, ask: seq<seq<real>>, reply: seq<seq<real>>)

  function Row(table: seq<seq<real>>, i: nat): seq<real> {
    if i < |table| then table[i] else []
  }

  function Cell(table: seq<seq<real>>, i: nat, j: nat): (d: real)
    ensures i < |table| && j < |table[i]| ==> d == table[i][j]
  {
    Dist(Row(table, i), j)
  }

  function Everyone(n: nat): (r: seq<bool>)
    ensures |r| == n && forall i :: 0 <= i < n ==> r[i]
  {
    seq(n, _ => true)
  }

  ghost predicate Symmetric(p: Party) {
    forall m: nat, w: nat :: m < p.men && w < p.women ==> Cell(p.ask, m, w) == Cell(p.reply, w, m)
  }

  /** All women, the closest to man `m` first. */
  ghost function Preference(p: Party, m: nat): seq<Candidate> {
    Ranked(p.women, Row(p.ask, m), Everyone(p.women))
  }

  /** The woman man `m` proposes to when he has proposed `k` times. */
  ghost function Choice(p: Party, m: nat, k: nat): nat {
    if k < |Preference(p, m)| then Preference(p, m)[k].slot else MISSING
  }

  /** Woman `w` is one of the `n` closest to man `m`. */
  ghost predicate AmongFirst(p: Party, m: nat, w: nat, n: nat) {
    exists k: nat :: k < n && Choice(p, m, k) == w
  }

  lemma ChoiceSpec(p: Party, m: nat)
    ensures |Preference(p, m)| == p.women && Ordered(Preference(p, m))
    ensures forall k: nat :: k < p.women ==>
      Choice(p, m, k) < p.women && Preference(p, m)[k].distance == Cell(p.ask, m, Choice(p, m, k))
    ensures forall w: nat :: w < p.women ==> AmongFirst(p, m, w, p.women)
  {
    RankedAll(p.women, Row(p.ask, m), Everyone(p.women));
    RankedSpec(p.women, Row(p.ask, m), Everyone(p.women));
    forall k: nat | k < p.women
      ensures Choice(p, m, k) < p.women && Preference(p, m)[k].distance == Cell(p.ask, m, Choice(p, m, k))
    {
      assert Preference(p, m)[k] in Preference(p, m);
    }
    forall w: nat | w < p.women
      ensures AmongFirst(p, m, w, p.women)
    {
      var c := Candidate(Cell(p.ask, m, w), w);
      assert c in Preference(p, m);
      var k :| 0 <= k < p.women && Preference(p, m)[k] == c;
      assert Choice(p, m, k) == w;
    }
  }

  /** Choices do not repeat, and a strictly closer woman was chosen earlier. */
  lemma ChoiceOrder(p: Party, m: nat, i: nat, j: nat)
    requires i < p.women && j < p.women
    ensures Choice(p, m, i) == Choice(p, m, j) ==> i == j
    ensures Cell(p.ask, m, Choice(p, m, i)) < Cell(p.ask, m, Choice(p, m, j)) ==> i < j
  {
    ChoiceSpec(p, m);
    assert i < j ==> Precedes(Preference(p, m)[i], Preference(p, m)[j]);
    assert j < i ==> Precedes(Preference(p, m)[j], Preference(p, m)[i]);
  }

  /** Between two rounds: how often each man has proposed, the partners, the queue of free men, and the locks. */
  datatype Courtship = Courtship(counts: seq<nat>, wives: seq<nat>, husbands: seq<nat>, free: seq<nat>,
                                 menLocked: seq<bool>, womenLocked: seq<bool>)

  ghost predicate Shaped(p: Party, s: Courtship) {
    && |s.counts| == |s.wives| == |s.menLocked| == p.men
    && |s.husbands| == |s.womenLocked| == p.women
    && p.limit <= p.men <= p.women < MISSING
    && NoDuplicates(s.free) && forall i :: 0 <= i < |s.free| ==> s.free[i] < p.men
  }

  /** A married man is the husband of his last choice; a single one is queued, or stays locked with his proposals used up. */
  ghost predicate ManOk(p: Party, s: Courtship, m: nat)
    requires Shaped(p, s) && m < p.men
  {
    && s.counts[m] <= p.limit && s.counts[m] <= COUNT_MAX
    && (s.wives[m] != MISSING ==>
          && s.wives[m] < p.women && s.husbands[s.wives[m]] == m
          && 0 < s.counts[m] && s.wives[m] == Choice(p, m, s.counts[m] - 1))
    && (m in s.free ==> s.wives[m] == MISSING)
    && (s.menLocked[m] <==> s.wives[m] == MISSING && m !in s.free)
    && (s.menLocked[m] ==> s.counts[m] == p.limit)
  }

  ghost predicate WomanOk(p: Party, s: Courtship, w: nat)
    requires Shaped(p, s) && w < p.women
  {
    && !s.womenLocked[w]
    && (s.husbands[w] != MISSING ==> s.husbands[w] < p.men && s.wives[s.husbands[w]] == w)
  }

  /** Woman `w` is held, and, if the metric is symmetric, by a man at least as close as `m`. */
  ghost predicate Held(p: Party, husbands: seq<nat>, m: nat, w: nat)
    requires |husbands| == p.women
  {
    && w < p.women && husbands[w] != MISSING
    && (Symmetric(p) ==> Cell(p.ask, husbands[w], w) <= Cell(p.ask, m, w))
  }

  ghost predicate AskedAreHeld(p: Party, s: Courtship)
    requires Shaped(p, s)
  {
    forall m: nat, k: nat :: m < p.men && k < s.counts[m] ==> Held(p, s.husbands, m, Choice(p, m, k))
  }

  ghost predicate Inv(p: Party, s: Courtship) {
    && Shaped(p, s)
    && (forall m: nat :: m < p.men ==> ManOk(p, s, m))
    && (forall w: nat :: w < p.women ==> WomanOk(p, s, w))
    && AskedAreHeld(p, s)
  }

  /** Woman `w` takes man `m` if she is free or has someone farther; the one who goes without joins the queue. */
  ghost function Answered(p: Party, s: Courtship, m: nat, w: nat): Courtship
    requires m < |s.wives| && w < |s.husbands| && (s.husbands[w] != MISSING ==> s.husbands[w] < |s.wives|)
  {
    var h := s.husbands[w];
    if h == MISSING then
      s.(wives := s.wives[m := w], husbands := s.husbands[w := m])
    else if Cell(p.reply, w, h) > Cell(p.ask, m, w) then
      s.(free := s.free + [h], wives := s.wives[h := MISSING][m := w], husbands := s.husbands[w := m])
    else
      s.(free := s.free + [m])
  }

  /** In this round the first man of the queue is to propose once more than can be counted: his count wraps to zero, and
      the search is asked for no results, of which the last is then read. */
  ghost predicate OutOfCount(p: Party, s: Courtship) {
    && Inv(p, s) && s.free != [] && s.free[0] < p.men
    && s.counts[s.free[0]] < p.limit && Counted(s.counts[s.free[0]] + 1) == 0
  }

  /** One round, for the first man of the queue: he retires, and stays locked, or proposes to his next choice. */
  ghost function Next(p: Party, s: Courtship): Courtship
    requires Inv(p, s) && s.free != [] && !OutOfCount(p, s)
  {
    var m, rest := s.free[0], s.free[1..];
    assert ManOk(p, s, m);
    if s.counts[m] >= p.limit then
      s.(free := rest, menLocked := s.menLocked[m := true])
    else
      ChoiceSpec(p, m);
      var w := Choice(p, m, s.counts[m]);
      assert WomanOk(p, s, w);
      Answered(p, s.(counts := s.counts[m := Counted(s.counts[m] + 1)], free := rest), m, w)
  }

  /** What matters of a queue: who is in it. */
  lemma QueueChange(free: seq<nat>, x: nat)
    requires free != [] && NoDuplicates(free) && x !in free[1..]
    ensures NoDuplicates(free[1..]) && NoDuplicates(free[1..] + [x]) && free[0] !in free[1..]
    ensures forall m: nat :: m in free[1..] <==> m in free && m != free[0]
    ensures forall m: nat :: m in free[1..] + [x] <==> m == x || (m in free && m != free[0])
  {
    assert free == [free[0]] + free[1..];
  }

  /** Every round keeps the invariant. */
  lemma NextInv(p: Party, s: Courtship)
    requires Inv(p, s) && s.free != [] && !OutOfCount(p, s)
    ensures Inv(p, Next(p, s))
  {
    var m, r := s.free[0], Next(p, s);
    assert ManOk(p, s, m);
    QueueChange(s.free, m);
    if s.counts[m] < p.limit {
      ChoiceSpec(p, m);
      var w := Choice(p, m, s.counts[m]);
      assert WomanOk(p, s, w);
      if s.husbands[w] == MISSING {
        Engaged(p, s, m, w);
      } else if Cell(p.reply, w, s.husbands[w]) > Cell(p.ask, m, w) {
        Replaced(p, s, m, w);
      } else {
        Refused(p, s, m, w);
      }
    } else {
      Retired(p, s, m);
    }
  }

  lemma Retired(p: Party, s: Courtship, m: nat)
    requires Inv(p, s) && s.free != [] && !OutOfCount(p, s) && m == s.free[0] && s.counts[m] >= p.limit
    ensures Inv(p, Next(p, s))
  {
    var r := Next(p, s);
    QueueChange(s.free, m);
    assert ManOk(p, s, m);
    forall x: nat | x < p.men
      ensures ManOk(p, r, x)
    {
      assert ManOk(p, s, x);
    }
    forall w: nat | w < p.women
      ensures WomanOk(p, r, w)
    {
      assert WomanOk(p, s, w);
    }
  }

  /** A proposal to `w` leaves every woman asked before held as well as she was, if it leaves `w` so. */
  lemma AskedNext(p: Party, s: Courtship, r: Courtship, m: nat, w: nat)
    requires Shaped(p, s) && Shaped(p, r) && AskedAreHeld(p, s) && m < p.men && w < p.women
    requires r.counts == s.counts[m := s.counts[m] + 1] && w == Choice(p, m, s.counts[m])
    requires forall v: nat :: v < p.women && v != w ==> r.husbands[v] == s.husbands[v]
    requires Held(p, r.husbands, m, w)
    requires s.husbands[w] != MISSING && Symmetric(p) ==> Cell(p.ask, r.husbands[w], w) <= Cell(p.ask, s.husbands[w], w)
    ensures AskedAreHeld(p, r)
  {
    forall x: nat, k: nat | x < p.men && k < r.counts[x]
      ensures Held(p, r.husbands, x, Choice(p, x, k))
    {
      assert k < s.counts[x] ==> Held(p, s.husbands, x, Choice(p, x, k));
    }
  }

  /** Woman `w`, who has nobody, takes the first man of the queue. */
  ghost predicate Took(p: Party, s: Courtship, r: Courtship, m: nat, w: nat)
    requires Shaped(p, s) && s.free != [] && m < p.men && w < p.women
  {
    && m == s.free[0] && s.husbands[w] == MISSING
    && r == Courtship(s.counts[m := s.counts[m] + 1], s.wives[m := w], s.husbands[w := m], s.free[1..], s.menLocked, s.womenLocked)
  }

  lemma TookMan(p: Party, s: Courtship, r: Courtship, m: nat, w: nat, x: nat)
    requires Inv(p, s) && s.free != [] && m < p.men && w < p.women && x < p.men && Took(p, s, r, m, w)
    requires s.counts[m] < p.limit && s.counts[m] < COUNT_MAX && w == Choice(p, m, s.counts[m])
    ensures Shaped(p, r) && ManOk(p, r, x)
  {
    assert ManOk(p, s, m) && ManOk(p, s, x);
    QueueChange(s.free, m);
  }

  lemma TookWoman(p: Party, s: Courtship, r: Courtship, m: nat, w: nat, v: nat)
    requires Inv(p, s) && s.free != [] && m < p.men && w < p.women && v < p.women && Took(p, s, r, m, w)
    requires Shaped(p, r)
    ensures WomanOk(p, r, v)
  {
    assert WomanOk(p, s, w) && WomanOk(p, s, v) && ManOk(p, s, m);
  }

  lemma Engaged(p: Party, s: Courtship, m: nat, w: nat)
    requires Inv(p, s) && s.free != [] && !OutOfCount(p, s) && m == s.free[0] && s.counts[m] < p.limit
    requires w == Choice(p, m, s.counts[m]) && w < p.women && s.husbands[w] == MISSING
    ensures Inv(p, Next(p, s))
  {
    var r := Next(p, s);
    assert ManOk(p, s, m);
    TookMan(p, s, r, m, w, m);
    forall x: nat | x < p.men
      ensures ManOk(p, r, x)
    {
      TookMan(p, s, r, m, w, x);
    }
    forall v: nat | v < p.women
      ensures WomanOk(p, r, v)
    {
      TookWoman(p, s, r, m, w, v);
    }
    AskedNext(p, s, r, m, w);
  }

  /** Woman `w` leaves `h`, who joins the queue, for the first man of the queue. */
  ghost predicate Left(p: Party, s: Courtship, r: Courtship, m: nat, w: nat, h: nat)
    requires Shaped(p, s) && s.free != [] && m < p.men && h < p.men && w < p.women
  {
    && m == s.free[0] && s.husbands[w] == h
    && r == Courtship(s.counts[m := s.counts[m] + 1], s.wives[h := MISSING][m := w], s.husbands[w := m], s.free[1..] + [h],
                      s.menLocked, s.womenLocked)
  }

  lemma LeftMan(p: Party, s: Courtship, r: Courtship, m: nat, w: nat, h: nat, x: nat)
    requires Inv(p, s) && s.free != [] && m < p.men && h < p.men && w < p.women && x < p.men && Left(p, s, r, m, w, h)
    requires s.counts[m] < p.limit && s.counts[m] < COUNT_MAX && w == Choice(p, m, s.counts[m])
    ensures Shaped(p, r) && ManOk(p, r, x)
  {
    assert WomanOk(p, s, w) && ManOk(p, s, h) && ManOk(p, s, m) && ManOk(p, s, x);
    QueueChange(s.free, h);
  }

  lemma LeftWoman(p: Party, s: Courtship, r: Courtship, m: nat, w: nat, h: nat, v: nat)
    requires Inv(p, s) && s.free != [] && m < p.men && h < p.men && w < p.women && v < p.women && Left(p, s, r, m, w, h)
    requires Shaped(p, r)
    ensures WomanOk(p, r, v)
  {
    assert WomanOk(p, s, w) && WomanOk(p, s, v) && ManOk(p, s, m);
  }

  lemma Replaced(p: Party, s: Courtship, m: nat, w: nat)
    requires Inv(p, s) && s.free != [] && !OutOfCount(p, s) && m == s.free[0] && s.counts[m] < p.limit
    requires w == Choice(p, m, s.counts[m]) && w < p.women && s.husbands[w] != MISSING
    requires s.husbands[w] < p.men && Cell(p.reply, w, s.husbands[w]) > Cell(p.ask, m, w)
    ensures Inv(p, Next(p, s))
  {
    var r := Next(p, s);
    assert ManOk(p, s, m);
    LeftMan(p, s, r, m, w, s.husbands[w], m);
    forall x: nat | x < p.men
      ensures ManOk(p, r, x)
    {
      LeftMan(p, s, r, m, w, s.husbands[w], x);
    }
    forall v: nat | v < p.women
      ensures WomanOk(p, r, v)
    {
      LeftWoman(p, s, r, m, w, s.husbands[w], v);
    }
    AskedNext(p, s, r, m, w);
  }

  lemma Refused(p: Party, s: Courtship, m: nat, w: nat)
    requires Inv(p, s) && s.free != [] && !OutOfCount(p, s) && m == s.free[0] && s.counts[m] < p.limit
    requires w == Choice(p, m, s.counts[m]) && w < p.women && s.husbands[w] != MISSING
    requires s.husbands[w] < p.men && Cell(p.reply, w, s.husbands[w]) <= Cell(p.ask, m, w)
    ensures Inv(p, Next(p, s))
  {
    var r := Next(p, s);
    QueueChange(s.free, m);
    assert ManOk(p, s, m);
    AskedNext(p, s, r, m, w);
    forall x: nat | x < p.men
      ensures ManOk(p, r, x)
    {
      assert ManOk(p, s, x);
    }
    forall v: nat | v < p.women
      ensures WomanOk(p, r, v)
    {
      assert WomanOk(p, s, v);
    }
  }

  ghost function Total(s: seq<nat>): nat {
    if s == [] then 0 else Total(s[..|s| - 1]) + s[|s| - 1]
  }

  lemma {:induction false} TotalUpdate(s: seq<nat>, i: nat, v: nat)
    requires i < |s|
    ensures Total(s[i := v]) == Total(s) - s[i] + v
  {
    var rest := s[..|s| - 1];
    if i < |s| - 1 {
      TotalUpdate(rest, i, v);
      assert s[i := v][..|s| - 1] == rest[i := v];
    } else {
      assert s[i := v][..|s| - 1] == rest;
    }
  }

  lemma {:induction false} TotalBound(s: seq<nat>, limit: nat)
    requires forall i :: 0 <= i < |s| ==> s[i] <= limit
    ensures Total(s) <= |s| * limit
  {
    if s != [] {
      TotalBound(s[..|s| - 1], limit);
      assert |s| * limit == (|s| - 1) * limit + limit;
    }
  }

  /** The proposals that may still be made. */
  ghost function Remaining(p: Party, s: Courtship): (r: int)
  {
    p.men * p.limit - Total(s.counts)
  }

  lemma RemainingBound(p: Party, s: Courtship)
    requires Inv(p, s)
    ensures Remaining(p, s) >= 0
  {
    forall m: nat | m < p.men
      ensures s.counts[m] <= p.limit
    {
      assert ManOk(p, s, m);
    }
    TotalBound(s.counts, p.limit);
  }

  lemma NextCounts(p: Party, s: Courtship)
    requires Inv(p, s) && s.free != [] && !OutOfCount(p, s)
    ensures var m, r := s.free[0], Next(p, s);
      && m < |s.counts| && s.counts[m] <= p.limit
      && (s.counts[m] < p.limit ==> r.counts == s.counts[m := s.counts[m] + 1])
      && (s.counts[m] == p.limit ==> r.counts == s.counts && r.free == s.free[1..])
  {
    assert ManOk(p, s, s.free[0]);
  }

  /** A round uses up a proposal, or leaves the queue shorter. */
  lemma NextShrinks(p: Party, s: Courtship)
    requires Inv(p, s) && s.free != [] && !OutOfCount(p, s)
    ensures var r := Next(p, s);
      0 <= Remaining(p, r) < Remaining(p, s) || (0 <= Remaining(p, r) == Remaining(p, s) && |r.free| < |s.free|)
  {
    NextInv(p, s);
    NextCounts(p, s);
    RemainingBound(p, Next(p, s));
    TotalUpdate(s.counts, s.free[0], s.counts[s.free[0]] + 1);
  }

  /** Everyone queued and unmatched. */
  ghost function Start(p: Party): Courtship {
    Courtship(seq(p.men, _ => 0), seq(p.men, _ => MISSING), seq(p.women, _ => MISSING), seq(p.men, i => i),
              seq(p.men, _ => false), seq(p.women, _ => false))
  }

  lemma StartInv(p: Party)
    requires p.limit <= p.men <= p.women < MISSING
    ensures Inv(p, Start(p))
  {
    forall m: nat | m < p.men
      ensures ManOk(p, Start(p), m)
    {
      assert Start(p).free[m] == m;
    }
  }

  /** How the rounds end: with an empty queue, or with a proposal that cannot be counted. */
  datatype Ending = Emptied(last: Courtship) | Overflown

  ghost function RunFrom(p: Party, s: Courtship): Ending
    requires Inv(p, s)
    decreases Remaining(p, s), |s.free|
  {
    if s.free == [] then Emptied(s)
    else if OutOfCount(p, s) then Overflown
    else
      NextInv(p, s);
      NextShrinks(p, s);
      RunFrom(p, Next(p, s))
  }

  lemma {:induction false} RunFromInv(p: Party, s: Courtship)
    requires Inv(p, s) && RunFrom(p, s).Emptied?
    ensures Inv(p, RunFrom(p, s).last) && RunFrom(p, s).last.free == []
    decreases Remaining(p, s), |s.free|
  {
    if s.free != [] {
      NextInv(p, s);
      NextShrinks(p, s);
      RunFromInv(p, Next(p, s));
    }
  }

  /** The rounds come to an end with an empty queue. */
  ghost predicate Completes(p: Party) {
    && p.limit <= p.men <= p.women < MISSING
    && (StartInv(p); RunFrom(p, Start(p)).Emptied?)
  }

  /** A limit that can be counted to is never overrun. */
  lemma {:induction false} CountedLimitCompletes(p: Party, s: Courtship)
    requires Inv(p, s) && p.limit <= COUNT_MAX
    ensures RunFrom(p, s).Emptied?
    decreases Remaining(p, s), |s.free|
  {
    if s.free != [] {
      NextInv(p, s);
      NextShrinks(p, s);
      CountedLimitCompletes(p, Next(p, s));
    }
  }

  /** How many proposals every man has made, less one. */
  ghost function Ranks(s: Courtship): (r: seq<nat>)
    requires forall m :: 0 <= m < |s.counts| ==> s.counts[m] > 0
    ensures |r| == |s.counts| && forall m :: 0 <= m < |r| ==> r[m] == s.counts[m] - 1
  {
    seq(|s.counts|, m requires 0 <= m < |s.counts| => s.counts[m] - 1)
  }

  /** Where all distances are equal, all men ask in the same order. Of more men than can be counted, one would have to
      ask more often than can be counted. */
  lemma EqualDistancesOverflow(p: Party, s: Courtship)
    requires Inv(p, s) && p.limit > COUNT_MAX && p.ask == []
    ensures s.free != []
  {
    if s.free == [] {
      forall m: nat | m < p.men
        ensures s.wives[m] < p.women && 0 < s.counts[m] <= COUNT_MAX && s.wives[m] == Choice(p, 0, s.counts[m] - 1)
          && s.husbands[s.wives[m]] == m
      {
        assert ManOk(p, s, m);
        assert Row(p.ask, m) == Row(p.ask, 0);
      }
      var ranks := Ranks(s);
      forall i, j | 0 <= i < j < |ranks|
        ensures ranks[i] != ranks[j]
      {
        assert s.wives[i] == Choice(p, 0, ranks[i]) && s.wives[j] == Choice(p, 0, ranks[j]);
      }
      ValuesSize(ranks);
      SizeBelow(Values(ranks), COUNT_MAX);
    }
  }

  /** Whatever the distances, the rounds come to an end with an empty queue, exactly if the limit can be counted to: for
      a larger one equal distances are an input with which they do not. */
  lemma CompletesIffCounted(men: nat, women: nat, limit: nat)
    requires limit <= men <= women < MISSING
    ensures (forall ask, reply :: Completes(Party(men, women, limit, ask, reply))) <==> limit <= COUNT_MAX
  {
    if limit <= COUNT_MAX {
      forall ask, reply
        ensures Completes(Party(men, women, limit, ask, reply))
      {
        var p := Party(men, women, limit, ask, reply);
        StartInv(p);
        CountedLimitCompletes(p, Start(p));
      }
    } else {
      var p := Party(men, women, limit, [], []);
      StartInv(p);
      if RunFrom(p, Start(p)).Emptied? {
        RunFromInv(p, Start(p));
        EqualDistancesOverflow(p, RunFrom(p, Start(p)).last);
      }
      assert !Completes(p);
    }
  }

  /** The two partner tables are inverse to each other. */
  ghost predicate Inverse(p: Party, wives: seq<nat>, husbands: seq<nat>) {
    && |wives| == p.men && |husbands| == p.women
    && (forall m: nat :: m < p.men && wives[m] != MISSING ==> wives[m] < p.women && husbands[wives[m]] == m)
    && (forall w: nat :: w < p.women && husbands[w] != MISSING ==> husbands[w] < p.men && wives[husbands[w]] == w)
  }

  /** Man `m` would rather have woman `w`. */
  ghost predicate Wants(p: Party, wives: seq<nat>, m: nat, w: nat)
    requires m < |wives|
  {
    wives[m] == MISSING || Cell(p.ask, m, w) < Cell(p.ask, m, wives[m])
  }

  /** Woman `w` is not free, and nobody farther than `m` has her. */
  ghost predicate Content(p: Party, husbands: seq<nat>, m: nat, w: nat)
    requires w < |husbands|
  {
    husbands[w] != MISSING && Cell(p.ask, husbands[w], w) <= Cell(p.ask, m, w)
  }

  /** Nobody is given a partner out of reach, and no pair in reach would rather have each other. */
  ghost predicate StableInReach(p: Party, wives: seq<nat>, husbands: seq<nat>)
    requires Inverse(p, wives, husbands)
  {
    && (forall m: nat :: m < p.men && wives[m] != MISSING ==> AmongFirst(p, m, wives[m], p.limit))
    && (forall m: nat, w: nat :: m < p.men && w < p.women && AmongFirst(p, m, w, p.limit) && Wants(p, wives, m, w) ==>
          Content(p, husbands, m, w))
  }

  /** No pair at all would rather have each other. */
  ghost predicate Stable(p: Party, wives: seq<nat>, husbands: seq<nat>)
    requires Inverse(p, wives, husbands)
  {
    forall m: nat, w: nat :: m < p.men && w < p.women && Wants(p, wives, m, w) ==> Content(p, husbands, m, w)
  }

  lemma InvInverse(p: Party, s: Courtship)
    requires Inv(p, s)
    ensures Inverse(p, s.wives, s.husbands)
  {
    forall m: nat | m < p.men && s.wives[m] != MISSING
      ensures s.wives[m] < p.women && s.husbands[s.wives[m]] == m
    {
      assert ManOk(p, s, m);
    }
    forall w: nat | w < p.women && s.husbands[w] != MISSING
      ensures s.husbands[w] < p.men && s.wives[s.husbands[w]] == w
    {
      assert WomanOk(p, s, w);
    }
  }

  /** A man left alone has asked every woman in reach, and any other every woman closer than his wife. */
  lemma AskedWhatHeWants(p: Party, s: Courtship, m: nat, k: nat)
    requires Inv(p, s) && s.free == [] && m < p.men && k < p.women
    requires s.wives[m] == MISSING ==> k < p.limit
    requires Wants(p, s.wives, m, Choice(p, m, k))
    ensures Held(p, s.husbands, m, Choice(p, m, k))
  {
    assert ManOk(p, s, m);
    if s.wives[m] != MISSING {
      ChoiceOrder(p, m, k, s.counts[m] - 1);
    }
    assert k < s.counts[m];
  }

  /** When the queue runs dry under a symmetric metric, the matching is stable among the pairs in reach. */
  lemma FinishedStable(p: Party, s: Courtship)
    requires Inv(p, s) && s.free == [] && Symmetric(p)
    ensures Inverse(p, s.wives, s.husbands) && StableInReach(p, s.wives, s.husbands)
  {
    InvInverse(p, s);
    forall m: nat | m < p.men && s.wives[m] != MISSING
      ensures AmongFirst(p, m, s.wives[m], p.limit)
    {
      assert ManOk(p, s, m);
    }
    forall m: nat, w: nat | m < p.men && w < p.women && AmongFirst(p, m, w, p.limit) && Wants(p, s.wives, m, w)
      ensures Content(p, s.husbands, m, w)
    {
      var k: nat :| k < p.limit && Choice(p, m, k) == w;
      AskedWhatHeWants(p, s, m, k);
    }
  }

  /** The husbands of the first `k` choices of `m`. */
  ghost function HusbandsOfChoices(p: Party, husbands: seq<nat>, m: nat, k: nat): (r: seq<nat>)
    requires |husbands| == p.women && forall i: nat :: i < k ==> Choice(p, m, i) < p.women
    ensures |r| == k && forall i :: 0 <= i < k ==> r[i] == husbands[Choice(p, m, i)]
  {
    seq(k, i requires 0 <= i < k => husbands[Choice(p, m, i)])
  }

  /** If everyone may propose as often as there are men, every man ends up matched, whatever the metric: a man
      refused by that many women would leave too few men to hold them all. */
  lemma AllMatched(p: Party, s: Courtship)
    requires Inv(p, s) && s.free == [] && p.limit == p.men
    ensures forall m: nat :: m < p.men ==> s.wives[m] != MISSING
  {
    forall m: nat | m < p.men
      ensures s.wives[m] != MISSING
    {
      if s.wives[m] == MISSING {
        assert ManOk(p, s, m);
        ChoiceSpec(p, m);
        var held := HusbandsOfChoices(p, s.husbands, m, p.men);
        forall i | 0 <= i < p.men
          ensures held[i] < p.men && held[i] != m && s.wives[held[i]] == Choice(p, m, i)
        {
          assert Held(p, s.husbands, m, Choice(p, m, i));
          assert WomanOk(p, s, Choice(p, m, i));
        }
        forall i, j | 0 <= i < j < p.men
          ensures held[i] != held[j]
        {
          ChoiceOrder(p, m, i, j);
        }
        ValuesSize(held);
        SizeBelow(Values(held) + {m}, p.men);
      }
    }
  }

  /** With that many proposals the matching is stable without reservation. */
  lemma FinishedFullyStable(p: Party, s: Courtship)
    requires Inv(p, s) && s.free == [] && Symmetric(p) && p.limit == p.men
    ensures Inverse(p, s.wives, s.husbands) && Stable(p, s.wives, s.husbands)
  {
    InvInverse(p, s);
    AllMatched(p, s);
    forall m: nat, w: nat | m < p.men && w < p.women && Wants(p, s.wives, m, w)
      ensures Content(p, s.husbands, m, w)
    {
      ChoiceSpec(p, m);
      assert AmongFirst(p, m, w, p.women);
      var k: nat :| k < p.women && Choice(p, m, k) == w;
      AskedWhatHeWants(p, s, m, k);
    }
  }

  /** No two pairs are equally far apart. */
  ghost predicate NoTies(p: Party) {
    forall m: nat, w: nat, x: nat, y: nat ::
      m < p.men && w < p.women && x < p.men && y < p.women && Cell(p.ask, m, w) == Cell(p.ask, x, y) ==> m == x && w == y
  }

  /** Man and woman are partners in the first matching but not in the second. */
  ghost predicate OnlyIn(p: Party, wives: seq<nat>, others: seq<nat>, pair: (nat, nat))
    requires |wives| == |others| == p.men
  {
    pair.0 < p.men && pair.1 < p.women && wives[pair.0] == pair.1 && others[pair.0] != pair.1
  }

  lemma {:induction false} Closest(p: Party, pairs: set<(nat, nat)>) returns (least: (nat, nat))
    requires pairs != {}
    ensures least in pairs && forall q :: q in pairs ==> Cell(p.ask, least.0, least.1) <= Cell(p.ask, q.0, q.1)
    decreases |pairs|
  {
    least :| least in pairs;
    var rest := pairs - {least};
    if rest != {} {
      var other := Closest(p, rest);
      if Cell(p.ask, other.0, other.1) < Cell(p.ask, least.0, least.1) {
        least := other;
      }
    }
  }

  ghost predicate HasCloser(p: Party, pairs: set<(nat, nat)>, q: (nat, nat)) {
    exists r :: r in pairs && Cell(p.ask, r.0, r.1) < Cell(p.ask, q.0, q.1)
  }

  lemma NoDescent(p: Party, pairs: set<(nat, nat)>)
    requires forall q :: q in pairs ==> HasCloser(p, pairs, q)
    ensures pairs == {}
  {
    if pairs != {} {
      var least := Closest(p, pairs);
      assert false;
    }
  }

  /** Of a pair that only the first of two stable matchings has, the second has given one of the two someone closer. */
  lemma CloserPair(p: Party, wives: seq<nat>, husbands: seq<nat>, wives2: seq<nat>, husbands2: seq<nat>, pair: (nat, nat))
    returns (closer: (nat, nat))
    requires p.women < MISSING && p.men < MISSING
    requires Inverse(p, wives, husbands) && Inverse(p, wives2, husbands2) && Stable(p, wives2, husbands2) && NoTies(p)
    requires OnlyIn(p, wives, wives2, pair)
    ensures OnlyIn(p, wives2, wives, closer) && Cell(p.ask, closer.0, closer.1) < Cell(p.ask, pair.0, pair.1)
  {
    var m, w := pair.0, pair.1;
    if Wants(p, wives2, m, w) {
      assert Content(p, husbands2, m, w);
      closer := (husbands2[w], w);
    } else {
      closer := (m, wives2[m]);
    }
  }

  /** Without ties there is only one stable matching: neither the order of the queue nor which side proposes matters. */
  lemma StableUnique(p: Party, wives: seq<nat>, husbands: seq<nat>, wives2: seq<nat>, husbands2: seq<nat>)
    requires p.women < MISSING && p.men < MISSING && NoTies(p)
    requires Inverse(p, wives, husbands) && Stable(p, wives, husbands)
    requires Inverse(p, wives2, husbands2) && Stable(p, wives2, husbands2)
    ensures wives == wives2 && husbands == husbands2
  {
    var pairs := set m: nat, w: nat | m < p.men && w < p.women
                   && (OnlyIn(p, wives, wives2, (m, w)) || OnlyIn(p, wives2, wives, (m, w))) :: (m, w);
    forall q | q in pairs
      ensures HasCloser(p, pairs, q)
    {
      var closer;
      if OnlyIn(p, wives, wives2, q) {
        closer := CloserPair(p, wives, husbands, wives2, husbands2, q);
      } else {
        closer := CloserPair(p, wives2, husbands2, wives, husbands, q);
      }
      assert closer in pairs;
    }
    NoDescent(p, pairs);
    forall m: nat | m < p.men
      ensures wives[m] == wives2[m]
    {
      assert (m, wives[m]) !in pairs && (m, wives2[m]) !in pairs;
    }
    forall w: nat | w < p.women
      ensures husbands[w] == husbands2[w]
    {
      assert husbands[w] != MISSING ==> wives[husbands[w]] == w;
      assert husbands2[w] != MISSING ==> wives2[husbands2[w]] == w;
    }
  }

  /** The same distances with the women proposing. */
  ghost function Swapped(p: Party): Party {
    Party(p.women, p.men, p.limit, p.reply, p.ask)
  }

  /** Under a symmetric metric a matching is stable for one side exactly if it is for the other. */
  lemma SwappedStable(p: Party, wives: seq<nat>, husbands: seq<nat>)
    requires Symmetric(p) && Inverse(p, wives, husbands) && p.women < MISSING && p.men < MISSING
    ensures Inverse(Swapped(p), husbands, wives)
    ensures Stable(p, wives, husbands) <==> Stable(Swapped(p), husbands, wives)
  {
    var q := Swapped(p);
    forall m: nat, w: nat | m < p.men && w < p.women
      ensures (Wants(p, wives, m, w) ==> Content(p, husbands, m, w)) <==> (Wants(q, husbands, w, m) ==> Content(q, wives, w, m))
    {
    }
  }
}
