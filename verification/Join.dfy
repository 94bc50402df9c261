/** Joining two collections: each man proposes to the women in the order of their distance, until the queue of free men is empty. */
module Join {
  import opened Numbers
  import opened Candidates
  import opened SortedBuffers
  import opened Rings
  import opened ExactSearch
  import opened Graph
  import opened Matching

  /** The answers of a metric for proposals (a man's value to a woman) and for comparisons (a woman's value to a man's). */
  datatype Pairwise = Pairwise(ask: seq<seq<real>>, reply: seq<seq<real>>)

  /** A join that runs out of count reads the last of no results; what the code does then is not part of this model. */
  datatype JoinResult = Joined(intersection: nat) | SelfJoin | RanOutOfCount

  datatype RoundResult = NobodyLeft | Served | CannotCount

  /** The proposing side and its limit: the smaller collection proposes, the first one if they are equally large. */
  function Sides(men: nat, women: nat, womenMetric: Pairwise, menMetric: Pairwise, maxProposals: nat, standard: nat): (p: Party)
    ensures p.men == (if women < men then women else men) && p.women == (if women < men then men else women)
    ensures maxProposals > 0 ==> p.limit == if maxProposals < p.men then maxProposals else p.men
    ensures maxProposals == 0 ==> p.limit == if standard < p.men then standard else p.men
    ensures p.ask == (if women < men then menMetric else womenMetric).ask
    ensures p.reply == (if women < men then menMetric else womenMetric).reply
  {
    if women < men then Sides(women, men, menMetric, womenMetric, maxProposals, standard)
    else Party(men, women, Min(men, OrDefault(maxProposals, standard)), womenMetric.ask, womenMetric.reply)
  }

  function OrDefault(maxProposals: nat, standard: nat): nat {
    if maxProposals == 0 then standard else maxProposals
  }

  /** The working memory of a join. */
  class Workspace {
    const free: Ring<nat>
    const candidates: SortedBuffer
    const counts: array<nat>
    const wives: array<nat>
    const husbands: array<nat>
    const menLocks: array<bool>
    const womenLocks: array<bool>

    ghost predicate Valid()
      reads this, free, free.elements, candidates, candidates.elements
    {
      && free.Valid() && candidates.Valid()
      && counts != wives && counts != husbands && wives != husbands && menLocks != womenLocks
      && counts != free.elements && wives != free.elements && husbands != free.elements
    }

    ghost function Footprint(): set<object>
      reads this, free, candidates
    {
      {free, free.elements, candidates, candidates.elements, counts, wives, husbands, menLocks, womenLocks}
    }

    /** Everything but the answers of the last search. */
    ghost function State(): Courtship
      reads this, free, counts, wives, husbands, menLocks, womenLocks
    {
      Courtship(counts[..], wives[..], husbands[..], free.contents, menLocks[..], womenLocks[..])
    }

    constructor (men: nat, women: nat)
      ensures Valid() && fresh(free) && fresh(candidates) && fresh(Footprint())
      ensures free.contents == []
      ensures State() == Courtship(seq(men, _ => 0), seq(men, _ => MISSING), seq(women, _ => MISSING), [],
                                   seq(men, _ => false), seq(women, _ => false))
    {
      free := new Ring<nat>();
      candidates := new SortedBuffer();
      counts := new nat[men](_ => 0);
      wives := new nat[men](_ => MISSING);
      husbands := new nat[women](_ => MISSING);
      menLocks := new bool[men](_ => false);
      womenLocks := new bool[women](_ => false);
      new;
      assert counts[..] == seq(men, _ => 0) && wives[..] == seq(men, _ => MISSING) && husbands[..] == seq(women, _ => MISSING);
      assert menLocks[..] == seq(men, _ => false) && womenLocks[..] == seq(women, _ => false);
    }

    /** Puts every man into the queue. */
    method Begin(p: Party)
      requires Valid() && p.limit <= p.men <= p.women < MISSING && free.contents == []
      requires State() == Courtship(seq(p.men, _ => 0), seq(p.men, _ => MISSING), seq(p.women, _ => MISSING), [],
                                    seq(p.men, _ => false), seq(p.women, _ => false))
      modifies free, free.elements
      ensures Valid() && fresh(Footprint() - old(Footprint()))
      ensures State() == Start(p) && p.men <= free.elements.Length
    {
      var reserved := free.Reserve(p.men);
      EnqueueAll(free, p.men);
    }

    /** The woman a man asks with his `count`-th proposal, and her distance: the last of the `count` closest to him. */
    method Ask(p: Party, man: nat, count: nat) returns (match_: Candidate)
      requires Valid() && 0 < count <= p.women
      modifies candidates, candidates.elements
      ensures Valid() && fresh(Footprint() - old(Footprint()))
      ensures match_.slot == Choice(p, man, count - 1) && match_.distance == Cell(p.ask, man, match_.slot)
    {
      SearchExact(p.women, Row(p.ask, man), Everyone(p.women), count, candidates);
      ChoiceSpec(p, man);
      match_ := candidates.Top();
    }

    /** The woman's answer to a proposal from `distance` away; the two are locked. */
    method Answer(p: Party, man: nat, woman: nat, distance: real)
      requires Valid() && man < wives.Length == menLocks.Length && woman < husbands.Length && distance == Cell(p.ask, man, woman)
      requires |free.contents| < free.elements.Length
      requires husbands[woman] != MISSING ==> husbands[woman] < wives.Length && !menLocks[husbands[woman]]
      modifies free, free.elements, wives, husbands, menLocks
      ensures Valid() && free.elements == old(free.elements)
      ensures State() == Answered(p, old(State()), man, woman)
    {
      ghost var before := State();
      var husband := husbands[woman];
      if husband == MISSING {
        wives[man] := woman;
        husbands[woman] := man;
      } else if Cell(p.reply, woman, husband) > distance {
        Acquire(menLocks, husband);
        wives[husband] := MISSING;
        menLocks[husband] := false;
        assert menLocks[..] == before.menLocked;
        wives[man] := woman;
        husbands[woman] := man;
        free.Push(husband);
      } else {
        free.Push(man);
      }
    }

    /** Counts a proposal, and finds and locks the woman it goes to. */
    method Approach(p: Party, man: nat) returns (asked: Candidate)
      requires Valid() && man < counts.Length && counts[man] < p.limit <= p.women && Counted(counts[man] + 1) == counts[man] + 1
      requires var w := Choice(p, man, counts[man]); w < womenLocks.Length && !womenLocks[w]
      modifies counts, womenLocks, candidates, candidates.elements
      ensures Valid() && fresh(Footprint() - old(Footprint())) && free.elements == old(free.elements)
      ensures asked.slot == Choice(p, man, old(counts[man])) && asked.distance == Cell(p.ask, man, asked.slot)
      ensures State() == old(State()).(counts := old(counts[..])[man := old(counts[man]) + 1],
                                       womenLocked := old(womenLocks[..])[asked.slot := true])
    {
      counts[man] := Counted(counts[man] + 1);
      asked := Ask(p, man, counts[man]);
      Acquire(womenLocks, asked.slot);
    }

    /** The next proposal of a man who is locked and no longer queued. */
    method Propose(p: Party, man: nat, ghost before: Courtship)
      requires Valid() && Inv(p, before) && p.men <= free.elements.Length && !OutOfCount(p, before)
      requires before.free != [] && man == before.free[0] && man < p.men && before.counts[man] < p.limit
      requires State() == before.(free := before.free[1..], menLocked := before.menLocked[man := true])
      modifies Footprint()
      ensures Valid() && fresh(Footprint() - old(Footprint())) && free.elements == old(free.elements)
      ensures State() == Next(p, before)
    {
      RoundFacts(p, before);
      assert counts.Length == |State().counts| && womenLocks.Length == |State().womenLocked|;
      var asked := Approach(p, man);
      Settle(p, man, asked.slot, asked.distance, before, State());
    }

    /** The answer to a proposal, after which the two are unlocked. */
    method Settle(p: Party, man: nat, woman: nat, distance: real, ghost before: Courtship, ghost locked: Courtship)
      requires Valid() && State() == locked && Proposed(p, before, locked, man, woman)
      requires distance == Cell(p.ask, man, woman) && p.men <= free.elements.Length
      modifies free, free.elements, wives, husbands, menLocks, womenLocks
      ensures Valid() && free.elements == old(free.elements)
      ensures State() == Next(p, before)
    {
      RoundFacts(p, before);
      assert wives.Length == |locked.wives| && menLocks.Length == |locked.menLocked|;
      assert husbands.Length == |locked.husbands| && womenLocks.Length == |locked.womenLocked|;
      Answer(p, man, woman, distance);
      Unlock(man, woman);
      AnsweredUnlocked(p, before, locked, man, woman);
    }

    method Unlock(man: nat, woman: nat)
      requires Valid() && man < menLocks.Length && woman < womenLocks.Length
      modifies menLocks, womenLocks
      ensures State() == old(State()).(menLocked := old(menLocks[..])[man := false], womenLocked := old(womenLocks[..])[woman := false])
    {
      menLocks[man] := false;
      womenLocks[woman] := false;
    }

    /** Lets a man who is locked and no longer queued retire or propose, unless his proposal cannot be counted. */
    method Serve(p: Party, man: nat, ghost before: Courtship) returns (counted: bool)
      requires Valid() && Inv(p, before) && p.men <= free.elements.Length
      requires before.free != [] && man == before.free[0] && man < p.men
      requires State() == before.(free := before.free[1..], menLocked := before.menLocked[man := true])
      modifies Footprint()
      ensures Valid() && fresh(Footprint() - old(Footprint())) && free.elements == old(free.elements)
      ensures counted <==> !OutOfCount(p, before)
      ensures counted ==> State() == Next(p, before)
    {
      assert counts.Length == |State().counts|;
      assert counts[man] == before.counts[man];
      counted := counts[man] >= p.limit || Counted(counts[man] + 1) != 0;
      if counted && counts[man] < p.limit {
        Propose(p, man, before);
      }
    }

    /** Serves the first man of the queue, if there is one and he can be counted for. */
    method Round(p: Party) returns (r: RoundResult)
      requires Valid() && Inv(p, State()) && p.men <= free.elements.Length
      modifies Footprint()
      ensures Valid() && fresh(Footprint() - old(Footprint())) && free.elements == old(free.elements)
      ensures r.NobodyLeft? <==> old(free.contents) == []
      ensures r.CannotCount? <==> OutOfCount(p, old(State()))
      ensures r.NobodyLeft? ==> State() == old(State())
      ensures r.Served? ==> State() == Next(p, old(State()))
    {
      ghost var before := State();
      var found, man := free.TryPop();
      r := NobodyLeft;
      if found {
        RoundFacts(p, before);
        assert menLocks.Length == |before.menLocked|;
        Acquire(menLocks, man);
        var counted := Serve(p, man, before);
        r := if counted then Served else CannotCount;
      }
    }

    /** Rounds until nobody is left in the queue, or somebody cannot be counted for. */
    method Run(p: Party) returns (done: bool)
      requires Valid() && Inv(p, State()) && p.men <= free.elements.Length
      modifies Footprint()
      ensures Valid() && done == RunFrom(p, old(State())).Emptied?
      ensures done ==> State() == RunFrom(p, old(State())).last
    {
      ghost var start := State();
      done := false;
      while !done
        invariant Valid() && Inv(p, State()) && p.men <= free.elements.Length
        invariant fresh(Footprint() - old(Footprint()))
        invariant RunFrom(p, start) == RunFrom(p, State())
        invariant done ==> State().free == []
        decreases Remaining(p, State()), |State().free|, !done
      {
        ghost var before := State();
        var r := Round(p);
        match r {
          case NobodyLeft => done := true;
          case CannotCount => return false;
          case Served =>
            NextInv(p, before);
            NextShrinks(p, before);
        }
      }
    }
  }

  lemma RoundFacts(p: Party, s: Courtship)
    requires Inv(p, s) && s.free != []
    ensures |s.counts| == |s.wives| == |s.menLocked| == p.men && |s.husbands| == |s.womenLocked| == p.women
    ensures |s.free| <= p.men && s.free[0] < p.men && !s.menLocked[s.free[0]]
    ensures s.counts[s.free[0]] < p.limit && !OutOfCount(p, s) ==> s.counts[s.free[0]] < COUNT_MAX
    ensures s.counts[s.free[0]] < p.limit ==>
      var w := Choice(p, s.free[0], s.counts[s.free[0]]);
      && w < p.women && !s.womenLocked[w]
      && (s.husbands[w] != MISSING ==>
            s.husbands[w] < p.men && s.husbands[w] != s.free[0] && !s.menLocked[s.husbands[w]])
  {
    var m := s.free[0];
    assert ManOk(p, s, m);
    ValuesSize(s.free);
    SizeBelow(Values(s.free), p.men);
    ChoiceSpec(p, m);
    if s.counts[m] < p.limit {
      var w := Choice(p, m, s.counts[m]);
      assert WomanOk(p, s, w);
      if s.husbands[w] != MISSING {
        assert ManOk(p, s, s.husbands[w]);
      }
    }
  }

  /** Between proposal and answer: the proposal is counted, and the two are locked. */
  ghost predicate Proposed(p: Party, before: Courtship, locked: Courtship, m: nat, w: nat) {
    && Inv(p, before) && before.free != [] && !OutOfCount(p, before)
    && m == before.free[0] && m < p.men && before.counts[m] < p.limit && before.counts[m] < COUNT_MAX
    && w == Choice(p, m, before.counts[m]) && w < p.women
    && locked == Courtship(before.counts[m := before.counts[m] + 1], before.wives, before.husbands, before.free[1..],
                           before.menLocked[m := true], before.womenLocked[w := true])
  }

  /** The locks of a round leave no trace. */
  lemma AnsweredUnlocked(p: Party, before: Courtship, locked: Courtship, m: nat, w: nat)
    requires Proposed(p, before, locked, m, w)
    requires !before.menLocked[m] && !before.womenLocked[w]
    requires before.husbands[w] != MISSING ==> before.husbands[w] < p.men
    ensures var r := Answered(p, locked, m, w);
      r.(menLocked := r.menLocked[m := false], womenLocked := r.womenLocked[w := false]) == Next(p, before)
  {
    assert before.menLocked[m := true][m := false] == before.menLocked;
    assert before.womenLocked[w := true][w := false] == before.womenLocked;
  }

  method EnqueueAll(queue: Ring<nat>, n: nat)
    requires queue.Valid() && queue.contents == [] && n <= queue.elements.Length
    modifies queue, queue.elements
    ensures queue.Valid() && queue.elements == old(queue.elements) && queue.contents == seq(n, i => i)
  {
    for i := 0 to n
      invariant queue.Valid() && queue.elements == old(queue.elements)
      invariant queue.contents == seq(i, k => k)
    {
      queue.Push(i);
    }
  }

  /** Takes a lock that nobody holds; waiting for one that is held would never end on a single thread. */
  method Acquire(locks: array<bool>, i: nat)
    requires i < locks.Length && !locks[i]
    modifies locks
    ensures locks[..] == old(locks[..])[i := true]
  {
    locks[i] := true;
  }

  ghost function Partnered(partners: seq<nat>): set<nat> {
    set i: nat | i < |partners| && partners[i] != MISSING
  }

  ghost function KeysOf(keys: seq<nat>, slots: set<nat>): set<nat> {
    set i | i in slots && i < |keys| :: keys[i]
  }

  /** `r` is `known` with the keys of the slots in `done` mapped to the keys of their partners. */
  ghost predicate Entered(known: map<nat, nat>, r: map<nat, nat>, keys: seq<nat>, otherKeys: seq<nat>, partners: seq<nat>, done: set<nat>) {
    && |keys| == |partners|
    && (forall i :: i in done ==> i < |partners| && partners[i] < |otherKeys|)
    && (forall i :: i in done ==> keys[i] in r && r[keys[i]] == otherKeys[partners[i]])
    && r.Keys == known.Keys + KeysOf(keys, done)
    && (forall key :: key in known && key !in KeysOf(keys, done) ==> r[key] == known[key])
  }

  lemma EnteredNext(known: map<nat, nat>, r: map<nat, nat>, keys: seq<nat>, otherKeys: seq<nat>, partners: seq<nat>,
                    done: set<nat>, slot: nat)
    requires Entered(known, r, keys, otherKeys, partners, done) && NoDuplicates(keys)
    requires slot < |partners| && partners[slot] < |otherKeys|
    ensures Entered(known, r[keys[slot] := otherKeys[partners[slot]]], keys, otherKeys, partners, done + {slot})
  {
    assert KeysOf(keys, done + {slot}) == KeysOf(keys, done) + {keys[slot]};
  }

  ghost function PartneredBefore(wives: seq<nat>, n: nat): set<nat> {
    set i: nat | i < n && i < |wives| && wives[i] != MISSING
  }

  ghost function WivesBefore(wives: seq<nat>, n: nat): set<nat> {
    set i: nat | i < n && i < |wives| && wives[i] != MISSING :: wives[i]
  }

  lemma PartneredNext(wives: seq<nat>, n: nat)
    requires n < |wives|
    ensures wives[n] == MISSING ==>
      PartneredBefore(wives, n + 1) == PartneredBefore(wives, n) && WivesBefore(wives, n + 1) == WivesBefore(wives, n)
    ensures wives[n] != MISSING ==>
      && n !in PartneredBefore(wives, n) && PartneredBefore(wives, n + 1) == PartneredBefore(wives, n) + {n}
      && WivesBefore(wives, n + 1) == WivesBefore(wives, n) + {wives[n]}
  {
  }

  lemma AllWives(p: Party, wives: seq<nat>, husbands: seq<nat>)
    requires Inverse(p, wives, husbands) && p.men < MISSING && p.women < MISSING
    ensures WivesBefore(wives, p.men) == Partnered(husbands)
  {
    forall w | w in Partnered(husbands)
      ensures w in WivesBefore(wives, p.men)
    {
      assert wives[husbands[w]] == w;
    }
  }

  /** Enters the partners into the two maps, under their keys, and counts the pairs; keys that repeat overwrite each other. */
  method Export(p: Party, menKeys: seq<nat>, womenKeys: seq<nat>, wives: seq<nat>, husbands: seq<nat>,
                knownWives: map<nat, nat>, knownHusbands: map<nat, nat>)
    returns (manToWoman: map<nat, nat>, womanToMan: map<nat, nat>, size: nat)
    requires Inverse(p, wives, husbands) && |menKeys| == p.men && |womenKeys| == p.women
    requires p.men < MISSING && p.women < MISSING
    ensures size == |Partnered(wives)|
    ensures NoDuplicates(menKeys) ==> Entered(knownWives, manToWoman, menKeys, womenKeys, wives, Partnered(wives))
    ensures NoDuplicates(womenKeys) ==> Entered(knownHusbands, womanToMan, womenKeys, menKeys, husbands, Partnered(husbands))
  {
    manToWoman, womanToMan, size := knownWives, knownHusbands, 0;
    for man := 0 to p.men
      invariant size == |PartneredBefore(wives, man)|
      invariant NoDuplicates(menKeys) ==> Entered(knownWives, manToWoman, menKeys, womenKeys, wives, PartneredBefore(wives, man))
      invariant NoDuplicates(womenKeys) ==> Entered(knownHusbands, womanToMan, womenKeys, menKeys, husbands, WivesBefore(wives, man))
    {
      PartneredNext(wives, man);
      var woman := wives[man];
      if woman != MISSING {
        if NoDuplicates(menKeys) {
          EnteredNext(knownWives, manToWoman, menKeys, womenKeys, wives, PartneredBefore(wives, man), man);
        }
        if NoDuplicates(womenKeys) {
          EnteredNext(knownHusbands, womanToMan, womenKeys, menKeys, husbands, WivesBefore(wives, man), woman);
        }
        manToWoman := manToWoman[menKeys[man] := womenKeys[woman]];
        womanToMan := womanToMan[womenKeys[woman] := menKeys[man]];
        size := size + 1;
      }
    }
    AllWives(p, wives, husbands);
    assert PartneredBefore(wives, p.men) == Partnered(wives);
  }

  /** Every man has proposed to his first choices, as often as the limit allows if he is left alone, and each of them is
      held, under a symmetric metric by a man at least as close; who has a wife was accepted last. */
  ghost predicate AskedInOrder(p: Party, wives: seq<nat>, husbands: seq<nat>, counts: seq<nat>)
    requires Inverse(p, wives, husbands)
  {
    && |counts| == p.men
    && (forall m: nat :: m < p.men ==> counts[m] <= p.limit)
    && (forall m: nat :: m < p.men && wives[m] != MISSING ==> counts[m] > 0 && wives[m] == Choice(p, m, counts[m] - 1))
    && (forall m: nat :: m < p.men && wives[m] == MISSING ==> counts[m] == p.limit)
    && (forall m: nat, k: nat :: m < p.men && k < counts[m] ==> Held(p, husbands, m, Choice(p, m, k)))
  }

  /** The women in `s` are as many as man `m` may propose to, none of the others is closer to him, and all of them are held. */
  ghost predicate ClosestHeld(p: Party, husbands: seq<nat>, m: nat, s: set<nat>)
    requires |husbands| == p.women
  {
    && |s| == p.limit
    && (forall w :: w in s ==> Held(p, husbands, m, w))
    && (forall w, v: nat :: w in s && v < p.women && v !in s ==> Cell(p.ask, m, w) <= Cell(p.ask, m, v))
  }

  ghost predicate Refused(p: Party, husbands: seq<nat>, m: nat)
    requires |husbands| == p.women
  {
    exists s :: ClosestHeld(p, husbands, m, s)
  }

  /** The first `n` choices of man `m`. */
  ghost function FirstChoices(p: Party, m: nat, n: nat): (r: seq<nat>)
    ensures |r| == n && forall k :: 0 <= k < n ==> r[k] == Choice(p, m, k)
  {
    seq(n, k requires 0 <= k < n => Choice(p, m, k))
  }

  lemma FirstChoicesSize(p: Party, m: nat, n: nat)
    requires n <= p.women
    ensures |Values(FirstChoices(p, m, n))| == n
  {
    var choices := FirstChoices(p, m, n);
    forall i, j | 0 <= i < j < n
      ensures choices[i] != choices[j]
    {
      ChoiceOrder(p, m, i, j);
    }
    ValuesSize(choices);
  }

  /** A man who has proposed as often as he may, without success, was refused by that many women closest to him. */
  lemma RefusedByAll(p: Party, wives: seq<nat>, husbands: seq<nat>, counts: seq<nat>, m: nat)
    requires Inverse(p, wives, husbands) && AskedInOrder(p, wives, husbands, counts) && p.limit <= p.women
    requires m < p.men && wives[m] == MISSING
    ensures Refused(p, husbands, m)
  {
    var choices := FirstChoices(p, m, p.limit);
    var s := Values(choices);
    FirstChoicesSize(p, m, p.limit);
    ChoiceSpec(p, m);
    forall k: nat | k < p.limit
      ensures Choice(p, m, k) in s
    {
      assert choices[k] in choices;
    }
    forall w, v: nat | w in s && v < p.women && v !in s
      ensures Cell(p.ask, m, w) <= Cell(p.ask, m, v)
    {
      var i: nat :| i < p.limit && choices[i] == w;
      assert AmongFirst(p, m, v, p.women);
      var j: nat :| j < p.women && Choice(p, m, j) == v;
      ChoiceOrder(p, m, j, i);
    }
    forall w | w in s
      ensures Held(p, husbands, m, w)
    {
      var i: nat :| i < p.limit && choices[i] == w;
    }
    assert ClosestHeld(p, husbands, m, s);
  }

  /** What is known of a finished join, whatever the order in which men were served. */
  ghost predicate Outcome(p: Party, wives: seq<nat>, husbands: seq<nat>) {
    && Inverse(p, wives, husbands)
    && (forall m: nat :: m < p.men && wives[m] == MISSING ==> Refused(p, husbands, m))
    && (exists counts :: AskedInOrder(p, wives, husbands, counts))
    && (Symmetric(p) ==> StableInReach(p, wives, husbands))
    && (p.limit == p.men ==> forall m: nat :: m < p.men ==> wives[m] != MISSING)
    && (Symmetric(p) && p.limit == p.men ==> Stable(p, wives, husbands))
  }

  lemma FinishedOutcome(p: Party, s: Courtship)
    requires Inv(p, s) && s.free == []
    ensures Outcome(p, s.wives, s.husbands)
  {
    InvInverse(p, s);
    if Symmetric(p) {
      FinishedStable(p, s);
    }
    if p.limit == p.men {
      AllMatched(p, s);
      if Symmetric(p) {
        FinishedFullyStable(p, s);
      }
    }
    FinishedInOrder(p, s);
    forall m: nat | m < p.men && s.wives[m] == MISSING
      ensures Refused(p, s.husbands, m)
    {
      RefusedByAll(p, s.wives, s.husbands, s.counts, m);
    }
  }

  lemma FinishedInOrder(p: Party, s: Courtship)
    requires Inv(p, s) && s.free == [] && Inverse(p, s.wives, s.husbands)
    ensures AskedInOrder(p, s.wives, s.husbands, s.counts)
  {
    forall m: nat | m < p.men
      ensures s.counts[m] <= p.limit
      ensures s.wives[m] != MISSING ==> s.counts[m] > 0 && s.wives[m] == Choice(p, m, s.counts[m] - 1)
      ensures s.wives[m] == MISSING ==> s.counts[m] == p.limit
    {
      assert ManOk(p, s, m);
    }
  }

  /** Matches the proposing side with the other one, unless it runs out of count. */
  method Match(p: Party) returns (done: bool, wives: seq<nat>, husbands: seq<nat>)
    requires p.limit <= p.men <= p.women < MISSING
    ensures done <==> Completes(p)
    ensures done ==> Outcome(p, wives, husbands)
  {
    var work := new Workspace(p.men, p.women);
    work.Begin(p);
    StartInv(p);
    done := work.Run(p);
    wives, husbands := work.wives[..], work.husbands[..];
    if done {
      RunFromInv(p, Start(p));
      FinishedOutcome(p, work.State());
    }
  }

  /** A join of two sides that both have members matches somebody, if anybody may propose; and the whole smaller side, if
      everybody may propose as often as it has members. */
  lemma MatchedSize(p: Party, wives: seq<nat>, husbands: seq<nat>)
    requires Outcome(p, wives, husbands) && p.limit <= p.men <= p.women < MISSING
    ensures p.limit == p.men ==> |Partnered(wives)| == p.men
    ensures p.limit > 0 ==> |Partnered(wives)| > 0
    ensures |Partnered(wives)| == |Partnered(husbands)|
  {
    InverseSizes(p, wives, husbands);
    if p.limit == p.men {
      AllPartnered(p, wives);
    }
    if p.limit > 0 {
      var m: nat := 0;
      if wives[m] == MISSING {
        var s :| ClosestHeld(p, husbands, m, s);
        var w :| w in s;
        assert husbands[w] in Partnered(wives);
      } else {
        assert m in Partnered(wives);
      }
    }
  }

  lemma AllPartnered(p: Party, wives: seq<nat>)
    requires |wives| == p.men && forall m: nat :: m < p.men ==> wives[m] != MISSING
    ensures |Partnered(wives)| == p.men
  {
    var all: seq<nat> := seq(p.men, i => i);
    ValuesSize(all);
    forall i: nat | i < p.men
      ensures i in all
    {
      assert all[i] == i;
    }
    assert Partnered(wives) == Values(all);
  }

  /** The outcome of a join in which members of the smaller side, the first if they are equally large, propose up to
      `proposals` times. */
  ghost predicate JoinOutcome(men: nat, women: nat, womenMetric: Pairwise, menMetric: Pairwise, proposals: nat,
                              wives: seq<nat>, husbands: seq<nat>) {
    if women < men then
      Outcome(Party(women, men, if proposals < women then proposals else women, menMetric.ask, menMetric.reply), husbands, wives)
    else
      Outcome(Party(men, women, if proposals < men then proposals else men, womenMetric.ask, womenMetric.reply), wives, husbands)
  }

  /** As many pairs as the smaller side has members, if that often may be proposed, and otherwise some, if both sides have
      members and anybody may propose. */
  ghost predicate JoinSize(men: nat, women: nat, proposals: nat, intersection: nat) {
    && (proposals >= (if women < men then women else men) ==> intersection == if women < men then women else men)
    && (proposals > 0 && men > 0 && women > 0 ==> intersection > 0)
  }

  /** Joins two collections given by the keys of their members; `self` says that they are one and the same. The
      partners are entered into the two maps passed in. A limit that can be counted to is never overrun. */
  method Join(men: seq<nat>, women: seq<nat>, self: bool, womenMetric: Pairwise, menMetric: Pairwise,
              maxProposals: nat, standard: nat, knownWives: map<nat, nat>, knownHusbands: map<nat, nat>)
    returns (result: JoinResult, manToWoman: map<nat, nat>, womanToMan: map<nat, nat>,
             ghost wives: seq<nat>, ghost husbands: seq<nat>)
    requires |men| < MISSING && |women| < MISSING && (self ==> men == women)
    ensures result.SelfJoin? <==> self
    ensures self ==> manToWoman == knownWives && womanToMan == knownHusbands
    ensures var p := Sides(|men|, |women|, womenMetric, menMetric, maxProposals, standard);
      && (result.RanOutOfCount? <==> !self && !Completes(p))
      && (p.limit <= COUNT_MAX ==> !result.RanOutOfCount?)
      && (result.Joined? ==> if |women| < |men| then Outcome(p, husbands, wives) else Outcome(p, wives, husbands))
    ensures var proposals := if maxProposals > 0 then maxProposals else standard;
      && (proposals <= 65535 || |men| <= 65535 || |women| <= 65535 ==> !result.RanOutOfCount?)
      && (result.Joined? ==> JoinOutcome(|men|, |women|, womenMetric, menMetric, proposals, wives, husbands))
      && (result.Joined? ==> JoinSize(|men|, |women|, proposals, result.intersection))
    ensures result.Joined? ==> result.intersection == |Partnered(wives)|
    ensures result.Joined? && NoDuplicates(men) ==> Entered(knownWives, manToWoman, men, women, wives, Partnered(wives))
    ensures result.Joined? && NoDuplicates(women) ==> Entered(knownHusbands, womanToMan, women, men, husbands, Partnered(husbands))
    decreases if |women| < |men| then 1 else 0
  {
    if |women| < |men| {
      result, womanToMan, manToWoman, husbands, wives :=
        Join(women, men, self, menMetric, womenMetric, maxProposals, standard, knownHusbands, knownWives);
      if result.Joined? {
        InverseSizes(Sides(|men|, |women|, womenMetric, menMetric, maxProposals, standard), husbands, wives);
      }
      return;
    }
    manToWoman, womanToMan := knownWives, knownHusbands;
    wives, husbands := [], [];
    if self {
      return SelfJoin, manToWoman, womanToMan, wives, husbands;
    }
    var p := Party(|men|, |women|, Min(|men|, OrDefault(maxProposals, standard)), womenMetric.ask, womenMetric.reply);
    CompletesIffCounted(p.men, p.women, p.limit);
    var done, w, h := Match(p);
    if !done {
      return RanOutOfCount, manToWoman, womanToMan, wives, husbands;
    }
    var size;
    manToWoman, womanToMan, size := Export(p, men, women, w, h, knownWives, knownHusbands);
    MatchedSize(p, w, h);
    result, wives, husbands := Joined(size), w, h;
  }

  /** There are as many married men as married women. */
  lemma InverseSizes(p: Party, wives: seq<nat>, husbands: seq<nat>)
    requires Inverse(p, wives, husbands) && p.men < MISSING && p.women < MISSING
    ensures |Partnered(wives)| == |Partnered(husbands)|
  {
    AtMost(p, wives, husbands, Partnered(wives), Partnered(husbands));
    AtMost(Swapped(p), husbands, wives, Partnered(husbands), Partnered(wives));
  }

  lemma {:induction false} AtMost(p: Party, wives: seq<nat>, husbands: seq<nat>, some: set<nat>, others: set<nat>)
    requires Inverse(p, wives, husbands) && some <= Partnered(wives)
    requires forall m :: m in some ==> wives[m] in others
    ensures |some| <= |others|
    decreases |some|
  {
    if some != {} {
      var m :| m in some;
      AtMost(p, wives, husbands, some - {m}, others - {wives[m]});
    }
  }
}
