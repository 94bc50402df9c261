/** Positions of a circular table, shared by the two linear-probing tables.
    The tables mask a hash with their power-of-two size; that is the remainder used here. */
module Probing {

  function Home(hash: nat, n: nat): (h: nat)
    requires n > 0
    ensures h < n
  {
    hash % n
  }

  /** The position `d` steps after `h` in a table of `n` positions. */
  function Wrap(h: nat, d: nat, n: nat): (i: nat)
    requires h < n && d <= n
    ensures i < n
  {
    if h + d < n then h + d else h + d - n
  }

  /** The step the tables and the ring take is an increment modulo their size. */
  lemma StepIsRemainder(i: nat, n: nat)
    requires i < n
    ensures Wrap(i, 1, n) == (i + 1) % n
  {
    if i + 1 < n {
      assert (i + 1) % n == i + 1;
    } else {
      assert n % n == 0;
    }
  }

  /** How many steps lead from `h` to `i`. */
  function Gap(h: nat, i: nat, n: nat): (d: nat)
    requires h < n && i < n
    ensures d < n && Wrap(h, d, n) == i
  {
    if h <= i then i - h else i + n - h
  }

  lemma GapUnique(h: nat, d: nat, n: nat)
    requires h < n && d < n
    ensures Gap(h, Wrap(h, d, n), n) == d
  {
  }

  /** Of `n` distinct numbers below `n`, none is missing: a set below `n` with fewer members misses one. */
  lemma {:induction false} SomeMissing(s: set<nat>, n: nat) returns (i: nat)
    requires (forall x :: x in s ==> x < n) && |s| < n
    ensures i < n && i !in s
  {
    if n - 1 in s {
      var r := s - {n - 1};
      i := SomeMissing(r, n - 1);
    } else {
      i := n - 1;
    }
  }
}
