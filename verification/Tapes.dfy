/** The bytes of a node: its key, its level, and its lists of neighbours with room for as many as there may be. */
module Tapes {
  import opened Graph

  newtype Byte = x: int | 0 <= x < 0x100

  type Bytes = seq<Byte>

  /** The `n` low bytes of `v`, the lowest first. */
  function LittleEndian(v: nat, n: nat): (r: Bytes)
    ensures |r| == n
  {
    if n == 0 then [] else [(v % 0x100) as Byte] + LittleEndian(v / 0x100, n - 1)
  }

  function Value(b: Bytes): nat {
    if b == [] then 0 else b[0] as nat + 0x100 * Value(b[1..])
  }

  function Power(n: nat): (r: nat)
    ensures r > 0
  {
    if n == 0 then 1 else 0x100 * Power(n - 1)
  }

  lemma {:induction false} ValueLittleEndian(v: nat, n: nat)
    requires v < Power(n)
    ensures Value(LittleEndian(v, n)) == v
  {
    if n > 0 {
      ValueLittleEndian(v / 0x100, n - 1);
    }
  }

  /** The bounds of the integers used. */
  lemma Powers()
    ensures Power(2) == 0x1_0000 && Power(4) == 0x1_0000_0000 && Power(8) == 0x1_0000_0000_0000_0000
  {
    assert Power(0) == 1 && Power(1) == 0x100 && Power(2) == 0x100 * Power(1);
    assert Power(3) == 0x100 * Power(2) && Power(4) == 0x100 * Power(3);
    assert Power(5) == 0x100 * Power(4) && Power(6) == 0x100 * Power(5);
    assert Power(7) == 0x100 * Power(6) && Power(8) == 0x100 * Power(7);
  }

  /** The `n` bytes at `pos`; bytes beyond the end are left out. */
  function Slice(b: Bytes, pos: nat, n: nat): Bytes {
    if pos + n <= |b| then b[pos..pos + n] else []
  }

  lemma SliceOfParts(a: Bytes, b: Bytes, c: Bytes)
    ensures Slice(a + b + c, |a|, |b|) == b
  {
  }

  lemma Regroup(a: Bytes, b: Bytes, c: Bytes, d: Bytes)
    ensures a + (b + c) + d == a + b + (c + d) == (a + b) + c + d
  {
  }

  const KEY_BYTES: nat := 8
  const LEVEL_BYTES: nat := 2
  const COUNT_BYTES: nat := 4
  const SLOT_BYTES: nat := 4
  const HEAD_BYTES: nat := 10

  function ListBytes(capacity: nat): nat {
    COUNT_BYTES + SLOT_BYTES * capacity
  }

  /** Where the list of `level` begins; the end of the list before it. */
  function ListOffset(level: nat, c: nat, cb: nat): (r: nat)
    ensures r >= HEAD_BYTES
  {
    if level == 0 then HEAD_BYTES else ListOffset(level - 1, c, cb) + ListBytes(Cap(level - 1, c, cb))
  }

  /** The length of the tape of a node of `level`. */
  function NodeBytes(level: nat, c: nat, cb: nat): nat {
    if level == 0 then HEAD_BYTES + ListBytes(cb) else NodeBytes(level - 1, c, cb) + ListBytes(c)
  }

  lemma {:induction false} NodeBytesProduct(level: nat, c: nat, cb: nat)
    ensures NodeBytes(level, c, cb) == 10 + (4 + 4 * cb) + (4 + 4 * c) * level
  {
    if level > 0 {
      NodeBytesProduct(level - 1, c, cb);
      assert (4 + 4 * c) * level == (4 + 4 * c) * (level - 1) + (4 + 4 * c);
    }
  }

  /** The lists fill the tape, and they lie where the program looks for them. */
  lemma {:induction false} ListOffsets(level: nat, c: nat, cb: nat)
    ensures ListOffset(level + 1, c, cb) == NodeBytes(level, c, cb)
  {
    if level > 0 {
      ListOffsets(level - 1, c, cb);
    }
  }

  function KeyOf(tape: Bytes): nat {
    Value(Slice(tape, 0, KEY_BYTES))
  }

  function LevelOf(tape: Bytes): nat {
    Value(Slice(tape, KEY_BYTES, LEVEL_BYTES))
  }

  function SlotsAt(tape: Bytes, pos: nat, count: nat): seq<nat>
    decreases count
  {
    if count == 0 then []
    else [Value(Slice(tape, pos, SLOT_BYTES))] + SlotsAt(tape, pos + SLOT_BYTES, count - 1)
  }

  /** The neighbours at `level`, as the program reads them from the tape. */
  function NeighborsOf(tape: Bytes, level: nat, c: nat, cb: nat): seq<nat> {
    var pos := ListOffset(level, c, cb);
    SlotsAt(tape, pos + COUNT_BYTES, Value(Slice(tape, pos, COUNT_BYTES)))
  }

  function SlotBytes(slots: seq<nat>): (r: Bytes)
    ensures |r| == SLOT_BYTES * |slots|
  {
    if slots == [] then [] else LittleEndian(slots[0], SLOT_BYTES) + SlotBytes(slots[1..])
  }

  /** A list on the tape: the count, the neighbours, and whatever the rest of the room holds. */
  function ListOnTape(list: seq<nat>, rest: seq<nat>): (r: Bytes)
    ensures |r| == ListBytes(|list| + |rest|)
  {
    LittleEndian(|list|, COUNT_BYTES) + SlotBytes(list + rest)
  }

  /** The first `n` lists of a node, with the rests of their room. */
  function ListsOnTape(lists: seq<seq<nat>>, rests: seq<seq<nat>>, n: nat): Bytes
    requires n <= |lists| == |rests|
  {
    if n == 0 then [] else ListsOnTape(lists, rests, n - 1) + ListOnTape(lists[n - 1], rests[n - 1])
  }

  function TapeOf(node: Node, rests: seq<seq<nat>>): Bytes
    requires |rests| == |node.neighbors|
  {
    LittleEndian(node.key, KEY_BYTES) + LittleEndian(node.level, LEVEL_BYTES)
    + ListsOnTape(node.neighbors, rests, |node.neighbors|)
  }

  ghost predicate SlotsFit(slots: seq<nat>) {
    forall i :: 0 <= i < |slots| ==> slots[i] < Power(SLOT_BYTES)
  }

  /** The node's values have room on the tape, and list and rest together fill each list's room. */
  ghost predicate Fits(node: Node, rests: seq<seq<nat>>, c: nat, cb: nat) {
    && node.key < Power(KEY_BYTES) && node.level < Power(LEVEL_BYTES)
    && |node.neighbors| == |rests| == node.level + 1
    && (forall l :: 0 <= l < |rests| ==>
          && |node.neighbors[l]| + |rests[l]| == Cap(l, c, cb) < Power(COUNT_BYTES)
          && SlotsFit(node.neighbors[l]))
  }

  lemma {:induction false} ListsLength(lists: seq<seq<nat>>, rests: seq<seq<nat>>, n: nat, c: nat, cb: nat)
    requires n <= |lists| == |rests|
    requires forall l :: 0 <= l < |rests| ==> |lists[l]| + |rests[l]| == Cap(l, c, cb)
    ensures HEAD_BYTES + |ListsOnTape(lists, rests, n)| == ListOffset(n, c, cb)
  {
    if n > 0 {
      ListsLength(lists, rests, n - 1, c, cb);
    }
  }

  /** The list of a level lies at its offset. */
  lemma {:induction false} ListInLists(lists: seq<seq<nat>>, rests: seq<seq<nat>>, l: nat, n: nat)
    returns (before: Bytes, after: Bytes)
    requires l < n <= |lists| == |rests|
    ensures ListsOnTape(lists, rests, n) == before + ListOnTape(lists[l], rests[l]) + after
    ensures before == ListsOnTape(lists, rests, l)
  {
    if l == n - 1 {
      before, after := ListsOnTape(lists, rests, l), [];
    } else {
      before, after := ListInLists(lists, rests, l, n - 1);
      after := after + ListOnTape(lists[n - 1], rests[n - 1]);
    }
  }

  /** Slots are read back from among other bytes. */
  lemma {:induction false} SlotsRead(before: Bytes, list: seq<nat>, rest: seq<nat>, after: Bytes)
    requires SlotsFit(list)
    ensures SlotsAt(before + SlotBytes(list + rest) + after, |before|, |list|) == list
    decreases |list|
  {
    if list != [] {
      var all := before + SlotBytes(list + rest) + after;
      var first := LittleEndian(list[0], SLOT_BYTES);
      assert (list + rest)[1..] == list[1..] + rest;
      assert all == before + first + (SlotBytes(list[1..] + rest) + after);
      SliceOfParts(before, first, SlotBytes(list[1..] + rest) + after);
      ValueLittleEndian(list[0], SLOT_BYTES);
      SlotsRead(before + first, list[1..], rest, after);
      assert all == (before + first) + SlotBytes(list[1..] + rest) + after;
    }
  }

  lemma ListRead(before: Bytes, list: seq<nat>, rest: seq<nat>, after: Bytes)
    requires SlotsFit(list) && |list| < Power(COUNT_BYTES)
    ensures var tape := before + ListOnTape(list, rest) + after;
      SlotsAt(tape, |before| + COUNT_BYTES, Value(Slice(tape, |before|, COUNT_BYTES))) == list
  {
    var tape := before + ListOnTape(list, rest) + after;
    var count, slots := LittleEndian(|list|, COUNT_BYTES), SlotBytes(list + rest);
    Regroup(before, count, slots, after);
    SliceOfParts(before, count, slots + after);
    ValueLittleEndian(|list|, COUNT_BYTES);
    SlotsRead(before + count, list, rest, after);
  }

  /** What is written on a tape is read from it: key, level and every list, whatever the rest of their room holds. */
  lemma {:induction false} TapeRead(node: Node, rests: seq<seq<nat>>, c: nat, cb: nat)
    requires Fits(node, rests, c, cb)
    ensures var tape := TapeOf(node, rests);
      && |tape| == NodeBytes(node.level, c, cb)
      && KeyOf(tape) == node.key && LevelOf(tape) == node.level
      && forall l: nat :: l <= node.level ==> NeighborsOf(tape, l, c, cb) == node.neighbors[l]
  {
    ListsLength(node.neighbors, rests, |rests|, c, cb);
    ListOffsets(node.level, c, cb);
    HeadOnTape(node, rests);
    forall l: nat | l <= node.level
      ensures NeighborsOf(TapeOf(node, rests), l, c, cb) == node.neighbors[l]
    {
      NeighborsRead(node, rests, l, c, cb);
    }
  }

  lemma {:induction false} HeadOnTape(node: Node, rests: seq<seq<nat>>)
    requires |rests| == |node.neighbors| && node.key < Power(KEY_BYTES) && node.level < Power(LEVEL_BYTES)
    ensures KeyOf(TapeOf(node, rests)) == node.key && LevelOf(TapeOf(node, rests)) == node.level
  {
    var key, level := LittleEndian(node.key, KEY_BYTES), LittleEndian(node.level, LEVEL_BYTES);
    var lists := ListsOnTape(node.neighbors, rests, |rests|);
    assert TapeOf(node, rests) == [] + key + (level + lists);
    SliceOfParts([], key, level + lists);
    SliceOfParts(key, level, lists);
    ValueLittleEndian(node.key, KEY_BYTES);
    ValueLittleEndian(node.level, LEVEL_BYTES);
  }

  lemma {:induction false} NeighborsRead(node: Node, rests: seq<seq<nat>>, l: nat, c: nat, cb: nat)
    requires Fits(node, rests, c, cb) && l <= node.level
    ensures NeighborsOf(TapeOf(node, rests), l, c, cb) == node.neighbors[l]
  {
    var head := LittleEndian(node.key, KEY_BYTES) + LittleEndian(node.level, LEVEL_BYTES);
    var before, after := ListInLists(node.neighbors, rests, l, |rests|);
    ListsLength(node.neighbors, rests, l, c, cb);
    assert TapeOf(node, rests) == (head + before) + ListOnTape(node.neighbors[l], rests[l]) + after;
    ListRead(head + before, node.neighbors[l], rests[l], after);
  }
}
