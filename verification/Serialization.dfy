/** Saving an index, loading it, and viewing it in place. */
module Serialization {
  import opened Graph
  import opened Tapes

  const DEFAULT_CONNECTIVITY: nat := 16
  const FIELD_BYTES: nat := 8
  const HEADER_BYTES: nat := 40

  /** What a saved index holds; of every node just its tape. */
  datatype Image = Image(connectivity: nat, connectivityBase: nat, maxLevel: nat, entrySlot: nat, tapes: seq<Bytes>)

  /** An empty file index leaves the index reset, with the configuration it had. */
  datatype Loaded = Failed | Empty | Loaded(image: Image)

  datatype Option<T> = None | Some(value: T)

  /** The first `n` of some fields. */
  function Fields(values: seq<nat>, n: nat): (r: Bytes)
    requires n <= |values|
    ensures |r| == FIELD_BYTES * n
  {
    if n == 0 then [] else Fields(values, n - 1) + LittleEndian(values[n - 1], FIELD_BYTES)
  }

  function HeaderOf(size: nat, c: nat, cb: nat, maxLevel: nat, entrySlot: nat): (r: Bytes)
    ensures |r| == HEADER_BYTES
  {
    Fields([size, c, cb, maxLevel, entrySlot], 5)
  }

  /** The levels of the first `n` nodes. */
  function LevelTable(tapes: seq<Bytes>, n: nat): (r: Bytes)
    requires n <= |tapes|
    ensures |r| == LEVEL_BYTES * n
  {
    if n == 0 then [] else LevelTable(tapes, n - 1) + LittleEndian(LevelOf(tapes[n - 1]), LEVEL_BYTES)
  }

  function Joined(tapes: seq<Bytes>, n: nat): Bytes
    requires n <= |tapes|
  {
    if n == 0 then [] else Joined(tapes, n - 1) + tapes[n - 1]
  }

  function Serialized(i: Image): Bytes {
    HeaderOf(|i.tapes|, i.connectivity, i.connectivityBase, i.maxLevel, i.entrySlot)
    + LevelTable(i.tapes, |i.tapes|) + Joined(i.tapes, |i.tapes|)
  }

  /** The length announced for the first `n` nodes, each with its entry in the level table. */
  function LengthOf(i: Image, n: nat): nat
    requires n <= |i.tapes|
  {
    if n == 0 then HEADER_BYTES
    else LengthOf(i, n - 1) + NodeBytes(LevelOf(i.tapes[n - 1]), i.connectivity, i.connectivityBase) + LEVEL_BYTES
  }

  /** Every tape has the length its level asks for, and the numbers fit their fields. */
  ghost predicate Valid(i: Image) {
    && 2 <= i.connectivity <= i.connectivityBase < Power(FIELD_BYTES)
    && i.maxLevel < Power(LEVEL_BYTES) && i.entrySlot < Power(SLOT_BYTES)
    && 0 < |i.tapes| < Power(FIELD_BYTES)
    && forall k :: 0 <= k < |i.tapes| ==>
         && |i.tapes[k]| == NodeBytes(LevelOf(i.tapes[k]), i.connectivity, i.connectivityBase)
         && LevelOf(i.tapes[k]) < Power(LEVEL_BYTES)
  }

  /** What may be saved: an index with members, or one without, whose configuration is written all the same. The highest
      level of an index without members is -1, and all bytes of its field are set. */
  ghost predicate Saveable(i: Image) {
    || Valid(i)
    || (i.tapes == [] && 2 <= i.connectivity <= i.connectivityBase < Power(FIELD_BYTES) && i.maxLevel < Power(FIELD_BYTES)
        && i.entrySlot < Power(SLOT_BYTES))
  }

  /** The image of an index without members. */
  function EmptyImage(c: nat, cb: nat): Image {
    Image(c, cb, Power(FIELD_BYTES) - 1, 0, [])
  }

  /** As many bytes are written as announced. */
  lemma {:induction false} LengthAnnounced(i: Image, n: nat)
    requires Saveable(i) && n <= |i.tapes|
    ensures LengthOf(i, n) == HEADER_BYTES + |LevelTable(i.tapes, n)| + |Joined(i.tapes, n)|
  {
    if n > 0 {
      LengthAnnounced(i, n - 1);
    }
  }

  method SerializedLength(i: Image) returns (r: nat)
    requires Saveable(i)
    ensures r == |Serialized(i)|
  {
    var nodes := 0;
    for k := 0 to |i.tapes|
      invariant HEADER_BYTES + nodes == LengthOf(i, k)
    {
      nodes := nodes + NodeBytes(LevelOf(i.tapes[k]), i.connectivity, i.connectivityBase) + LEVEL_BYTES;
    }
    LengthAnnounced(i, |i.tapes|);
    r := HEADER_BYTES + nodes;
  }

  /** Writes the header, the level of every node, and the tape of every node. */
  method SaveToStream(i: Image) returns (out: Bytes)
    ensures out == Serialized(i)
  {
    var header := HeaderOf(|i.tapes|, i.connectivity, i.connectivityBase, i.maxLevel, i.entrySlot);
    out := header;
    for k := 0 to |i.tapes|
      invariant out == header + LevelTable(i.tapes, k)
    {
      out := out + LittleEndian(LevelOf(i.tapes[k]), LEVEL_BYTES);
    }
    ghost var front := out;
    for k := 0 to |i.tapes|
      invariant out == front + Joined(i.tapes, k)
    {
      out := out + i.tapes[k];
    }
  }

  /** The configuration of a file as it is used, with defaults for zeros; nothing if it is refused. */
  function Validated(c: nat, cb: nat): (r: Option<(nat, nat)>)
    ensures c == cb == 0 ==> r == Some((16, 32))
    ensures c > 1 && cb == 0 ==> r == Some((c, 2 * c))
    ensures c == 0 && cb > 0 ==> r == if cb >= 16 then Some((16, cb)) else None
    ensures c > 0 && cb > 0 ==> r == if 2 <= c <= cb then Some((c, cb)) else None
    ensures c == 1 ==> r == None
  {
    var c' := if c == 0 then DEFAULT_CONNECTIVITY else c;
    var cb' := if cb == 0 then c' * 2 else cb;
    if c' < 2 || cb' < c' then None else Some((c', cb'))
  }

  function Field(b: Bytes, k: nat): nat {
    Value(Slice(b, FIELD_BYTES * k, FIELD_BYTES))
  }

  function LevelAt(b: Bytes, k: nat): nat {
    Value(Slice(b, HEADER_BYTES + LEVEL_BYTES * k, LEVEL_BYTES))
  }

  /** The level table of a file, of `n` nodes. */
  function LevelsIn(b: Bytes, n: nat): (r: seq<nat>)
    ensures |r| == n && forall k :: 0 <= k < n ==> r[k] == LevelAt(b, k)
  {
    seq(n, k requires 0 <= k < n => LevelAt(b, k))
  }

  /** The tapes of the nodes from the `k`-th on, one after the other from `pos` on, if all are there. */
  function TapesFrom(b: Bytes, pos: nat, levels: seq<nat>, k: nat, c: nat, cb: nat): Option<seq<Bytes>>
    requires k <= |levels|
    decreases |levels| - k
  {
    if k == |levels| then Some([])
    else
      var length := NodeBytes(levels[k], c, cb);
      if pos + length > |b| then None
      else Prepended([b[pos..pos + length]], TapesFrom(b, pos + length, levels, k + 1, c, cb))
  }

  /** What a file holds. */
  function Parsed(b: Bytes): Loaded {
    if |b| < HEADER_BYTES then Failed
    else
      var size := Field(b, 0);
      if size == 0 then Empty
      else if |b| < HEADER_BYTES + LEVEL_BYTES * size then Failed
      else
        match Validated(Field(b, 1), Field(b, 2))
        case None => Failed
        case Some((c, cb)) =>
          match TapesFrom(b, HEADER_BYTES + LEVEL_BYTES * size, LevelsIn(b, size), 0, c, cb)
          case None => Failed
          case Some(tapes) => Loaded(Image(c, cb, Field(b, 3) % 0x1_0000, Field(b, 4) % 0x1_0000_0000, tapes))
  }

  /** Where the tape of node `k` begins, if the first one begins at `start`. */
  function OffsetOf(levels: seq<nat>, start: nat, k: nat, c: nat, cb: nat): (r: nat)
    requires k <= |levels|
    ensures r >= start
  {
    if k == 0 then start else OffsetOf(levels, start, k - 1, c, cb) + NodeBytes(levels[k - 1], c, cb)
  }

  lemma {:induction false} OffsetsGrow(levels: seq<nat>, start: nat, k: nat, n: nat, c: nat, cb: nat)
    requires k <= n <= |levels|
    ensures OffsetOf(levels, start, k, c, cb) <= OffsetOf(levels, start, n, c, cb)
    decreases n - k
  {
    if k < n {
      OffsetsGrow(levels, start, k + 1, n, c, cb);
    }
  }

  /** `tapes` are those of the nodes from the `k`-th on, each at its offset. */
  ghost predicate AtOffsets(b: Bytes, start: nat, levels: seq<nat>, k: nat, c: nat, cb: nat, tapes: seq<Bytes>) {
    && k + |tapes| == |levels| && OffsetOf(levels, start, |levels|, c, cb) <= |b|
    && forall j :: 0 <= j < |tapes| ==> tapes[j] == TapeAt(b, start, levels, k + j, c, cb)
  }

  function TapeAt(b: Bytes, start: nat, levels: seq<nat>, k: nat, c: nat, cb: nat): Bytes
    requires k < |levels|
  {
    Slice(b, OffsetOf(levels, start, k, c, cb), NodeBytes(levels[k], c, cb))
  }

  /** Reading tape after tape succeeds exactly if the last one ends within the file, and finds them at their offsets. */
  lemma {:induction false} SequentialIsOffsets(b: Bytes, start: nat, levels: seq<nat>, k: nat, c: nat, cb: nat)
    requires k <= |levels| && OffsetOf(levels, start, k, c, cb) <= |b|
    ensures var r := TapesFrom(b, OffsetOf(levels, start, k, c, cb), levels, k, c, cb);
      if OffsetOf(levels, start, |levels|, c, cb) <= |b| then r.Some? && AtOffsets(b, start, levels, k, c, cb, r.value) else r == None
    decreases |levels| - k
  {
    if k < |levels| {
      OffsetsGrow(levels, start, k + 1, |levels|, c, cb);
      if OffsetOf(levels, start, k + 1, c, cb) <= |b| {
        SequentialIsOffsets(b, start, levels, k + 1, c, cb);
        TapesStep(b, start, levels, k, c, cb);
        var rest := TapesFrom(b, OffsetOf(levels, start, k + 1, c, cb), levels, k + 1, c, cb);
        if rest.Some? {
          OffsetsCons(b, start, levels, k, c, cb, rest.value);
        }
      }
    }
  }

  lemma {:induction false} TapesStep(b: Bytes, start: nat, levels: seq<nat>, k: nat, c: nat, cb: nat)
    requires k < |levels| && OffsetOf(levels, start, k + 1, c, cb) <= |b|
    ensures TapesFrom(b, OffsetOf(levels, start, k, c, cb), levels, k, c, cb) ==
            Prepended([TapeAt(b, start, levels, k, c, cb)], TapesFrom(b, OffsetOf(levels, start, k + 1, c, cb), levels, k + 1, c, cb))
  {
  }

  lemma OffsetsCons(b: Bytes, start: nat, levels: seq<nat>, k: nat, c: nat, cb: nat, rest: seq<Bytes>)
    requires k < |levels| && AtOffsets(b, start, levels, k + 1, c, cb, rest)
    ensures AtOffsets(b, start, levels, k, c, cb, [TapeAt(b, start, levels, k, c, cb)] + rest)
  {
    var all := [TapeAt(b, start, levels, k, c, cb)] + rest;
    forall j | 0 <= j < |all|
      ensures all[j] == TapeAt(b, start, levels, k + j, c, cb)
    {
      assert j > 0 ==> all[j] == rest[j - 1] && rest[j - 1] == TapeAt(b, start, levels, k + 1 + (j - 1), c, cb);
    }
  }

  /** The offsets determine the tapes. */
  lemma OffsetsUnique(b: Bytes, start: nat, levels: seq<nat>, k: nat, c: nat, cb: nat, s: seq<Bytes>, t: seq<Bytes>)
    requires AtOffsets(b, start, levels, k, c, cb, s) && AtOffsets(b, start, levels, k, c, cb, t)
    ensures s == t
  {
    forall j | 0 <= j < |s|
      ensures s[j] == t[j]
    {
      assert s[j] == TapeAt(b, start, levels, k + j, c, cb);
    }
  }

  function Prepended(tapes: seq<Bytes>, more: Option<seq<Bytes>>): Option<seq<Bytes>> {
    if more.Some? then Some(tapes + more.value) else None
  }

  method ReadLevels(b: Bytes, n: nat) returns (levels: seq<nat>)
    ensures levels == LevelsIn(b, n)
  {
    levels := [];
    for k := 0 to n
      invariant |levels| == k && forall j :: 0 <= j < k ==> levels[j] == LevelAt(b, j)
    {
      levels := levels + [LevelAt(b, k)];
    }
  }

  /** Pulls tape after tape. */
  method LoadTapes(b: Bytes, start: nat, levels: seq<nat>, c: nat, cb: nat) returns (r: Option<seq<Bytes>>)
    requires start <= |b|
    ensures r == TapesFrom(b, start, levels, 0, c, cb)
  {
    var pos, tapes: seq<Bytes> := start, [];
    PrependedEnds(TapesFrom(b, start, levels, 0, c, cb), []);
    for k := 0 to |levels|
      invariant start <= pos <= |b|
      invariant TapesFrom(b, start, levels, 0, c, cb) == Prepended(tapes, TapesFrom(b, pos, levels, k, c, cb))
    {
      var length := NodeBytes(levels[k], c, cb);
      if pos + length > |b| {
        return None;
      }
      var tape := b[pos..pos + length];
      PrependedNext(tapes, tape, TapesFrom(b, pos + length, levels, k + 1, c, cb));
      tapes := tapes + [tape];
      pos := pos + length;
    }
    PrependedEnds(None, tapes);
    r := Some(tapes);
  }

  lemma PrependedEnds(more: Option<seq<Bytes>>, tapes: seq<Bytes>)
    ensures Prepended([], more) == more && Prepended(tapes, Some([])) == Some(tapes)
  {
    if more.Some? {
      assert [] + more.value == more.value;
    }
    assert tapes + [] == tapes;
  }

  lemma PrependedNext(tapes: seq<Bytes>, tape: Bytes, more: Option<seq<Bytes>>)
    ensures Prepended(tapes, Prepended([tape], more)) == Prepended(tapes + [tape], more)
  {
    if more.Some? {
      assert tapes + ([tape] + more.value) == tapes + [tape] + more.value;
    }
  }

  /** Pulls the header, the level table, and tape after tape; whatever is missing, the file is refused. */
  method LoadFromStream(b: Bytes) returns (r: Loaded)
    ensures r == Parsed(b)
  {
    if |b| < HEADER_BYTES {
      return Failed;
    }
    var size := Field(b, 0);
    if size == 0 {
      return Empty;
    }
    if |b| < HEADER_BYTES + LEVEL_BYTES * size {
      return Failed;
    }
    var config := Validated(Field(b, 1), Field(b, 2));
    if config == None {
      return Failed;
    }
    var (c, cb) := config.value;
    var levels := ReadLevels(b, size);
    var tapes := LoadTapes(b, HEADER_BYTES + LEVEL_BYTES * size, levels, c, cb);
    r := if tapes.Some? then Loaded(Image(c, cb, Field(b, 3) % 0x1_0000, Field(b, 4) % 0x1_0000_0000, tapes.value)) else Failed;
  }

  /** The offsets of all tapes, summed up from the level table, and where the last one ends. */
  method SumOffsets(levels: seq<nat>, start: nat, c: nat, cb: nat) returns (offsets: seq<nat>, total: nat)
    requires levels != []
    ensures |offsets| == |levels| && forall k :: 0 <= k < |levels| ==> offsets[k] == OffsetOf(levels, start, k, c, cb)
    ensures total == OffsetOf(levels, start, |levels|, c, cb)
  {
    offsets := [start];
    for k := 1 to |levels|
      invariant |offsets| == k && OffsetsSo(offsets, start, levels, c, cb)
    {
      offsets := offsets + [offsets[k - 1] + NodeBytes(levels[k - 1], c, cb)];
      OffsetsSoNext(offsets, start, levels, c, cb);
    }
    var last := |levels| - 1;
    total := offsets[last] + NodeBytes(levels[last], c, cb);
  }

  ghost predicate OffsetsSo(offsets: seq<nat>, start: nat, levels: seq<nat>, c: nat, cb: nat) {
    |offsets| <= |levels| && forall k :: 0 <= k < |offsets| ==> offsets[k] == OffsetOf(levels, start, k, c, cb)
  }

  lemma {:induction false} OffsetsSoNext(offsets: seq<nat>, start: nat, levels: seq<nat>, c: nat, cb: nat)
    requires 1 < |offsets| <= |levels| && OffsetsSo(offsets[..|offsets| - 1], start, levels, c, cb)
    requires offsets[|offsets| - 1] == offsets[|offsets| - 2] + NodeBytes(levels[|offsets| - 2], c, cb)
    ensures OffsetsSo(offsets, start, levels, c, cb)
  {
    var k := |offsets| - 1;
    assert offsets[..k][k - 1] == OffsetOf(levels, start, k - 1, c, cb);
    forall j | 0 <= j < k
      ensures offsets[j] == OffsetOf(levels, start, j, c, cb)
    {
      assert offsets[j] == offsets[..k][j];
    }
  }

  /** Addresses the tapes at their offsets, if the last one ends within the file: the same tapes as pulling one after the other. */
  method ViewTapes(b: Bytes, start: nat, levels: seq<nat>, c: nat, cb: nat) returns (r: Option<seq<Bytes>>, offsets: seq<nat>)
    requires start <= |b| && levels != []
    ensures r == TapesFrom(b, start, levels, 0, c, cb)
    ensures r.Some? ==> |offsets| == |r.value| && forall k :: 0 <= k < |offsets| ==> r.value[k] == Slice(b, offsets[k], |r.value[k]|)
  {
    var total;
    offsets, total := SumOffsets(levels, start, c, cb);
    SequentialIsOffsets(b, start, levels, 0, c, cb);
    if |b| < total {
      return None, offsets;
    }
    var tapes := Addressed(b, start, levels, c, cb, offsets);
    OffsetsUnique(b, start, levels, 0, c, cb, tapes, TapesFrom(b, start, levels, 0, c, cb).value);
    r := Some(tapes);
  }

  /** Viewing a file looks at no level beyond its end. */
  predicate LevelsInside(b: Bytes) {
    |b| < HEADER_BYTES || Field(b, 0) == 0 || Validated(Field(b, 1), Field(b, 2)) == None || |b| >= StartOf(Field(b, 0))
  }

  /** Addresses the tapes where they lie in the file: the same index as loading it, if the level table is there. That it
      is there is not looked at; where it is not, levels are read beyond the end of the file, and nothing is promised. */
  method View(b: Bytes) returns (inside: bool, r: Loaded, offsets: seq<nat>)
    ensures inside <==> LevelsInside(b)
    ensures inside ==> r == Parsed(b)
    ensures inside && r.Loaded? ==>
      && |offsets| == |r.image.tapes|
      && forall k :: 0 <= k < |offsets| ==> r.image.tapes[k] == Slice(b, offsets[k], |r.image.tapes[k]|)
  {
    offsets := [];
    if |b| < HEADER_BYTES {
      return true, Failed, offsets;
    }
    var size := Field(b, 0);
    if size == 0 {
      return true, Empty, offsets;
    }
    var config := Validated(Field(b, 1), Field(b, 2));
    if config == None {
      return true, Failed, offsets;
    }
    inside := |b| >= StartOf(size);
    if !inside {
      return false, Failed, offsets;
    }
    var (c, cb) := config.value;
    var levels := ReadLevels(b, size);
    var tapes;
    tapes, offsets := ViewTapes(b, StartOf(size), levels, c, cb);
    r := if tapes.Some? then Loaded(Image(c, cb, Field(b, 3) % 0x1_0000, Field(b, 4) % 0x1_0000_0000, tapes.value)) else Failed;
  }

  /** What the pointers at the offsets show. */
  method Addressed(b: Bytes, start: nat, levels: seq<nat>, c: nat, cb: nat, offsets: seq<nat>) returns (tapes: seq<Bytes>)
    requires |offsets| == |levels| && forall k :: 0 <= k < |levels| ==> offsets[k] == OffsetOf(levels, start, k, c, cb)
    requires OffsetOf(levels, start, |levels|, c, cb) <= |b|
    ensures AtOffsets(b, start, levels, 0, c, cb, tapes)
    ensures forall k :: 0 <= k < |tapes| ==> tapes[k] == Slice(b, offsets[k], |tapes[k]|)
  {
    tapes := [];
    for k := 0 to |levels|
      invariant |tapes| == k && forall j :: 0 <= j < k ==> tapes[j] == TapeAt(b, start, levels, j, c, cb)
      invariant forall j :: 0 <= j < k ==> tapes[j] == Slice(b, offsets[j], |tapes[j]|)
    {
      OffsetsGrow(levels, start, k + 1, |levels|, c, cb);
      tapes := tapes + [Slice(b, offsets[k], NodeBytes(levels[k], c, cb))];
    }
  }

  lemma {:induction false} FieldRead(values: seq<nat>, n: nat, k: nat, rest: Bytes)
    requires k < n <= |values| && values[k] < Power(FIELD_BYTES)
    ensures Field(Fields(values, n) + rest, k) == values[k]
    decreases n
  {
    var front, last := Fields(values, n - 1), LittleEndian(values[n - 1], FIELD_BYTES);
    if k == n - 1 {
      SliceOfParts(front, last, rest);
      ValueLittleEndian(values[k], FIELD_BYTES);
    } else {
      assert front + last + rest == front + (last + rest);
      FieldRead(values, n - 1, k, last + rest);
    }
  }

  /** The fields of a header are read from whatever begins with it. */
  lemma HeaderRead(size: nat, c: nat, cb: nat, maxLevel: nat, entrySlot: nat, rest: Bytes)
    requires size < Power(FIELD_BYTES) && c < Power(FIELD_BYTES) && cb < Power(FIELD_BYTES)
    requires maxLevel < Power(FIELD_BYTES) && entrySlot < Power(FIELD_BYTES)
    ensures var b := HeaderOf(size, c, cb, maxLevel, entrySlot) + rest;
      Field(b, 0) == size && Field(b, 1) == c && Field(b, 2) == cb && Field(b, 3) == maxLevel && Field(b, 4) == entrySlot
  {
    var values := [size, c, cb, maxLevel, entrySlot];
    FieldRead(values, 5, 0, rest);
    FieldRead(values, 5, 1, rest);
    FieldRead(values, 5, 2, rest);
    FieldRead(values, 5, 3, rest);
    FieldRead(values, 5, 4, rest);
  }

  /** The level table is read back from behind a header. */
  lemma {:induction false} TableRead(header: Bytes, tapes: seq<Bytes>, n: nat, k: nat, rest: Bytes)
    requires |header| == HEADER_BYTES && k < n <= |tapes| && LevelOf(tapes[k]) < Power(LEVEL_BYTES)
    ensures LevelAt(header + LevelTable(tapes, n) + rest, k) == LevelOf(tapes[k])
    decreases n
  {
    var last := LittleEndian(LevelOf(tapes[n - 1]), LEVEL_BYTES);
    var front := LevelTable(tapes, n - 1);
    assert header + LevelTable(tapes, n) + rest == (header + front) + last + rest;
    if k == n - 1 {
      SliceOfParts(header + front, last, rest);
      ValueLittleEndian(LevelOf(tapes[k]), LEVEL_BYTES);
    } else {
      assert header + LevelTable(tapes, n) + rest == header + front + (last + rest);
      TableRead(header, tapes, n - 1, k, last + rest);
    }
  }

  ghost function LevelsOf(tapes: seq<Bytes>): (r: seq<nat>)
    ensures |r| == |tapes| && forall k :: 0 <= k < |r| ==> r[k] == LevelOf(tapes[k])
  {
    seq(|tapes|, k requires 0 <= k < |tapes| => LevelOf(tapes[k]))
  }

  function StartOf(n: nat): nat {
    HEADER_BYTES + LEVEL_BYTES * n
  }

  /** The header and the level table. */
  function FrontOf(i: Image): (r: Bytes)
    ensures |r| == StartOf(|i.tapes|)
  {
    HeaderOf(|i.tapes|, i.connectivity, i.connectivityBase, i.maxLevel, i.entrySlot) + LevelTable(i.tapes, |i.tapes|)
  }

  /** `b` begins with the header and the level table of the image. */
  ghost predicate Announces(b: Bytes, i: Image) {
    && |b| >= StartOf(|i.tapes|)
    && Field(b, 0) == |i.tapes| && Field(b, 1) == i.connectivity && Field(b, 2) == i.connectivityBase
    && Field(b, 3) == i.maxLevel && Field(b, 4) == i.entrySlot
    && LevelsIn(b, |i.tapes|) == LevelsOf(i.tapes)
  }

  lemma FrontAnnounces(i: Image, rest: Bytes)
    requires Valid(i)
    ensures Announces(FrontOf(i) + rest, i)
  {
    var n := |i.tapes|;
    var header := HeaderOf(n, i.connectivity, i.connectivityBase, i.maxLevel, i.entrySlot);
    var table := LevelTable(i.tapes, n);
    Powers();
    assert header + table + rest == header + (table + rest);
    HeaderRead(n, i.connectivity, i.connectivityBase, i.maxLevel, i.entrySlot, table + rest);
    forall k: nat | k < n
      ensures LevelAt(header + table + rest, k) == LevelOf(i.tapes[k])
    {
      TableRead(header, i.tapes, n, k, rest);
    }
  }

  /** A file that begins like a saved one is read as its tapes are. */
  lemma ParsedAnnounced(b: Bytes, i: Image)
    requires Valid(i) && Announces(b, i)
    ensures var r := TapesFrom(b, StartOf(|i.tapes|), LevelsOf(i.tapes), 0, i.connectivity, i.connectivityBase);
      Parsed(b) == if r.Some? then Loaded(i.(tapes := r.value)) else Failed
  {
    Powers();
  }

  /** The tapes lie one after the other. */
  lemma {:induction false} OffsetsJoined(i: Image, n: nat)
    requires Valid(i) && n <= |i.tapes|
    ensures OffsetOf(LevelsOf(i.tapes), StartOf(|i.tapes|), n, i.connectivity, i.connectivityBase) ==
            StartOf(|i.tapes|) + |Joined(i.tapes, n)|
  {
    if n > 0 {
      OffsetsJoined(i, n - 1);
    }
  }

  lemma {:induction false} JoinedPart(tapes: seq<Bytes>, k: nat, n: nat) returns (after: Bytes)
    requires k < n <= |tapes|
    ensures Joined(tapes, n) == Joined(tapes, k) + tapes[k] + after
    decreases n - k
  {
    if k == n - 1 {
      after := [];
    } else {
      after := JoinedPart(tapes, k, n - 1);
      after := after + tapes[n - 1];
    }
  }

  lemma TapeInFile(i: Image, rest: Bytes, k: nat)
    requires Valid(i) && k < |i.tapes|
    ensures TapeAt(FrontOf(i) + (Joined(i.tapes, |i.tapes|) + rest), StartOf(|i.tapes|), LevelsOf(i.tapes), k,
                   i.connectivity, i.connectivityBase) == i.tapes[k]
  {
    var front, before := FrontOf(i), Joined(i.tapes, k);
    var after := JoinedPart(i.tapes, k, |i.tapes|);
    OffsetsJoined(i, k);
    assert front + (before + i.tapes[k] + after + rest) == (front + before) + i.tapes[k] + (after + rest);
    SliceOfParts(front + before, i.tapes[k], after + rest);
  }

  lemma TapesInFile(i: Image, rest: Bytes)
    requires Valid(i)
    ensures TapesFrom(FrontOf(i) + (Joined(i.tapes, |i.tapes|) + rest), StartOf(|i.tapes|), LevelsOf(i.tapes), 0,
                      i.connectivity, i.connectivityBase) == Some(i.tapes)
  {
    var n, c, cb, levels := |i.tapes|, i.connectivity, i.connectivityBase, LevelsOf(i.tapes);
    var b := FrontOf(i) + (Joined(i.tapes, n) + rest);
    OffsetsJoined(i, n);
    SequentialIsOffsets(b, StartOf(n), levels, 0, c, cb);
    forall k: nat | k < n
      ensures i.tapes[k] == TapeAt(b, StartOf(n), levels, k, c, cb)
    {
      TapeInFile(i, rest, k);
    }
    OffsetsUnique(b, StartOf(n), levels, 0, c, cb, i.tapes, TapesFrom(b, StartOf(n), levels, 0, c, cb).value);
  }

  /** What is saved and then loaded, with anything behind it, is what was saved. */
  lemma SavedThenLoaded(i: Image, rest: Bytes)
    requires Valid(i)
    ensures Parsed(Serialized(i) + rest) == Loaded(i)
  {
    var joined := Joined(i.tapes, |i.tapes|);
    assert Serialized(i) + rest == FrontOf(i) + (joined + rest);
    FrontAnnounces(i, joined + rest);
    TapesInFile(i, rest);
    ParsedAnnounced(FrontOf(i) + (joined + rest), i);
  }

  /** A saved file that has been cut off anywhere is refused. */
  lemma CutOffRefused(i: Image, length: nat)
    requires Valid(i) && length < |Serialized(i)|
    ensures Parsed(Serialized(i)[..length]) == Failed
  {
    var n := |i.tapes|;
    if length >= StartOf(n) {
      var joined := Joined(i.tapes, n);
      var part := joined[..length - StartOf(n)];
      assert Serialized(i)[..length] == FrontOf(i) + part;
      FrontAnnounces(i, part);
      OffsetsJoined(i, n);
      SequentialIsOffsets(FrontOf(i) + part, StartOf(n), LevelsOf(i.tapes), 0, i.connectivity, i.connectivityBase);
      ParsedAnnounced(FrontOf(i) + part, i);
    } else if length >= HEADER_BYTES {
      CutOffTable(i, length);
    }
  }

  lemma CutOffTable(i: Image, length: nat)
    requires Valid(i) && HEADER_BYTES <= length < StartOf(|i.tapes|)
    ensures Parsed(Serialized(i)[..length]) == Failed
  {
    var n := |i.tapes|;
    var header := HeaderOf(n, i.connectivity, i.connectivityBase, i.maxLevel, i.entrySlot);
    var rest := LevelTable(i.tapes, n)[..length - HEADER_BYTES];
    assert Serialized(i)[..length] == header + rest;
    Powers();
    HeaderRead(n, i.connectivity, i.connectivityBase, i.maxLevel, i.entrySlot, rest);
  }

  /** Of the beginnings of a saved file, those that end inside the level table are read beyond their end when viewed. */
  lemma CutOffViewed(i: Image, length: nat)
    requires Valid(i) && length <= |Serialized(i)|
    ensures LevelsInside(Serialized(i)[..length]) <==> length < HEADER_BYTES || length >= StartOf(|i.tapes|)
  {
    var n := |i.tapes|;
    if length >= HEADER_BYTES {
      var header := HeaderOf(n, i.connectivity, i.connectivityBase, i.maxLevel, i.entrySlot);
      var all := LevelTable(i.tapes, n) + Joined(i.tapes, n);
      assert Serialized(i) == header + all;
      assert Serialized(i)[..length] == header + all[..length - HEADER_BYTES];
      Powers();
      HeaderRead(n, i.connectivity, i.connectivityBase, i.maxLevel, i.entrySlot, all[..length - HEADER_BYTES]);
    }
  }

  /** The configuration after loading a file that is not refused, if it was `before`. */
  function ConfigurationAfter(before: (nat, nat), r: Loaded): (nat, nat)
    requires r != Failed
  {
    match r
    case Empty => before
    case Loaded(i) => (i.connectivity, i.connectivityBase)
  }

  /** What is saved can be loaded, but the configuration comes back, whatever it is loaded into, only if there are members. */
  lemma ConfigurationComesBack(i: Image, rest: Bytes)
    requires Saveable(i)
    ensures var r := Parsed(Serialized(i) + rest);
      && r == (if i.tapes == [] then Empty else Loaded(i))
      && ((forall before :: ConfigurationAfter(before, r) == (i.connectivity, i.connectivityBase)) <==> i.tapes != [])
  {
    if i.tapes == [] {
      Powers();
      HeaderRead(0, i.connectivity, i.connectivityBase, i.maxLevel, i.entrySlot, rest);
      assert Serialized(i) + rest == HeaderOf(0, i.connectivity, i.connectivityBase, i.maxLevel, i.entrySlot) + rest;
      assert ConfigurationAfter((0, 0), Empty) == (0, 0);
    } else {
      SavedThenLoaded(i, rest);
    }
  }

  /** An index without members saved and loaded into one with another configuration: it keeps the other one. */
  lemma EmptyForgetsConfiguration(c: nat, cb: nat, before: (nat, nat))
    requires 2 <= c <= cb < Power(FIELD_BYTES) && before != (c, cb)
    ensures Parsed(Serialized(EmptyImage(c, cb))) == Empty && ConfigurationAfter(before, Empty) != (c, cb)
  {
    var i := EmptyImage(c, cb);
    Powers();
    ConfigurationComesBack(i, []);
    assert Serialized(i) + [] == Serialized(i);
  }

  /** The image of a graph: a tape for every node, with whatever the room of its lists holds besides the neighbours. */
  ghost function ImageOf(nodes: seq<Node>, rests: seq<seq<seq<nat>>>, c: nat, cb: nat, maxLevel: nat, entrySlot: nat): Image
    requires |rests| == |nodes| && forall u :: 0 <= u < |nodes| ==> |rests[u]| == |nodes[u].neighbors|
  {
    Image(c, cb, maxLevel, entrySlot, seq(|nodes|, u requires 0 <= u < |nodes| => TapeOf(nodes[u], rests[u])))
  }

  /** A graph saved and loaded: every key, level and list of neighbours can be read from the tapes again. */
  lemma GraphSavedThenLoaded(nodes: seq<Node>, rests: seq<seq<seq<nat>>>, c: nat, cb: nat, maxLevel: nat, entrySlot: nat)
    requires 2 <= c <= cb < Power(COUNT_BYTES) && maxLevel < Power(LEVEL_BYTES) && entrySlot < Power(SLOT_BYTES)
    requires 0 < |nodes| == |rests| < Power(FIELD_BYTES)
    requires forall u :: 0 <= u < |nodes| ==> |rests[u]| == |nodes[u].neighbors| && Fits(nodes[u], rests[u], c, cb)
    ensures var loaded := Parsed(Serialized(ImageOf(nodes, rests, c, cb, maxLevel, entrySlot)));
      && loaded.Loaded?
      && loaded.image.(tapes := []) == Image(c, cb, maxLevel, entrySlot, [])
      && |loaded.image.tapes| == |nodes|
      && forall u: nat :: u < |nodes| ==> ReadsBack(loaded.image.tapes[u], nodes[u], c, cb)
  {
    var i := ImageOf(nodes, rests, c, cb, maxLevel, entrySlot);
    Powers();
    forall u: nat | u < |nodes|
      ensures |i.tapes[u]| == NodeBytes(LevelOf(i.tapes[u]), c, cb) && LevelOf(i.tapes[u]) < Power(LEVEL_BYTES)
      ensures ReadsBack(i.tapes[u], nodes[u], c, cb)
    {
      TapeRead(nodes[u], rests[u], c, cb);
    }
    SavedThenLoaded(i, []);
    assert Serialized(i) + [] == Serialized(i);
  }

  ghost predicate ReadsBack(tape: Bytes, node: Node, c: nat, cb: nat) {
    && KeyOf(tape) == node.key && LevelOf(tape) == node.level
    && |node.neighbors| == node.level + 1
    && forall l: nat :: l <= node.level ==> NeighborsOf(tape, l, c, cb) == node.neighbors[l]
  }
}
