/** The file of a dense index: the matrix of the vectors behind its dimensions, a head of 64 bytes, and the graph. */
module DenseFile {
  import opened Tapes
  import opened Serialization

  const HEAD_LENGTH: nat := 64

  /** The seven letters at the beginning of the head, as a number. */
  const MAGIC: nat := 0x68_6372_6165_7375
  const MAGIC_BYTES: nat := 7
  const MAJOR: nat := 2
  const MINOR: nat := 25
  const PATCH: nat := 1
  const U64: nat := 14
  const U32: nat := 15

  /** Whether the vectors are in the file, and whether the dimensions of their matrix have 64 bits. */
  datatype Format = Format(exclude: bool, wide: bool)

  /** A dense index as far as it is saved; `columns` bytes a vector. */
  datatype Dense = Dense(vectors: seq<Bytes>, columns: nat, metric: nat, scalar: nat, present: nat, dimensions: nat, multi: bool,
                         graph: Image)

  datatype Reason = NoDimensions | NoVectors | NoHead | NotAnIndex | OtherVersion | OtherKey | OtherSlot | NoGraph | OtherSize

  datatype Opened = Opened(vectors: seq<Bytes>, metric: nat, scalar: nat, dimensions: nat, multi: bool, graph: Loaded)
                  | Refused(why: Reason)

  ghost predicate ValidDense(d: Dense) {
    && Saveable(d.graph) && |d.vectors| == |d.graph.tapes| && d.columns < Power(8)
    && (forall u :: 0 <= u < |d.vectors| ==> |d.vectors[u]| == d.columns)
    && d.metric < Power(1) && d.scalar < Power(1) && d.present <= |d.vectors| && d.dimensions < Power(8)
  }

  /** Numbers with their widths, one after the other. */
  function Packed(parts: seq<(nat, nat)>, n: nat): (r: Bytes)
    requires n <= |parts|
    ensures |r| == Width(parts, n)
  {
    if n == 0 then [] else Packed(parts, n - 1) + LittleEndian(parts[n - 1].0, parts[n - 1].1)
  }

  function Width(parts: seq<(nat, nat)>, n: nat): nat
    requires n <= |parts|
  {
    if n == 0 then 0 else Width(parts, n - 1) + parts[n - 1].1
  }

  /** The head: magic, version, kinds, population, and zeros up to its length. */
  function HeadParts(d: Dense): seq<(nat, nat)>
    requires d.present <= |d.vectors|
  {
    [(MAGIC, MAGIC_BYTES), (MAJOR, 2), (MINOR, 2), (PATCH, 2), (d.metric, 1), (d.scalar, 1), (U64, 1), (U32, 1),
     (d.present, 8), (|d.vectors| - d.present, 8), (d.dimensions, 8), (if d.multi then 1 else 0, 1), (0, 22)]
  }

  function HeadOf(d: Dense): Bytes
    requires d.present <= |d.vectors|
  {
    Packed(HeadParts(d), 13)
  }

  function DimensionBytes(wide: bool): nat {
    if wide then 8 else 4
  }

  /** A dimension as it is written: its low bytes. */
  function Clipped(n: nat, wide: bool): nat {
    n % Power(DimensionBytes(wide))
  }

  function Row(v: Bytes, columns: nat): Bytes {
    if columns <= |v| then v[..columns] else v
  }

  /** The first `n` rows of a matrix. */
  function Rows(vectors: seq<Bytes>, n: nat, columns: nat): Bytes
    requires n <= |vectors|
  {
    if n == 0 then [] else Rows(vectors, n - 1, columns) + Row(vectors[n - 1], columns)
  }

  lemma ClippedBelow(n: nat, wide: bool)
    ensures Clipped(n, wide) <= n && Clipped(n, wide) < Power(DimensionBytes(wide))
    ensures Clipped(n, wide) == n <==> n < Power(DimensionBytes(wide))
  {
    Remainder(n, Power(DimensionBytes(wide)));
  }

  lemma Remainder(n: nat, p: nat)
    requires p > 0
    ensures n % p < p && n % p <= n && (n % p == n <==> n < p)
  {
    if n < p {
      assert n % p == n;
    }
  }

  /** The dimensions and the vectors; as many and as much of them as the written dimensions say. */
  function MatrixOf(d: Dense, wide: bool): Bytes {
    var rows, columns := Clipped(|d.vectors|, wide), Clipped(d.columns, wide);
    ClippedBelow(|d.vectors|, wide);
    LittleEndian(rows, DimensionBytes(wide)) + LittleEndian(columns, DimensionBytes(wide)) + Rows(d.vectors, rows, columns)
  }

  function Written(d: Dense, f: Format): Bytes
    requires d.present <= |d.vectors|
  {
    if f.exclude then HeadOf(d) + Serialized(d.graph) else MatrixOf(d, f.wide) + (HeadOf(d) + Serialized(d.graph))
  }

  lemma {:induction false} RowsLength(vectors: seq<Bytes>, n: nat, columns: nat)
    requires n <= |vectors| && forall u :: 0 <= u < |vectors| ==> |vectors[u]| >= columns
    ensures |Rows(vectors, n, columns)| == n * columns
  {
    if n > 0 {
      RowsLength(vectors, n - 1, columns);
      assert n * columns == (n - 1) * columns + columns;
    }
  }

  lemma MatrixLength(d: Dense, wide: bool)
    requires ValidDense(d)
    ensures |MatrixOf(d, wide)| == 2 * DimensionBytes(wide) + Clipped(|d.vectors|, wide) * Clipped(d.columns, wide)
  {
    ClippedBelow(|d.vectors|, wide);
    ClippedBelow(d.columns, wide);
    RowsLength(d.vectors, Clipped(|d.vectors|, wide), Clipped(d.columns, wide));
  }

  lemma HeadLength(d: Dense)
    requires d.present <= |d.vectors|
    ensures |HeadOf(d)| == HEAD_LENGTH
  {
    HeadWidths(d);
    assert Width(HeadParts(d), 12) == 42;
  }

  /** The bytes of a matrix and its dimensions, if they are in the file. */
  function MatrixBytes(rows: nat, columns: nat, f: Format): nat {
    if f.exclude then 0 else 2 * DimensionBytes(f.wide) + rows * columns
  }

  /** The length announced counts all rows and columns. */
  method AnnouncedLength(d: Dense, f: Format) returns (r: nat)
    requires ValidDense(d)
    ensures r == MatrixBytes(|d.vectors|, d.columns, f) + HEAD_LENGTH + |Serialized(d.graph)|
    ensures r == |Written(d, f)| <==> f.exclude || Lossless(d, f.wide) || |d.vectors| * d.columns == 0
  {
    var graph := SerializedLength(d.graph);
    r := MatrixBytes(|d.vectors|, d.columns, f) + HEAD_LENGTH + graph;
    WrittenLength(d, f);
    WrittenInFull(d, f);
  }

  lemma WrittenLength(d: Dense, f: Format)
    requires ValidDense(d)
    ensures |Written(d, f)| == MatrixBytes(Clipped(|d.vectors|, f.wide), Clipped(d.columns, f.wide), f) + HEAD_LENGTH + |Serialized(d.graph)|
  {
    HeadLength(d);
    MatrixLength(d, f.wide);
  }

  lemma WrittenInFull(d: Dense, f: Format)
    ensures MatrixBytes(|d.vectors|, d.columns, f) == MatrixBytes(Clipped(|d.vectors|, f.wide), Clipped(d.columns, f.wide), f) <==>
            f.exclude || Lossless(d, f.wide) || |d.vectors| * d.columns == 0
  {
    LosslessProduct(d, f.wide);
  }

  /** The dimensions fit the width they are written with. */
  ghost predicate Lossless(d: Dense, wide: bool) {
    |d.vectors| < Power(DimensionBytes(wide)) && d.columns < Power(DimensionBytes(wide))
  }

  lemma LosslessProduct(d: Dense, wide: bool)
    ensures Clipped(|d.vectors|, wide) * Clipped(d.columns, wide) == |d.vectors| * d.columns <==>
            Lossless(d, wide) || |d.vectors| * d.columns == 0
  {
    ClippedBelow(|d.vectors|, wide);
    ClippedBelow(d.columns, wide);
    SmallerProduct(Clipped(|d.vectors|, wide), Clipped(d.columns, wide), |d.vectors|, d.columns);
  }

  lemma SmallerProduct(a: nat, b: nat, c: nat, d: nat)
    requires a <= c && b <= d
    ensures a * b == c * d <==> (a == c && b == d) || c * d == 0
  {
    assert c * d - a * b == (c - a) * d + a * (d - b);
    if c * d != 0 {
      if a < c {
        assert (c - a) * d > 0 && a * (d - b) >= 0;
      } else if b < d {
        assert a * (d - b) > 0;
      }
    } else {
      assert a * b <= c * d by {
        assert (c - a) * d >= 0 && a * (d - b) >= 0;
      }
    }
  }

  method SaveToStream(d: Dense, f: Format) returns (out: Bytes)
    requires ValidDense(d)
    ensures out == Written(d, f)
  {
    var matrix: Bytes := [];
    if !f.exclude {
      matrix := SaveMatrix(d, f.wide);
    }
    var graph := Serialization.SaveToStream(d.graph);
    out := matrix + (HeadOf(d) + graph);
    assert f.exclude ==> out == HeadOf(d) + graph;
  }

  /** Writes the dimensions and one vector after the other. */
  method SaveMatrix(d: Dense, wide: bool) returns (out: Bytes)
    requires ValidDense(d)
    ensures out == MatrixOf(d, wide)
  {
    var rows, columns := Clipped(|d.vectors|, wide), Clipped(d.columns, wide);
    ClippedBelow(|d.vectors|, wide);
    var dimensions := LittleEndian(rows, DimensionBytes(wide)) + LittleEndian(columns, DimensionBytes(wide));
    out := dimensions;
    for i := 0 to rows
      invariant out == dimensions + Rows(d.vectors, i, columns)
    {
      out := out + Row(d.vectors[i], columns);
    }
  }

  /** The kinds of files older than version 2.10, in today's numbers. */
  function Converted(kind: nat): nat {
    match kind
    case 4 => 10
    case 5 => 11
    case 6 => 12
    case 7 => 5
    case 8 => 14
    case 9 => 15
    case 10 => 17
    case 11 => 20
    case 12 => 21
    case 13 => 22
    case 14 => 23
    case _ => kind
  }

  function Number(b: Bytes, pos: nat, width: nat): nat {
    Value(Slice(b, pos, width))
  }

  /** A kind as it is to be understood: in a file of an older version the numbers of the kinds were others. */
  function KindAt(b: Bytes, pos: nat, legacy: bool): (kind: nat)
    ensures legacy && 4 <= Number(b, pos, 1) <= 14 ==>
      kind == [10, 11, 12, 5, 14, 15, 17, 20, 21, 22, 23][Number(b, pos, 1) - 4]
    ensures !(legacy && 4 <= Number(b, pos, 1) <= 14) ==> kind == Number(b, pos, 1)
  {
    if legacy then Converted(Number(b, pos, 1)) else Number(b, pos, 1)
  }

  /** Where row `u` begins. */
  function RowStart(start: nat, u: nat, columns: nat): nat {
    start + u * columns
  }

  /** The rows of the matrix behind its dimensions. */
  function RowsIn(b: Bytes, start: nat, rows: nat, columns: nat): (r: seq<Bytes>)
    ensures |r| == rows && forall u :: 0 <= u < rows ==> r[u] == Slice(b, RowStart(start, u, columns), columns)
  {
    seq(rows, u requires 0 <= u < rows => Slice(b, RowStart(start, u, columns), columns))
  }

  function SizeOf(graph: Loaded): nat {
    if graph.Loaded? then |graph.image.tapes| else 0
  }

  /** What the head and the graph at the end of a file say, for the vectors read before. */
  function ReadRest(b: Bytes, vectors: seq<Bytes>): Opened {
    if |b| < HEAD_LENGTH then Refused(NoHead)
    else if Number(b, 0, MAGIC_BYTES) != MAGIC then Refused(NotAnIndex)
    else
      var legacy := Number(b, 7, 2) == 2 && Number(b, 9, 2) < 10;
      if Number(b, 7, 2) != MAJOR then Refused(OtherVersion)
      else if KindAt(b, 15, legacy) != U64 then Refused(OtherKey)
      else if KindAt(b, 16, legacy) != U32 then Refused(OtherSlot)
      else
        var graph := Parsed(b[HEAD_LENGTH..]);
        if graph == Failed then Refused(NoGraph)
        else if SizeOf(graph) != |vectors| then Refused(OtherSize)
        else Opened(vectors, Number(b, 13, 1), KindAt(b, 14, legacy), Number(b, 33, 8), Number(b, 41, 1) != 0, graph)
  }

  /** The matrix at the beginning of a file, and what is behind it. */
  datatype Matrix = NoMatrix(why: Reason) | Matrix(vectors: seq<Bytes>, rest: Bytes)

  function MatrixIn(b: Bytes, wide: bool): Matrix {
    var w := DimensionBytes(wide);
    if |b| < 2 * w then NoMatrix(NoDimensions)
    else
      var rows, columns := Number(b, 0, w), Number(b, w, w);
      if |b| < 2 * w + rows * columns then NoMatrix(NoVectors)
      else Matrix(RowsIn(b, 2 * w, rows, columns), b[2 * w + rows * columns..])
  }

  /** What a file holds. */
  function Read(b: Bytes, f: Format): Opened {
    if f.exclude then ReadRest(b, [])
    else
      match MatrixIn(b, f.wide)
      case NoMatrix(why) => Refused(why)
      case Matrix(vectors, rest) => ReadRest(rest, vectors)
  }

  /** Pulls one vector after the other, until one is missing. */
  method LoadVectors(b: Bytes, start: nat, rows: nat, columns: nat) returns (done: bool, vectors: seq<Bytes>)
    requires start <= |b|
    ensures done <==> start + rows * columns <= |b|
    ensures done ==> vectors == RowsIn(b, start, rows, columns)
  {
    vectors := [];
    for u := 0 to rows
      invariant |vectors| == u && RowStart(start, u, columns) <= |b|
      invariant forall v :: 0 <= v < u ==> vectors[v] == Slice(b, RowStart(start, v, columns), columns)
    {
      RowStartNext(start, u, columns);
      if RowStart(start, u, columns) + columns > |b| {
        MoreRows(u + 1, rows, columns);
        return false, vectors;
      }
      vectors := vectors + [Slice(b, RowStart(start, u, columns), columns)];
    }
    done := true;
  }

  lemma RowStartNext(start: nat, u: nat, columns: nat)
    ensures RowStart(start, u + 1, columns) == RowStart(start, u, columns) + columns
  {
    assert (u + 1) * columns == u * columns + columns;
  }

  lemma MoreRows(u: nat, rows: nat, columns: nat)
    requires u <= rows
    ensures u * columns <= rows * columns
  {
    assert rows * columns - u * columns == (rows - u) * columns;
  }

  method LoadMatrix(b: Bytes, wide: bool) returns (m: Matrix)
    ensures m == MatrixIn(b, wide)
  {
    var w := DimensionBytes(wide);
    if |b| < 2 * w {
      return NoMatrix(NoDimensions);
    }
    var rows, columns := Number(b, 0, w), Number(b, w, w);
    var done, vectors := LoadVectors(b, 2 * w, rows, columns);
    if !done {
      return NoMatrix(NoVectors);
    }
    m := Matrix(vectors, b[2 * w + rows * columns..]);
  }

  method LoadFromStream(b: Bytes, f: Format) returns (r: Opened)
    ensures r == Read(b, f)
  {
    if f.exclude {
      r := LoadRest(b, []);
    } else {
      var m := LoadMatrix(b, f.wide);
      match m {
        case NoMatrix(why) => r := Refused(why);
        case Matrix(vectors, rest) => r := LoadRest(rest, vectors);
      }
    }
  }

  method LoadRest(b: Bytes, vectors: seq<Bytes>) returns (r: Opened)
    ensures r == ReadRest(b, vectors)
  {
    if |b| < HEAD_LENGTH {
      return Refused(NoHead);
    }
    if Number(b, 0, MAGIC_BYTES) != MAGIC {
      return Refused(NotAnIndex);
    }
    var legacy := Number(b, 7, 2) == 2 && Number(b, 9, 2) < 10;
    if Number(b, 7, 2) != MAJOR {
      return Refused(OtherVersion);
    }
    if KindAt(b, 15, legacy) != U64 {
      return Refused(OtherKey);
    }
    if KindAt(b, 16, legacy) != U32 {
      return Refused(OtherSlot);
    }
    var graph := Serialization.LoadFromStream(b[HEAD_LENGTH..]);
    if graph == Failed {
      return Refused(NoGraph);
    }
    r := if SizeOf(graph) != |vectors| then Refused(OtherSize)
         else Opened(vectors, Number(b, 13, 1), KindAt(b, 14, legacy), Number(b, 33, 8), Number(b, 41, 1) != 0, graph);
  }

  lemma {:induction false} PackedRead(parts: seq<(nat, nat)>, n: nat, k: nat, rest: Bytes)
    requires k < n <= |parts| && parts[k].0 < Power(parts[k].1)
    ensures Number(Packed(parts, n) + rest, Width(parts, k), parts[k].1) == parts[k].0
    decreases n
  {
    var front, last := Packed(parts, n - 1), LittleEndian(parts[n - 1].0, parts[n - 1].1);
    if k == n - 1 {
      SliceOfParts(front, last, rest);
      ValueLittleEndian(parts[k].0, parts[k].1);
    } else {
      assert front + last + rest == front + (last + rest);
      PackedRead(parts, n - 1, k, last + rest);
    }
  }

  /** The numbers of a head are read back from wherever it begins. */
  lemma HeadRead(d: Dense, rest: Bytes)
    requires ValidDense(d)
    ensures var b := HeadOf(d) + rest;
      && Number(b, 0, 7) == 0x68_6372_6165_7375 && Number(b, 7, 2) == 2 && Number(b, 9, 2) == 25 && Number(b, 11, 2) == 1
      && Number(b, 13, 1) == d.metric && Number(b, 14, 1) == d.scalar && Number(b, 15, 1) == 14 && Number(b, 16, 1) == 15
      && Number(b, 17, 8) == d.present && Number(b, 25, 8) == |d.vectors| - d.present
      && Number(b, 33, 8) == d.dimensions && Number(b, 41, 1) == if d.multi then 1 else 0
  {
    var parts := HeadParts(d);
    Powers();
    assert Power(7) == 0x100_0000_0000_0000 && Power(1) == 0x100;
    HeadWidths(d);
    PackedRead(parts, 13, 0, rest);
    PackedRead(parts, 13, 1, rest);
    PackedRead(parts, 13, 2, rest);
    PackedRead(parts, 13, 3, rest);
    PackedRead(parts, 13, 4, rest);
    PackedRead(parts, 13, 5, rest);
    PackedRead(parts, 13, 6, rest);
    PackedRead(parts, 13, 7, rest);
    PackedRead(parts, 13, 8, rest);
    PackedRead(parts, 13, 9, rest);
    PackedRead(parts, 13, 10, rest);
    PackedRead(parts, 13, 11, rest);
  }

  lemma HeadWidths(d: Dense)
    requires d.present <= |d.vectors|
    ensures var parts := HeadParts(d);
      && Width(parts, 0) == 0 && Width(parts, 1) == 7 && Width(parts, 2) == 9 && Width(parts, 3) == 11 && Width(parts, 4) == 13
      && Width(parts, 5) == 14 && Width(parts, 6) == 15 && Width(parts, 7) == 16 && Width(parts, 8) == 17 && Width(parts, 9) == 25
      && Width(parts, 10) == 33 && Width(parts, 11) == 41
  {
    var parts := HeadParts(d);
    assert Width(parts, 1) == Width(parts, 0) + 7 && Width(parts, 2) == Width(parts, 1) + 2;
    assert Width(parts, 3) == Width(parts, 2) + 2 && Width(parts, 4) == Width(parts, 3) + 2;
    assert Width(parts, 5) == Width(parts, 4) + 1 && Width(parts, 6) == Width(parts, 5) + 1;
    assert Width(parts, 7) == Width(parts, 6) + 1 && Width(parts, 8) == Width(parts, 7) + 1;
    assert Width(parts, 9) == Width(parts, 8) + 8 && Width(parts, 10) == Width(parts, 9) + 8;
    assert Width(parts, 11) == Width(parts, 10) + 8;
  }

  /** What a saved index is opened as, given the vectors read. */
  function OpenedAs(d: Dense, vectors: seq<Bytes>): Opened {
    Opened(vectors, d.metric, d.scalar, d.dimensions, d.multi, if d.graph.tapes == [] then Empty else Loaded(d.graph))
  }

  lemma RestRead(d: Dense, vectors: seq<Bytes>, rest: Bytes)
    requires ValidDense(d)
    ensures ReadRest(HeadOf(d) + (Serialized(d.graph) + rest), vectors) ==
            if |vectors| == |d.vectors| then OpenedAs(d, vectors) else Refused(OtherSize)
  {
    var tail := Serialized(d.graph) + rest;
    HeadLength(d);
    HeadRead(d, tail);
    assert (HeadOf(d) + tail)[HEAD_LENGTH..] == tail;
    ConfigurationComesBack(d.graph, rest);
  }

  /** The rows that have been written, with as many bytes as the written number of columns says. */
  function Shortened(vectors: seq<Bytes>, n: nat, columns: nat): (r: seq<Bytes>)
    requires n <= |vectors|
    ensures |r| == n && forall u :: 0 <= u < n ==> r[u] == Row(vectors[u], columns)
  {
    seq(n, u requires 0 <= u < n => Row(vectors[u], columns))
  }

  lemma {:induction false} RowRead(front: Bytes, vectors: seq<Bytes>, n: nat, u: nat, columns: nat, rest: Bytes)
    requires u < n <= |vectors| && forall v :: 0 <= v < |vectors| ==> |vectors[v]| >= columns
    ensures Slice(front + Rows(vectors, n, columns) + rest, RowStart(|front|, u, columns), columns) == Row(vectors[u], columns)
    decreases n
  {
    var before, last := Rows(vectors, n - 1, columns), Row(vectors[n - 1], columns);
    RowsLength(vectors, n - 1, columns);
    if u == n - 1 {
      assert front + (before + last) + rest == (front + before) + last + rest;
      SliceOfParts(front + before, last, rest);
    } else {
      assert front + (before + last) + rest == front + before + (last + rest);
      RowRead(front, vectors, n - 1, u, columns, last + rest);
    }
  }

  lemma {:induction false} DimensionsRead(rows: nat, columns: nat, w: nat, rest: Bytes)
    requires rows < Power(w) && columns < Power(w)
    ensures var b := LittleEndian(rows, w) + LittleEndian(columns, w) + rest; Number(b, 0, w) == rows && Number(b, w, w) == columns
  {
    TwoSlices(LittleEndian(rows, w), LittleEndian(columns, w), rest);
    ValueLittleEndian(rows, w);
    ValueLittleEndian(columns, w);
  }

  lemma TwoSlices(first: Bytes, second: Bytes, rest: Bytes)
    ensures Slice(first + second + rest, 0, |first|) == first
    ensures Slice(first + second + rest, |first|, |second|) == second
  {
  }

  /** A matrix is read back as it was written, and what is behind it is left for the head and the graph. */
  lemma MatrixRead(d: Dense, wide: bool, tail: Bytes)
    requires ValidDense(d)
    ensures Clipped(|d.vectors|, wide) <= |d.vectors|
    ensures MatrixIn(MatrixOf(d, wide) + tail, wide) ==
            Matrix(Shortened(d.vectors, Clipped(|d.vectors|, wide), Clipped(d.columns, wide)), tail)
  {
    var w, rows, columns := DimensionBytes(wide), Clipped(|d.vectors|, wide), Clipped(d.columns, wide);
    ClippedBelow(|d.vectors|, wide);
    ClippedBelow(d.columns, wide);
    var dimensions, matrix := LittleEndian(rows, w) + LittleEndian(columns, w), Rows(d.vectors, rows, columns);
    var b := MatrixOf(d, wide) + tail;
    assert b == dimensions + (matrix + tail);
    DimensionsRead(rows, columns, w, matrix + tail);
    RowsLength(d.vectors, rows, columns);
    RowsRead(dimensions, d.vectors, rows, columns, tail);
    assert b == dimensions + matrix + tail;
    assert |dimensions + matrix| == 2 * w + rows * columns;
    assert (dimensions + matrix + tail)[|dimensions + matrix|..] == tail;
  }

  lemma RowsRead(front: Bytes, vectors: seq<Bytes>, rows: nat, columns: nat, rest: Bytes)
    requires rows <= |vectors| && forall v :: 0 <= v < |vectors| ==> |vectors[v]| >= columns
    ensures RowsIn(front + Rows(vectors, rows, columns) + rest, |front|, rows, columns) == Shortened(vectors, rows, columns)
  {
    forall u: nat | u < rows
      ensures Slice(front + Rows(vectors, rows, columns) + rest, RowStart(|front|, u, columns), columns) == Row(vectors[u], columns)
    {
      RowRead(front, vectors, rows, u, columns, rest);
    }
  }

  /** What a saved index is read as. */
  function ReadAs(d: Dense, f: Format): Opened {
    ClippedBelow(|d.vectors|, f.wide);
    var vectors := if f.exclude then [] else Shortened(d.vectors, Clipped(|d.vectors|, f.wide), Clipped(d.columns, f.wide));
    if |vectors| == |d.vectors| then OpenedAs(d, vectors) else Refused(OtherSize)
  }

  lemma WrittenThenRead(d: Dense, f: Format, rest: Bytes)
    requires ValidDense(d)
    ensures Read(Written(d, f) + rest, f) == ReadAs(d, f)
  {
    var tail := HeadOf(d) + (Serialized(d.graph) + rest);
    if f.exclude {
      assert Written(d, f) + rest == tail;
      RestRead(d, [], rest);
    } else {
      ClippedBelow(|d.vectors|, f.wide);
      assert Written(d, f) + rest == MatrixOf(d, f.wide) + tail;
      MatrixRead(d, f.wide, tail);
      RestRead(d, Shortened(d.vectors, Clipped(|d.vectors|, f.wide), Clipped(d.columns, f.wide)), rest);
    }
  }

  /** A dense index comes back from its file, vectors and all, exactly if it has no nodes, or the vectors are in the file
      and the dimensions fit the width they are written with. */
  lemma ComesBack(d: Dense, f: Format, rest: Bytes)
    requires ValidDense(d)
    ensures Read(Written(d, f) + rest, f) == OpenedAs(d, d.vectors) <==> d.vectors == [] || (!f.exclude && Lossless(d, f.wide))
  {
    WrittenThenRead(d, f, rest);
    ClippedBelow(|d.vectors|, f.wide);
    ClippedBelow(d.columns, f.wide);
    if !f.exclude && Clipped(|d.vectors|, f.wide) == |d.vectors| {
      ShortenedSame(d.vectors, d.columns, Clipped(d.columns, f.wide));
    }
  }

  lemma ShortenedSame(vectors: seq<Bytes>, columns: nat, fewer: nat)
    requires fewer <= columns && forall u :: 0 <= u < |vectors| ==> |vectors[u]| == columns
    ensures Shortened(vectors, |vectors|, fewer) == vectors <==> vectors == [] || fewer == columns
  {
    var r := Shortened(vectors, |vectors|, fewer);
    if fewer == columns {
      assert forall u :: 0 <= u < |vectors| ==> r[u] == vectors[u];
    } else if vectors != [] {
      assert |r[0]| == fewer;
    }
  }

  /** A file without the vectors, or with more of them than can be counted in the width of the dimensions, is refused. */
  lemma RefusedForSize(d: Dense, f: Format, rest: Bytes)
    requires ValidDense(d)
    ensures Read(Written(d, f) + rest, f).Refused? <==>
            d.vectors != [] && (f.exclude || |d.vectors| >= Power(DimensionBytes(f.wide)))
    ensures Read(Written(d, f) + rest, f).Refused? ==> Read(Written(d, f) + rest, f).why == OtherSize
  {
    WrittenThenRead(d, f, rest);
    ClippedBelow(|d.vectors|, f.wide);
  }

  /** A file that has been cut off anywhere is refused. */
  lemma {:induction false} CutOffDense(d: Dense, f: Format, length: nat)
    requires ValidDense(d) && length < |Written(d, f)|
    ensures Read(Written(d, f)[..length], f).Refused?
  {
    if f.exclude {
      CutOffRest(d, length);
    } else {
      CutOffWhole(d, f.wide, length);
    }
  }

  lemma {:induction false} CutOffWhole(d: Dense, wide: bool, length: nat)
    requires ValidDense(d) && length < |MatrixOf(d, wide) + (HeadOf(d) + Serialized(d.graph))|
    ensures Read((MatrixOf(d, wide) + (HeadOf(d) + Serialized(d.graph)))[..length], Format(false, wide)).Refused?
  {
    var f := Format(false, wide);
    forall n: nat | n < |MatrixOf(d, wide)|
      ensures Read(MatrixOf(d, wide)[..n], f).Refused?
    {
      CutOffMatrix(d, wide, n);
    }
    forall n: nat | n < |HeadOf(d) + Serialized(d.graph)|
      ensures Read(MatrixOf(d, wide) + (HeadOf(d) + Serialized(d.graph))[..n], f).Refused?
    {
      CutOffAfter(d, wide, n);
    }
    CutAnywhere(MatrixOf(d, wide), HeadOf(d) + Serialized(d.graph), length, f);
  }

  lemma CutAnywhere(a: Bytes, b: Bytes, length: nat, f: Format)
    requires length < |a + b|
    requires forall n: nat :: n < |a| ==> Read(a[..n], f).Refused?
    requires forall n: nat :: n < |b| ==> Read(a + b[..n], f).Refused?
    ensures Read((a + b)[..length], f).Refused?
  {
    if length < |a| {
      assert (a + b)[..length] == a[..length];
    } else {
      assert (a + b)[..length] == a + b[..length - |a|];
    }
  }

  lemma {:induction false} CutOffAfter(d: Dense, wide: bool, length: nat)
    requires ValidDense(d) && length < |HeadOf(d) + Serialized(d.graph)|
    ensures Read(MatrixOf(d, wide) + (HeadOf(d) + Serialized(d.graph))[..length], Format(false, wide)).Refused?
  {
    CutOffRest(d, length);
    MatrixRead(d, wide, (HeadOf(d) + Serialized(d.graph))[..length]);
  }

  lemma CutOffMatrix(d: Dense, wide: bool, length: nat)
    requires ValidDense(d) && length < |MatrixOf(d, wide)|
    ensures MatrixIn(MatrixOf(d, wide)[..length], wide).NoMatrix?
  {
    var w, rows, columns := DimensionBytes(wide), Clipped(|d.vectors|, wide), Clipped(d.columns, wide);
    ClippedBelow(|d.vectors|, wide);
    ClippedBelow(d.columns, wide);
    MatrixLength(d, wide);
    if length >= 2 * w {
      var kept := Rows(d.vectors, rows, columns)[..length - 2 * w];
      assert MatrixOf(d, wide)[..length] == LittleEndian(rows, w) + LittleEndian(columns, w) + kept;
      DimensionsRead(rows, columns, w, kept);
    }
  }

  lemma CutOffRest(d: Dense, length: nat)
    requires ValidDense(d) && length < |HeadOf(d) + Serialized(d.graph)|
    ensures forall vectors :: ReadRest((HeadOf(d) + Serialized(d.graph))[..length], vectors).Refused?
  {
    HeadLength(d);
    if length >= HEAD_LENGTH {
      var kept := Serialized(d.graph)[..length - HEAD_LENGTH];
      var b := (HeadOf(d) + Serialized(d.graph))[..length];
      assert b == HeadOf(d) + kept && b[HEAD_LENGTH..] == kept;
      HeadRead(d, kept);
      if d.graph.tapes != [] {
        CutOffRefused(d.graph, length - HEAD_LENGTH);
      } else {
        assert |Serialized(d.graph)| == HEADER_BYTES;
      }
    }
  }
}
