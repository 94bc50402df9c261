/** Opening the file of a dense index, down to its lookup and its free slots. */
module DenseLoading {
  import opened Tapes
  import opened Serialization
  import opened DenseFile
  import opened ProbeTables
  import opened DenseSlots
  import opened DenseIndices

  /** The keys of the nodes of a graph that has been read. */
  function KeysIn(graph: Loaded): (keys: seq<nat>)
    ensures |keys| == SizeOf(graph)
    ensures forall u :: 0 <= u < |keys| ==> keys[u] == KeyOf(graph.image.tapes[u])
  {
    seq(SizeOf(graph), u requires 0 <= u < SizeOf(graph) => KeyOf(graph.image.tapes[u]))
  }

  /** Reads a file and takes over what it holds. Where keys must not repeat, that they do not is not looked at. */
  method Open(b: Bytes, f: Format, hash: nat -> nat) returns (r: Opened, index: DenseIndex)
    ensures r == Read(b, f)
    ensures r.Opened? ==>
      && index.multi == r.multi && index.keys == KeysIn(r.graph) && index.vectors[..] == r.vectors
      && FreeSlots(index.keys, index.free.contents) && LookedUp(index.keys, index.lookup.contents)
      && (index.Valid() <==> r.multi || UniqueKeys(KeysIn(r.graph)))
  {
    r := DenseFile.LoadFromStream(b, f);
    if r.Opened? {
      OpenedSize(b, f);
      index := FromFile(r.multi, hash, KeysIn(r.graph), r.vectors);
    } else {
      index := new DenseIndex(false, hash);
    }
  }

  lemma OpenedSize(b: Bytes, f: Format)
    ensures Read(b, f).Opened? ==> SizeOf(Read(b, f).graph) == |Read(b, f).vectors|
  {
  }

  /** A dense index saved and opened again, with anything behind it in the file: the same keys, the same vectors by key,
      the same lookup and the same free slots, if it has no nodes, or its vectors are in the file and the dimensions fit. */
  method SaveAndOpen(d: Dense, f: Format, rest: Bytes, hash: nat -> nat, ghost ring: seq<nat>, ghost entries: multiset<Entry>)
    returns (index: DenseIndex)
    requires ValidDense(d) && (d.vectors == [] || (!f.exclude && Lossless(d, f.wide)))
    requires Consistent(KeysIn(Loaded(d.graph)), ring, entries, d.multi)
    ensures index.Valid() && index.keys == KeysIn(Loaded(d.graph)) && index.multi == d.multi
    ensures index.lookup.contents == entries
    ensures forall slot :: slot in index.free.contents <==> slot in ring
    ensures index.StoredVectors() == Stored(KeysIn(Loaded(d.graph)), d.vectors)
  {
    var file := DenseFile.SaveToStream(d, f);
    SavedKeys(d, f, rest);
    var r;
    r, index := Open(file + rest, f, hash);
    SameBookkeeping(KeysIn(Loaded(d.graph)), ring, entries, index.free.contents, index.lookup.contents);
  }

  lemma SavedKeys(d: Dense, f: Format, rest: Bytes)
    requires ValidDense(d) && (d.vectors == [] || (!f.exclude && Lossless(d, f.wide)))
    ensures var r := Read(Written(d, f) + rest, f);
      r.Opened? && r.vectors == d.vectors && r.multi == d.multi && KeysIn(r.graph) == KeysIn(Loaded(d.graph))
  {
    ComesBack(d, f, rest);
  }

  lemma SameBookkeeping(keys: seq<nat>, ring: seq<nat>, entries: multiset<Entry>, ring2: seq<nat>, entries2: multiset<Entry>)
    requires FreeSlots(keys, ring) && LookedUp(keys, entries) && FreeSlots(keys, ring2) && LookedUp(keys, entries2)
    ensures entries == entries2 && forall slot :: slot in ring <==> slot in ring2
  {
    ConsistentUnique(keys, ring, entries, ring2, entries2);
  }
}
