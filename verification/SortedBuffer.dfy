/** The bounded candidate list that always keeps its elements in ascending order. */
module SortedBuffers {
  import opened Candidates
  import opened Numbers

  class SortedBuffer {
    /** The candidates held, closest first. */
    ghost var contents: seq<Candidate>

    var elements: array<Candidate>
    var size: nat

    ghost predicate Valid()
      reads this, elements
    {
      size <= elements.Length && contents == elements[..size] && Sorted(contents)
    }

    constructor ()
      ensures Valid() && fresh(elements) && contents == []
    {
      elements := new Candidate[0];
      size := 0;
      contents := [];
    }

    /** The farthest candidate; it exists only in a buffer that is not empty. */
    method Top() returns (c: Candidate)
      requires Valid() && contents != []
      ensures c == Last(contents)
    {
      c := elements[size - 1];
    }

    method Clear()
      requires Valid()
      modifies this
      ensures Valid() && contents == [] && elements == old(elements)
    {
      size := 0;
      contents := [];
    }

    method Shrink(n: nat)
      requires Valid()
      modifies this
      ensures Valid() && contents == Take(old(contents), n) && elements == old(elements)
    {
      size := Min(n, size);
      contents := Take(contents, n);
    }

    /** Makes room for `capacity` candidates and keeps the ones it has. */
    method Reserve(capacity: nat)
      requires Valid()
      modifies this
      ensures Valid() && contents == old(contents)
      ensures capacity <= elements.Length && old(elements.Length) <= elements.Length
      ensures elements == old(elements) || fresh(elements)
    {
      if capacity <= elements.Length {
        return;
      }
      var larger := Max(Ceil2(capacity), Max(elements.Length * 2, 16));
      var moved := new Candidate[larger];
      for i := 0 to size
        modifies moved
        invariant moved[..i] == contents[..i]
      {
        moved[i] := elements[i];
      }
      elements := moved;
    }

    /** `std::lower_bound` over the elements in use. */
    method FindSlot(x: Candidate) returns (k: nat)
      requires Valid()
      ensures k == LowerBound(contents, x)
    {
      var lo, hi := 0, size;
      while lo < hi
        invariant lo <= hi <= size
        invariant forall i :: 0 <= i < lo ==> contents[i].distance < x.distance
        invariant forall i :: hi <= i < size ==> x.distance <= contents[i].distance
      {
        var mid := (lo + hi) / 2;
        if elements[mid].distance < x.distance {
          assert forall i :: 0 <= i <= mid ==> contents[i].distance <= contents[mid].distance;
          lo := mid + 1;
        } else {
          assert forall i :: mid <= i < size ==> contents[mid].distance <= contents[i].distance;
          hi := mid;
        }
      }
      k := lo;
      LowerBoundUnique(contents, x, k);
    }

    /** Moves the `count` elements from `slot` on one place to the right. */
    method ShiftRight(slot: nat, count: nat)
      requires slot + count < elements.Length
      modifies elements
      ensures forall i :: 0 <= i < slot ==> elements[i] == old(elements[i])
      ensures forall i :: slot < i <= slot + count ==> elements[i] == old(elements[i - 1])
      ensures forall i :: slot + count < i < elements.Length ==> elements[i] == old(elements[i])
    {
      var toMove := count;
      while toMove > 0
        invariant 0 <= toMove <= count
        invariant forall i :: 0 <= i < slot + toMove ==> elements[i] == old(elements[i])
        invariant forall i :: slot + toMove < i <= slot + count ==> elements[i] == old(elements[i - 1])
        invariant forall i :: slot + count < i < elements.Length ==> elements[i] == old(elements[i])
        invariant toMove == count ==> elements[slot + count] == old(elements[slot + count])
      {
        elements[slot + toMove] := elements[slot + toMove - 1];
        toMove := toMove - 1;
      }
    }

    method InsertReserved(x: Candidate)
      requires Valid() && size < elements.Length
      modifies this, elements
      ensures Valid() && contents == Inserted(old(contents), x) && elements == old(elements)
    {
      var slot := FindSlot(x);
      TakeInserted(contents, x, size + 1);
      ghost var after := Take(Inserted(contents, x), size + 1);
      ShiftRight(slot, size - slot);
      elements[slot] := x;
      size := size + 1;
      contents := after;
      assert elements[..size] == after;
    }

    /** Adds `x` unless `limit` candidates are closer, dropping the farthest if there are too many. */
    method Insert(x: Candidate, limit: nat) returns (added: bool)
      requires Valid() && size <= limit <= elements.Length
      modifies this, elements
      ensures Valid() && contents == Take(Inserted(old(contents), x), limit) && elements == old(elements)
      ensures added <==> LowerBound(old(contents), x) < limit
    {
      var slot := FindSlot(x);
      TakeInserted(contents, x, limit);
      ghost var before, after := contents, Take(Inserted(contents, x), limit);
      if slot == limit {
        assert contents == after;
        return false;
      }
      var last := if size == limit then size - 1 else size;
      ShiftRight(slot, last - slot);
      elements[slot] := x;
      size := last + 1;
      contents := after;
      assert elements[..size] == after;
      return true;
    }
  }
}
