/** The binary max-heap of candidates that drives every graph traversal. */
module MaxHeaps {
  import opened Candidates
  import opened Numbers

  function Parent(i: nat): nat
    requires i > 0
  {
    (i - 1) / 2
  }

  /** Every element of `s` but the one at `hole` is no larger than its parent. */
  ghost predicate HeapExceptUp(s: seq<Candidate>, hole: nat) {
    && (forall i {:trigger Parent(i)} :: 0 < i < |s| && i != hole ==> s[i].distance <= s[Parent(i)].distance)
    && (forall i {:trigger Parent(i)} :: 0 < i < |s| && hole > 0 && Parent(i) == hole ==> s[i].distance <= s[Parent(hole)].distance)
  }

  /** Every element of `s` whose parent is not `hole` is no larger than its parent. */
  ghost predicate HeapExceptDown(s: seq<Candidate>, hole: nat) {
    && (forall i {:trigger Parent(i)} :: 0 < i < |s| && Parent(i) != hole ==> s[i].distance <= s[Parent(i)].distance)
    && (forall i {:trigger Parent(i)} :: 0 < i < |s| && hole > 0 && Parent(i) == hole ==> s[i].distance <= s[Parent(hole)].distance)
  }

  ghost predicate HeapOrdered(s: seq<Candidate>) {
    forall i {:trigger Parent(i)} :: 0 < i < |s| ==> s[i].distance <= s[Parent(i)].distance
  }

  lemma {:induction false} RootIsLargest(s: seq<Candidate>, i: nat)
    requires HeapOrdered(s) && i < |s|
    ensures s[i].distance <= s[0].distance
  {
    if i > 0 {
      RootIsLargest(s, Parent(i));
    }
  }

  function Swapped(s: seq<Candidate>, i: nat, j: nat): (r: seq<Candidate>)
    requires i < |s| && j < |s|
    ensures |r| == |s|
  {
    s[i := s[j]][j := s[i]]
  }

  lemma SwappedMultiset(s: seq<Candidate>, i: nat, j: nat)
    requires i < |s| && j < |s|
    ensures multiset(Swapped(s, i, j)) == multiset(s)
  {
    assert s[i := s[j]][j := s[i]] == Swapped(s, i, j);
  }

  lemma SiftUpStep(s: seq<Candidate>, i: nat)
    requires 0 < i < |s| && HeapExceptUp(s, i)
    requires s[Parent(i)].distance < s[i].distance
    ensures HeapExceptUp(Swapped(s, Parent(i), i), Parent(i))
  {
    var p := Parent(i);
    var r := Swapped(s, p, i);
    forall k | 0 < k < |r| && k != p
      ensures r[k].distance <= r[Parent(k)].distance
    {
    }
    forall k | 0 < k < |r| && p > 0 && Parent(k) == p
      ensures r[k].distance <= r[Parent(p)].distance
    {
      assert s[p].distance <= s[Parent(p)].distance;
    }
  }

  lemma SiftDownStep(s: seq<Candidate>, i: nat, c: nat)
    requires i < c < |s| && Parent(c) == i && HeapExceptDown(s, i)
    requires s[i].distance < s[c].distance
    requires forall k :: 0 < k < |s| && Parent(k) == i ==> s[k].distance <= s[c].distance
    ensures HeapExceptDown(Swapped(s, i, c), c)
  {
    var r := Swapped(s, i, c);
    forall k | 0 < k < |r| && Parent(k) != c
      ensures r[k].distance <= r[Parent(k)].distance
    {
    }
  }

  /** `s` with its last element at the root instead of the old root. */
  ghost function RootReplaced(s: seq<Candidate>): (r: seq<Candidate>)
    requires s != []
    ensures |r| == |s| - 1
  {
    if |s| == 1 then [] else [s[|s| - 1]] + s[1..|s| - 1]
  }

  /** Moving the last element to the root leaves a heap but for the root, without the old root. */
  lemma PopStep(s: seq<Candidate>)
    requires HeapOrdered(s) && s != []
    ensures HeapExceptDown(RootReplaced(s), 0)
    ensures multiset(RootReplaced(s)) == multiset(s) - multiset{s[0]}
  {
    if |s| > 1 {
      assert s == [s[0]] + s[1..|s| - 1] + [s[|s| - 1]];
    } else {
      assert s == [s[0]];
    }
  }

  class MaxHeap {
    /** The candidates held, with their multiplicities. */
    ghost var contents: multiset<Candidate>

    var elements: array<Candidate>
    var size: nat

    ghost predicate Valid()
      reads this, elements
    {
      size <= elements.Length && HeapOrdered(elements[..size]) && contents == multiset(elements[..size])
    }

    constructor ()
      ensures Valid() && fresh(elements) && contents == multiset{}
    {
      elements := new Candidate[0];
      size := 0;
      contents := multiset{};
    }

    predicate Empty()
      reads this
    {
      size == 0
    }

    lemma EmptyContents()
      requires Valid()
      ensures Empty() <==> contents == multiset{}
    {
      assert size > 0 ==> elements[0] in contents;
    }

    method Top() returns (c: Candidate)
      requires Valid() && !Empty()
      ensures c == elements[0]
      ensures c in contents && forall e :: e in contents ==> e.distance <= c.distance
    {
      c := elements[0];
      ghost var s := elements[..size];
      assert s[0] in s;
      forall e | e in s
        ensures e.distance <= c.distance
      {
        var i :| 0 <= i < |s| && s[i] == e;
        RootIsLargest(s, i);
      }
    }

    method Clear()
      requires Valid()
      modifies this
      ensures Valid() && contents == multiset{} && elements == old(elements)
    {
      size := 0;
      contents := multiset{};
    }

    method Reserve(capacity: nat)
      requires Valid()
      modifies this
      ensures Valid() && contents == old(contents) && size == old(size)
      ensures capacity <= elements.Length && old(elements.Length) <= elements.Length
      ensures elements == old(elements) || fresh(elements)
    {
      if capacity <= elements.Length {
        return;
      }
      var larger := Max(Ceil2(capacity), Max(elements.Length * 2, 16));
      var moved := new Candidate[larger];
      for i := 0 to size
        modifies moved
        invariant moved[..i] == elements[..i]
      {
        moved[i] := elements[i];
      }
      elements := moved;
    }

    method Swap(i: nat, j: nat)
      requires i < size <= elements.Length && j < size
      modifies elements
      ensures elements[..size] == Swapped(old(elements[..size]), i, j)
      ensures multiset(elements[..size]) == old(multiset(elements[..size]))
    {
      SwappedMultiset(elements[..size], i, j);
      elements[i], elements[j] := elements[j], elements[i];
      assert elements[..size] == Swapped(old(elements[..size]), i, j);
    }

    method ShiftUp(start: nat)
      requires start < size <= elements.Length && HeapExceptUp(elements[..size], start)
      requires contents == multiset(elements[..size])
      modifies elements
      ensures Valid()
    {
      var i := start;
      while i > 0 && elements[Parent(i)].distance < elements[i].distance
        invariant 0 <= i < size
        invariant HeapExceptUp(elements[..size], i)
        invariant contents == multiset(elements[..size])
      {
        SiftUpStep(elements[..size], i);
        Swap(Parent(i), i);
        i := Parent(i);
      }
    }

    method ShiftDown(i: nat)
      requires size <= elements.Length && (i < size || size == 0) && HeapExceptDown(elements[..size], i)
      requires contents == multiset(elements[..size])
      modifies elements
      ensures Valid()
      decreases size - i
    {
      if size == 0 {
        return;
      }
      ghost var s := elements[..size];
      var maxIdx := i;
      var left := 2 * i + 1;
      if left < size && elements[maxIdx].distance < elements[left].distance {
        maxIdx := left;
      }
      var right := 2 * i + 2;
      if right < size && elements[maxIdx].distance < elements[right].distance {
        maxIdx := right;
      }
      assert forall k :: 0 < k < |s| && Parent(k) == i ==> k == left || k == right;
      if i != maxIdx {
        SiftDownStep(s, i, maxIdx);
        Swap(i, maxIdx);
        ShiftDown(maxIdx);
      }
    }

    method InsertReserved(x: Candidate)
      requires Valid() && size < elements.Length
      modifies this, elements
      ensures Valid() && contents == old(contents) + multiset{x} && elements == old(elements)
    {
      ghost var before := elements[..size];
      elements[size] := x;
      size := size + 1;
      assert elements[..size] == before + [x];
      contents := contents + multiset{x};
      ShiftUp(size - 1);
    }

    method Insert(x: Candidate)
      requires Valid()
      modifies this, elements
      ensures Valid() && contents == old(contents) + multiset{x}
      ensures elements == old(elements) || fresh(elements)
    {
      Reserve(size + 1);
      InsertReserved(x);
    }

    /** Overwrites the root with the last element and forgets the old root. */
    method DropRoot()
      requires 0 < size <= elements.Length
      modifies this`size, elements
      ensures size == old(size) - 1
      ensures elements[..size] == RootReplaced(old(elements[..size]))
    {
      elements[0], elements[size - 1] := elements[size - 1], elements[0];
      size := size - 1;
    }

    /** Removes and returns the candidate `Top` returns. */
    method Pop() returns (c: Candidate)
      requires Valid() && !Empty()
      modifies this, elements
      ensures Valid() && elements == old(elements)
      ensures old(contents) == contents + multiset{c}
      ensures forall e :: e in old(contents) ==> e.distance <= c.distance
    {
      c := Top();
      PopStep(elements[..size]);
      DropRoot();
      contents := contents - multiset{c};
      ShiftDown(0);
    }
  }
}
