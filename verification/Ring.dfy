/** The ring buffer behind the queues of free slots and of unmatched men. */
module Rings {
  import opened Numbers
  import opened Probing

  class Ring<T(0)> {
    /** The queued elements, the next one to leave first. */
    ghost var contents: seq<T>

    var elements: array<T>
    var head: nat
    var tail: nat
    var empty: bool

    ghost predicate Valid()
      reads this, elements
    {
      && (elements.Length == 0 ==> head == tail == 0 && empty)
      && (elements.Length > 0 ==> head < elements.Length && tail < elements.Length)
      && (empty ==> head == tail)
      && contents == if empty then []
                     else if head > tail then elements[tail..head]
                     else elements[tail..] + elements[..head]
    }

    constructor ()
      ensures Valid() && fresh(elements) && contents == []
    {
      elements := new T[0];
      head, tail, empty := 0, 0, true;
      contents := [];
    }

    function Size(): (n: nat)
      reads this, elements
      requires Valid()
      ensures n == |contents|
    {
      if empty then 0 else if head > tail then head - tail else elements.Length - (tail - head)
    }

    method Clear()
      requires Valid()
      modifies this
      ensures Valid() && contents == [] && elements == old(elements)
    {
      head, tail, empty := 0, 0, true;
      contents := [];
    }

    method Push(value: T)
      requires Valid() && |contents| < elements.Length
      modifies this, elements
      ensures Valid() && contents == old(contents) + [value] && elements == old(elements)
    {
      elements[head] := value;
      head := Wrap(head, 1, elements.Length);
      empty := false;
      contents := contents + [value];
    }

    /** Takes the oldest element, or answers `false` when there is none. */
    method TryPop() returns (popped: bool, value: T)
      requires Valid()
      modifies this
      ensures Valid() && elements == old(elements)
      ensures popped == (old(contents) != [])
      ensures popped ==> value == old(contents)[0] && contents == old(contents)[1..]
      ensures !popped ==> contents == []
    {
      if empty {
        value := *;
        return false, value;
      }
      value := elements[tail];
      tail := Wrap(tail, 1, elements.Length);
      empty := head == tail;
      contents := contents[1..];
      popped := true;
    }

    /** Pops everything into the front of `grown` and answers how much there was. */
    method DrainInto(grown: array<T>) returns (i: nat)
      requires Valid() && |contents| < grown.Length && grown != elements
      modifies this, grown
      ensures Valid() && contents == [] && elements == old(elements)
      ensures i == |old(contents)| && grown[..i] == old(contents)
    {
      ghost var all := contents;
      i := 0;
      var popped, value := TryPop();
      while popped
        invariant Valid() && elements == old(elements)
        invariant 0 <= i <= |all| && grown[..i] == all[..i]
        invariant popped ==> i < |all| && value == all[i] && contents == all[i + 1..]
        invariant !popped ==> i == |all| && contents == []
        decreases |all| - i
      {
        grown[i] := value;
        assert grown[..i + 1] == grown[..i] + [value] && all[..i + 1] == all[..i] + [value];
        i := i + 1;
        popped, value := TryPop();
      }
    }

    /** Grows to hold `n` elements; asking for less room than is in use is refused. */
    method Reserve(n: nat) returns (done: bool)
      requires Valid()
      modifies this
      ensures Valid() && contents == old(contents)
      ensures done == (n >= |contents|) && (done ==> n <= elements.Length)
      ensures elements == old(elements) || fresh(elements)
      ensures old(elements.Length) <= elements.Length
    {
      if n < Size() {
        return false;
      }
      if n <= elements.Length {
        return true;
      }
      var larger := Max(Ceil2(n), 64);
      var grown := new T[larger];
      ghost var all := contents;
      var i := DrainInto(grown);
      elements, head, tail, empty := grown, i, 0, i == 0;
      contents := all;
      done := true;
    }
  }
}
