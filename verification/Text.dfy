/** The order of strings by which the program sorts names. */
module Texts {

  /** Lexicographic order, character by character. */
  predicate Below(a: string, b: string) {
    if b == "" then false
    else if a == "" then true
    else a[0] < b[0] || (a[0] == b[0] && Below(a[1..], b[1..]))
  }

  /** The two agree up to some place, where the first ends or has the smaller character. */
  ghost predicate FirstDifference(a: string, b: string, k: nat) {
    k <= |a| && k < |b| && a[..k] == b[..k] && (k == |a| || a[k] < b[k])
  }

  /** That is: one is below another exactly if it is the beginning of it, or has the smaller character where they differ. */
  lemma {:induction false} BelowMeans(a: string, b: string)
    ensures Below(a, b) <==> exists k: nat :: FirstDifference(a, b, k)
  {
    if a != "" && b != "" {
      BelowMeans(a[1..], b[1..]);
      if a[0] < b[0] {
        assert FirstDifference(a, b, 0);
      } else if a[0] == b[0] {
        DifferenceShifted(a, b);
      } else {
        forall k: nat
          ensures !FirstDifference(a, b, k)
        {
          assert k > 0 && k <= |a| && k < |b| ==> a[..k][0] == a[0] && b[..k][0] == b[0];
        }
      }
    } else if b != "" {
      assert FirstDifference(a, b, 0);
    }
  }

  lemma DifferenceShifted(a: string, b: string)
    requires a != "" && b != "" && a[0] == b[0]
    ensures (exists k: nat :: FirstDifference(a[1..], b[1..], k)) <==> exists k: nat :: FirstDifference(a, b, k)
  {
    if k: nat :| FirstDifference(a[1..], b[1..], k) {
      assert a[..k + 1] == [a[0]] + a[1..][..k] && b[..k + 1] == [b[0]] + b[1..][..k];
      assert FirstDifference(a, b, k + 1);
    }
    if k: nat :| FirstDifference(a, b, k) {
      assert a[1..][..k - 1] == a[..k][1..] && b[1..][..k - 1] == b[..k][1..];
      assert FirstDifference(a[1..], b[1..], k - 1);
    }
  }

  lemma {:induction false} BelowTrans(a: string, b: string, c: string)
    requires Below(a, b) && Below(b, c)
    ensures Below(a, c)
    decreases |a| + |b| + |c|
  {
    if a != "" && a[0] == b[0] && b[0] == c[0] {
      BelowTrans(a[1..], b[1..], c[1..]);
    }
  }

  lemma {:induction false} BelowIrreflexive(a: string)
    ensures !Below(a, a)
  {
    if a != "" {
      BelowIrreflexive(a[1..]);
    }
  }

  lemma {:induction false} BelowTotal(a: string, b: string)
    ensures Below(a, b) || a == b || Below(b, a)
    ensures !(Below(a, b) && Below(b, a))
  {
    if a != "" && b != "" {
      BelowTotal(a[1..], b[1..]);
      assert a == [a[0]] + a[1..] && b == [b[0]] + b[1..];
    }
  }

  ghost predicate InOrder(s: seq<string>) {
    forall i, j :: 0 <= i < j < |s| ==> Below(s[i], s[j])
  }

  ghost function NamesIn(s: seq<string>): set<string> {
    set x | x in s
  }

  lemma NoNames(s: seq<string>)
    ensures NamesIn(s) == {} <==> s == []
  {
    if s != [] {
      assert s[0] in NamesIn(s);
    }
  }

  /** A set of names has one list in order. */
  lemma {:induction false} InOrderUnique(a: seq<string>, b: seq<string>)
    requires InOrder(a) && InOrder(b) && NamesIn(a) == NamesIn(b)
    ensures a == b
  {
    assert forall x :: x in a <==> x in NamesIn(a);
    assert forall x :: x in b <==> x in NamesIn(b);
    NoNames(a);
    NoNames(b);
    if a != [] {
      assert a[0] in b && b[0] in a;
      BelowTotal(a[0], b[0]);
      assert a[0] == b[0];
      BelowIrreflexive(a[0]);
      assert NamesIn(a[1..]) == NamesIn(a) - {a[0]};
      assert NamesIn(b[1..]) == NamesIn(b) - {b[0]};
      InOrderUnique(a[1..], b[1..]);
    }
  }

  /** Puts a name where it belongs among ones in order. */
  method InsertName(names: seq<string>, x: string) returns (after: seq<string>)
    requires InOrder(names) && x !in names
    ensures InOrder(after) && NamesIn(after) == NamesIn(names) + {x}
  {
    var k := 0;
    while k < |names| && Below(names[k], x)
      invariant k <= |names| && forall i :: 0 <= i < k ==> Below(names[i], x)
    {
      k := k + 1;
    }
    after := names[..k] + [x] + names[k..];
    forall i | k <= i < |names|
      ensures Below(x, names[i])
    {
      assert names[k] in names;
      BelowTotal(names[k], x);
      if i > k {
        BelowTrans(x, names[k], names[i]);
      }
    }
    assert names == names[..k] + names[k..];
  }

  /** Sorts distinct names. */
  method SortNames(names: seq<string>) returns (sorted: seq<string>)
    requires forall i, j :: 0 <= i < j < |names| ==> names[i] != names[j]
    ensures InOrder(sorted) && NamesIn(sorted) == NamesIn(names)
  {
    sorted := [];
    for i := 0 to |names|
      invariant InOrder(sorted) && NamesIn(sorted) == NamesIn(names[..i])
    {
      assert names[i] !in NamesIn(names[..i]);
      assert NamesIn(names[..i + 1]) == NamesIn(names[..i]) + {names[i]};
      assert names[i] !in sorted by {
        assert names[i] in sorted <==> names[i] in NamesIn(sorted);
      }
      sorted := InsertName(sorted, names[i]);
    }
    assert names[..|names|] == names;
  }
}
