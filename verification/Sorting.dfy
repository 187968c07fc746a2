/** The sort the printers and the directory scan call: in place, by a string key, ties in any order. */
module Sorting {
  import opened Text
  import opened Sequences

  predicate SortedBy<T>(key: T -> string, s: seq<T>) {
    forall i, j :: 0 <= i < j < |s| ==> AtMost(key(s[i]), key(s[j]))
  }

  method Swap<T>(a: array<T>, i: nat, j: nat)
    requires i < a.Length && j < a.Length
    modifies a
    ensures a[..] == old(a[..])[i := old(a[j])][j := old(a[i])]
    ensures multiset(a[..]) == multiset(old(a[..]))
  {
    a[i], a[j] := a[j], a[i];
  }

  /** Everything up to i is in order, except that the element at j may belong further left. */
  ghost predicate SortedBut<T>(key: T -> string, s: seq<T>, i: nat, j: nat) {
    && j <= i < |s|
    && (forall p, q :: 0 <= p < q <= i && q != j ==> AtMost(key(s[p]), key(s[q])))
  }

  lemma MoveLeft<T>(key: T -> string, s: seq<T>, i: nat, j: nat)
    requires SortedBut(key, s, i, j) && 0 < j && Less(key(s[j]), key(s[j - 1]))
    ensures SortedBut(key, s[j - 1 := s[j]][j := s[j - 1]], i, j - 1)
  {
    hide Less;
    var t := s[j - 1 := s[j]][j := s[j - 1]];
    LessAsymmetric(key(s[j]), key(s[j - 1]));
    forall p, q | 0 <= p < q <= i && q != j - 1 ensures AtMost(key(t[p]), key(t[q])) {
      if q == j {
        if p < j - 1 { assert AtMost(key(s[p]), key(s[j - 1])); }
      } else if p == j - 1 {
        assert AtMost(key(s[j]), key(s[q]));
      } else if p == j {
        assert AtMost(key(s[j - 1]), key(s[q]));
      }
    }
  }

  lemma InPlace<T>(key: T -> string, s: seq<T>, i: nat, j: nat)
    requires SortedBut(key, s, i, j) && (j == 0 || AtMost(key(s[j - 1]), key(s[j])))
    ensures SortedBy(key, s[..i + 1])
  {
    hide AtMost;
    forall p, q | 0 <= p < q <= i ensures AtMost(key(s[p]), key(s[q])) {
      if q == j && p < j - 1 {
        AtMostTransitive(key(s[p]), key(s[j - 1]), key(s[j]));
      }
    }
  }

  method SortInPlace<T>(key: T -> string, a: array<T>)
    modifies a
    ensures SortedBy(key, a[..]) && multiset(a[..]) == multiset(old(a[..]))
  {
    hide AtMost, Less;
    for i := 0 to a.Length
      invariant SortedBy(key, a[..i])
      invariant multiset(a[..]) == multiset(old(a[..]))
    {
      var j := i;
      assert forall p :: 0 <= p < i ==> a[p] == a[..i][p];
      while j > 0 && Less(key(a[j]), key(a[j - 1]))
        invariant SortedBut(key, a[..], i, j)
        invariant multiset(a[..]) == multiset(old(a[..]))
      {
        MoveLeft(key, a[..], i, j);
        Swap(a, j - 1, j);
        j := j - 1;
      }
      assert j > 0 ==> AtMost(key(a[..][j - 1]), key(a[..][j])) by { NotLess(key, a[..], j); }
      InPlace(key, a[..], i, j);
      assert a[..i + 1] == a[..][..i + 1];
    }
    assert a[..a.Length] == a[..];
  }

  lemma NotLess<T>(key: T -> string, s: seq<T>, j: nat)
    requires j < |s| && (j == 0 || !Less(key(s[j]), key(s[j - 1])))
    ensures j > 0 ==> AtMost(key(s[j - 1]), key(s[j]))
  {
  }

  /** When keys tell elements apart the sorted order is unique, whatever sort produced it. */
  lemma {:induction false} SortedUnique<T>(key: T -> string, a: seq<T>, b: seq<T>)
    requires SortedBy(key, a) && SortedBy(key, b) && multiset(a) == multiset(b)
    requires forall x, y :: x in a && y in a && key(x) == key(y) ==> x == y
    ensures a == b
  {
    hide Less;
    if a == [] {
      EmptyMultiset(b);
    } else {
      assert a[0] in multiset(a) && a[0] in multiset(b) && a[0] in b;
      assert b != [];
      assert b[0] in multiset(b) && b[0] in multiset(a) && b[0] in a;
      var i :| 0 <= i < |a| && a[i] == b[0];
      var j :| 0 <= j < |b| && b[j] == a[0];
      LessTotal(key(a[0]), key(b[0]));
      LessIrreflexive(key(a[0]));
      assert !Less(key(a[i]), key(a[0])) && !Less(key(b[j]), key(b[0]));
      assert a[0] == b[0];
      TailMultiset(a);
      TailMultiset(b);
      assert forall x :: x in a[1..] ==> x in a;
      SortedUnique(key, a[1..], b[1..]);
    }
  }
}
