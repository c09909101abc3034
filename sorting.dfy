/**
 * Go's `sort.Slice` and `sort.Ints`, as the older quantiser uses them.
 * Go promises only that the slice ends up ordered by the comparison and is a
 * permutation of what it was; `sort.Slice` is not stable, so the order of
 * elements with equal keys is unspecified. `SortByKey` is an in-place sort
 * proved to deliver exactly that promise and nothing more.
 *
 * For integer sequences the outcome is nevertheless unique: `SortedSeq` is a
 * reference definition (insertion into a sorted list) and
 * `SortedPermutationUnique` shows any sorted permutation equals it.
 */
module Sorting {

  /** Elements are in non-decreasing key order. */
  ghost predicate SortedBy<T>(s: seq<T>, key: T -> int)
  {
    forall x, y :: 0 <= x < y < |s| ==> key(s[x]) <= key(s[y])
  }

  predicate Sorted(s: seq<int>)
  {
    forall x, y :: 0 <= x < y < |s| ==> s[x] <= s[y]
  }

  method Swap<T>(a: array<T>, i: int, j: int)
    requires 0 <= i < a.Length && 0 <= j < a.Length
    modifies a
    ensures a[..] == old(a[..])[i := old(a[j])][j := old(a[i])]
    ensures multiset(a[..]) == old(multiset(a[..]))
  {
    a[i], a[j] := a[j], a[i];
  }

  /**
   * Moves `a[i]` left past every larger key, so that a sorted prefix
   * `a[..i]` becomes a sorted prefix `a[..i + 1]`.
   */
  method InsertBack<T>(a: array<T>, i: nat, key: T -> int)
    requires i < a.Length
    requires forall x, y :: 0 <= x < y < i ==> key(a[x]) <= key(a[y])
    modifies a
    ensures forall x, y :: 0 <= x < y <= i ==> key(a[x]) <= key(a[y])
    ensures multiset(a[..]) == old(multiset(a[..]))
  {
    var j := i;
    while j > 0 && key(a[j - 1]) > key(a[j])
      invariant 0 <= j <= i
      invariant forall x, y :: 0 <= x < y <= i && x != j && y != j ==> key(a[x]) <= key(a[y])
      invariant forall y :: j < y <= i ==> key(a[j]) < key(a[y])
      invariant multiset(a[..]) == old(multiset(a[..]))
    {
      Swap(a, j - 1, j);
      j := j - 1;
    }
  }

  /** sort.Slice / sort.Ints: orders `a` by `key` in place. */
  method SortByKey<T>(a: array<T>, key: T -> int)
    modifies a
    ensures SortedBy(a[..], key)
    ensures multiset(a[..]) == old(multiset(a[..]))
  {
    var i := 0;
    while i < a.Length
      invariant 0 <= i <= a.Length
      invariant forall x, y :: 0 <= x < y < i ==> key(a[x]) <= key(a[y])
      invariant multiset(a[..]) == old(multiset(a[..]))
    {
      InsertBack(a, i, key);
      i := i + 1;
    }
  }

  // ---------------------------------------------------------------------
  // Reference definition of the sorted order of an integer sequence

  /** Inserts `x` before the first element not below it. */
  function Insert(x: int, s: seq<int>): (r: seq<int>)
  {
    if |s| == 0 then [x]
    else if x <= s[0] then [x] + s
    else [s[0]] + Insert(x, s[1..])
  }

  /** Insertion adds exactly the one value. */
  lemma {:induction false} InsertMultiset(x: int, s: seq<int>)
    ensures multiset(Insert(x, s)) == multiset(s) + multiset{x}
    decreases |s|
  {
    if |s| > 0 && x > s[0] {
      InsertMultiset(x, s[1..]);
      assert s == [s[0]] + s[1..];
    }
  }

  /** Insertion into a sorted sequence keeps it sorted. */
  lemma {:induction false} InsertSorted(x: int, s: seq<int>)
    requires Sorted(s)
    ensures Sorted(Insert(x, s))
    decreases |s|
  {
    if |s| > 0 && x > s[0] {
      var t := Insert(x, s[1..]);
      InsertSorted(x, s[1..]);
      InsertMultiset(x, s[1..]);
      InsertLowerBound(s[0], x, s[1..], t);
      SortedCons(s[0], t);
    }
  }

  /** A value no greater than any element of a sorted sequence can be put in front. */
  lemma SortedCons(h: int, t: seq<int>)
    requires Sorted(t) && forall k :: 0 <= k < |t| ==> h <= t[k]
    ensures Sorted([h] + t)
  {
  }

  lemma InsertLowerBound(lo: int, x: int, s: seq<int>, t: seq<int>)
    requires lo <= x && forall i :: 0 <= i < |s| ==> lo <= s[i]
    requires multiset(t) == multiset(s) + multiset{x}
    ensures forall k :: 0 <= k < |t| ==> lo <= t[k]
  {
    forall k | 0 <= k < |t| ensures lo <= t[k] {
      assert t[k] in multiset(t);
      if t[k] != x {
        assert t[k] in multiset(s);
      }
    }
  }

  /** The sorted arrangement of `s`, by insertion. */
  function SortedSeq(s: seq<int>): (r: seq<int>)
  {
    if |s| == 0 then [] else Insert(s[|s| - 1], SortedSeq(s[..|s| - 1]))
  }

  /** The sorted arrangement is sorted and holds exactly the values of `s`. */
  lemma {:induction false} SortedSeqProperties(s: seq<int>)
    ensures Sorted(SortedSeq(s))
    ensures multiset(SortedSeq(s)) == multiset(s)
    decreases |s|
  {
    if |s| > 0 {
      SortedSeqProperties(s[..|s| - 1]);
      InsertSorted(s[|s| - 1], SortedSeq(s[..|s| - 1]));
      InsertMultiset(s[|s| - 1], SortedSeq(s[..|s| - 1]));
      assert s == s[..|s| - 1] + [s[|s| - 1]];
    }
  }

  /** Two sorted arrangements of the same values are the same sequence. */
  lemma {:induction false} SortedPermutationUnique(a: seq<int>, b: seq<int>)
    requires Sorted(a) && Sorted(b)
    requires multiset(a) == multiset(b)
    ensures a == b
    decreases |a|
  {
    assert |b| == |multiset(b)| == |a|;
    if |a| > 0 {
      SameHead(a, b);
      SameTail(a, b);
      SortedPermutationUnique(a[1..], b[1..]);
      assert a == [a[0]] + a[1..] && b == [b[0]] + b[1..];
    }
  }

  /** Sorted arrangements of the same non-empty values start with the same (least) value. */
  lemma SameHead(a: seq<int>, b: seq<int>)
    requires Sorted(a) && Sorted(b) && multiset(a) == multiset(b) && |a| > 0 && |b| > 0
    ensures a[0] == b[0]
  {
    assert a[0] in multiset(b) && b[0] in multiset(a);
    var i :| 0 <= i < |a| && a[i] == b[0];
    var j :| 0 <= j < |b| && b[j] == a[0];
  }

  /** Removing the same first value from equal multisets leaves equal multisets. */
  lemma SameTail(a: seq<int>, b: seq<int>)
    requires multiset(a) == multiset(b) && |a| > 0 && |b| > 0 && a[0] == b[0]
    ensures multiset(a[1..]) == multiset(b[1..])
  {
    assert a == [a[0]] + a[1..] && b == [b[0]] + b[1..];
    assert multiset(a[1..]) == multiset(a) - multiset{a[0]};
    assert multiset(b[1..]) == multiset(b) - multiset{b[0]};
  }

  /** Any sorted arrangement of `s` is `SortedSeq(s)`. */
  lemma SortedIsSortedSeq(t: seq<int>, s: seq<int>)
    requires Sorted(t) && multiset(t) == multiset(s)
    ensures t == SortedSeq(s)
  {
    SortedSeqProperties(s);
    SortedPermutationUnique(t, SortedSeq(s));
  }

  /** Each element of the sorted arrangement is one of the values. */
  lemma SortedSeqMember(s: seq<int>, i: nat)
    requires i < |s|
    ensures |SortedSeq(s)| == |s| && SortedSeq(s)[i] in multiset(s)
  {
    var t := SortedSeq(s);
    SortedSeqProperties(s);
    assert |t| == |multiset(t)| == |s|;
    assert t[i] in multiset(t);
  }
}
