/**
 * In-place selection used by the quantiser the command line calls
 * (src/palette.go): a Hoare-style partition around the key of the middle
 * element, and a quickselect loop that narrows `[lo, hi]` around the wanted
 * rank. Two copies exist in the source, one keyed by a colour channel over
 * RGB buffers and one over plain byte buffers; both are modelled.
 *
 * The quickselect narrows with `hi = p - 1` although index `p` is not known
 * to hold its final value, so it does not always deliver the k-th smallest
 * element (on [2, 0, 5, 1, 3] with k = 2 it yields 3). What it does
 * guarantee, and what is proved here, is that it only permutes the buffer
 * and returns one of the buffer's values.
 */
module Select {
  import opened Colors
  import Sorting

  /**
   * partitionByChannel: after the call every key in `[lo, p]` is at most the
   * pivot (the key that the middle element `(lo + hi) / 2` had on entry) and
   * every key in `[p + 1, hi]` is at least the pivot. Only `[lo, hi]` is
   * permuted.
   */
  method PartitionByChannel(a: array<RGB>, lo: int, hi: int, ch: Channel) returns (p: int)
    requires 0 <= lo <= hi < a.Length
    modifies a
    ensures lo <= p <= hi
    ensures multiset(a[..]) == old(multiset(a[..]))
    ensures forall t :: 0 <= t < a.Length && !(lo <= t <= hi) ==> a[t] == old(a[t])
    ensures forall t :: lo <= t <= p ==> Key(a[t], ch) <= Key(old(a[(lo + hi) / 2]), ch)
    ensures forall t :: p < t <= hi ==> Key(old(a[(lo + hi) / 2]), ch) <= Key(a[t], ch)
  {
    var m := (lo + hi) / 2;
    var pivot := Key(a[m], ch);
    var i, j := lo, hi;
    while i <= j
      invariant lo <= i <= hi + 1 && lo - 1 <= j <= hi
      invariant (i == lo && j == hi && Key(a[m], ch) == pivot) || (lo < i && j < hi)
      invariant multiset(a[..]) == old(multiset(a[..]))
      invariant forall t :: 0 <= t < a.Length && !(lo <= t <= hi) ==> a[t] == old(a[t])
      invariant forall t :: lo <= t < i ==> Key(a[t], ch) <= pivot
      invariant forall t :: j < t <= hi ==> pivot <= Key(a[t], ch)
      decreases j - i
    {
      // A key >= pivot at or after i, and a key <= pivot at or before j, stop the scans.
      ghost var up := if j < hi then j + 1 else m;
      ghost var down := if lo < i then i - 1 else m;
      i := SkipBelowPivot(a, i, pivot, ch, up);
      j := SkipAbovePivot(a, j, pivot, ch, down);
      if i <= j {
        SwapAcrossPivot(a, lo, hi, i, j, pivot, ch);
        i := i + 1;
        j := j - 1;
      }
    }
    p := i - 1;
  }

  /**
   * The exchange step of partitionByChannel: a key >= pivot at `i` and a key
   * <= pivot at `j` trade places, extending both finished ends by one.
   */
  method SwapAcrossPivot(a: array<RGB>, lo: int, hi: int, i: int, j: int, pivot: int, ch: Channel)
    requires 0 <= lo <= i <= j <= hi < a.Length
    requires pivot <= Key(a[i], ch) && Key(a[j], ch) <= pivot
    requires forall t :: lo <= t < i ==> Key(a[t], ch) <= pivot
    requires forall t :: j < t <= hi ==> pivot <= Key(a[t], ch)
    modifies a
    ensures multiset(a[..]) == old(multiset(a[..]))
    ensures forall t :: 0 <= t < a.Length && !(lo <= t <= hi) ==> a[t] == old(a[t])
    ensures forall t :: lo <= t <= i ==> Key(a[t], ch) <= pivot
    ensures forall t :: j <= t <= hi ==> pivot <= Key(a[t], ch)
  {
    Sorting.Swap(a, i, j);
  }

  /** The `i++` scan of partitionByChannel: skips keys below the pivot. */
  method SkipBelowPivot(a: array<RGB>, i: int, pivot: int, ch: Channel, ghost stop: int) returns (i': int)
    requires 0 <= i <= stop < a.Length && pivot <= Key(a[stop], ch)
    ensures i <= i' <= stop && pivot <= Key(a[i'], ch)
    ensures forall t :: i <= t < i' ==> Key(a[t], ch) < pivot
  {
    i' := i;
    while Key(a[i'], ch) < pivot
      invariant i <= i' <= stop
      invariant forall t :: i <= t < i' ==> Key(a[t], ch) < pivot
      decreases stop - i'
    {
      i' := i' + 1;
    }
  }

  /** The `j--` scan of partitionByChannel: skips keys above the pivot. */
  method SkipAbovePivot(a: array<RGB>, j: int, pivot: int, ch: Channel, ghost stop: int) returns (j': int)
    requires 0 <= stop <= j < a.Length && Key(a[stop], ch) <= pivot
    ensures stop <= j' <= j && Key(a[j'], ch) <= pivot
    ensures forall t :: j' < t <= j ==> pivot < Key(a[t], ch)
  {
    j' := j;
    while Key(a[j'], ch) > pivot
      invariant stop <= j' <= j
      invariant forall t :: j' < t <= j ==> pivot < Key(a[t], ch)
      decreases j' - stop
    {
      j' := j' - 1;
    }
  }

  /**
   * nthElementByChannel: a no-op unless 0 < n < a.Length; otherwise it
   * narrows `[lo, hi]` around `n`, partitioning each time. It only permutes
   * the buffer. The loop ends because `[lo, hi]` strictly shrinks.
   */
  method NthElementByChannel(a: array<RGB>, n: int, ch: Channel)
    modifies a
    ensures multiset(a[..]) == old(multiset(a[..]))
    ensures n <= 0 || n >= a.Length ==> a[..] == old(a[..])
  {
    if n <= 0 || n >= a.Length {
      return;
    }
    var lo, hi := 0, a.Length - 1;
    while lo < hi
      invariant 0 <= lo <= n <= hi < a.Length
      invariant multiset(a[..]) == old(multiset(a[..]))
      decreases hi - lo
    {
      var p := PartitionByChannel(a, lo, hi, ch);
      if n == p {
        return;
      } else if n < p {
        hi := p - 1;
      } else {
        lo := p + 1;
      }
    }
  }

  /** partitionUint8: the same partition over a byte buffer. */
  method PartitionUint8(a: array<uint8>, lo: int, hi: int) returns (p: int)
    requires 0 <= lo <= hi < a.Length
    modifies a
    ensures lo <= p <= hi
    ensures multiset(a[..]) == old(multiset(a[..]))
    ensures forall t :: 0 <= t < a.Length && !(lo <= t <= hi) ==> a[t] == old(a[t])
    ensures forall t :: lo <= t <= p ==> a[t] <= old(a[(lo + hi) / 2])
    ensures forall t :: p < t <= hi ==> old(a[(lo + hi) / 2]) <= a[t]
  {
    var m := (lo + hi) / 2;
    var pivot := a[m];
    var i, j := lo, hi;
    while i <= j
      invariant lo <= i <= hi + 1 && lo - 1 <= j <= hi
      invariant (i == lo && j == hi && a[m] == pivot) || (lo < i && j < hi)
      invariant multiset(a[..]) == old(multiset(a[..]))
      invariant forall t :: 0 <= t < a.Length && !(lo <= t <= hi) ==> a[t] == old(a[t])
      invariant forall t :: lo <= t < i ==> a[t] <= pivot
      invariant forall t :: j < t <= hi ==> pivot <= a[t]
      decreases j - i
    {
      ghost var up := if j < hi then j + 1 else m;
      ghost var down := if lo < i then i - 1 else m;
      i := SkipBelow(a, i, pivot, up);
      j := SkipAbove(a, j, pivot, down);
      if i <= j {
        SwapAcross(a, lo, hi, i, j, pivot);
        i := i + 1;
        j := j - 1;
      }
    }
    p := i - 1;
  }

  /** The exchange step of partitionUint8. */
  method SwapAcross(a: array<uint8>, lo: int, hi: int, i: int, j: int, pivot: int)
    requires 0 <= lo <= i <= j <= hi < a.Length
    requires pivot <= a[i] && a[j] <= pivot
    requires forall t :: lo <= t < i ==> a[t] <= pivot
    requires forall t :: j < t <= hi ==> pivot <= a[t]
    modifies a
    ensures multiset(a[..]) == old(multiset(a[..]))
    ensures forall t :: 0 <= t < a.Length && !(lo <= t <= hi) ==> a[t] == old(a[t])
    ensures forall t :: lo <= t <= i ==> a[t] <= pivot
    ensures forall t :: j <= t <= hi ==> pivot <= a[t]
  {
    Sorting.Swap(a, i, j);
  }

  /** The `i++` scan of partitionUint8. */
  method SkipBelow(a: array<uint8>, i: int, pivot: int, ghost stop: int) returns (i': int)
    requires 0 <= i <= stop < a.Length && pivot <= a[stop]
    ensures i <= i' <= stop && pivot <= a[i']
    ensures forall t :: i <= t < i' ==> a[t] < pivot
  {
    i' := i;
    while a[i'] < pivot
      invariant i <= i' <= stop
      invariant forall t :: i <= t < i' ==> a[t] < pivot
      decreases stop - i'
    {
      i' := i' + 1;
    }
  }

  /** The `j--` scan of partitionUint8. */
  method SkipAbove(a: array<uint8>, j: int, pivot: int, ghost stop: int) returns (j': int)
    requires 0 <= stop <= j < a.Length && a[stop] <= pivot
    ensures stop <= j' <= j && a[j'] <= pivot
    ensures forall t :: j' < t <= j ==> pivot < a[t]
  {
    j' := j;
    while a[j'] > pivot
      invariant stop <= j' <= j
      invariant forall t :: j' < t <= j ==> pivot < a[t]
      decreases j' - stop
    {
      j' := j' - 1;
    }
  }

  /**
   * quickSelectUint8: clamps `k` to the last index, narrows `[lo, hi]`
   * around it and returns `arr[k]` when a partition lands on `k`, otherwise
   * `arr[lo]` once the range is a single index. The result is one of the
   * buffer's values, hence within its minimum and maximum; the buffer is
   * only permuted. An empty buffer makes the source index out of range.
   */
  method QuickSelectUint8(arr: array<uint8>, k: int) returns (v: uint8)
    requires arr.Length > 0
    modifies arr
    ensures multiset(arr[..]) == old(multiset(arr[..]))
    ensures v in old(multiset(arr[..]))
    ensures Min(old(arr[..])) <= v <= Max(old(arr[..]))
  {
    var kk := if k >= arr.Length then arr.Length - 1 else k;
    var lo, hi := 0, arr.Length - 1;
    while lo < hi
      invariant 0 <= lo < arr.Length && -1 <= hi < arr.Length
      invariant 0 <= kk ==> lo <= kk <= hi
      invariant kk < 0 ==> lo == 0
      invariant multiset(arr[..]) == old(multiset(arr[..]))
      decreases hi - lo
    {
      var p := PartitionUint8(arr, lo, hi);
      if kk == p {
        v := arr[kk];
        assert arr[kk] in multiset(arr[..]);
        MemberWithinBounds(old(arr[..]), v);
        return;
      } else if kk < p {
        hi := p - 1;
      } else {
        lo := p + 1;
      }
    }
    v := arr[lo];
    assert arr[lo] in multiset(arr[..]);
    MemberWithinBounds(old(arr[..]), v);
  }
}
