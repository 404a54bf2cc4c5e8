/** The reverse sort of arrays (rtl_qsort_array_reverse of src/arr_rtl.c and
    qsort_array_reverse of src/arrlib.c): the loops of the sort with the tests
    for less and greater exchanged. */
module ArraySortReverse {
  import opened ArraySort

  /** The comparison by which the result of the reverse sort is ascending. */
  function Reversed<T>(cmp: (T, T) -> int): (T, T) -> int {
    (x, y) => -cmp(x, y)
  }

  lemma ReversedPreorder<T(!new)>(cmp: (T, T) -> int)
    requires TotalPreorder(cmp)
    ensures TotalPreorder(Reversed(cmp))
  {
    var rev := Reversed(cmp);
    forall x, y ensures Opposite(rev, x, y) {
      assert Opposite(cmp, x, y);
    }
    forall x, y, z ensures Chain(rev, x, y, z) {
      assert Opposite(cmp, x, y) && Opposite(cmp, y, z) && Opposite(cmp, x, z);
      assert Chain(cmp, z, y, x);
    }
  }

  /** The elements up to middle are in descending order, and nothing got lost. */
  ghost predicate ReverseSorted<T(!new)>(h0: seq<T>, h: seq<T>, lo: int, middle: int, hi: int, cmp: (T, T) -> int) {
    Shuffled(h0, h, lo, hi) && Descending(h, lo, middle, cmp)
  }

  /** Sorted completely: descending, a permutation, and nothing else has changed. */
  lemma ReverseSortedMeans<T(!new)>(h0: seq<T>, h: seq<T>, begin_sort: int, end_sort: int, cmp: (T, T) -> int)
    requires ReverseSorted(h0, h, begin_sort, end_sort + 1, end_sort + 1, cmp)
    ensures |h| == |h0| && 0 <= begin_sort <= end_sort + 1 <= |h|
    ensures forall i, j :: begin_sort <= i < j <= end_sort ==> cmp(h[i], h[j]) >= 0
    ensures multiset(h[begin_sort..end_sort + 1]) == multiset(h0[begin_sort..end_sort + 1])
    ensures h[..begin_sort] == h0[..begin_sort] && h[end_sort + 1..] == h0[end_sort + 1..]
  {
  }

  lemma DescendingMeans<T(!new)>(h: seq<T>, lo: int, hi: int, cmp: (T, T) -> int)
    ensures Ascending(h, lo, hi, Reversed(cmp)) <==> Descending(h, lo, hi, cmp)
  {
    if Ascending(h, lo, hi, Reversed(cmp)) {
      assert forall i, j :: lo <= i < j < hi ==> Reversed(cmp)(h[i], h[j]) <= 0;
    }
  }

  /** The position of the first element that is not greater than x. */
  method FirstNotGreater<T(!new)>(a: array<T>, from: nat, ghost last: nat, x: T, cmp: (T, T) -> int)
    returns (greater: nat)
    requires from <= last < a.Length && cmp(a[last], x) <= 0
    ensures from <= greater <= last && cmp(a[greater], x) <= 0
    ensures forall i :: from <= i < greater ==> cmp(a[i], x) > 0
  {
    greater := from;
    while cmp(a[greater], x) > 0
      invariant from <= greater <= last
      invariant forall i :: from <= i < greater ==> cmp(a[i], x) > 0
      decreases last - greater
    {
      greater := greater + 1;
    }
  }

  /** The scan downwards stops at 'first' or at an element that is not less. */
  method LastNotLess<T(!new)>(a: array<T>, first: nat, from: nat, x: T, cmp: (T, T) -> int) returns (less: nat)
    requires first <= from < a.Length
    ensures first <= less <= from && (less == first || cmp(a[less], x) >= 0)
    ensures forall i :: less < i <= from ==> cmp(a[i], x) < 0
  {
    less := from;
    while cmp(a[less], x) < 0 && less != first
      invariant first <= less <= from
      invariant forall i :: less < i <= from ==> cmp(a[i], x) < 0
      decreases less
    {
      less := less - 1;
    }
  }

  /** Sorts the elements begin_sort..end_sort (both inclusive). */
  method InsertionSortReverse<T(!new)>(a: array<T>, begin_sort: int, end_sort: int, cmp: (T, T) -> int)
    requires TotalPreorder(cmp) && 0 <= begin_sort <= end_sort + 1 <= a.Length
    modifies a
    ensures ReverseSorted(old(a[..]), a[..], begin_sort, end_sort + 1, end_sort + 1, cmp)
  {
    ghost var h0, rev := a[..], Reversed(cmp);
    ReversedPreorder(cmp);
    var middle := begin_sort + 1;
    while middle <= end_sort
      invariant begin_sort + 1 <= middle <= end_sort + 2
      invariant middle == end_sort + 2 ==> begin_sort > end_sort && a[..] == h0
      invariant middle <= end_sort + 1 ==> SortedUpTo(h0, a[..], begin_sort, middle, end_sort + 1, rev)
    {
      var greater := FirstNotGreater(a, begin_sort, middle, a[middle], cmp);
      SortedNext(h0, a[..], begin_sort, greater, middle, end_sort + 1, rev);
      InsertAt(a, greater, middle);
      middle := middle + 1;
    }
    DescendingMeans(a[..], begin_sort, end_sort + 1, cmp);
  }

  /** Both scans, from the positions of the last swap. */
  method ScanBothReverse<T(!new)>(a: array<T>, begin_sort: nat, from: nat, to: nat, end_sort: nat, x: T,
                                  cmp: (T, T) -> int, ghost h0: seq<T>)
    returns (greater: nat, less: nat)
    requires end_sort < a.Length && from <= to && begin_sort < to
    requires Split(h0, a[..], begin_sort, from, to, end_sort + 1, x, Reversed(cmp))
    ensures Stopped(h0, a[..], begin_sort, greater, less, end_sort + 1, x, Reversed(cmp)) && less < to
  {
    assert Reversed(cmp)(a[to], x) >= 0;
    greater := FirstNotGreater(a, from, to, x, cmp);
    less := LastNotLess(a, begin_sort, to - 1, x, cmp);
  }

  /** One round: the swap of the elements where the scans stopped, and new scans. */
  method SwapAndScanReverse<T(!new)>(a: array<T>, begin_sort: nat, greater0: nat, less0: nat, end_sort: nat, x: T,
                                     cmp: (T, T) -> int, ghost h0: seq<T>)
    returns (greater: nat, less: nat)
    requires end_sort < a.Length && greater0 < less0
    requires Stopped(h0, a[..], begin_sort, greater0, less0, end_sort + 1, x, Reversed(cmp))
    modifies a
    ensures Stopped(h0, a[..], begin_sort, greater, less, end_sort + 1, x, Reversed(cmp)) && less < less0
  {
    SwapKeepsSplit(h0, a[..], begin_sort, greater0, less0, end_sort + 1, x, Reversed(cmp));
    Swap(a, greater0, less0);
    greater, less := ScanBothReverse(a, begin_sort, greater0 + 1, less0, end_sort, x, cmp, h0);
  }

  /** All rounds, until the scans have met. */
  method ScanUntilMetReverse<T(!new)>(a: array<T>, begin_sort: nat, end_sort: nat, x: T, cmp: (T, T) -> int,
                                      ghost h0: seq<T>)
    returns (greater: nat, less: nat)
    requires begin_sort < end_sort < a.Length
    requires Split(h0, a[..], begin_sort, begin_sort, end_sort, end_sort + 1, x, Reversed(cmp))
    modifies a
    ensures Stopped(h0, a[..], begin_sort, greater, less, end_sort + 1, x, Reversed(cmp)) && less <= greater
  {
    greater, less := ScanBothReverse(a, begin_sort, begin_sort, end_sort, end_sort, x, cmp, h0);
    while less > greater
      invariant Stopped(h0, a[..], begin_sort, greater, less, end_sort + 1, x, Reversed(cmp))
      decreases less
    {
      greater, less := SwapAndScanReverse(a, begin_sort, greater, less, end_sort, x, cmp, h0);
    }
  }

  /** Splits the elements begin_sort..end_sort at the result. */
  method PartitionReverse<T(!new)>(a: array<T>, begin_sort: nat, end_sort: nat, cmp: (T, T) -> int)
    returns (greater: nat)
    requires Reflexive(cmp) && begin_sort < end_sort < a.Length
    modifies a
    ensures Partitioned(old(a[..]), a[..], begin_sort, greater, end_sort + 1, Reversed(cmp))
  {
    ghost var h0, rev := a[..], Reversed(cmp);
    var compare_elem := PivotToEnd(a, begin_sort, end_sort, rev);
    var less;
    greater, less := ScanUntilMetReverse(a, begin_sort, end_sort, compare_elem, cmp, h0);
    PlacePivot(a, begin_sort, greater, less, end_sort, compare_elem, rev, h0);
  }

  lemma QuickReverseSorted<T(!new)>(h0: seq<T>, h1: seq<T>, h2: seq<T>, h3: seq<T>, lo: int, p: int, hi: int,
                                    cmp: (T, T) -> int)
    requires TotalPreorder(cmp) && Partitioned(h0, h1, lo, p, hi, Reversed(cmp))
    requires ReverseSorted(h1, h2, lo, p, p, cmp) && ReverseSorted(h2, h3, p + 1, hi, hi, cmp)
    ensures ReverseSorted(h0, h3, lo, hi, hi, cmp)
  {
    ReversedPreorder(cmp);
    DescendingMeans(h2, lo, p, cmp);
    DescendingMeans(h3, p + 1, hi, cmp);
    QuickSorted(h0, h1, h2, h3, lo, p, hi, Reversed(cmp));
    DescendingMeans(h3, lo, hi, cmp);
  }

  /** Sorts the elements begin_sort..end_sort (both inclusive) in descending order. */
  method QsortArrayReverse<T(!new)>(a: array<T>, begin_sort: int, end_sort: int, cmp: (T, T) -> int)
    requires TotalPreorder(cmp) && 0 <= begin_sort <= end_sort + 1 <= a.Length
    modifies a
    ensures ReverseSorted(old(a[..]), a[..], begin_sort, end_sort + 1, end_sort + 1, cmp)
    decreases end_sort - begin_sort + 1
  {
    if end_sort - begin_sort < QSORT_LIMIT {
      InsertionSortReverse(a, begin_sort, end_sort, cmp);
    } else {
      ghost var h0 := a[..];
      var greater: int := PartitionReverse(a, begin_sort, end_sort, cmp);
      ghost var h1 := a[..];
      QsortArrayReverse(a, begin_sort, greater - 1, cmp);
      ghost var h2 := a[..];
      QsortArrayReverse(a, greater + 1, end_sort, cmp);
      QuickReverseSorted(h0, h1, h2, a[..], begin_sort, greater, end_sort + 1, cmp);
    }
  }
}
