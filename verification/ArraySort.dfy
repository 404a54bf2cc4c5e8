/** The sort of arrays (rtl_qsort_array of src/arr_rtl.c and qsort_array of
    src/arrlib.c): quicksort, with insertion sort for short arrays. No loop has
    a bounds check: an element that compares as equal stops every scan. */
module ArraySort {

  const QSORT_LIMIT: nat := 8

  // ------------------------------------------------------- specification

  /** What a compare function must be: reflexive, antisymmetric in the sign of
      its result, and transitive. Different elements may compare as equal. */
  ghost predicate TotalPreorder<T(!new)>(cmp: (T, T) -> int) {
    && Reflexive(cmp)
    && (forall x, y :: Opposite(cmp, x, y))
    && (forall x, y, z :: Chain(cmp, x, y, z))
  }

  ghost predicate Reflexive<T(!new)>(cmp: (T, T) -> int) {
    forall x :: cmp(x, x) == 0
  }

  ghost predicate Opposite<T>(cmp: (T, T) -> int, x: T, y: T) {
    (cmp(x, y) < 0 <==> cmp(y, x) > 0) && (cmp(x, y) > 0 <==> cmp(y, x) < 0)
  }

  ghost predicate Chain<T>(cmp: (T, T) -> int, x: T, y: T, z: T) {
    cmp(x, y) <= 0 && cmp(y, z) <= 0 ==> cmp(x, z) <= 0
  }

  /** Elements lo..hi of h are in ascending order. */
  ghost predicate Ascending<T>(h: seq<T>, lo: int, hi: int, cmp: (T, T) -> int) {
    0 <= lo <= hi <= |h| && forall i, j :: lo <= i < j < hi ==> cmp(h[i], h[j]) <= 0
  }

  ghost predicate Descending<T>(h: seq<T>, lo: int, hi: int, cmp: (T, T) -> int) {
    0 <= lo <= hi <= |h| && forall i, j :: lo <= i < j < hi ==> cmp(h[i], h[j]) >= 0
  }

  /** Elements lo..hi of h' are a permutation of those of h, and the others are
      the same. */
  ghost predicate Shuffled<T>(h: seq<T>, h': seq<T>, lo: int, hi: int) {
    && 0 <= lo <= hi <= |h| == |h'|
    && (forall i :: 0 <= i < |h| && !(lo <= i < hi) ==> h'[i] == h[i])
    && multiset(h'[lo..hi]) == multiset(h[lo..hi])
  }

  lemma ShuffledWithin<T>(h: seq<T>, h': seq<T>, lo: int, hi: int, lo': int, hi': int)
    requires Shuffled(h, h', lo, hi) && 0 <= lo' <= lo && hi <= hi' <= |h|
    ensures Shuffled(h, h', lo', hi')
  {
    Parts(h, lo', lo, hi, hi');
    Parts(h', lo', lo, hi, hi');
    assert h'[lo'..lo] == h[lo'..lo] && h'[hi..hi'] == h[hi..hi'];
  }

  lemma Parts<T>(h: seq<T>, lo': int, lo: int, hi: int, hi': int)
    requires 0 <= lo' <= lo <= hi <= hi' <= |h|
    ensures multiset(h[lo'..hi']) == multiset(h[lo'..lo]) + multiset(h[lo..hi]) + multiset(h[hi..hi'])
  {
    assert h[lo'..hi'] == h[lo'..lo] + h[lo..hi'];
    assert h[lo..hi'] == h[lo..hi] + h[hi..hi'];
  }

  /** Every element of the permuted part was there before. */
  lemma ShuffledFrom<T>(h: seq<T>, h': seq<T>, lo: int, hi: int, i: int) returns (k: int)
    requires Shuffled(h, h', lo, hi) && lo <= i < hi
    ensures lo <= k < hi && h'[i] == h[k]
  {
    assert h'[i] in multiset(h'[lo..hi]) by { assert h'[lo..hi][i - lo] == h'[i]; }
    assert h'[i] in h[lo..hi];
    var j :| 0 <= j < hi - lo && h[lo..hi][j] == h'[i];
    k := lo + j;
  }

  lemma SwapShuffled<T>(h: seq<T>, i: int, j: int, lo: int, hi: int)
    requires 0 <= lo <= i < hi <= |h| && lo <= j < hi
    ensures Shuffled(h, h[i := h[j]][j := h[i]], lo, hi)
  {
    var h' := h[i := h[j]][j := h[i]];
    var s := h[lo..hi];
    assert h'[lo..hi] == s[i - lo := h[j]][j - lo := h[i]];
    assert multiset(s[i - lo := s[j - lo]][j - lo := s[i - lo]]) == multiset(s);
  }

  lemma ShuffledTrans<T>(h: seq<T>, h1: seq<T>, h2: seq<T>, lo: int, hi: int)
    requires Shuffled(h, h1, lo, hi) && Shuffled(h1, h2, lo, hi)
    ensures Shuffled(h, h2, lo, hi)
  {
  }

  // ------------------------------------------------------ insertion sort

  /** Element middle moves down to position less. */
  ghost function Inserted<T>(h: seq<T>, less: int, middle: int): seq<T>
    requires 0 <= less <= middle < |h|
  {
    h[..less] + [h[middle]] + h[less..middle] + h[middle + 1..]
  }

  lemma InsertedElements<T>(h: seq<T>, less: int, middle: int)
    requires 0 <= less <= middle < |h|
    ensures |Inserted(h, less, middle)| == |h| && Inserted(h, less, middle)[less] == h[middle]
    ensures forall i :: 0 <= i < |h| && !(less <= i <= middle) ==> Inserted(h, less, middle)[i] == h[i]
    ensures forall i :: less < i <= middle ==> Inserted(h, less, middle)[i] == h[i - 1]
  {
  }

  lemma InsertedShuffled<T>(h: seq<T>, less: int, middle: int, lo: int, hi: int)
    requires 0 <= lo <= less <= middle < hi <= |h|
    ensures Shuffled(h, Inserted(h, less, middle), lo, hi)
  {
    var h' := Inserted(h, less, middle);
    InsertedElements(h, less, middle);
    assert h'[less..middle + 1] == [h[middle]] + h[less..middle];
    assert h[less..middle + 1] == h[less..middle] + [h[middle]];
    ShuffledWithin(h, h', less, middle + 1, lo, hi);
  }

  lemma InsertedAscending<T(!new)>(h: seq<T>, lo: int, less: int, middle: int, cmp: (T, T) -> int)
    requires TotalPreorder(cmp) && 0 <= lo <= less <= middle < |h| && Ascending(h, lo, middle, cmp)
    requires forall i :: lo <= i < less ==> cmp(h[i], h[middle]) < 0
    requires cmp(h[less], h[middle]) >= 0
    ensures Ascending(Inserted(h, less, middle), lo, middle + 1, cmp)
  {
    var h' := Inserted(h, less, middle);
    InsertedElements(h, less, middle);
    forall i, j | lo <= i < j < middle + 1 ensures cmp(h'[i], h'[j]) <= 0 {
      if less < i {
        assert h'[i] == h[i - 1] && h'[j] == h[j - 1];
      } else if i == less {
        assert h'[j] == h[j - 1];
        assert Opposite(cmp, h[less], h[middle]);
        assert Chain(cmp, h[middle], h[less], h[j - 1]);
      } else if j == less {
        assert cmp(h[i], h[middle]) <= 0;
      } else if less < j {
        assert h'[i] == h[i] && h'[j] == h[j - 1];
      }
    }
  }

  /** The position of the first element that is not less than x. An element
      that compares as equal to x stops the scan at 'last' at the latest. */
  method FirstNotLess<T(!new)>(a: array<T>, from: nat, ghost last: nat, x: T, cmp: (T, T) -> int) returns (less: nat)
    requires from <= last < a.Length && cmp(a[last], x) >= 0
    ensures from <= less <= last && cmp(a[less], x) >= 0
    ensures forall i :: from <= i < less ==> cmp(a[i], x) < 0
  {
    less := from;
    while cmp(a[less], x) < 0
      invariant from <= less <= last
      invariant forall i :: from <= i < less ==> cmp(a[i], x) < 0
      decreases last - less
    {
      less := less + 1;
    }
  }

  /** memmove of the elements less..middle by one position, and the element
      that was at middle in the gap. */
  method InsertAt<T>(a: array<T>, less: nat, middle: nat)
    requires less <= middle < a.Length
    modifies a
    ensures a[..] == Inserted(old(a[..]), less, middle)
  {
    var compare_elem := a[middle];
    forall i | less < i <= middle {
      a[i] := a[i - 1];
    }
    a[less] := compare_elem;
    InsertedElements(old(a[..]), less, middle);
  }

  /** The elements up to middle are sorted, and nothing got lost. */
  ghost predicate SortedUpTo<T(!new)>(h0: seq<T>, h: seq<T>, lo: int, middle: int, hi: int, cmp: (T, T) -> int) {
    Shuffled(h0, h, lo, hi) && Ascending(h, lo, middle, cmp)
  }

  /** Sorted completely: ascending, a permutation, and nothing else has changed. */
  lemma SortedMeans<T(!new)>(h0: seq<T>, h: seq<T>, begin_sort: int, end_sort: int, cmp: (T, T) -> int)
    requires SortedUpTo(h0, h, begin_sort, end_sort + 1, end_sort + 1, cmp)
    ensures |h| == |h0| && 0 <= begin_sort <= end_sort + 1 <= |h|
    ensures forall i, j :: begin_sort <= i < j <= end_sort ==> cmp(h[i], h[j]) <= 0
    ensures multiset(h[begin_sort..end_sort + 1]) == multiset(h0[begin_sort..end_sort + 1])
    ensures h[..begin_sort] == h0[..begin_sort] && h[end_sort + 1..] == h0[end_sort + 1..]
  {
  }

  lemma SortedNext<T(!new)>(h0: seq<T>, h: seq<T>, lo: int, less: int, middle: int, hi: int, cmp: (T, T) -> int)
    requires TotalPreorder(cmp) && SortedUpTo(h0, h, lo, middle, hi, cmp) && lo <= less <= middle < hi
    requires forall i :: lo <= i < less ==> cmp(h[i], h[middle]) < 0
    requires cmp(h[less], h[middle]) >= 0
    ensures SortedUpTo(h0, Inserted(h, less, middle), lo, middle + 1, hi, cmp)
  {
    InsertedShuffled(h, less, middle, lo, hi);
    InsertedAscending(h, lo, less, middle, cmp);
    ShuffledTrans(h0, h, Inserted(h, less, middle), lo, hi);
  }

  /** Sorts the elements begin_sort..end_sort (both inclusive). */
  method InsertionSort<T(!new)>(a: array<T>, begin_sort: int, end_sort: int, cmp: (T, T) -> int)
    requires TotalPreorder(cmp) && 0 <= begin_sort <= end_sort + 1 <= a.Length
    modifies a
    ensures SortedUpTo(old(a[..]), a[..], begin_sort, end_sort + 1, end_sort + 1, cmp)
  {
    ghost var h0 := a[..];
    var middle := begin_sort + 1;
    while middle <= end_sort
      invariant begin_sort + 1 <= middle <= end_sort + 2
      invariant middle == end_sort + 2 ==> begin_sort > end_sort && a[..] == h0
      invariant middle <= end_sort + 1 ==> SortedUpTo(h0, a[..], begin_sort, middle, end_sort + 1, cmp)
    {
      var less := FirstNotLess(a, begin_sort, middle, a[middle], cmp);
      SortedNext(h0, a[..], begin_sort, less, middle, end_sort + 1, cmp);
      InsertAt(a, less, middle);
      middle := middle + 1;
    }
  }

  // ------------------------------------------------------------ quicksort

  ghost function Swapped<T>(h: seq<T>, i: int, j: int): seq<T>
    requires 0 <= i < |h| && 0 <= j < |h|
  {
    h[i := h[j]][j := h[i]]
  }

  /** All elements of lo..less compare as at most x, those of greater..hi as at
      least x, and x itself is the last of them. */
  ghost predicate Split<T(!new)>(h0: seq<T>, h: seq<T>, lo: int, less: int, greater: int, hi: int, x: T,
                                 cmp: (T, T) -> int)
  {
    && Shuffled(h0, h, lo, hi) && lo <= less <= hi && lo <= greater < hi && h[hi - 1] == x
    && (forall i :: lo <= i < less ==> cmp(h[i], x) <= 0)
    && (forall i :: greater <= i < hi ==> cmp(h[i], x) >= 0)
  }

  /** The scan downwards stops at 'first' or at an element that is not greater. */
  method LastNotGreater<T(!new)>(a: array<T>, first: nat, from: nat, x: T, cmp: (T, T) -> int) returns (greater: nat)
    requires first <= from < a.Length
    ensures first <= greater <= from && (greater == first || cmp(a[greater], x) <= 0)
    ensures forall i :: greater < i <= from ==> cmp(a[i], x) > 0
  {
    greater := from;
    while cmp(a[greater], x) > 0 && greater != first
      invariant first <= greater <= from
      invariant forall i :: greater < i <= from ==> cmp(a[i], x) > 0
      decreases greater
    {
      greater := greater - 1;
    }
  }

  method Swap<T>(a: array<T>, i: nat, j: nat)
    requires i < a.Length && j < a.Length
    modifies a
    ensures a[..] == Swapped(old(a[..]), i, j)
  {
    a[i], a[j] := a[j], a[i];
  }

  /** The state when the scans have stopped at less and greater. */
  ghost predicate Stopped<T(!new)>(h0: seq<T>, h: seq<T>, lo: int, less: int, greater: int, hi: int, x: T,
                                   cmp: (T, T) -> int)
  {
    && Split(h0, h, lo, less, greater + 1, hi, x, cmp)
    && less < hi && cmp(h[less], x) >= 0
    && lo <= greater && (greater == lo || cmp(h[greater], x) <= 0)
  }

  lemma SwapKeepsSplit<T(!new)>(h0: seq<T>, h: seq<T>, lo: int, less: int, greater: int, hi: int, x: T,
                                cmp: (T, T) -> int)
    requires Stopped(h0, h, lo, less, greater, hi, x, cmp) && less < greater
    ensures Split(h0, Swapped(h, less, greater), lo, less + 1, greater, hi, x, cmp)
  {
    SwapShuffled(h, less, greater, lo, hi);
    ShuffledTrans(h0, h, Swapped(h, less, greater), lo, hi);
  }

  /** When the scans have met, one swap too many is done and taken back, and the
      pivot x is exchanged with the element at less. */
  lemma RepairedSwap<T>(h: seq<T>, less: int, greater: int, last: int, x: T)
    requires 0 <= greater <= less <= last < |h| && h[last] == x
    ensures var h1 := Swapped(h, less, greater);
      h1[greater := h1[less]][less := x][last := h[less]] == Swapped(h, less, last)
  {
  }

  /** x is in its final place. */
  ghost predicate Partitioned<T(!new)>(h0: seq<T>, h: seq<T>, lo: int, p: int, hi: int, cmp: (T, T) -> int) {
    && Shuffled(h0, h, lo, hi) && lo <= p < hi
    && (forall i :: lo <= i < p ==> cmp(h[i], h[p]) <= 0)
    && (forall i :: p < i < hi ==> cmp(h[i], h[p]) >= 0)
  }

  lemma PivotPlaced<T(!new)>(h0: seq<T>, h: seq<T>, h': seq<T>, lo: int, less: int, greater: int, hi: int, x: T,
                             cmp: (T, T) -> int)
    requires Stopped(h0, h, lo, less, greater, hi, x, cmp) && greater <= less
    requires h' == Swapped(h, less, hi - 1)
    ensures Partitioned(h0, h', lo, less, hi, cmp)
  {
    SwapShuffled(h, less, hi - 1, lo, hi);
    ShuffledTrans(h0, h, h', lo, hi);
  }

  /** Both scans, from the positions of the last swap. */
  method ScanBoth<T(!new)>(a: array<T>, begin_sort: nat, from: nat, to: nat, end_sort: nat, x: T, cmp: (T, T) -> int,
                           ghost h0: seq<T>)
    returns (less: nat, greater: nat)
    requires end_sort < a.Length && from <= to && begin_sort < to
    requires Split(h0, a[..], begin_sort, from, to, end_sort + 1, x, cmp)
    ensures Stopped(h0, a[..], begin_sort, less, greater, end_sort + 1, x, cmp) && greater < to
  {
    less := FirstNotLess(a, from, to, x, cmp);
    greater := LastNotGreater(a, begin_sort, to - 1, x, cmp);
  }

  lemma PivotMoved<T(!new)>(h: seq<T>, lo: int, middle: int, hi: int, cmp: (T, T) -> int)
    requires Reflexive(cmp) && 0 <= lo <= middle < hi <= |h|
    ensures Split(h, Swapped(h, middle, hi - 1), lo, lo, hi - 1, hi, h[middle], cmp)
  {
    SwapShuffled(h, middle, hi - 1, lo, hi);
  }

  /** Puts the middle element at the end, where it stops the scan upwards. */
  method PivotToEnd<T(!new)>(a: array<T>, begin_sort: nat, end_sort: nat, ghost cmp: (T, T) -> int)
    returns (compare_elem: T)
    requires Reflexive(cmp) && begin_sort < end_sort < a.Length
    modifies a
    ensures Split(old(a[..]), a[..], begin_sort, begin_sort, end_sort, end_sort + 1, compare_elem, cmp)
  {
    var middle := begin_sort + (end_sort - begin_sort) / 2;
    compare_elem := a[middle];
    PivotMoved(a[..], begin_sort, middle, end_sort + 1, cmp);
    Swap(a, middle, end_sort);
  }

  /** The swap after the last scans, which is one too many, and its repair. */
  method SwapAndRepair<T>(a: array<T>, less: nat, greater: nat, end_sort: nat, compare_elem: T)
    requires greater <= less <= end_sort < a.Length && a[end_sort] == compare_elem
    modifies a
    ensures a[..] == Swapped(old(a[..]), less, end_sort)
  {
    RepairedSwap(a[..], less, greater, end_sort, compare_elem);
    var help_element := a[less];
    a[less] := a[greater];
    a[greater] := help_element;
    a[greater] := a[less];
    a[less] := compare_elem;
    a[end_sort] := help_element;
  }

  /** One round: the swap of the elements where the scans stopped, and new scans. */
  method SwapAndScan<T(!new)>(a: array<T>, begin_sort: nat, less0: nat, greater0: nat, end_sort: nat, x: T,
                              cmp: (T, T) -> int, ghost h0: seq<T>)
    returns (less: nat, greater: nat)
    requires end_sort < a.Length && less0 < greater0
    requires Stopped(h0, a[..], begin_sort, less0, greater0, end_sort + 1, x, cmp)
    modifies a
    ensures Stopped(h0, a[..], begin_sort, less, greater, end_sort + 1, x, cmp) && greater < greater0
  {
    SwapKeepsSplit(h0, a[..], begin_sort, less0, greater0, end_sort + 1, x, cmp);
    Swap(a, less0, greater0);
    less, greater := ScanBoth(a, begin_sort, less0 + 1, greater0, end_sort, x, cmp, h0);
  }

  /** All rounds, until the scans have met. */
  method ScanUntilMet<T(!new)>(a: array<T>, begin_sort: nat, end_sort: nat, x: T, cmp: (T, T) -> int, ghost h0: seq<T>)
    returns (less: nat, greater: nat)
    requires begin_sort < end_sort < a.Length
    requires Split(h0, a[..], begin_sort, begin_sort, end_sort, end_sort + 1, x, cmp)
    modifies a
    ensures Stopped(h0, a[..], begin_sort, less, greater, end_sort + 1, x, cmp) && greater <= less
  {
    less, greater := ScanBoth(a, begin_sort, begin_sort, end_sort, end_sort, x, cmp, h0);
    while greater > less
      invariant Stopped(h0, a[..], begin_sort, less, greater, end_sort + 1, x, cmp)
      decreases greater
    {
      less, greater := SwapAndScan(a, begin_sort, less, greater, end_sort, x, cmp, h0);
    }
  }

  /** Exchanges the pivot x with the element where the scans have met. */
  method PlacePivot<T(!new)>(a: array<T>, begin_sort: nat, less: nat, greater: nat, end_sort: nat, x: T,
                             ghost cmp: (T, T) -> int, ghost h0: seq<T>)
    requires begin_sort < end_sort < a.Length && greater <= less
    requires Stopped(h0, a[..], begin_sort, less, greater, end_sort + 1, x, cmp)
    modifies a
    ensures Partitioned(h0, a[..], begin_sort, less, end_sort + 1, cmp)
  {
    PivotPlaced(h0, a[..], Swapped(a[..], less, end_sort), begin_sort, less, greater, end_sort + 1, x, cmp);
    SwapAndRepair(a, less, greater, end_sort, x);
  }

  /** Splits the elements begin_sort..end_sort at the result. */
  method Partition<T(!new)>(a: array<T>, begin_sort: nat, end_sort: nat, cmp: (T, T) -> int) returns (less: nat)
    requires Reflexive(cmp) && begin_sort < end_sort < a.Length
    modifies a
    ensures Partitioned(old(a[..]), a[..], begin_sort, less, end_sort + 1, cmp)
  {
    ghost var h0 := a[..];
    var compare_elem := PivotToEnd(a, begin_sort, end_sort, cmp);
    var greater;
    less, greater := ScanUntilMet(a, begin_sort, end_sort, compare_elem, cmp, h0);
    PlacePivot(a, begin_sort, less, greater, end_sort, compare_elem, cmp, h0);
  }

  // ------------------------------------------------------------ the sort

  /** Sorting one side of the pivot keeps the elements on that side. */
  lemma LowerSorted<T(!new)>(h0: seq<T>, h1: seq<T>, h2: seq<T>, lo: int, p: int, hi: int, cmp: (T, T) -> int)
    requires Partitioned(h0, h1, lo, p, hi, cmp) && Shuffled(h1, h2, lo, p)
    ensures Partitioned(h0, h2, lo, p, hi, cmp)
  {
    ShuffledWithin(h1, h2, lo, p, lo, hi);
    ShuffledTrans(h0, h1, h2, lo, hi);
    forall i | lo <= i < p ensures cmp(h2[i], h2[p]) <= 0 {
      var k := ShuffledFrom(h1, h2, lo, p, i);
    }
  }

  lemma UpperSorted<T(!new)>(h0: seq<T>, h1: seq<T>, h2: seq<T>, lo: int, p: int, hi: int, cmp: (T, T) -> int)
    requires Partitioned(h0, h1, lo, p, hi, cmp) && Shuffled(h1, h2, p + 1, hi)
    ensures Partitioned(h0, h2, lo, p, hi, cmp)
  {
    ShuffledWithin(h1, h2, p + 1, hi, lo, hi);
    ShuffledTrans(h0, h1, h2, lo, hi);
    forall i | p < i < hi ensures cmp(h2[i], h2[p]) >= 0 {
      var k := ShuffledFrom(h1, h2, p + 1, hi, i);
    }
  }

  lemma BothSorted<T(!new)>(h0: seq<T>, h: seq<T>, lo: int, p: int, hi: int, cmp: (T, T) -> int)
    requires TotalPreorder(cmp) && Partitioned(h0, h, lo, p, hi, cmp)
    requires Ascending(h, lo, p, cmp) && Ascending(h, p + 1, hi, cmp)
    ensures SortedUpTo(h0, h, lo, hi, hi, cmp)
  {
    forall i, j | lo <= i < j < hi ensures cmp(h[i], h[j]) <= 0 {
      assert Opposite(cmp, h[p], h[j]);
      assert Chain(cmp, h[i], h[p], h[j]);
    }
  }

  lemma QuickSorted<T(!new)>(h0: seq<T>, h1: seq<T>, h2: seq<T>, h3: seq<T>, lo: int, p: int, hi: int,
                             cmp: (T, T) -> int)
    requires TotalPreorder(cmp) && Partitioned(h0, h1, lo, p, hi, cmp)
    requires SortedUpTo(h1, h2, lo, p, p, cmp) && SortedUpTo(h2, h3, p + 1, hi, hi, cmp)
    ensures SortedUpTo(h0, h3, lo, hi, hi, cmp)
  {
    LowerSorted(h0, h1, h2, lo, p, hi, cmp);
    UpperSorted(h0, h2, h3, lo, p, hi, cmp);
    assert Ascending(h3, lo, p, cmp) by {
      assert forall i :: lo <= i < p ==> h3[i] == h2[i];
    }
    BothSorted(h0, h3, lo, p, hi, cmp);
  }

  /** Sorts the elements begin_sort..end_sort (both inclusive). */
  method QsortArray<T(!new)>(a: array<T>, begin_sort: int, end_sort: int, cmp: (T, T) -> int)
    requires TotalPreorder(cmp) && 0 <= begin_sort <= end_sort + 1 <= a.Length
    modifies a
    ensures SortedUpTo(old(a[..]), a[..], begin_sort, end_sort + 1, end_sort + 1, cmp)
    decreases end_sort - begin_sort + 1
  {
    if end_sort - begin_sort < QSORT_LIMIT {
      InsertionSort(a, begin_sort, end_sort, cmp);
    } else {
      ghost var h0 := a[..];
      var less: int := Partition(a, begin_sort, end_sort, cmp);
      ghost var h1 := a[..];
      QsortArray(a, begin_sort, less - 1, cmp);
      ghost var h2 := a[..];
      QsortArray(a, less + 1, end_sort, cmp);
      QuickSorted(h0, h1, h2, a[..], begin_sort, less, end_sort + 1, cmp);
    }
  }
}
