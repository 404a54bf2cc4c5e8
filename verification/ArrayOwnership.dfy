/** Arrays of the runtime (src/arr_rtl.c): slices that copy, slices that take the
    elements out of a temporary array, and removals that are undone when the
    memory cannot be shrunk. */
module ArrayOwnership {
  const MIN_MEM_INDEX: int := -0x8000_0000_0000_0000
  const MAX_MEM_INDEX: int := 0x7FFF_FFFF_FFFF_FFFF

  /** rtlArrayType: the range of the indices and the elements. */
  class RtlArray<T(0)> {
    var min_position: int
    var max_position: int
    var arr: array<T>

    ghost predicate Valid()
      reads this
    {
      && MIN_MEM_INDEX <= min_position <= MAX_MEM_INDEX && MIN_MEM_INDEX <= max_position <= MAX_MEM_INDEX
      && 0 <= Size() <= arr.Length
    }

    /** arraySize */
    function Size(): int
      reads this
    {
      max_position - min_position + 1
    }

    ghost function Elements(): seq<T>
      requires Valid()
      reads this, arr
    {
      arr[..Size()]
    }

    constructor Alloc(min_position: int, max_position: int, size: nat)
      ensures this.min_position == min_position && this.max_position == max_position
      ensures fresh(arr) && arr.Length == size
    {
      this.min_position := min_position;
      this.max_position := max_position;
      arr := new T[size];
    }

    /** realloc: the elements that fit are kept. When it fails nothing happens. */
    method Realloc(size: nat, succeeds: bool)
      modifies this`arr
      ensures !succeeds ==> arr == old(arr)
      ensures succeeds ==> fresh(arr) && arr.Length == size
      ensures succeeds ==> forall i :: 0 <= i < size && i < old(arr.Length) ==> arr[i] == old(arr[i])
    {
      if succeeds {
        var moved := new T[size];
        forall i | 0 <= i < size && i < arr.Length {
          moved[i] := arr[i];
        }
        arr := moved;
      }
    }
  }

  /** A variable or temporary that owns an array. */
  class Variable<T(0)> {
    var value: RtlArray?<T>

    ghost predicate Valid()
      reads this, value
    {
      value != null ==> value.Valid()
    }

    /** What the variable still holds. */
    ghost function Rest(): seq<T>
      requires Valid()
      reads this, value, if value != null then {value.arr} else {}
    {
      if value == null then [] else value.Elements()
    }
  }

  // --------------------------------------------------------------- memory

  /** n elements from position 'from' of 'source' have been copied to h. */
  ghost predicate Copied<T>(h: seq<T>, h': seq<T>, to: nat, source: seq<T>, from: nat, n: nat) {
    && to + n <= |h| == |h'| && from + n <= |source|
    && (forall k :: to <= k < to + n ==> h'[k] == source[from + (k - to)])
    && (forall k :: 0 <= k < |h| && !(to <= k < to + n) ==> h'[k] == h[k])
  }

  method Memmove<T>(a: array<T>, to: nat, from: nat, n: nat)
    requires to + n <= a.Length && from + n <= a.Length
    modifies a
    ensures Copied(old(a[..]), a[..], to, old(a[..]), from, n)
  {
    forall i | to <= i < to + n {
      a[i] := a[from + (i - to)];
    }
  }

  method Memcpy<T>(a: array<T>, to: nat, b: array<T>, from: nat, n: nat)
    requires a != b && to + n <= a.Length && from + n <= b.Length
    modifies a
    ensures Copied(old(a[..]), a[..], to, b[..], from, n)
  {
    forall i | to <= i < to + n {
      a[i] := b[from + (i - to)];
    }
  }

  // ---------------------------------------------------------- specification

  /** What a slice is: its elements, or the exception that is raised. */
  datatype Slice<T> = Part(elements: seq<T>) | IndexError | RangeError

  ghost function Empty<T>(min: int): Slice<T> {
    if min == MIN_MEM_INDEX then RangeError else Part([])
  }

  ghost function HeadOf<T>(min: int, s: seq<T>, stop: int): Slice<T> {
    if stop < min - 1 then IndexError
    else if stop < min || s == [] then Empty(min)
    else Part(s[..if stop - min + 1 <= |s| then stop - min + 1 else |s|])
  }

  ghost function TailOf<T>(min: int, s: seq<T>, start: int): Slice<T> {
    if start < min then IndexError
    else if start - min >= |s| then Empty(min)
    else Part(s[start - min..])
  }

  ghost function RangeOf<T>(min: int, s: seq<T>, start: int, stop: int): Slice<T> {
    if start < min || stop < start - 1 then IndexError
    else if stop < start || start - min >= |s| then Empty(min)
    else Part(s[start - min..if stop - min + 1 <= |s| then stop - min + 1 else |s|])
  }

  ghost function SubarrOf<T>(min: int, s: seq<T>, start: int, length: int): Slice<T> {
    if start < min || length < 0 then IndexError
    else if length == 0 || start - min >= |s| then Empty(min)
    else Part(s[start - min..if start - min + length <= |s| then start - min + length else |s|])
  }

  /** The slices are all ranges. */
  lemma SlicesAreRanges<T>(min: int, s: seq<T>, start: int, stop: int, length: int)
    requires MIN_MEM_INDEX <= min
    ensures HeadOf(min, s, stop) == RangeOf(min, s, min, stop)
    ensures TailOf(min, s, start) == RangeOf(min, s, start, if start > min + |s| then start - 1 else min + |s| - 1)
    ensures SubarrOf(min, s, start, length)
         == if length < 0 then IndexError else RangeOf(min, s, start, start + length - 1)
  {
  }

  /** A range has the elements at its positions, as far as there are any. An empty range is an empty array,
      which cannot start at the lowest position. */
  lemma RangeMeans<T>(min: int, s: seq<T>, start: int, stop: int)
    ensures start < min || stop < start - 1 <==> RangeOf(min, s, start, stop) == IndexError
    ensures min <= start && (stop == start - 1 || (stop >= start && start > min + |s| - 1)) ==>
      RangeOf(min, s, start, stop) == if min == MIN_MEM_INDEX then RangeError else Part([])
    ensures min <= start <= stop && start <= min + |s| - 1 ==>
      RangeOf(min, s, start, stop).Part?
      && |RangeOf(min, s, start, stop).elements| == (if stop < min + |s| then stop else min + |s| - 1) - start + 1
      && forall k :: 0 <= k < |RangeOf(min, s, start, stop).elements|
           ==> RangeOf(min, s, start, stop).elements[k] == s[start - min + k]
  {
  }

  /** Head and tail divide an array. */
  lemma HeadAndTail<T>(min: int, s: seq<T>, stop: int)
    requires min <= stop < min + |s| - 1
    ensures HeadOf(min, s, stop).Part? && TailOf(min, s, stop + 1).Part?
    ensures HeadOf(min, s, stop).elements + TailOf(min, s, stop + 1).elements == s
  {
  }

  // --------------------------------------------------------- copying slices

  /** A slice as a new array; MEMORY_ERROR only for slices that shrink an array. */
  datatype SliceResult<T(0)> = Array(value: RtlArray<T>) | Raised(error: Slice<T>) | MemoryError

  /** The result is the slice that is specified, in an array with the given minimum. */
  ghost predicate Matches<T(0)>(result: SliceResult<T>, min: int, slice: Slice<T>)
    reads if result.Array? then {result.value, result.value.arr} else {}
  {
    match slice
    case Part(elements) =>
      result.Array? && result.value.Valid() && result.value.min_position == min && result.value.Elements() == elements
    case _ => result == Raised(slice)
  }

  method CopyPart<T(0)>(arr1: RtlArray<T>, from: nat, result_size: nat) returns (result: RtlArray<T>)
    requires arr1.Valid() && from + result_size <= arr1.Size() && (result_size > 0 || arr1.min_position > MIN_MEM_INDEX)
    ensures fresh(result) && fresh(result.arr) && result.Valid() && result.min_position == arr1.min_position
    ensures result.arr.Length == result_size && result.Elements() == arr1.Elements()[from..from + result_size]
  {
    result := new RtlArray<T>.Alloc(arr1.min_position, arr1.min_position + result_size - 1, result_size);
    Memcpy(result.arr, 0, arr1.arr, from, result_size);
    assert arr1.Elements()[from..from + result_size] == arr1.arr[from..from + result_size];
  }

  /** The empty array that the slices end with, or the exception. */
  method EmptyArray<T(0)>(arr1: RtlArray<T>) returns (result: SliceResult<T>)
    requires arr1.Valid()
    ensures Matches(result, arr1.min_position, Empty(arr1.min_position))
    ensures result.Array? ==> fresh(result.value) && fresh(result.value.arr)
  {
    if arr1.min_position == MIN_MEM_INDEX {
      result := Raised(RangeError);
    } else {
      var empty := CopyPart(arr1, 0, 0);
      result := Array(empty);
    }
  }

  method ArrHead<T(0)>(arr1: RtlArray<T>, stop0: int) returns (result: SliceResult<T>)
    requires arr1.Valid()
    ensures Matches(result, arr1.min_position, HeadOf(arr1.min_position, arr1.Elements(), stop0))
    ensures result.Array? ==> result.value.Valid() && result.value.min_position == arr1.min_position
    ensures arr1.min_position <= stop0 && arr1.Size() > 0 ==>
      result.Array? && result.value.Elements() ==
        if stop0 > arr1.max_position then arr1.Elements() else arr1.Elements()[..stop0 - arr1.min_position + 1]
    ensures result.Array? ==> fresh(result.value) && fresh(result.value.arr)
  {
    var stop := stop0;
    if stop >= arr1.min_position && arr1.Size() >= 1 {
      if stop > arr1.max_position {
        stop := arr1.max_position;
      }
      var head := CopyPart(arr1, 0, stop - arr1.min_position + 1);
      result := Array(head);
    } else if stop < arr1.min_position - 1 {
      result := Raised(IndexError);
    } else {
      result := EmptyArray(arr1);
    }
  }

  method ArrRange<T(0)>(arr1: RtlArray<T>, start: int, stop0: int) returns (result: SliceResult<T>)
    requires arr1.Valid()
    ensures Matches(result, arr1.min_position, RangeOf(arr1.min_position, arr1.Elements(), start, stop0))
    ensures result.Array? ==> result.value.Valid() && result.value.min_position == arr1.min_position
    ensures arr1.min_position <= start <= stop0 && start <= arr1.max_position ==>
      result.Array? && result.value.Elements() ==
        arr1.Elements()[start - arr1.min_position
                        ..if stop0 > arr1.max_position then arr1.Size() else stop0 - arr1.min_position + 1]
    ensures result.Array? ==> fresh(result.value) && fresh(result.value.arr)
  {
    var stop := stop0;
    if start < arr1.min_position {
      result := Raised(IndexError);
    } else if stop >= start && start <= arr1.max_position && stop >= arr1.min_position && arr1.Size() >= 1 {
      if stop > arr1.max_position {
        stop := arr1.max_position;
      }
      var part := CopyPart(arr1, start - arr1.min_position, stop - start + 1);
      result := Array(part);
    } else if stop < start - 1 {
      result := Raised(IndexError);
    } else {
      result := EmptyArray(arr1);
    }
  }

  method ArrSubarr<T(0)>(arr1: RtlArray<T>, start: int, length0: int) returns (result: SliceResult<T>)
    requires arr1.Valid()
    ensures Matches(result, arr1.min_position, SubarrOf(arr1.min_position, arr1.Elements(), start, length0))
    ensures result.Array? ==> result.value.Valid() && result.value.min_position == arr1.min_position
    ensures arr1.min_position <= start <= arr1.max_position && length0 > 0 ==>
      result.Array? && result.value.Elements() ==
        arr1.Elements()[start - arr1.min_position
                        ..if length0 > arr1.max_position - start then arr1.Size()
                          else start - arr1.min_position + length0]
    ensures result.Array? ==> fresh(result.value) && fresh(result.value.arr)
  {
    var length := length0;
    if start < arr1.min_position || length < 0 {
      result := Raised(IndexError);
    } else if length != 0 && start <= arr1.max_position && arr1.Size() >= 1 {
      if length - 1 > arr1.max_position - start {
        length := arr1.max_position - start + 1;
      }
      var part := CopyPart(arr1, start - arr1.min_position, length);
      result := Array(part);
    } else {
      result := EmptyArray(arr1);
    }
  }

  method ArrTail<T(0)>(arr1: RtlArray<T>, start: int) returns (result: SliceResult<T>)
    requires arr1.Valid()
    ensures Matches(result, arr1.min_position, TailOf(arr1.min_position, arr1.Elements(), start))
    ensures result.Array? ==> result.value.Valid() && result.value.min_position == arr1.min_position
    ensures arr1.min_position <= start <= arr1.max_position ==>
      result.Array? && result.value.Elements() == arr1.Elements()[start - arr1.min_position..]
    ensures result.Array? ==> fresh(result.value) && fresh(result.value.arr)
  {
    if start < arr1.min_position {
      result := Raised(IndexError);
    } else if start <= arr1.max_position && arr1.Size() >= 1 {
      var part := CopyPart(arr1, start - arr1.min_position, arr1.max_position - start + 1);
      result := Array(part);
    } else {
      result := EmptyArray(arr1);
    }
  }

  // --------------------------------------------- slices that reuse the array

  /** The head stays where it is, the tail moves to a new array. */
  method SplitOff<T(0)>(v: Variable<T>, arr1: RtlArray<T>, k: nat, shrinks: bool) returns (okay: bool)
    requires v.value == arr1 && arr1.Valid() && 0 < k < arr1.Size()
    modifies v, arr1
    ensures okay == shrinks && arr1.Valid() && v.Valid()
    ensures okay ==> arr1.min_position == old(arr1.min_position) && arr1.Elements() == old(arr1.Elements()[..k])
    ensures okay ==> v.value != null && v.value != arr1 && v.value.Elements() == old(arr1.Elements()[k..])
    ensures okay
        ==> v.value.min_position == old(arr1.min_position) + k && v.value.max_position == old(arr1.max_position)
    ensures !okay ==> v.value == arr1 && arr1.Elements() == old(arr1.Elements())
  {
    ghost var s := arr1.Elements();
    var rest := arr1.Size() - k;
    var new_arr1 := new RtlArray<T>.Alloc(arr1.min_position + k, arr1.max_position, rest);
    Memcpy(new_arr1.arr, 0, arr1.arr, k, rest);
    assert new_arr1.Elements() == s[k..];
    okay := shrinks;
    arr1.Realloc(k, shrinks);
    if okay {
      arr1.max_position := arr1.min_position + k - 1;
      v.value := new_arr1;
      assert arr1.Elements() == s[..k];
    }
  }

  /** Afterwards the variable owns what the result does not own. An exception
      leaves the variable as it was. */
  method ArrHeadTemp<T(0)>(v: Variable<T>, stop: int, shrinks: bool) returns (result: SliceResult<T>)
    requires v.value != null && v.value.Valid()
    modifies v, v.value
    ensures v.Valid()
    ensures !result.MemoryError? ==>
      Matches(result, old(v.value.min_position), HeadOf(old(v.value.min_position), old(v.Rest()), stop))
    ensures var slice := HeadOf(old(v.value.min_position), old(v.Rest()), stop);
      result.MemoryError? <==> !shrinks && slice.Part? && 0 < |slice.elements| < |old(v.Rest())|
    ensures result.Array? ==> result.value != v.value && result.value.Elements() + v.Rest() == old(v.Rest())
    ensures result.Array? ==>
      result.value.Valid() && result.value.min_position == old(v.value.min_position)
      && (v.value != null ==> v.value.min_position == old(v.value.min_position) + |result.value.Elements()|)
    ensures !result.Array? ==> v.value == old(v.value) && v.Rest() == old(v.Rest())
  {
    var arr1 := v.value;
    ghost var s := arr1.Elements();
    if stop >= arr1.min_position && arr1.Size() >= 1 {
      if stop >= arr1.max_position {
        result := Array(arr1);
        v.value := null;
      } else {
        var okay := SplitOff(v, arr1, stop - arr1.min_position + 1, shrinks);
        result := if okay then Array(arr1) else MemoryError;
        assert okay ==> arr1.Elements() + v.value.Elements() == s;
      }
    } else if stop < arr1.min_position - 1 {
      result := Raised(IndexError);
    } else {
      result := EmptyArray(arr1);
    }
  }

  /** The tail moves to a new array, the head stays. */
  method ArrTailTemp<T(0)>(v: Variable<T>, start: int, shrinks: bool) returns (result: SliceResult<T>)
    requires v.value != null && v.value.Valid()
    modifies v, v.value
    ensures v.Valid()
    ensures !result.MemoryError? ==>
      Matches(result, old(v.value.min_position), TailOf(old(v.value.min_position), old(v.Rest()), start))
    ensures var slice := TailOf(old(v.value.min_position), old(v.Rest()), start);
      result.MemoryError? <==> !shrinks && slice.Part? && 0 < |slice.elements| < |old(v.Rest())|
    ensures result.Array? ==> result.value != v.value && v.Rest() + result.value.Elements() == old(v.Rest())
    ensures result.Array? ==>
      result.value.Valid() && result.value.min_position == old(v.value.min_position)
      && (v.value != null ==> v.value.min_position == old(v.value.min_position))
    ensures !result.Array? ==> v.value == old(v.value) && v.Rest() == old(v.Rest())
  {
    var arr1 := v.value;
    ghost var s := arr1.Elements();
    if start <= arr1.min_position {
      if start < arr1.min_position {
        result := Raised(IndexError);
      } else {
        result := Array(arr1);
        v.value := null;
      }
    } else if start <= arr1.max_position && arr1.Size() >= 1 {
      var k := start - arr1.min_position;
      var tail := CopyPart(arr1, k, arr1.Size() - k);
      arr1.Realloc(k, shrinks);
      if shrinks {
        arr1.max_position := start - 1;
        assert arr1.Elements() == s[..k];
        result := Array(tail);
      } else {
        result := MemoryError;
      }
    } else {
      result := EmptyArray(arr1);
    }
  }

  /** The elements without those from i to i + n. */
  ghost function Without<T>(s: seq<T>, i: nat, n: nat): (r: seq<T>)
    requires i + n <= |s|
    ensures |r| == |s| - n
  {
    s[..i] + s[i + n..]
  }

  /** What is taken out and what is left are all the elements. */
  lemma WithoutAnd<T>(s: seq<T>, i: nat, n: nat)
    requires i + n <= |s|
    ensures multiset(Without(s, i, n)) + multiset(s[i..i + n]) == multiset(s)
  {
    assert s == s[..i] + s[i..i + n] + s[i + n..];
  }

  /** Closing the gap of n elements from i on. */
  lemma ClosedIsWithout<T>(h: seq<T>, h1: seq<T>, i: nat, n: nat, size: nat)
    requires i + n <= size <= |h| && Copied(h, h1, i, h, i + n, size - n - i)
    ensures h1[..size - n] == Without(h[..size], i, n)
  {
    var r := Without(h[..size], i, n);
    forall k | 0 <= k < size - n ensures h1[k] == r[k] {
      WithoutAt(h[..size], i, n, k);
    }
  }

  lemma WithoutAt<T>(s: seq<T>, i: nat, n: nat, k: nat)
    requires i + n <= |s| && k < |s| - n
    ensures Without(s, i, n)[k] == if k < i then s[k] else s[k + n]
  {
  }

  /** Opening it again, and putting the removed elements back. */
  lemma OpenedIsOld<T>(h: seq<T>, h1: seq<T>, h2: seq<T>, h3: seq<T>, i: nat, n: nat, size: nat, removed: seq<T>)
    requires i + n <= size <= |h| && |removed| == n && Copied(h, h1, i, h, i + n, size - n - i)
    requires Copied(h1, h2, i + n, h1, i, size - n - i) && Copied(h2, h3, i, removed, 0, n)
    requires removed == h[i..i + n]
    ensures h3 == h
  {
    forall k | 0 <= k < |h| ensures h3[k] == h[k] {
      if i <= k < i + n {
        assert h3[k] == removed[k - i];
      } else if i + n <= k < size {
        assert h3[k] == h2[k] == h1[k - n] == h[k];
      } else {
        assert h3[k] == h2[k] == h1[k] == h[k];
      }
    }
  }

  /** What is left in the variable: if the memory cannot be shrunk, the elements
      that should have been taken out are behind the others. */
  ghost function Left<T>(s: seq<T>, i: nat, n: nat, taken: bool): seq<T>
    requires i + n <= |s|
  {
    if taken then Without(s, i, n) else Without(s, i, n) + s[i..i + n]
  }

  /** The memory is shrunk to the first m cells. */
  method Shrink<T(0)>(arr1: RtlArray<T>, m: nat)
    requires arr1.Valid() && m <= arr1.Size() && (m > 0 || arr1.min_position > MIN_MEM_INDEX)
    modifies arr1
    ensures arr1.Valid() && arr1.Elements() == old(arr1.arr[..m]) && arr1.min_position == old(arr1.min_position)
  {
    ghost var left := arr1.arr[..m];
    arr1.Realloc(m, true);
    arr1.max_position := arr1.min_position + m - 1;
    assert arr1.Elements() == left;
  }

  /** Closes the gap of n elements from i on and shrinks the memory. */
  method CloseGap<T(0)>(arr1: RtlArray<T>, i: nat, n: nat)
    requires arr1.Valid() && i + n <= arr1.Size() && (n < arr1.Size() || arr1.min_position > MIN_MEM_INDEX)
    modifies arr1, arr1.arr
    ensures arr1.Valid() && arr1.min_position == old(arr1.min_position)
    ensures arr1.Elements() == Without(old(arr1.Elements()), i, n)
  {
    ghost var h := arr1.arr[..];
    var size := arr1.Size();
    assert h[..size] == arr1.Elements();
    Memmove(arr1.arr, i, i + n, size - n - i);
    ClosedIsWithout(h, arr1.arr[..], i, n, size);
    assert arr1.arr[..size - n] == arr1.arr[..][..size - n];
    Shrink(arr1, size - n);
  }

  lemma RotatedIs<T>(h: seq<T>, h1: seq<T>, h2: seq<T>, i: nat, n: nat, size: nat, removed: seq<T>)
    requires i + n <= size <= |h| && |removed| == n && Copied(h, h1, i, h, i + n, size - n - i)
    requires Copied(h1, h2, size - n, removed, 0, n)
    ensures h2[..size] == Without(h[..size], i, n) + removed
  {
    ClosedIsWithout(h, h1, i, n, size);
    assert h2[..size - n] == h1[..size - n] && h2[size - n..size] == removed;
    assert h2[..size] == h2[..size - n] + h2[size - n..size];
  }

  /** Closes the gap, and puts the elements behind the others. */
  method Rotate<T>(a: array<T>, i: nat, n: nat, size: nat, removed: array<T>)
    requires i + n <= size <= a.Length && removed != a && removed[..] == a[i..i + n]
    modifies a
    ensures a[..][..size] == Without(old(a[..])[..size], i, n) + removed[..]
  {
    ghost var h, r := a[..], removed[..];
    Memmove(a, i, i + n, size - n - i);
    ghost var h1 := a[..];
    Memcpy(a, size - n, removed, 0, n);
    RotatedIs(h, h1, a[..], i, n, size, r);
  }

  /** The part of arrRangeTemp and arrSubarrTemp that takes n elements out. When
      the memory cannot be shrunk they are put back at the end. */
  method TakeOut<T(0)>(arr1: RtlArray<T>, i: nat, n: nat, shrinks: bool) returns (result: RtlArray<T>)
    requires arr1.Valid() && 0 < n < arr1.Size() && i + n <= arr1.Size()
    modifies arr1, arr1.arr
    ensures fresh(result) && fresh(result.arr) && result.Valid() && result.min_position == old(arr1.min_position)
    ensures result.Elements() == old(arr1.Elements()[i..i + n])
    ensures arr1.Valid() && arr1.min_position == old(arr1.min_position)
    ensures arr1.Elements() == Left(old(arr1.Elements()), i, n, shrinks)
  {
    result := CopyPart(arr1, i, n);
    if shrinks {
      CloseGap(arr1, i, n);
    } else {
      ghost var h := arr1.arr[..];
      var size := arr1.Size();
      assert result.arr[..] == result.Elements() == arr1.arr[i..i + n] && h[..size] == arr1.Elements();
      Rotate(arr1.arr, i, n, size, result.arr);
      assert arr1.arr[..][..size] == arr1.Elements();
    }
  }

  /** When the memory cannot be shrunk, the elements are all there again, but the
      array is the old one only if the order does not matter. */
  lemma PutBackAtEnd<T>(s: seq<T>, i: nat, n: nat)
    requires i + n <= |s|
    ensures multiset(Without(s, i, n) + s[i..i + n]) == multiset(s)
    ensures Without(s, i, n) + s[i..i + n] == s <==> s[i + n..] + s[i..i + n] == s[i..i + n] + s[i + n..]
  {
    WithoutAnd(s, i, n);
    var t, u := s[i + n..], s[i..i + n];
    assert s == s[..i] + (u + t);
    assert Without(s, i, n) + u == s[..i] + (t + u);
    if s[..i] + (t + u) == s[..i] + (u + t) {
      assert (s[..i] + (t + u))[i..] == t + u && (s[..i] + (u + t))[i..] == u + t;
    }
  }

  /** The slice at the end of the array: that order is the old one. */
  lemma PutBackTail<T>(s: seq<T>, i: nat)
    requires i <= |s|
    ensures Without(s, i, |s| - i) + s[i..|s|] == s
  {
  }

  /** If no element occurs twice, it is the old one for no other slice. */
  lemma PutBackDistinct<T>(s: seq<T>, i: nat, n: nat)
    requires 0 < n && i + n <= |s| && forall j, k :: 0 <= j < k < |s| ==> s[j] != s[k]
    ensures Without(s, i, n) + s[i..i + n] == s <==> i + n == |s|
  {
    if i + n == |s| {
      PutBackTail(s, i);
    } else {
      WithoutAt(s, i, n, i);
      assert (Without(s, i, n) + s[i..i + n])[i] == s[i + n] != s[i];
    }
  }

  /** The first of two different elements is taken: they are exchanged. */
  lemma PutBackExchanged<T>(x: T, y: T)
    requires x != y
    ensures Without([x, y], 0, 1) + [x, y][0..1] == [y, x] != [x, y]
  {
    assert [x, y][1..] == [y] && [x, y][0..1] == [x] && [x, y][..0] == [];
    assert [y, x][0] != [x, y][0];
  }

  /** Whatever happens, the result and the variable hold all the elements. */
  ghost predicate Conserved<T(0)>(result: SliceResult<T>, v: Variable<T>, s: seq<T>)
    requires v.Valid() && (result.Array? ==> result.value.Valid())
    reads v, v.value, if v.value != null then {v.value.arr} else {}
    reads if result.Array? then {result.value, result.value.arr} else {}
  {
    multiset(v.Rest()) + (if result.Array? then multiset(result.value.Elements()) else multiset{}) == multiset(s)
  }

  /** Takes a part out of the variable, or all of it. */
  method TakePart<T(0)>(v: Variable<T>, i: nat, n: nat, shrinks: bool) returns (result: SliceResult<T>)
    requires v.value != null && v.value.Valid() && 0 < n && i + n <= v.value.Size()
    modifies v, v.value, v.value.arr
    ensures v.Valid() && (result.Array? ==> result.value.Valid() && result.value != v.value)
    ensures result.Array? ==> Matches(result, old(v.value.min_position), Part(old(v.Rest()[i..i + n])))
    ensures if !shrinks && n < |old(v.Rest())| then result.MemoryError? else result.Array?
    ensures v.Rest() == Left(old(v.Rest()), i, n, result.Array?)
    ensures Conserved(result, v, old(v.Rest()))
    ensures v.value != null ==> v.value.min_position == old(v.value.min_position)
  {
    var arr1 := v.value;
    WithoutAnd(arr1.Elements(), i, n);
    PutBackAtEnd(arr1.Elements(), i, n);
    if n == arr1.Size() {
      result := Array(arr1);
      v.value := null;
    } else {
      var part := TakeOut(arr1, i, n, shrinks);
      result := if shrinks then Array(part) else MemoryError;
    }
  }

  lemma RangeIs<T>(min: int, s: seq<T>, start: int, stop: int, n: int)
    requires min <= start <= stop && start < min + |s|
    requires n == (if stop < min + |s| then stop else min + |s| - 1) - start + 1
    ensures 0 < n && start - min + n <= |s| && RangeOf(min, s, start, stop) == Part(s[start - min..start - min + n])
  {
  }

  lemma SubarrIs<T>(min: int, s: seq<T>, start: int, length: int, n: int)
    requires min <= start < min + |s| && length >= 1
    requires n == if length - 1 > min + |s| - 1 - start then min + |s| - start else length
    ensures 0 < n && start - min + n <= |s| && SubarrOf(min, s, start, length) == Part(s[start - min..start - min + n])
  {
  }

  /** What is left of the variable, if n elements from i on are taken out. */
  ghost function RestOf<T>(s: seq<T>, i: int, n: nat, taken: bool): seq<T> {
    if 0 <= i && i + n <= |s| then Left(s, i, n, taken) else s
  }

  /** A part as it is wanted and the rest in the variable. Without memory the part is
      behind the rest, and after an exception everything is as it was. */
  ghost predicate TookSlice<T(0)>(result: SliceResult<T>, v: Variable<T>, min: int, s: seq<T>, start: int,
                                  slice: Slice<T>, shrinks: bool)
    requires v.Valid() && (result.Array? ==> result.value.Valid())
    reads v, v.value, if v.value != null then {v.value.arr} else {}
    reads if result.Array? then {result.value, result.value.arr} else {}
  {
    && (!result.MemoryError? ==> Matches(result, min, slice))
    && Conserved(result, v, s) && (v.value != null ==> v.value.min_position == min)
    && (result.Array? ==> v.Rest() == RestOf(s, start - min, |result.value.Elements()|, true))
    && (result.MemoryError? <==> !shrinks && slice.Part? && 0 < |slice.elements| < |s|)
    && (result.MemoryError? ==> v.Rest() == RestOf(s, start - min, |slice.elements|, false))
    && (result.Raised? ==> v.Rest() == s)
  }

  lemma RestIs<T>(s: seq<T>, min: int, i: nat, n: nat, taken: bool)
    requires i + n <= |s|
    ensures RestOf(s, min + i - min, n, taken) == Left(s, i, n, taken)
  {
  }

  /** What that means for a slice with n elements: they are taken out, or they are behind the others. */
  lemma TookPart<T(0)>(result: SliceResult<T>, v: Variable<T>, min: int, s: seq<T>, start: int, slice: Slice<T>,
                       i: nat, n: nat, shrinks: bool)
    requires v.Valid() && (result.Array? ==> result.value.Valid())
        && TookSlice(result, v, min, s, start, slice, shrinks)
    requires 0 < n && i + n <= |s| && start == min + i && slice == Part(s[i..i + n])
    ensures result == MemoryError || result.Array?
    ensures result.MemoryError? <==> !shrinks && n < |s|
    ensures result.Array? ==> result.value.min_position == min && result.value.Elements() == s[i..i + n]
    ensures v.Rest() == if result.Array? then s[..i] + s[i + n..] else s[..i] + s[i + n..] + s[i..i + n]
  {
    RestIs(s, min, i, n, result.Array?);
    if result.Array? {
      assert result.value.Elements() == s[i..i + n];
    }
  }

  /** Nothing is taken for an empty range, and after an exception. */
  lemma TookNoRange<T(0)>(result: SliceResult<T>, v: Variable<T>, min: int, s: seq<T>, start: int, stop: int,
                          shrinks: bool)
    requires v.Valid() && (result.Array? ==> result.value.Valid())
    requires TookSlice(result, v, min, s, start, RangeOf(min, s, start, stop), shrinks)
    requires start < min || stop < start || start - min >= |s|
    ensures result == Raised(IndexError) <==> start < min || stop < start - 1
    ensures result == Raised(RangeError) <==> start >= min && stop >= start - 1 && min == MIN_MEM_INDEX
    ensures result.Array? || result.Raised?
    ensures result.Array? ==> result.value.Elements() == [] && result.value.min_position == min
    ensures v.Rest() == s && (v.value != null ==> v.value.min_position == min)
  {
  }

  method TakeSlice<T(0)>(v: Variable<T>, i: nat, n: nat, shrinks: bool, ghost start: int, ghost slice: Slice<T>)
    returns (result: SliceResult<T>)
    requires v.value != null && v.value.Valid() && 0 < n && i + n <= v.value.Size()
    requires start == v.value.min_position + i
    requires slice == Part(v.Rest()[i..i + n])
    modifies v, v.value, v.value.arr
    ensures v.Valid() && (result.Array? ==> result.value.Valid() && result.value != v.value) && !result.Raised?
    ensures TookSlice(result, v, old(v.value.min_position), old(v.Rest()), start, slice, shrinks)
  {
    ghost var s, min := v.Rest(), v.value.min_position;
    result := TakePart(v, i, n, shrinks);
    RestIs(s, min, i, n, result.Array?);
    assert |slice.elements| == n;
    if result.Array? {
      assert result.value.Elements() == slice.elements;
    }
  }

  lemma NothingTaken<T>(s: seq<T>, i: int)
    ensures RestOf(s, i, 0, true) == s
  {
  }

  /** The empty slice. */
  method TakeNothing<T(0)>(v: Variable<T>, ghost start: int, ghost shrinks: bool) returns (result: SliceResult<T>)
    requires v.value != null && v.value.Valid()
    ensures v.Valid() && (result.Array? ==> result.value.Valid() && result.value != v.value)
    ensures TookSlice(result, v, v.value.min_position, v.Rest(), start, Empty(v.value.min_position), shrinks)
  {
    result := EmptyArray(v.value);
    NothingTaken(v.Rest(), start - v.value.min_position);
  }

  method ArrRangeTemp<T(0)>(v: Variable<T>, start: int, stop0: int, shrinks: bool) returns (result: SliceResult<T>)
    requires v.value != null && v.value.Valid()
    modifies v, v.value, v.value.arr
    ensures v.Valid() && (result.Array? ==> result.value.Valid() && result.value != v.value)
    ensures TookSlice(result, v, old(v.value.min_position), old(v.Rest()), start,
                      RangeOf(old(v.value.min_position), old(v.Rest()), start, stop0), shrinks)
  {
    var stop, arr1 := stop0, v.value;
    ghost var slice := RangeOf(arr1.min_position, arr1.Elements(), start, stop0);
    if start < arr1.min_position {
      result := Raised(IndexError);
    } else if stop >= start && start <= arr1.max_position && arr1.Size() >= 1 {
      if stop > arr1.max_position {
        stop := arr1.max_position;
      }
      RangeIs(arr1.min_position, arr1.Elements(), start, stop0, stop - start + 1);
      result := TakeSlice(v, start - arr1.min_position, stop - start + 1, shrinks, start, slice);
    } else if stop < start - 1 {
      result := Raised(IndexError);
    } else {
      result := TakeNothing(v, start, shrinks);
    }
  }

  /** A subarray that is not empty. */
  method TakeSubarr<T(0)>(v: Variable<T>, start: int, length0: int, shrinks: bool) returns (result: SliceResult<T>)
    requires v.value != null && v.value.Valid()
    requires length0 >= 1 && v.value.min_position <= start <= v.value.max_position
    modifies v, v.value, v.value.arr
    ensures v.Valid() && (result.Array? ==> result.value.Valid() && result.value != v.value)
    ensures TookSlice(result, v, old(v.value.min_position), old(v.Rest()), start,
                      SubarrOf(old(v.value.min_position), old(v.Rest()), start, length0), shrinks)
  {
    var length := length0;
    ghost var slice := SubarrOf(v.value.min_position, v.Rest(), start, length0);
    if length - 1 > v.value.max_position - start {
      length := v.value.max_position - start + 1;
    }
    SubarrIs(v.value.min_position, v.Rest(), start, length0, length);
    result := TakeSlice(v, start - v.value.min_position, length, shrinks, start, slice);
  }

  method ArrSubarrTemp<T(0)>(v: Variable<T>, start: int, length: int, shrinks: bool) returns (result: SliceResult<T>)
    requires v.value != null && v.value.Valid()
    modifies v, v.value, v.value.arr
    ensures v.Valid() && (result.Array? ==> result.value.Valid() && result.value != v.value)
    ensures TookSlice(result, v, old(v.value.min_position), old(v.Rest()), start,
                      SubarrOf(old(v.value.min_position), old(v.Rest()), start, length), shrinks)
  {
    var arr1 := v.value;
    if start < arr1.min_position || length < 0 {
      result := Raised(IndexError);
    } else if length >= 1 && start <= arr1.max_position && arr1.Size() >= 1 {
      result := TakeSubarr(v, start, length, shrinks);
    } else {
      result := TakeNothing(v, start, shrinks);
    }
  }

  // ---------------------------------------------------------------- removal

  /** n elements can be an array with the same minimum, and so can the others. */
  predicate Divisible<T(0)>(arr1: RtlArray<T>, n: int)
    reads arr1
  {
    0 < n < arr1.Size() || arr1.min_position > MIN_MEM_INDEX
  }

  /** Closes the gap, opens it again and puts the removed elements back. */
  method CloseAndReopen<T>(a: array<T>, i: nat, n: nat, size: nat, removed: array<T>)
    requires i + n <= size <= a.Length && removed != a && removed.Length == n
    requires removed[..] == a[i..i + n]
    modifies a
    ensures a[..] == old(a[..])
  {
    ghost var h, r := a[..], removed[..];
    Memmove(a, i, i + n, size - n - i);
    ghost var h1 := a[..];
    Memmove(a, i + n, i, size - n - i);
    ghost var h2 := a[..];
    Memcpy(a, i, removed, 0, n);
    OpenedIsOld(h, h1, h2, a[..], i, n, size, r);
  }

  /** The part of arrRemove and arrRemoveArray that closes the gap, and opens it
      again if the memory cannot be shrunk. */
  method RemovePart<T(0)>(arr1: RtlArray<T>, i: nat, n: nat, removed: array<T>, shrinks: bool)
    requires arr1.Valid() && i + n <= arr1.Size() && removed != arr1.arr && removed.Length == n
    requires removed[..] == arr1.arr[i..i + n] && Divisible(arr1, n)
    modifies arr1, arr1.arr
    ensures arr1.Valid() && arr1.min_position == old(arr1.min_position)
    ensures arr1.Elements() == if shrinks then Without(old(arr1.Elements()), i, n) else old(arr1.Elements())
  {
    if shrinks {
      CloseGap(arr1, i, n);
    } else {
      ghost var h := arr1.arr[..];
      CloseAndReopen(arr1.arr, i, n, arr1.Size(), removed);
      assert arr1.Elements() == h[..arr1.Size()];
    }
  }

  /** The removed element, or an exception that leaves the array as it was. */
  datatype RemoveResult<T> = Removed(value: T) | NotRemoved(error: Slice<T>) | NoMemory

  method ArrRemove<T(0)>(arr1: RtlArray<T>, position: int, shrinks: bool) returns (result: RemoveResult<T>)
    requires arr1.Valid() && Divisible(arr1, 1)
    modifies arr1, arr1.arr
    ensures arr1.Valid() && arr1.min_position == old(arr1.min_position)
    ensures var i := position - old(arr1.min_position);
      if i < 0 || i >= |old(arr1.Elements())| then
        result == NotRemoved(IndexError) && arr1.Elements() == old(arr1.Elements())
      else if shrinks then
        result == Removed(old(arr1.Elements())[i])
        && arr1.Elements() == old(arr1.Elements())[..i] + old(arr1.Elements())[i + 1..]
      else
        result == NoMemory && arr1.Elements() == old(arr1.Elements())
  {
    if position < arr1.min_position || position > arr1.max_position {
      return NotRemoved(IndexError);
    }
    var i := position - arr1.min_position;
    var element := arr1.arr[i];
    var removed := new T[1](_ => element);
    assert removed[..] == arr1.arr[i..i + 1];
    RemovePart(arr1, i, 1, removed, shrinks);
    result := if shrinks then Removed(element) else NoMemory;
  }

  /** The removal of n elements from i on. */
  method RemoveElements<T(0)>(arr1: RtlArray<T>, i: nat, n: nat, shrinks: bool) returns (result: SliceResult<T>)
    requires arr1.Valid() && i + n <= arr1.Size() && Divisible(arr1, n)
    requires n > 0 || arr1.min_position > MIN_MEM_INDEX
    modifies arr1, arr1.arr
    ensures arr1.Valid() && arr1.min_position == old(arr1.min_position)
    ensures result.Array? ==> fresh(result.value) && fresh(result.value.arr)
    ensures shrinks ==> Matches(result, arr1.min_position, Part(old(arr1.Elements())[i..i + n]))
    ensures !shrinks ==> result == MemoryError
    ensures arr1.Elements() == if shrinks then Without(old(arr1.Elements()), i, n) else old(arr1.Elements())
  {
    var removed := CopyPart(arr1, i, n);
    assert removed.arr[..] == removed.Elements() == arr1.arr[i..i + n];
    RemovePart(arr1, i, n, removed.arr, shrinks);
    result := if shrinks then Array(removed) else MemoryError;
  }

  method ArrRemoveArray<T(0)>(arr1: RtlArray<T>, position: int, length: int, shrinks: bool)
    returns (result: SliceResult<T>)
    requires arr1.Valid()
    requires length >= 0 && arr1.min_position <= position <= arr1.max_position
         ==> Divisible(arr1, if length > arr1.max_position - position + 1 then arr1.max_position - position + 1
                             else length)
    modifies arr1, arr1.arr
    ensures arr1.Valid() && arr1.min_position == old(arr1.min_position)
    ensures result.Array? ==> fresh(result.value) && fresh(result.value.arr)
    ensures var i, s := position - old(arr1.min_position), old(arr1.Elements());
      if length < 0 then
        result == Raised(RangeError) && arr1.Elements() == s
      else if i < 0 || i >= |s| then
        result == Raised(IndexError) && arr1.Elements() == s
      else if !shrinks then
        result == MemoryError && arr1.Elements() == s
      else if length <= |s| - i then
        result.Array? && result.value.Valid() && result.value.min_position == arr1.min_position
        && result.value.Elements() == s[i..i + length] && arr1.Elements() == s[..i] + s[i + length..]
      else
        result.Array? && result.value.Valid() && result.value.min_position == arr1.min_position
        && result.value.Elements() == s[i..] && arr1.Elements() == s[..i]
  {
    if length < 0 {
      return Raised(RangeError);
    }
    if position < arr1.min_position || position > arr1.max_position {
      return Raised(IndexError);
    }
    var i := position - arr1.min_position;
    var n := length;
    if n > arr1.max_position - position + 1 {
      n := arr1.max_position - position + 1;
    }
    result := RemoveElements(arr1, i, n, shrinks);
  }
}
