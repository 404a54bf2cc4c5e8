/** Insertion of arrays into arrays (arr_insert_array and arr_append of
    src/arrlib.c), also of an array into itself. When elements cannot be copied
    the array is restored. */
module ArrayInsertion {
  import opened ArrayOwnership

  /** The elements e, inserted before element k of s. */
  ghost function WithElements<T>(s: seq<T>, k: nat, e: seq<T>): (r: seq<T>)
    requires k <= |s|
    ensures |r| == |s| + |e|
  {
    s[..k] + e + s[k..]
  }

  lemma WithElementsAt<T>(s: seq<T>, k: nat, e: seq<T>, i: nat)
    requires k <= |s| && i < |s| + |e|
    ensures WithElements(s, k, e)[i] == if i < k then s[i] else if i < k + |e| then e[i - k] else s[i - |e|]
  {
  }

  /** The buffer h starts with s. */
  ghost predicate StartsWith<T>(h: seq<T>, s: seq<T>) {
    |s| <= |h| && forall i :: 0 <= i < |s| ==> h[i] == s[i]
  }

  /** The elements from k on have been moved up by m cells. */
  ghost predicate HasHole<T>(h: seq<T>, s: seq<T>, k: nat, m: nat) {
    && k <= |s| && |s| + m <= |h|
    && (forall i :: 0 <= i < k ==> h[i] == s[i])
    && (forall i :: k + m <= i < |s| + m ==> h[i] == s[i - m])
  }

  lemma HoleMade<T>(h: seq<T>, h1: seq<T>, s: seq<T>, k: nat, m: nat)
    requires StartsWith(h, s) && k <= |s| && |s| + m <= |h| && Copied(h, h1, k + m, h, k, |s| - k)
    ensures HasHole(h1, s, k, m)
  {
    forall i | k + m <= i < |s| + m ensures h1[i] == s[i - m] {
      assert h1[i] == h[k + (i - (k + m))];
    }
  }

  lemma HoleFilled<T>(h: seq<T>, h1: seq<T>, s: seq<T>, k: nat, e: seq<T>)
    requires HasHole(h, s, k, |e|) && Copied(h, h1, k, e, 0, |e|)
    ensures StartsWith(h1, WithElements(s, k, e))
  {
    forall i | 0 <= i < |s| + |e| ensures h1[i] == WithElements(s, k, e)[i] {
      WithElementsAt(s, k, e, i);
      if k <= i < k + |e| {
        assert h1[i] == e[0 + (i - k)];
      }
    }
  }

  /** The hole is filled with the array itself, from both sides of it. */
  lemma HoleFilledBySelf<T>(h: seq<T>, h1: seq<T>, h2: seq<T>, s: seq<T>, k: nat)
    requires HasHole(h, s, k, |s|) && Copied(h, h1, k, h, 0, k)
    requires Copied(h1, h2, 2 * k, h1, k + |s|, |s| - k)
    ensures StartsWith(h2, WithElements(s, k, s))
  {
    forall i | 0 <= i < |s| + |s| ensures h2[i] == WithElements(s, k, s)[i] {
      WithElementsAt(s, k, s, i);
      if k <= i < 2 * k {
        assert h1[i] == h[0 + (i - k)];
      } else if 2 * k <= i < k + |s| {
        assert h2[i] == h1[k + |s| + (i - 2 * k)] == h[i - k + |s|] == s[i - k];
      }
    }
  }

  /** Moving the elements back closes the hole, whatever is in it. */
  lemma HoleClosed<T>(h: seq<T>, h1: seq<T>, s: seq<T>, k: nat, m: nat)
    requires HasHole(h, s, k, m) && Copied(h, h1, k, h, k + m, |s| - k)
    ensures StartsWith(h1, s)
  {
    forall i | 0 <= i < |s| ensures h1[i] == s[i] {
      if k <= i {
        assert h1[i] == h[k + m + (i - k)];
      }
    }
  }

  lemma FirstElements<T>(h: seq<T>, s: seq<T>)
    requires StartsWith(h, s)
    ensures h[..|s|] == s
  {
  }

  /** What memory allocation can refuse: to enlarge the array, to copy the elements
      (in one or two steps), and to make the array small again. */
  datatype Memory = Memory(grows: bool, copies: bool, copiesRest: bool, shrinks: bool)

  datatype Outcome = Done | IndexException | MemoryException

  /** Whether positions exist for n more elements. */
  predicate CanGrow<T(0)>(arr1: RtlArray<T>, n: int)
    reads arr1
  {
    arr1.max_position <= MAX_MEM_INDEX - n
  }

  /** Makes room for m elements. */
  method MakeHole<T(0)>(arr1: RtlArray<T>, k: nat, m: nat)
    requires arr1.Valid() && k <= arr1.Size()
    modifies arr1
    ensures arr1.min_position == old(arr1.min_position) && arr1.max_position == old(arr1.max_position)
    ensures fresh(arr1.arr) && HasHole(arr1.arr[..], old(arr1.Elements()), k, m)
  {
    ghost var s := arr1.Elements();
    var size := arr1.Size();
    arr1.Realloc(size + m, true);
    ghost var h := arr1.arr[..];
    Memmove(arr1.arr, k + m, k, size - k);
    HoleMade(h, arr1.arr[..], s, k, m);
  }

  /** Copies the elements into the hole. A partial copy of the array into itself is
      given up again. */
  method FillHole<T(0)>(arr1: RtlArray<T>, k: nat, elements: RtlArray<T>, ghost s: seq<T>, ghost e: seq<T>,
                        memory: Memory)
    returns (okay: bool)
    requires k <= |s| && |e| > 0 && HasHole(arr1.arr[..], s, k, |e|)
    requires arr1 == elements ==> s == e && arr1.Size() == |s|
    requires arr1 != elements ==>
      elements.Valid() && elements.arr != arr1.arr && elements.Elements() == e
    modifies arr1.arr
    ensures okay == (memory.copies && (arr1 == elements ==> memory.copiesRest))
    ensures okay ==> StartsWith(arr1.arr[..], WithElements(s, k, e))
    ensures !okay ==> HasHole(arr1.arr[..], s, k, |e|)
  {
    ghost var h := arr1.arr[..];
    if arr1 == elements {
      okay := memory.copies;
      if okay {
        var size := arr1.Size();
        Memmove(arr1.arr, k, 0, k);
        ghost var h1 := arr1.arr[..];
        okay := memory.copiesRest;
        if okay {
          Memmove(arr1.arr, 2 * k, k + size, size - k);
          HoleFilledBySelf(h, h1, arr1.arr[..], s, k);
        }
      }
    } else {
      okay := memory.copies;
      if okay {
        ghost var b := elements.arr[..];
        assert forall i :: 0 <= i < |e| ==> b[i] == elements.Elements()[i];
        Memcpy(arr1.arr, k, elements.arr, 0, elements.Size());
        HoleFilled(h, arr1.arr[..], s, k, e);
      }
    }
  }

  /** Moves the elements back. */
  method CloseHole<T(0)>(arr1: RtlArray<T>, k: nat, m: nat, ghost s: seq<T>, shrinks: bool)
    requires arr1.Size() == |s| && k <= |s| && HasHole(arr1.arr[..], s, k, m)
    requires arr1.min_position >= MIN_MEM_INDEX && arr1.max_position <= MAX_MEM_INDEX
    requires arr1.min_position <= MAX_MEM_INDEX && MIN_MEM_INDEX <= arr1.max_position
    modifies arr1, arr1.arr
    ensures arr1.Valid() && arr1.Elements() == s
    ensures arr1.min_position == old(arr1.min_position) && arr1.max_position == old(arr1.max_position)
  {
    ghost var h := arr1.arr[..];
    var size := arr1.Size();
    Memmove(arr1.arr, k, k + m, size - k);
    HoleClosed(h, arr1.arr[..], s, k, m);
    FirstElements(arr1.arr[..], s);
    assert arr1.arr[..size] == arr1.arr[..][..size];
    arr1.Realloc(size, shrinks);
    assert arr1.Elements() == s;
  }

  /** Inserts elements before element k. */
  method InsertElements<T(0)>(arr1: RtlArray<T>, k: nat, elements: RtlArray<T>, memory: Memory) returns (okay: bool)
    requires arr1.Valid() && elements.Valid() && (arr1 == elements || arr1.arr != elements.arr)
    requires k <= arr1.Size() && elements.Size() > 0 && CanGrow(arr1, elements.Size())
    modifies arr1
    ensures arr1.Valid() && arr1.min_position == old(arr1.min_position)
    ensures okay == (memory.copies && (arr1 == elements ==> memory.copiesRest))
    ensures okay ==> arr1.Elements() == WithElements(old(arr1.Elements()), k, old(elements.Elements()))
    ensures !okay ==> arr1.Elements() == old(arr1.Elements()) && arr1.max_position == old(arr1.max_position)
  {
    ghost var s, e := arr1.Elements(), elements.Elements();
    var size, m := arr1.Size(), elements.Size();
    MakeHole(arr1, k, m);
    okay := FillHole(arr1, k, elements, s, e, memory);
    if okay {
      FirstElements(arr1.arr[..], WithElements(s, k, e));
      arr1.max_position := arr1.min_position + (size + m) - 1;
      assert arr1.Elements() == arr1.arr[..][..size + m];
    } else {
      CloseHole(arr1, k, m, s, memory.shrinks);
    }
  }

  lemma NothingInserted<T>(s: seq<T>, k: nat)
    requires k <= |s|
    ensures WithElements(s, k, []) == s
  {
  }

  /** Inserts the elements before 'position'. Both arrays can be the same one. */
  method ArrInsertArray<T(0)>(arr1: RtlArray<T>, position: int, elements: RtlArray<T>, memory: Memory)
    returns (outcome: Outcome)
    requires arr1.Valid() && elements.Valid() && (arr1 == elements || arr1.arr != elements.arr)
    modifies arr1
    ensures arr1.Valid() && arr1.min_position == old(arr1.min_position)
    ensures outcome.IndexException? <==> position < old(arr1.min_position) || position > old(arr1.max_position) + 1
    ensures outcome.MemoryException? <==>
      (!outcome.IndexException? && old(elements.Size()) > 0
       && (old(arr1.max_position) > MAX_MEM_INDEX - old(elements.Size()) || !memory.grows || !memory.copies
           || (arr1 == elements && !memory.copiesRest)))
    ensures outcome.Done? ==>
      var k, s := position - old(arr1.min_position), old(arr1.Elements());
      arr1.Elements() == s[..k] + old(elements.Elements()) + s[k..]
    ensures !outcome.Done? ==> arr1.Elements() == old(arr1.Elements()) && arr1.max_position == old(arr1.max_position)
  {
    var elements_size := elements.Size();
    if position < arr1.min_position || position > arr1.max_position + 1 {
      outcome := IndexException;
    } else if elements_size == 0 {
      NothingInserted(arr1.Elements(), position - arr1.min_position);
      outcome := Done;
    } else if !CanGrow(arr1, elements_size) || !memory.grows {
      outcome := MemoryException;
    } else {
      var okay := InsertElements(arr1, position - arr1.min_position, elements, memory);
      outcome := if okay then Done else MemoryException;
    }
  }

  /** Appends the elements. Both arrays can be the same one. */
  method ArrAppend<T(0)>(arr_to: RtlArray<T>, extension: RtlArray<T>, memory: Memory) returns (outcome: Outcome)
    requires arr_to.Valid() && extension.Valid() && (arr_to == extension || arr_to.arr != extension.arr)
    modifies arr_to
    ensures arr_to.Valid() && arr_to.min_position == old(arr_to.min_position)
    ensures outcome == if old(extension.Size()) > 0
                          && (old(arr_to.max_position) > MAX_MEM_INDEX - old(extension.Size())
                              || !memory.grows || !memory.copies)
                       then MemoryException else Done
    ensures outcome.Done? ==> arr_to.Elements() == old(arr_to.Elements()) + old(extension.Elements())
    ensures !outcome.Done? ==> arr_to.Elements() == old(arr_to.Elements())
  {
    ghost var s, e := arr_to.Elements(), extension.Elements();
    var size, m := arr_to.Size(), extension.Size();
    if m == 0 {
      return Done;
    }
    if !CanGrow(arr_to, m) || !memory.grows {
      return MemoryException;
    }
    arr_to.Realloc(size + m, true);
    if memory.copies {
      AppendElements(arr_to, extension, s, e);
      return Done;
    }
    arr_to.Realloc(size, memory.shrinks);
    assert arr_to.Elements() == s;
    outcome := MemoryException;
  }

  /** The elements are copied behind those that are there. */
  method AppendElements<T(0)>(arr_to: RtlArray<T>, extension: RtlArray<T>, ghost s: seq<T>, ghost e: seq<T>)
    requires StartsWith(arr_to.arr[..], s) && arr_to.Size() == |s| && arr_to.arr.Length == |s| + |e|
    requires MIN_MEM_INDEX <= arr_to.min_position <= MAX_MEM_INDEX && CanGrow(arr_to, |e|) && |e| > 0
    requires arr_to == extension ==> s == e
    requires arr_to != extension ==> extension.Valid() && extension.arr != arr_to.arr && extension.Elements() == e
    modifies arr_to`max_position, arr_to.arr
    ensures arr_to.Valid() && arr_to.Elements() == s + e
  {
    ghost var h := arr_to.arr[..];
    var size, m := arr_to.Size(), extension.Size();
    if arr_to == extension {
      Memmove(arr_to.arr, size, 0, m);
    } else {
      ghost var b := extension.arr[..];
      assert forall i :: 0 <= i < |e| ==> b[i] == extension.Elements()[i];
      Memcpy(arr_to.arr, size, extension.arr, 0, m);
    }
    ghost var h1 := arr_to.arr[..];
    arr_to.max_position := arr_to.min_position + (size + m) - 1;
    forall i | 0 <= i < |s| + |e| ensures h1[i] == (s + e)[i] {
      if i >= |s| {
        assert h1[i] == e[0 + (i - |s|)];
      }
    }
    assert arr_to.Elements() == s + e;
  }
}
