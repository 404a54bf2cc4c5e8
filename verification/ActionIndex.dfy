/** The table of primitive actions and its index by function pointer
    (src/actutl.c). */
module ActionIndex {

  /** actEntryRecord: the address of the function stands for the pointer. */
  datatype ActEntry = ActEntry(name: string, action: nat)

  // ------------------------------------------------------- specification

  /** The first entry from position k on that has the action, or entry 0. */
  function FirstMatch(actTable: seq<ActEntry>, action: nat, k: nat): (r: nat)
    requires k <= |actTable|
    ensures r == 0 || (k <= r < |actTable| && actTable[r].action == action)
    ensures forall i :: k <= i < r ==> actTable[i].action != action
    ensures (exists i :: k <= i < |actTable| && actTable[i].action == action)
        ==> k <= r < |actTable| && actTable[r].action == action
    decreases |actTable| - k
  {
    if k == |actTable| then 0
    else if actTable[k].action == action then k
    else FirstMatch(actTable, action, k + 1)
  }

  /** What qsort leaves: all entries, in the order of their actions. Entries
      with the same action can be in any order. */
  ghost predicate QsortResult(actTable: seq<ActEntry>, sorted: seq<nat>) {
    && |sorted| == |actTable|
    && (forall i :: 0 <= i < |sorted| ==> sorted[i] < |actTable|)
    && (forall e :: 0 <= e < |actTable| ==> e in sorted)
    && (forall i, j :: 0 <= i < j < |sorted| ==> actTable[sorted[i]].action <= actTable[sorted[j]].action)
  }

  /** Strictly increasing, so that no action occurs twice. */
  ghost predicate Increasing(actTable: seq<ActEntry>, map': seq<nat>) {
    && (forall i :: 0 <= i < |map'| ==> map'[i] < |actTable|)
    && (forall i, j :: 0 <= i < j < |map'| ==> actTable[map'[i]].action < actTable[map'[j]].action)
  }

  /** For each action of the table the map has its first entry. */
  ghost predicate IndexOf(actTable: seq<ActEntry>, map': seq<nat>) {
    && Increasing(actTable, map')
    && (forall i :: 0 <= i < |map'| ==> map'[i] == FirstMatch(actTable, actTable[map'[i]].action, 0))
    && (forall e :: 0 <= e < |actTable| ==> FirstMatch(actTable, actTable[e].action, 0) in map')
  }

  // --------------------------------------------------- removing duplicates

  /** The entry at position i covers e: it has the same action and is not later. */
  ghost predicate Covers(actTable: seq<ActEntry>, map': seq<nat>, i: nat, e: nat) {
    i < |map'| && map'[i] < |actTable| && e < |actTable|
    && actTable[map'[i]].action == actTable[e].action && map'[i] <= e
  }

  ghost predicate Covered(actTable: seq<ActEntry>, map': seq<nat>, e: nat) {
    exists i :: Covers(actTable, map', i, e)
  }

  /** The first c entries of the sorted table have been looked at. */
  ghost predicate Deduped(actTable: seq<ActEntry>, sorted: seq<nat>, c: nat, map': seq<nat>) {
    && 0 < |map'| <= c <= |sorted| && Increasing(actTable, map')
    && map'[|map'| - 1] < |actTable| && sorted[c - 1] < |actTable|
    && actTable[map'[|map'| - 1]].action == actTable[sorted[c - 1]].action
    && (forall k :: 0 <= k < c ==> Covered(actTable, map', sorted[k]))
  }

  lemma DedupedStart(actTable: seq<ActEntry>, sorted: seq<nat>)
    requires QsortResult(actTable, sorted) && |sorted| > 0
    ensures Deduped(actTable, sorted, 1, sorted[..1])
  {
    assert Covers(actTable, sorted[..1], 0, sorted[0]);
  }

  /** An entry with a new action is kept. */
  lemma DedupedKeep(actTable: seq<ActEntry>, sorted: seq<nat>, c: nat, map': seq<nat>)
    requires QsortResult(actTable, sorted) && Deduped(actTable, sorted, c, map') && c < |sorted|
    requires actTable[sorted[c]].action != actTable[map'[|map'| - 1]].action
    ensures Deduped(actTable, sorted, c + 1, map' + [sorted[c]])
  {
    var m := map' + [sorted[c]];
    forall k | 0 <= k < c + 1 ensures Covered(actTable, m, sorted[k]) {
      if k < c {
        assert Covered(actTable, map', sorted[k]);
        var i: nat :| Covers(actTable, map', i, sorted[k]);
        assert Covers(actTable, m, i, sorted[k]);
      } else {
        assert Covers(actTable, m, |map'|, sorted[k]);
      }
    }
  }

  /** Of two entries with the same action the one nearer to the beginning stays. */
  lemma DedupedDrop(actTable: seq<ActEntry>, sorted: seq<nat>, c: nat, map': seq<nat>)
    requires QsortResult(actTable, sorted) && Deduped(actTable, sorted, c, map') && c < |sorted|
    requires actTable[sorted[c]].action == actTable[map'[|map'| - 1]].action
    ensures var last := |map'| - 1;
      Deduped(actTable, sorted, c + 1, map'[last := if map'[last] > sorted[c] then sorted[c] else map'[last]])
  {
    var last := |map'| - 1;
    var m := map'[last := if map'[last] > sorted[c] then sorted[c] else map'[last]];
    forall k | 0 <= k < c + 1 ensures Covered(actTable, m, sorted[k]) {
      if k < c {
        assert Covered(actTable, map', sorted[k]);
        var i: nat :| Covers(actTable, map', i, sorted[k]);
        assert Covers(actTable, m, i, sorted[k]);
      } else {
        assert Covers(actTable, m, last, sorted[k]);
      }
    }
  }

  lemma DroppedEntry(m: seq<nat>, sorted: seq<nat>, c: nat)
    requires 0 < |m| && c < |sorted|
    ensures var e, last := m + sorted[c..], |m| - 1;
      && e[..last] + e[last + 1..] == m[last := sorted[c]] + sorted[c + 1..]
      && e[..last + 1] + e[last + 2..] == m + sorted[c + 1..]
  {
  }

  lemma DedupedEnd(actTable: seq<ActEntry>, sorted: seq<nat>, map': seq<nat>)
    requires QsortResult(actTable, sorted) && Deduped(actTable, sorted, |sorted|, map')
    ensures IndexOf(actTable, map')
  {
    forall e: nat | e < |actTable| ensures Covered(actTable, map', e) {
      assert e in sorted;
      var k :| 0 <= k < |sorted| && sorted[k] == e;
    }
    forall e | 0 <= e < |actTable| ensures FirstMatch(actTable, actTable[e].action, 0) in map' {
      var first := FirstMatch(actTable, actTable[e].action, 0);
      assert Covered(actTable, map', first);
      var i: nat :| Covers(actTable, map', i, first);
      assert map'[i] == first;
    }
    forall i | 0 <= i < |map'| ensures map'[i] == FirstMatch(actTable, actTable[map'[i]].action, 0) {
      var first := FirstMatch(actTable, actTable[map'[i]].action, 0);
      assert Covered(actTable, map', first);
      var j: nat :| Covers(actTable, map', j, first);
      assert i == j;
    }
  }

  // -------------------------------------------------------------- the map

  /** actEntryMap: positions in actTable stand for pointers to its entries. */
  class ActEntryMap {
    var table: array<nat>
    var size: nat

    ghost predicate Valid()
      reads this
    {
      size <= table.Length
    }

    ghost function Entries(): seq<nat>
      requires Valid()
      reads this, table
    {
      table[..size]
    }

    /** genActPtrTable, for any result of qsort. */
    constructor GenActPtrTable(actTable: seq<ActEntry>, sorted: seq<nat>)
      requires 0 < |actTable| && QsortResult(actTable, sorted)
      ensures fresh(table) && Valid() && IndexOf(actTable, Entries())
    {
      table := new nat[|sorted|](i requires 0 <= i < |sorted| => sorted[i]);
      size := |sorted|;
      new;
      RemoveDoubles(actTable, sorted);
    }

    /** One round: compares the entry at 'number' with the one before it. */
    method RemoveDouble(actTable: seq<ActEntry>, number: nat, ghost sorted: seq<nat>, ghost c: nat, ghost m: seq<nat>)
      returns (number': nat, ghost m': seq<nat>)
      requires QsortResult(actTable, sorted) && c < |sorted| && Deduped(actTable, sorted, c, m)
      requires Valid() && number == |m| < size && Entries() == m + sorted[c..]
      modifies this`size, table
      ensures Valid() && table == old(table) && 0 < number' == |m'| <= size
      ensures Deduped(actTable, sorted, c + 1, m') && Entries() == m' + sorted[c + 1..]
    {
      ghost var e := Entries();
      assert table[number - 1] == e[number - 1] == m[number - 1] && table[number] == e[number] == sorted[c];
      DroppedEntry(m, sorted, c);
      number', m' := number, m;
      if actTable[table[number]].action == actTable[table[number - 1]].action {
        DedupedDrop(actTable, sorted, c, m);
        if table[number - 1] > table[number] {
          m' := m[number - 1 := sorted[c]];
          MoveDown(number - 1);
        } else {
          assert m[number - 1 := m[number - 1]] == m;
          MoveDown(number);
        }
      } else {
        DedupedKeep(actTable, sorted, c, m);
        m' := m + [sorted[c]];
        number' := number + 1;
      }
    }

    /** The loop that removes double entries in place. */
    method RemoveDoubles(actTable: seq<ActEntry>, ghost sorted: seq<nat>)
      requires 0 < |actTable| && QsortResult(actTable, sorted)
      requires Valid() && Entries() == sorted
      modifies this`size, table
      ensures Valid() && table == old(table) && IndexOf(actTable, Entries())
    {
      var number := 1;
      ghost var m, c := sorted[..1], 1;
      DedupedStart(actTable, sorted);
      while number < size
        invariant Valid() && table == old(table)
        invariant 0 < number == |m| <= size && c <= |sorted|
        invariant Deduped(actTable, sorted, c, m) && Entries() == m + sorted[c..]
        decreases |sorted| - c
      {
        number, m := RemoveDouble(actTable, number, sorted, c, m);
        c := c + 1;
      }
      assert Entries() == m;
      DedupedEnd(actTable, sorted, m);
    }

    /** memmove that removes the entry at position k. */
    method MoveDown(k: nat)
      requires Valid() && k < size
      modifies this`size, table
      ensures table == old(table) && size == old(size) - 1 && Valid()
      ensures Entries() == old(Entries())[..k] + old(Entries())[k + 1..]
    {
      forall i | k <= i < size - 1 {
        table[i] := table[i + 1];
      }
      size := size - 1;
    }

    /** Binary search for the entry of an action. The result is entry 0 if there
        is none. */
    method GetActEntry(actTable: seq<ActEntry>, actionSearched: nat) returns (entryFound: nat)
      requires 0 < |actTable| && Valid() && IndexOf(actTable, Entries())
      ensures entryFound == FirstMatch(actTable, actionSearched, 0)
      ensures entryFound < |actTable|
      ensures if exists e :: 0 <= e < |actTable| && actTable[e].action == actionSearched then
          actTable[entryFound].action == actionSearched
          && forall e :: 0 <= e < entryFound ==> actTable[e].action != actionSearched
        else
          entryFound == 0
    {
      entryFound := 0;
      if actionSearched != actTable[0].action {
        ghost var map', wanted := Entries(), FirstMatch(actTable, actionSearched, 0);
        var lower, upper := -1, size as int;
        while lower + 1 < upper
          invariant -1 <= lower < upper <= size
          invariant entryFound == wanted || (entryFound == 0 && Between(actTable, map', lower, upper, actionSearched))
          decreases upper - lower
        {
          var middle := (lower + upper) / 2;
          assert table[middle] == map'[middle];
          if actTable[table[middle]].action < actionSearched {
            lower := middle;
          } else if actTable[table[middle]].action == actionSearched {
            lower := upper - 1;
            entryFound := table[middle];
          } else {
            upper := middle;
          }
        }
        if entryFound == 0 {
          NotInMap(actTable, map', lower, upper, actionSearched, wanted);
        }
      }
    }
  }

  /** An entry for the action can only be between lower and upper. */
  ghost predicate Between(actTable: seq<ActEntry>, map': seq<nat>, lower: int, upper: int, action: nat) {
    && -1 <= lower <= upper <= |map'| && 0 <= upper && Increasing(actTable, map')
    && (forall i :: 0 <= i <= lower && i < |map'| ==> actTable[map'[i]].action < action)
    && (forall i :: upper <= i < |map'| ==> actTable[map'[i]].action > action)
  }

  lemma NotInMap(actTable: seq<ActEntry>, map': seq<nat>, lower: int, upper: int, action: nat, wanted: nat)
    requires 0 < |actTable| && IndexOf(actTable, map') && wanted == FirstMatch(actTable, action, 0)
    requires wanted == 0 || (Between(actTable, map', lower, upper, action) && upper <= lower + 1)
    ensures wanted == 0
  {
    assert wanted == 0 || wanted in map' by {
      assert wanted == 0 || FirstMatch(actTable, actTable[wanted].action, 0) == wanted;
    }
  }

  // ------------------------------------------------------- search by name

  /** strcmp: a shorter string is less than its extensions. */
  function Strcmp(s: string, t: string): int {
    if s == [] then (if t == [] then 0 else -1)
    else if t == [] then 1
    else if s[0] != t[0] then (if s[0] < t[0] then -1 else 1)
    else Strcmp(s[1..], t[1..])
  }

  lemma {:induction false} StrcmpEqual(s: string, t: string)
    ensures Strcmp(s, t) == 0 <==> s == t
    ensures Strcmp(s, t) < 0 <==> Strcmp(t, s) > 0
  {
    if s != [] && t != [] && s[0] == t[0] {
      StrcmpEqual(s[1..], t[1..]);
      assert s == [s[0]] + s[1..] && t == [t[0]] + t[1..];
    }
  }

  /** The first k characters are the same: then the next one decides, and a shorter string comes first. */
  lemma {:induction false} StrcmpFirstDifference(s: string, t: string, k: nat)
    requires k <= |s| && k <= |t| && s[..k] == t[..k]
    ensures k == |s| == |t| ==> Strcmp(s, t) == 0
    ensures (k == |s| && k < |t|) || (k < |s| && k < |t| && s[k] < t[k]) ==> Strcmp(s, t) < 0
    ensures (k == |t| && k < |s|) || (k < |s| && k < |t| && s[k] > t[k]) ==> Strcmp(s, t) > 0
  {
    if k > 0 {
      assert s[..k][0] == t[..k][0] && s[..k][1..] == t[..k][1..];
      assert s[1..][..k - 1] == s[..k][1..] && t[1..][..k - 1] == t[..k][1..];
      StrcmpFirstDifference(s[1..], t[1..], k - 1);
    }
  }

  lemma {:induction false} StrcmpChain(s: string, t: string, u: string)
    ensures Strcmp(s, t) <= 0 && Strcmp(t, u) < 0 ==> Strcmp(s, u) < 0
    ensures Strcmp(s, t) < 0 && Strcmp(t, u) <= 0 ==> Strcmp(s, u) < 0
  {
    if s != [] && t != [] && u != [] && s[0] == t[0] && t[0] == u[0] {
      StrcmpChain(s[1..], t[1..], u[1..]);
    }
  }

  /** The names from entry 1 on are in alphabetical order. */
  ghost predicate NamesSorted(actTable: seq<ActEntry>) {
    forall i, j :: 1 <= i < j < |actTable| ==> Strcmp(actTable[i].name, actTable[j].name) <= 0
  }

  /** No entry up to lower and none from upper on has the name. */
  ghost predicate NameBetween(actTable: seq<ActEntry>, lower: int, upper: int, name: string) {
    && (forall i :: 1 <= i <= lower && i < |actTable| ==> Strcmp(actTable[i].name, name) < 0)
    && (forall i :: 1 <= upper <= i < |actTable| ==> Strcmp(actTable[i].name, name) > 0)
  }

  lemma {:induction false} NameBelow(entry: string, middle: string, name: string)
    requires Strcmp(entry, middle) <= 0 && Strcmp(middle, name) < 0
    ensures Strcmp(entry, name) < 0
  {
    StrcmpChain(entry, middle, name);
  }

  lemma {:induction false} NameAbove(entry: string, middle: string, name: string)
    requires Strcmp(middle, entry) <= 0 && Strcmp(middle, name) > 0
    ensures Strcmp(entry, name) > 0
  {
    StrcmpEqual(name, middle);
    StrcmpChain(name, middle, entry);
    StrcmpEqual(name, entry);
  }

  lemma {:induction false} NarrowNames(actTable: seq<ActEntry>, lower: nat, middle: nat, upper: nat, name: string)
    requires NamesSorted(actTable) && NameBetween(actTable, lower, upper, name)
    requires lower < middle < upper <= |actTable|
    ensures Strcmp(actTable[middle].name, name) < 0 ==> NameBetween(actTable, middle, upper, name)
    ensures Strcmp(actTable[middle].name, name) > 0 ==> NameBetween(actTable, lower, middle, name)
  {
    var m := actTable[middle].name;
    if Strcmp(m, name) < 0 {
      forall i | 1 <= i <= middle ensures Strcmp(actTable[i].name, name) < 0 {
        if i < middle {
          NameBelow(actTable[i].name, m, name);
        }
      }
    } else if Strcmp(m, name) > 0 {
      forall i | middle <= i < |actTable| ensures Strcmp(actTable[i].name, name) > 0 {
        if i > middle {
          NameAbove(actTable[i].name, m, name);
        }
      }
    }
  }

  datatype Option<T> = None | Some(value: T)

  /** The entry with the given name, if there is one. Entry 0 is not part of the
      sorted names and is looked at separately. */
  method SearchAction(actTable: seq<ActEntry>, actionName: string) returns (found: Option<nat>)
    requires 0 < |actTable| && NamesSorted(actTable)
    ensures found.Some? ==> found.value < |actTable| && actTable[found.value].name == actionName
    ensures found.None? ==> forall i :: 0 <= i < |actTable| ==> actTable[i].name != actionName
  {
    var actionNumber, lower, upper := 0, 0, |actTable|;
    while lower + 1 < upper
      invariant 0 <= lower < upper <= |actTable| && actionNumber < |actTable|
      invariant actionNumber != 0 ==> actTable[actionNumber].name == actionName
      invariant actionNumber == 0 ==> NameBetween(actTable, lower, upper, actionName)
      decreases upper - lower
    {
      var middle := (lower + upper) / 2;
      var comparison := Strcmp(actTable[middle].name, actionName);
      StrcmpEqual(actTable[middle].name, actionName);
      if actionNumber == 0 {
        NarrowNames(actTable, lower, middle, upper, actionName);
      }
      if comparison < 0 {
        lower := middle;
      } else if comparison == 0 {
        lower := upper - 1;
        actionNumber := middle;
      } else {
        upper := middle;
      }
    }
    if actionNumber != 0 {
      return Some(actionNumber);
    } else if Strcmp(actTable[0].name, actionName) == 0 {
      StrcmpEqual(actTable[0].name, actionName);
      return Some(0);
    } else {
      forall i | 0 <= i < |actTable| ensures actTable[i].name != actionName {
        StrcmpEqual(actTable[i].name, actionName);
      }
      return None;
    }
  }
}
