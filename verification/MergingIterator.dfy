/** Merging several sorted iterators into one, server/lib/leveldb/table/merger.cc: under any
    mix of seeks and steps in both directions it is a cursor on the merged list. */
module MergingIterator {
  import opened Wrappers
  import opened InternalKeys
  import opened Version
  import opened MergedEntries

  // A cursor on a list is an index; the length of the list stands for "not valid".

  function LastPosition<T>(s: seq<T>): nat {
    if s == [] then 0 else |s| - 1
  }

  function PrevPosition<T>(s: seq<T>, p: nat): nat
    requires p <= |s|
  {
    if p == 0 then |s| else p - 1
  }

  /** Step over the key, if the cursor is at it. */
  function PastKey(s: seq<Entry>, p: nat, key: Entry): nat {
    if p < |s| && s[p] == key then p + 1 else p
  }

  // ---------------------------------------------------------------- ranks in the merged list

  ghost predicate ValidTables(tables: seq<seq<Entry>>, merged: seq<Entry>) {
    AllSorted(tables) && AllComparable(tables) && Sorted(merged) && SameEntries(tables, merged)
  }

  ghost predicate SameEntries(tables: seq<seq<Entry>>, merged: seq<Entry>) {
    forall e {:trigger InSome(tables, e)} {:trigger e in merged} :: e in merged <==> InSome(tables, e)
  }

  ghost predicate InTable(tables: seq<seq<Entry>>, i: int, k: int) {
    0 <= i < |tables| && 0 <= k < |tables[i]|
  }

  /** Where entry k of table i stands in the merged list. */
  ghost function PlaceOf(tables: seq<seq<Entry>>, merged: seq<Entry>, i: nat, k: nat): nat
    requires InTable(tables, i, k)
  {
    IndexIn(merged, tables[i][k])
  }

  ghost function IndexIn(s: seq<Entry>, e: Entry): nat {
    if e in s then var i :| 0 <= i < |s| && s[i] == e; i else |s|
  }

  lemma PlaceHolds(tables: seq<seq<Entry>>, merged: seq<Entry>, i: nat, k: nat)
    requires ValidTables(tables, merged) && InTable(tables, i, k)
    ensures PlaceOf(tables, merged, i, k) < |merged|
    ensures merged[PlaceOf(tables, merged, i, k)] == tables[i][k]
  {
    assert InSome(tables, tables[i][k]);
  }

  lemma IndexUnique(s: seq<Entry>, p: nat)
    requires Sorted(s) && p < |s|
    ensures IndexIn(s, s[p]) == p
  {
    var q := IndexIn(s, s[p]);
    assert (p < q ==> Less(s[p], s[q])) && (q < p ==> Less(s[q], s[p]));
  }

  lemma SeekExact(s: seq<Entry>, q: nat)
    requires Sorted(s) && q < |s|
    ensures SeekIndex(s, s[q]) == q
  {
    var p := SeekIndex(s, s[q]);
    assert q < p ==> Less(s[q], s[q]);
  }

  /** Positions compare as keys do. */
  lemma PlacesOrder(tables: seq<seq<Entry>>, merged: seq<Entry>, i: nat, k: nat, j: nat, l: nat)
    requires ValidTables(tables, merged) && InTable(tables, i, k) && InTable(tables, j, l)
    ensures Less(tables[i][k], tables[j][l]) <==> PlaceOf(tables, merged, i, k) < PlaceOf(tables, merged, j, l)
    ensures i == j ==> (k < l <==> PlaceOf(tables, merged, i, k) < PlaceOf(tables, merged, j, l))
    ensures PlaceOf(tables, merged, i, k) == PlaceOf(tables, merged, j, l) ==> i == j && k == l
  {
    PlaceHolds(tables, merged, i, k);
    PlaceHolds(tables, merged, j, l);
    var p, q := PlaceOf(tables, merged, i, k), PlaceOf(tables, merged, j, l);
    assert p < q ==> Less(merged[p], merged[q]);
    assert q < p ==> Less(merged[q], merged[p]);
    if i == j {
      assert k < l ==> Less(tables[i][k], tables[i][l]);
      assert l < k ==> Less(tables[i][l], tables[i][k]);
    } else if i < j {
      assert Comparable(tables[i], tables[j]) && Ordered(tables[i][k], tables[j][l]);
    } else {
      assert Comparable(tables[j], tables[i]) && Ordered(tables[j][l], tables[i][k]);
    }
  }

  /** Every place of the merged list is that of an entry. */
  lemma PlaceTaken(tables: seq<seq<Entry>>, merged: seq<Entry>, p: nat) returns (i: nat, k: nat)
    requires ValidTables(tables, merged) && p < |merged|
    ensures InTable(tables, i, k) && PlaceOf(tables, merged, i, k) == p
  {
    var e := merged[p];
    assert InSome(tables, e);
    i :| 0 <= i < |tables| && e in tables[i];
    k :| 0 <= k < |tables[i]| && tables[i][k] == e;
    IndexUnique(merged, p);
  }

  // ---------------------------------------------------------------- where the children stand

  ghost predicate Positions(tables: seq<seq<Entry>>, pos: seq<nat>) {
    |pos| == |tables| && forall i :: 0 <= i < |pos| ==> pos[i] <= |tables[i]|
  }

  /** Child i is at its first entry of place p or later. */
  ghost predicate AtOrAfter(tables: seq<seq<Entry>>, merged: seq<Entry>, i: nat, pos: nat, p: nat)
    requires i < |tables|
  {
    forall k {:trigger PlaceOf(tables, merged, i, k)} :: 0 <= k < |tables[i]| ==>
      (k < pos <==> PlaceOf(tables, merged, i, k) < p)
  }

  /** Child i is at its last entry of a place before p, or not valid if there is none. */
  ghost predicate Before(tables: seq<seq<Entry>>, merged: seq<Entry>, i: nat, pos: nat, p: nat)
    requires i < |tables|
  {
    forall k {:trigger PlaceOf(tables, merged, i, k)} :: 0 <= k < |tables[i]| ==>
      (k <= pos < |tables[i]| <==> PlaceOf(tables, merged, i, k) < p)
  }

  ghost predicate AllAtOrAfter(tables: seq<seq<Entry>>, merged: seq<Entry>, pos: seq<nat>, p: nat)
    requires |pos| == |tables|
  {
    forall i :: 0 <= i < |tables| ==> AtOrAfter(tables, merged, i, pos[i], p)
  }

  ghost predicate AllBefore(tables: seq<seq<Entry>>, merged: seq<Entry>, pos: seq<nat>, p: nat)
    requires |pos| == |tables|
  {
    forall i :: 0 <= i < |tables| ==> Before(tables, merged, i, pos[i], p)
  }

  lemma SeekPlaces(tables: seq<seq<Entry>>, merged: seq<Entry>, i: nat, target: Entry)
    requires ValidTables(tables, merged) && i < |tables|
    ensures AtOrAfter(tables, merged, i, SeekIndex(tables[i], target), SeekIndex(merged, target))
  {
    var t := tables[i];
    var p, q := SeekIndex(merged, target), SeekIndex(t, target);
    forall k | 0 <= k < |t| ensures k < q <==> PlaceOf(tables, merged, i, k) < p {
      PlaceHolds(tables, merged, i, k);
      SeekSplits(t, target, k);
      SeekSplits(merged, target, PlaceOf(tables, merged, i, k));
    }
  }

  lemma SeekSplits(s: seq<Entry>, target: Entry, k: nat)
    requires Sorted(s) && k < |s|
    ensures k < SeekIndex(s, target) <==> Less(s[k], target)
  {
    var q := SeekIndex(s, target);
    assert q < k ==> Less(s[q], s[k]);
  }

  /** Seeking an entry of another child finds the first entry after it. */
  lemma SeekOther(tables: seq<seq<Entry>>, merged: seq<Entry>, i: nat, c: nat, k: nat)
    requires ValidTables(tables, merged) && i < |tables| && InTable(tables, c, k) && i != c
    ensures var p := PlaceOf(tables, merged, c, k); var q := SeekIndex(tables[i], tables[c][k]);
            && AtOrAfter(tables, merged, i, q, p)
            && Before(tables, merged, i,
                      if q < |tables[i]| then PrevPosition(tables[i], q) else LastPosition(tables[i]), p + 1)
            && (q < |tables[i]| ==> tables[i][q] != tables[c][k])
  {
    var p, q := PlaceOf(tables, merged, c, k), SeekIndex(tables[i], tables[c][k]);
    PlaceHolds(tables, merged, c, k);
    SeekPlaces(tables, merged, i, tables[c][k]);
    SeekExact(merged, p);
    forall l | 0 <= l < |tables[i]| ensures PlaceOf(tables, merged, i, l) != p {
      PlacesOrder(tables, merged, i, l, c, k);
    }
    if q < |tables[i]| { PlacesOrder(tables, merged, i, q, c, k); }
  }

  // ---------------------------------------------------------------- the iterator

  class Iterator {
    const tables: seq<seq<Entry>>
    ghost const merged: seq<Entry>
    const pos: array<nat>
    var current: Option<nat>
    var forward: bool
    ghost var at: nat

    ghost predicate Sound()
      reads this, pos
    {
      ValidTables(tables, merged) && pos.Length == |tables| && Positions(tables, pos[..])
    }

    /** The current child is the one whose entry has place `at`. */
    ghost predicate CurrentAt()
      requires Sound()
      reads this, pos
    {
      match current
      case None => at == |merged|
      case Some(c) => c < |tables| && pos[c] < |tables[c]| && PlaceOf(tables, merged, c, pos[c]) == at < |merged|
    }

    ghost predicate Valid()
      reads this, pos
    {
      && Sound() && CurrentAt()
      && (current.Some? && forward ==> AllAtOrAfter(tables, merged, pos[..], at))
      && (current.Some? && !forward ==> AllBefore(tables, merged, pos[..], at + 1))
    }

    constructor (tables: seq<seq<Entry>>)
      requires AllSorted(tables) && AllComparable(tables)
      ensures Valid() && current == None && this.tables == tables && merged == MergeAll(tables) && fresh(pos)
    {
      this.tables, current, forward := tables, None, true;
      pos := new nat[|tables|](_ => 0);
      merged, at := MergeAll(tables), |MergeAll(tables)|;
      MergeAllSorted(tables);
    }

    function Key(): (e: Entry)
      requires Valid() && current.Some?
      reads this, pos
      ensures at < |merged| && e == merged[at]
    {
      PlaceHolds(tables, merged, current.value, pos[current.value]);
      tables[current.value][pos[current.value]]
    }

    /** Make the child with the smallest key current. */
    method FindSmallest(ghost p: nat)
      requires Sound() && p <= |merged| && AllAtOrAfter(tables, merged, pos[..], p)
      modifies this
      ensures unchanged(pos) && forward == old(forward) && Sound() && CurrentAt() && at == p
    {
      var smallest: Option<nat> := None;
      for i := 0 to |tables|
        invariant smallest.None? ==> forall j :: 0 <= j < i ==> pos[j] == |tables[j]|
        invariant smallest.Some? ==> smallest.value < i && pos[smallest.value] < |tables[smallest.value]|
        invariant smallest.Some? ==> forall j :: 0 <= j < i && pos[j] < |tables[j]| ==>
                    !Less(tables[j][pos[j]], tables[smallest.value][pos[smallest.value]])
      {
        if pos[i] < |tables[i]| {
          if smallest.None? {
            smallest := Some(i);
          } else if Less(tables[i][pos[i]], tables[smallest.value][pos[smallest.value]]) {
            smallest := Some(i);
          }
        }
      }
      SmallestIsNext(tables, merged, pos[..], p, smallest);
      current := smallest;
      at := p;
    }

    /** Make the child with the largest key current. */
    method FindLargest(ghost p: nat)
      requires Sound() && p <= |merged| && AllBefore(tables, merged, pos[..], p)
      modifies this
      ensures unchanged(pos) && forward == old(forward) && Sound() && CurrentAt()
      ensures at == if p == 0 then |merged| else p - 1
    {
      var largest: Option<nat> := None;
      for i := |tables| downto 0
        invariant largest.None? ==> forall j :: i <= j < |tables| ==> pos[j] == |tables[j]|
        invariant largest.Some? ==> i <= largest.value < |tables| && pos[largest.value] < |tables[largest.value]|
        invariant largest.Some? ==> forall j :: i <= j < |tables| && pos[j] < |tables[j]| ==>
                    !Less(tables[largest.value][pos[largest.value]], tables[j][pos[j]])
      {
        if pos[i] < |tables[i]| {
          if largest.None? {
            largest := Some(i);
          } else if Less(tables[largest.value][pos[largest.value]], tables[i][pos[i]]) {
            largest := Some(i);
          }
        }
      }
      LargestIsPrevious(tables, merged, pos[..], p, largest);
      current := largest;
      at := if p == 0 then |merged| else p - 1;
    }

    method SeekToFirst()
      requires Valid()
      modifies this, pos
      ensures Valid() && at == 0
    {
      for i := 0 to |tables|
        invariant Sound() && forall j :: 0 <= j < i ==> AtOrAfter(tables, merged, j, pos[j], 0)
      {
        pos[i] := 0;
      }
      FindSmallest(0);
      forward := true;
    }

    method SeekToLast()
      requires Valid()
      modifies this, pos
      ensures Valid() && at == LastPosition(merged)
    {
      for i := 0 to |tables|
        invariant Sound() && forall j :: 0 <= j < i ==> Before(tables, merged, j, pos[j], |merged|)
      {
        LastIsBeforeEnd(tables, merged, i);
        pos[i] := LastPosition(tables[i]);
      }
      FindLargest(|merged|);
      forward := false;
    }

    method Seek(target: Entry)
      requires Valid()
      modifies this, pos
      ensures Valid() && at == SeekIndex(merged, target)
    {
      for i := 0 to |tables|
        invariant Sound() && forall j :: 0 <= j < i ==> AtOrAfter(tables, merged, j, pos[j], SeekIndex(merged, target))
      {
        SeekPlaces(tables, merged, i, target);
        pos[i] := SeekIndex(tables[i], target);
      }
      FindSmallest(SeekIndex(merged, target));
      forward := true;
    }

    /** Put the other children after the current key. */
    method TurnForward()
      requires Valid() && current.Some? && !forward
      modifies this`forward, pos
      ensures Sound() && pos[current.value] == old(pos[current.value])
      ensures AllAtOrAfter(tables, merged, pos[..], at) && forward
    {
      var c := current.value;
      var key := Key();
      for i := 0 to |tables|
        invariant Sound() && pos[c] == old(pos[c])
        invariant forall j :: 0 <= j < i && j != c ==> AtOrAfter(tables, merged, j, pos[j], at)
      {
        if i != c {
          SeekOther(tables, merged, i, c, pos[c]);
          pos[i] := PastKey(tables[i], SeekIndex(tables[i], key), key);
        }
      }
      CurrentAtOrAfter(tables, merged, c, pos[c]);
      forward := true;
    }

    method Next()
      requires Valid() && current.Some?
      modifies this, pos
      ensures Valid() && at == old(at) + 1
    {
      if !forward {
        TurnForward();
      }
      var c := current.value;
      ghost var p := at;
      PlaceHolds(tables, merged, c, pos[c]);
      StepForward(tables, merged, pos[..], c, p);
      pos[c] := pos[c] + 1;
      FindSmallest(p + 1);
    }

    /** Put the other children before the current key. */
    method TurnBack()
      requires Valid() && current.Some? && forward
      modifies this`forward, pos
      ensures Sound() && pos[current.value] == old(pos[current.value])
      ensures AllBefore(tables, merged, pos[..], at + 1) && !forward
    {
      var c := current.value;
      var key := Key();
      for i := 0 to |tables|
        invariant Sound() && pos[c] == old(pos[c])
        invariant forall j :: 0 <= j < i && j != c ==> Before(tables, merged, j, pos[j], at + 1)
      {
        if i != c {
          SeekOther(tables, merged, i, c, pos[c]);
          pos[i] := SeekIndex(tables[i], key);
          pos[i] := if pos[i] < |tables[i]| then PrevPosition(tables[i], pos[i]) else LastPosition(tables[i]);
        }
      }
      CurrentBefore(tables, merged, c, pos[c]);
      forward := false;
    }

    method Prev()
      requires Valid() && current.Some?
      modifies this, pos
      ensures Valid() && at == PrevPosition(merged, old(at))
    {
      if forward {
        TurnBack();
      }
      var c := current.value;
      ghost var p := at;
      PlaceHolds(tables, merged, c, pos[c]);
      StepBack(tables, merged, pos[..], c, p);
      pos[c] := PrevPosition(tables[c], pos[c]);
      FindLargest(p);
    }
  }

  lemma SmallestIsNext(tables: seq<seq<Entry>>, merged: seq<Entry>, pos: seq<nat>, p: nat, c: Option<nat>)
    requires ValidTables(tables, merged) && Positions(tables, pos) && p <= |merged|
    requires AllAtOrAfter(tables, merged, pos, p)
    requires c.None? ==> forall j :: 0 <= j < |tables| ==> pos[j] == |tables[j]|
    requires c.Some? ==> c.value < |tables| && pos[c.value] < |tables[c.value]|
    requires c.Some? ==> forall j :: 0 <= j < |tables| && pos[j] < |tables[j]| ==>
               !Less(tables[j][pos[j]], tables[c.value][pos[c.value]])
    ensures c.None? ==> p == |merged|
    ensures c.Some? ==> PlaceOf(tables, merged, c.value, pos[c.value]) == p < |merged|
  {
    if p < |merged| {
      var i, k := PlaceTaken(tables, merged, p);
      assert AtOrAfter(tables, merged, i, pos[i], p);
      assert PlaceOf(tables, merged, i, k) == p;
      if c.Some? {
        assert AtOrAfter(tables, merged, c.value, pos[c.value], p);
        PlacesOrder(tables, merged, i, pos[i], i, k);
        PlacesOrder(tables, merged, i, pos[i], c.value, pos[c.value]);
      }
    } else if c.Some? {
      assert AtOrAfter(tables, merged, c.value, pos[c.value], p);
      PlaceHolds(tables, merged, c.value, pos[c.value]);
    }
  }

  lemma LargestIsPrevious(tables: seq<seq<Entry>>, merged: seq<Entry>, pos: seq<nat>, p: nat, c: Option<nat>)
    requires ValidTables(tables, merged) && Positions(tables, pos) && p <= |merged| && AllBefore(tables, merged, pos, p)
    requires c.None? ==> forall j :: 0 <= j < |tables| ==> pos[j] == |tables[j]|
    requires c.Some? ==> c.value < |tables| && pos[c.value] < |tables[c.value]|
    requires c.Some? ==> forall j :: 0 <= j < |tables| && pos[j] < |tables[j]| ==>
               !Less(tables[c.value][pos[c.value]], tables[j][pos[j]])
    ensures c.None? ==> p == 0
    ensures c.Some? ==> PlaceOf(tables, merged, c.value, pos[c.value]) == p - 1 < |merged|
  {
    assert c.Some? ==> Before(tables, merged, c.value, pos[c.value], p);
    if p > 0 {
      var i, k := PlaceTaken(tables, merged, p - 1);
      assert Before(tables, merged, i, pos[i], p);
      assert PlaceOf(tables, merged, i, k) < p;
      if c.Some? {
        PlacesOrder(tables, merged, i, k, i, pos[i]);
        PlacesOrder(tables, merged, c.value, pos[c.value], i, pos[i]);
      }
    }
  }

  lemma LastIsBeforeEnd(tables: seq<seq<Entry>>, merged: seq<Entry>, i: nat)
    requires ValidTables(tables, merged) && i < |tables|
    ensures Before(tables, merged, i, LastPosition(tables[i]), |merged|)
  {
    forall k | 0 <= k < |tables[i]| ensures PlaceOf(tables, merged, i, k) < |merged| {
      PlaceHolds(tables, merged, i, k);
    }
  }

  lemma CurrentAtOrAfter(tables: seq<seq<Entry>>, merged: seq<Entry>, c: nat, k: nat)
    requires ValidTables(tables, merged) && InTable(tables, c, k)
    ensures AtOrAfter(tables, merged, c, k, PlaceOf(tables, merged, c, k))
  {
    forall l | 0 <= l < |tables[c]| ensures l < k <==> PlaceOf(tables, merged, c, l) < PlaceOf(tables, merged, c, k) {
      PlacesOrder(tables, merged, c, l, c, k);
    }
  }

  lemma CurrentBefore(tables: seq<seq<Entry>>, merged: seq<Entry>, c: nat, k: nat)
    requires ValidTables(tables, merged) && InTable(tables, c, k)
    ensures Before(tables, merged, c, k, PlaceOf(tables, merged, c, k) + 1)
  {
    forall l | 0 <= l < |tables[c]| ensures l <= k <==> PlaceOf(tables, merged, c, l) <= PlaceOf(tables, merged, c, k) {
      PlacesOrder(tables, merged, c, k, c, l);
    }
  }

  /** Moving the current child past place p leaves all children at or after p + 1. */
  lemma StepForward(tables: seq<seq<Entry>>, merged: seq<Entry>, pos: seq<nat>, c: nat, p: nat)
    requires ValidTables(tables, merged) && Positions(tables, pos) && AllAtOrAfter(tables, merged, pos, p)
    requires c < |tables| && pos[c] < |tables[c]| && PlaceOf(tables, merged, c, pos[c]) == p
    ensures AllAtOrAfter(tables, merged, pos[c := pos[c] + 1], p + 1)
  {
    var pos' := pos[c := pos[c] + 1];
    forall i | 0 <= i < |tables| ensures AtOrAfter(tables, merged, i, pos'[i], p + 1) {
      assert AtOrAfter(tables, merged, i, pos[i], p);
      forall k | 0 <= k < |tables[i]| ensures k < pos'[i] <==> PlaceOf(tables, merged, i, k) < p + 1 {
        PlacesOrder(tables, merged, i, k, c, pos[c]);
      }
    }
  }

  /** Moving the current child back from place p leaves all children before p. */
  lemma StepBack(tables: seq<seq<Entry>>, merged: seq<Entry>, pos: seq<nat>, c: nat, p: nat)
    requires ValidTables(tables, merged) && Positions(tables, pos) && AllBefore(tables, merged, pos, p + 1)
    requires c < |tables| && pos[c] < |tables[c]| && PlaceOf(tables, merged, c, pos[c]) == p
    ensures AllBefore(tables, merged, pos[c := PrevPosition(tables[c], pos[c])], p)
  {
    var pos' := pos[c := PrevPosition(tables[c], pos[c])];
    forall i | 0 <= i < |tables| ensures Before(tables, merged, i, pos'[i], p) {
      assert Before(tables, merged, i, pos[i], p + 1);
      forall k | 0 <= k < |tables[i]| ensures k <= pos'[i] < |tables[i]| <==> PlaceOf(tables, merged, i, k) < p {
        PlacesOrder(tables, merged, i, k, c, pos[c]);
      }
    }
  }
}
