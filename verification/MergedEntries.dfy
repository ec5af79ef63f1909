/** The sorted union of several sorted tables. */
module MergedEntries {
  import opened InternalKeys

  /** No key occurs in both. */
  ghost predicate Comparable(a: seq<Entry>, b: seq<Entry>) {
    forall x, y {:trigger Ordered(x, y)} :: x in a && y in b ==> Ordered(x, y)
  }

  ghost predicate Ordered(x: Entry, y: Entry) {
    Less(x, y) || Less(y, x)
  }

  ghost predicate AllComparable(tables: seq<seq<Entry>>) {
    forall i, j {:trigger Comparable(tables[i], tables[j])} :: 0 <= i < j < |tables| ==>
      Comparable(tables[i], tables[j])
  }

  ghost predicate AllSorted(tables: seq<seq<Entry>>) {
    forall i :: 0 <= i < |tables| ==> Sorted(tables[i])
  }

  ghost predicate InSome(tables: seq<seq<Entry>>, e: Entry) {
    exists i :: 0 <= i < |tables| && e in tables[i]
  }

  function MergeTwo(a: seq<Entry>, b: seq<Entry>): seq<Entry>
    decreases |a| + |b|
  {
    if a == [] then b
    else if b == [] then a
    else if Less(b[0], a[0]) then [b[0]] + MergeTwo(a, b[1..])
    else [a[0]] + MergeTwo(a[1..], b)
  }

  function MergeAll(tables: seq<seq<Entry>>): seq<Entry> {
    if tables == [] then [] else MergeTwo(tables[0], MergeAll(tables[1..]))
  }

  lemma {:induction false} MergeTwoEntries(a: seq<Entry>, b: seq<Entry>)
    ensures forall e :: e in MergeTwo(a, b) <==> e in a || e in b
    decreases |a| + |b|
  {
    if a == [] || b == [] {
    } else if Less(b[0], a[0]) {
      MergeTwoEntries(a, b[1..]);
      assert b == [b[0]] + b[1..];
    } else {
      MergeTwoEntries(a[1..], b);
      assert a == [a[0]] + a[1..];
    }
  }

  lemma ConsSorted(x: Entry, s: seq<Entry>)
    requires Sorted(s) && forall e :: e in s ==> Less(x, e)
    ensures Sorted([x] + s)
  {
  }

  lemma HeadFirst(s: seq<Entry>, x: Entry)
    requires Sorted(s) && s != [] && Less(x, s[0])
    ensures forall e :: e in s ==> Less(x, e)
  {
    forall e | e in s ensures Less(x, e) {
      var i :| 0 <= i < |s| && s[i] == e;
      assert i == 0 || Less(s[0], s[i]);
    }
  }

  lemma {:induction false} MergeTwoSorted(a: seq<Entry>, b: seq<Entry>)
    requires Sorted(a) && Sorted(b) && Comparable(a, b)
    ensures Sorted(MergeTwo(a, b))
    decreases |a| + |b|
  {
    if a == [] || b == [] {
    } else if Less(b[0], a[0]) {
      MergeTwoSorted(a, b[1..]);
      MergeTwoEntries(a, b[1..]);
      HeadFirst(a, b[0]);
      ConsSorted(b[0], MergeTwo(a, b[1..]));
    } else {
      MergeTwoSorted(a[1..], b);
      MergeTwoEntries(a[1..], b);
      assert a[0] in a && b[0] in b && Ordered(a[0], b[0]);
      HeadFirst(b, a[0]);
      ConsSorted(a[0], MergeTwo(a[1..], b));
    }
  }

  /** Merging keeps every entry of every table, and sorts them. */
  lemma {:induction false} MergeAllSorted(tables: seq<seq<Entry>>)
    requires AllSorted(tables) && AllComparable(tables)
    ensures Sorted(MergeAll(tables))
    ensures forall e :: e in MergeAll(tables) <==> InSome(tables, e)
  {
    if tables != [] {
      var rest := tables[1..];
      MergeAllSorted(rest);
      forall x, y | x in tables[0] && y in MergeAll(rest) ensures Ordered(x, y) {
        var i :| 0 <= i < |rest| && y in rest[i];
        assert Comparable(tables[0], tables[i + 1]);
      }
      MergeTwoSorted(tables[0], MergeAll(rest));
      MergeTwoEntries(tables[0], MergeAll(rest));
      InSomeHead(tables);
    }
  }

  lemma InSomeHead(tables: seq<seq<Entry>>)
    requires tables != []
    ensures forall e :: InSome(tables, e) <==> e in tables[0] || InSome(tables[1..], e)
  {
    forall e ensures InSome(tables, e) <==> e in tables[0] || InSome(tables[1..], e) {
      if InSome(tables[1..], e) {
        var i :| 0 <= i < |tables[1..]| && e in tables[1..][i];
        assert e in tables[i + 1];
      }
      if InSome(tables, e) && e !in tables[0] {
        var i :| 0 <= i < |tables| && e in tables[i];
        assert e in tables[1..][i - 1];
      }
    }
  }
}
