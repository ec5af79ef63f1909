/** Iterators over the whole store, server/lib/leveldb/db/db_impl.cc and version_set.cc: a child
    for each memtable and each level-0 file, and one for each deeper level. */
module StoreIterator {
  import opened Wrappers
  import opened InternalKeys
  import opened Version
  import opened CompactionStep
  import opened MergedEntries
  import opened DbImpl
  import DbIter
  import MergingIterator

  // ---------------------------------------------------------------- the files of a level in a row

  /** The entries of the first n files, one file after the other. */
  function Concatenated(files: seq<File>, n: nat): seq<Entry>
    requires n <= |files|
  {
    if n == 0 then [] else Concatenated(files, n - 1) + files[n - 1].entries
  }

  lemma {:induction false} ConcatenatedHolds(files: seq<File>, n: nat, e: Entry)
    requires n <= |files|
    ensures e in Concatenated(files, n) <==> exists i :: 0 <= i < n && e in files[i].entries
  {
    if n > 0 { ConcatenatedHolds(files, n - 1, e); }
  }

  lemma ConcatenatedEntries(files: seq<File>)
    ensures SetOf(Concatenated(files, |files|)) == EntriesOf(files)
  {
    forall e ensures e in Concatenated(files, |files|) <==> e in EntriesOf(files) {
      ConcatenatedHolds(files, |files|, e);
      if e in EntriesOf(files) {
        var f :| f in files && e in f.entries;
        var i :| 0 <= i < |files| && files[i] == f;
      }
    }
  }

  lemma BothSorted(a: seq<Entry>, b: seq<Entry>)
    requires Sorted(a) && Sorted(b) && forall x, y {:trigger Ordered(x, y)} :: x in a && y in b ==> Less(x, y)
    ensures Sorted(a + b)
  {
    forall i, j | 0 <= i < |a| && 0 <= j < |b| ensures Less(a[i], b[j]) {
      assert Ordered(a[i], b[j]) || !Ordered(a[i], b[j]);
    }
  }

  lemma {:induction false} ConcatenatedSorted(files: seq<File>, n: nat)
    requires n <= |files| && ValidFiles(files) && Disjoint(files)
    ensures Sorted(Concatenated(files, n))
  {
    if n > 0 {
      ConcatenatedSorted(files, n - 1);
      var a, g := Concatenated(files, n - 1), files[n - 1];
      forall x, y | x in a && y in g.entries ensures Less(x, y) {
        ConcatenatedHolds(files, n - 1, x);
        var i :| 0 <= i < n - 1 && x in files[i].entries;
        InRange(files[i], x);
        InRange(g, y);
      }
      BothSorted(a, g.entries);
    }
  }

  // ---------------------------------------------------------------- the children

  /** One child for each of the levels from 1 to before l that has files. */
  function DeepTables(v: Levels, l: nat): seq<seq<Entry>>
    requires l <= |v|
  {
    if l <= 1 then []
    else DeepTables(v, l - 1) + if v[l - 1] == [] then [] else [Concatenated(v[l - 1], |v[l - 1]|)]
  }

  function Children(mem: seq<Entry>, imm: Option<seq<Entry>>, v: Levels): seq<seq<Entry>>
    requires |v| == NUM_LEVELS
  {
    [mem] + (if imm.Some? then [imm.value] else []) + (Tables(v[0]) + DeepTables(v, NUM_LEVELS))
  }

  /** All entries of the tables are among those of the set. */
  ghost predicate Within(tables: seq<seq<Entry>>, s: set<Entry>) {
    forall i {:trigger tables[i]} :: 0 <= i < |tables| ==> SetOf(tables[i]) <= s
  }

  ghost predicate Fine(tables: seq<seq<Entry>>) {
    AllSorted(tables) && AllComparable(tables)
  }

  /** Tables of newer entries before tables of older ones. */
  lemma FineTogether(a: seq<seq<Entry>>, b: seq<seq<Entry>>, newer: set<Entry>, older: set<Entry>)
    requires Fine(a) && Fine(b) && Within(a, newer) && Within(b, older) && OlderThan(newer, older)
    ensures Fine(a + b)
  {
    forall i, j | 0 <= i < j < |a + b| ensures Comparable((a + b)[i], (a + b)[j]) {
      if j < |a| {
        assert Comparable(a[i], a[j]);
      } else if i >= |a| {
        assert Comparable(b[i - |a|], b[j - |a|]);
      } else {
        AgedComparable(newer, older, a[i], b[j - |a|]);
      }
    }
  }

  lemma InEither(a: seq<seq<Entry>>, b: seq<seq<Entry>>, e: Entry)
    ensures InSome(a + b, e) <==> InSome(a, e) || InSome(b, e)
  {
    if InSome(a, e) {
      var i :| 0 <= i < |a| && e in a[i];
      assert e in (a + b)[i];
    }
    if InSome(b, e) {
      var i :| 0 <= i < |b| && e in b[i];
      assert e in (a + b)[|a| + i];
    }
  }

  /** The entries of the levels from 1 to before l. */
  ghost function Between(v: Levels, l: nat): set<Entry>
    requires l <= |v|
  {
    set k, f, e | 1 <= k < l && f in v[k] && e in f.entries :: e
  }

  lemma DeepOlder(v: Levels, l: nat)
    requires ValidVersion(v) && 1 <= l < NUM_LEVELS
    ensures OlderThan(Between(v, l), EntriesOf(v[l])) && OlderThan(EntriesOf(v[0]), Between(v, NUM_LEVELS))
    ensures Between(v, l + 1) == Between(v, l) + EntriesOf(v[l])
  {
    forall d, e | d in Between(v, l) && e in EntriesOf(v[l]) ensures After(d, e) {
      var k, f :| 1 <= k < l && f in v[k] && d in f.entries;
      assert OlderThan(EntriesOf(v[k]), EntriesOf(v[l])) && d in EntriesOf(v[k]);
    }
    forall d, e | d in EntriesOf(v[0]) && e in Between(v, NUM_LEVELS) ensures After(d, e) {
      var k, f :| 1 <= k < NUM_LEVELS && f in v[k] && e in f.entries;
      assert OlderThan(EntriesOf(v[0]), EntriesOf(v[k])) && e in EntriesOf(v[k]);
    }
  }

  /** The tables are sorted, have no key in common, and hold exactly the entries of the set. */
  ghost predicate Lists(tables: seq<seq<Entry>>, s: set<Entry>) {
    Fine(tables) && forall e {:trigger InSome(tables, e)} :: InSome(tables, e) <==> e in s
  }

  lemma ListsWithin(tables: seq<seq<Entry>>, s: set<Entry>)
    requires Lists(tables, s)
    ensures Within(tables, s)
  {
    forall i, e | 0 <= i < |tables| && e in tables[i] ensures e in s { assert InSome(tables, e); }
  }

  lemma ListsOne(t: seq<Entry>)
    requires Sorted(t)
    ensures Lists([t], SetOf(t))
  {
    forall e ensures InSome([t], e) <==> e in SetOf(t) { assert [t][0] == t; }
  }

  lemma ListsBoth(a: seq<seq<Entry>>, b: seq<seq<Entry>>, newer: set<Entry>, older: set<Entry>)
    requires Lists(a, newer) && Lists(b, older) && OlderThan(newer, older)
    ensures Lists(a + b, newer + older)
  {
    ListsWithin(a, newer);
    ListsWithin(b, older);
    FineTogether(a, b, newer, older);
    forall e ensures InSome(a + b, e) <==> e in newer + older { InEither(a, b, e); }
  }

  lemma {:induction false} DeepListed(v: Levels, l: nat)
    requires ValidVersion(v) && l <= NUM_LEVELS
    ensures Lists(DeepTables(v, l), Between(v, l))
  {
    if l > 1 {
      DeepListed(v, l - 1);
      DeepOlder(v, l - 1);
      var files := v[l - 1];
      var a, t := DeepTables(v, l - 1), Concatenated(files, |files|);
      if files == [] {
        assert DeepTables(v, l) == a && Between(v, l) == Between(v, l - 1);
      } else {
        ConcatenatedEntries(files);
        ConcatenatedSorted(files, |files|);
        ListsOne(t);
        ListsBoth(a, [t], Between(v, l - 1), EntriesOf(files));
      }
    }
  }

  lemma FirstListed(v: Levels)
    requires ValidVersion(v)
    ensures Lists(Tables(v[0]), EntriesOf(v[0]))
  {
    var files, tables := v[0], Tables(v[0]);
    forall i, j | 0 <= i < j < |tables| ensures Comparable(tables[i], tables[j]) {
      assert Differ(files[i], files[j]);
      LevelComparable(v, 0, files[i], files[j]);
    }
    TablesHold(files);
  }

  lemma LevelsListed(v: Levels)
    requires ValidVersion(v)
    ensures Lists(Tables(v[0]) + DeepTables(v, NUM_LEVELS), AllEntries(v))
  {
    FirstListed(v);
    DeepListed(v, NUM_LEVELS);
    DeepOlder(v, 1);
    ListsBoth(Tables(v[0]), DeepTables(v, NUM_LEVELS), EntriesOf(v[0]), Between(v, NUM_LEVELS));
    assert AllEntries(v) == EntriesOf(v[0]) + Between(v, NUM_LEVELS);
  }

  /** The children of the store's iterator hold exactly its entries. */
  lemma ChildrenListed(mem: seq<Entry>, imm: Option<seq<Entry>>, v: Levels)
    requires var frozen := if imm.Some? then imm.value else [];
             Sorted(mem) && Sorted(frozen) && OlderThan(SetOf(mem), SetOf(frozen)) && ValidVersion(v)
             && OlderThan(SetOf(mem) + SetOf(frozen), AllEntries(v))
    ensures Lists(Children(mem, imm, v), SetOf(mem) + SetOf(if imm.Some? then imm.value else []) + AllEntries(v))
  {
    var frozen := if imm.Some? then imm.value else [];
    var first := if imm.Some? then [imm.value] else [];
    ListsOne(mem);
    ListsOne(frozen);
    if imm.None? { assert Lists([], SetOf(frozen)); }
    ListsBoth([mem], first, SetOf(mem), SetOf(frozen));
    LevelsListed(v);
    ListsBoth([mem] + first, Tables(v[0]) + DeepTables(v, NUM_LEVELS), SetOf(mem) + SetOf(frozen), AllEntries(v));
  }

  // ---------------------------------------------------------------- what a user sees

  /** The pairs of the map, each once, in the order of their keys. */
  ghost predicate SortedContents(pairs: seq<(real, string)>, contents: map<real, string>) {
    && (forall i, j {:trigger pairs[i], pairs[j]} :: 0 <= i < j < |pairs| ==> pairs[i].0 < pairs[j].0)
    && (forall user, value {:trigger (user, value) in pairs} ::
          (user, value) in pairs <==> user in contents && contents[user] == value)
  }

  lemma LiveContents(tables: seq<seq<Entry>>, s: set<Entry>, last: nat, contents: map<real, string>)
    requires Lists(tables, s) && Agrees(s, last, contents)
    ensures SortedContents(DbIter.LivePairs(MergeAll(tables), last), contents)
  {
    var m := MergeAll(tables);
    MergeAllSorted(tables);
    assert SetOf(m) == s by {
      forall e ensures e in SetOf(m) <==> e in s { assert InSome(tables, e) <==> e in m; }
    }
    var pairs := DbIter.LivePairs(m, last);
    forall i, j | 0 <= i < j < |pairs| ensures pairs[i].0 < pairs[j].0 {
      DbIter.LivePairsIncrease(m, last, i, j);
    }
    forall user, value ensures (user, value) in pairs <==> user in contents && contents[user] == value {
      DbIter.LivePairsAnswer(m, last, user, value);
      assert Answer(s, user, last, Lookup(contents, user));
      if Answer(s, user, last, Some(value)) {
        AnswerUnique(s, user, last, Some(value), Lookup(contents, user));
      }
    }
  }

  /** A new iterator over the store runs over the store's contents in key order. */
  method NewIterator(store: Store) returns (it: DbIter.Iterator)
    requires store.Valid()
    ensures it.Valid() && !it.valid && SortedContents(it.Pairs(), store.contents)
    ensures fresh(it) && fresh(it.iter) && fresh(it.iter.pos)
  {
    ghost var s := store.Stored();
    ChildrenListed(store.mem, store.imm, store.levels);
    var list := Children(store.mem, store.imm, store.levels);
    var merging := new MergingIterator.Iterator(list);
    LiveContents(list, s, store.lastSequence, store.contents);
    it := new DbIter.Iterator(merging, store.lastSequence);
  }
}
