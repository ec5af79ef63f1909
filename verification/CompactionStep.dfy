/** One compaction as a step of the whole store, server/lib/leveldb/db/db_impl.cc: the
    merged input, the output files, their numbers, and what every read sees. */
module CompactionStep {
  import opened Wrappers
  import opened InternalKeys
  import opened Version
  import opened Overlap
  import opened CompactionWork
  import opened VersionSteps
  import opened MergedEntries

  // ---------------------------------------------------------------- the merged input

  function Tables(files: seq<File>): (r: seq<seq<Entry>>)
    ensures |r| == |files| && forall i {:trigger r[i]} :: 0 <= i < |files| ==> r[i] == files[i].entries
  {
    seq(|files|, i requires 0 <= i < |files| => files[i].entries)
  }

  lemma ApartComparable(f: File, g: File)
    requires ValidFile(f) && ValidFile(g) && Apart(f, g)
    ensures Comparable(f.entries, g.entries) && Comparable(g.entries, f.entries)
  {
    forall x, y | x in f.entries && y in g.entries ensures x.user != y.user {
      InRange(f, x);
      InRange(g, y);
    }
  }

  lemma AgedComparable(a: set<Entry>, b: set<Entry>, s: seq<Entry>, t: seq<Entry>)
    requires OlderThan(a, b) && SetOf(s) <= a && SetOf(t) <= b
    ensures Comparable(s, t) && Comparable(t, s)
  {
    forall x, y | x in s && y in t ensures x.user != y.user || x.seqno > y.seqno {
      assert x in SetOf(s) && y in SetOf(t) && After(x, y);
    }
  }

  /** No two input files of the same level hold the same key. */
  lemma LevelComparable(v: Levels, level: nat, f: File, g: File)
    requires ValidVersion(v) && level < NUM_LEVELS && f in v[level] && g in v[level] && f != g
    ensures Comparable(f.entries, g.entries)
  {
    if level > 0 {
      DisjointApart(v[level], f, g);
      ApartComparable(f, g);
    } else if f.number < g.number {
      assert ByNumber(f, g);
      AgedComparable(SetOf(g.entries), SetOf(f.entries), g.entries, f.entries);
    } else {
      assert ByNumber(f, g) && ByNumber(g, f);
      AgedComparable(SetOf(f.entries), SetOf(g.entries), f.entries, g.entries);
    }
  }

  lemma InputsComparable(v: Levels, level: nat, inputs0: seq<File>, inputs1: seq<File>, i: nat, j: nat)
    requires ValidVersion(v) && level + 1 < NUM_LEVELS && Within(inputs0, v[level]) && Within(inputs1, v[level + 1])
    requires NoDuplicates(inputs0) && NoDuplicates(inputs1) && i < j < |inputs0 + inputs1|
    ensures Comparable((inputs0 + inputs1)[i].entries, (inputs0 + inputs1)[j].entries)
  {
    var f, g := (inputs0 + inputs1)[i], (inputs0 + inputs1)[j];
    assert (j < |inputs0| || i >= |inputs0|) ==> f != g by {
      if j < |inputs0| {
        assert Differ(inputs0[i], inputs0[j]);
      } else if i >= |inputs0| {
        assert Differ(inputs1[i - |inputs0|], inputs1[j - |inputs0|]);
      }
    }
    if j < |inputs0| {
      LevelComparable(v, level, f, g);
    } else if i >= |inputs0| {
      LevelComparable(v, level + 1, f, g);
    } else {
      assert f in v[level] && g in v[level + 1];
      assert OlderThan(EntriesOf(v[level]), EntriesOf(v[level + 1]));
      AgedComparable(EntriesOf(v[level]), EntriesOf(v[level + 1]), f.entries, g.entries);
    }
  }

  /** The merged input is sorted and holds exactly the entries of the input files. */
  lemma MergedInput(v: Levels, level: nat, inputs0: seq<File>, inputs1: seq<File>)
    requires ValidVersion(v) && ClosedSelection(v, level, inputs0, inputs1)
    ensures var input := MergeAll(Tables(inputs0 + inputs1));
            Sorted(input) && SetOf(input) == EntriesOf(inputs0) + EntriesOf(inputs1)
  {
    var files := inputs0 + inputs1;
    var tables := Tables(files);
    forall i, j | 0 <= i < j < |tables| ensures Comparable(tables[i], tables[j]) {
      InputsComparable(v, level, inputs0, inputs1, i, j);
    }
    forall i | 0 <= i < |tables| ensures Sorted(tables[i]) {
      assert files[i] in files && ValidFile(files[i]);
    }
    MergeAllSorted(tables);
    ConcatEntries(inputs0, inputs1);
    TablesHold(files);
  }

  lemma TablesHold(files: seq<File>)
    ensures forall e :: InSome(Tables(files), e) <==> e in EntriesOf(files)
  {
    forall e ensures InSome(Tables(files), e) <==> e in EntriesOf(files) {
      if e in EntriesOf(files) {
        var i :| 0 <= i < |files| && e in files[i].entries;
        assert e in Tables(files)[i];
      }
    }
  }

  // ---------------------------------------------------------------- the output files

  /** Strictly increasing user keys: one entry for each. */
  ghost predicate Increasing(s: seq<Entry>) {
    forall i, j :: 0 <= i < j < |s| ==> s[i].user < s[j].user
  }

  /** Without older snapshots a compaction keeps at most one entry of each user key. */
  lemma {:induction false} KeptIncreasing(input: seq<Entry>, n: nat, smallestSnapshot: nat, v: Levels, level: nat)
    requires ValidVersion(v) && n <= |input| && Sorted(input)
    requires forall i :: 0 <= i < |input| ==> input[i].seqno <= smallestSnapshot
    ensures Increasing(Kept(input, n, smallestSnapshot, v, level))
  {
    if n > 0 {
      KeptIncreasing(input, n - 1, smallestSnapshot, v, level);
      KeptEntries(input, n - 1, smallestSnapshot, v, level);
      var before := Kept(input, n - 1, smallestSnapshot, v, level);
      if !Dropped(input, n - 1, smallestSnapshot, v, level) {
        forall j | 0 <= j < |before| ensures before[j].user < input[n - 1].user {
          assert before[j] in before;
          var i :| 0 <= i < n - 1 && input[i] == before[j];
          assert input[n - 2].user != input[n - 1].user && Less(input[n - 2], input[n - 1]);
          assert i == n - 2 || Less(input[i], input[n - 2]);
        }
      }
    }
  }

  /** However an increasing list is cut into pieces, the pieces are increasing and disjoint. */
  lemma {:induction false} CutIncreasing(parts: seq<seq<Entry>>)
    requires Increasing(Concat(parts))
    ensures forall i :: 0 <= i < |parts| ==> Increasing(parts[i])
    ensures forall i, j :: 0 <= i < j < |parts| ==> UsersBefore(parts[i], parts[j])
    ensures forall e :: e in Concat(parts) <==> InSome(parts, e)
  {
    if parts != [] {
      var n := |parts| - 1;
      var front, last := parts[..n], parts[n];
      var c := Concat(front);
      assert Concat(parts) == c + last;
      assert Increasing(c) by {
        forall i, j | 0 <= i < j < |c| ensures c[i].user < c[j].user {
          assert (c + last)[i] == c[i] && (c + last)[j] == c[j];
        }
      }
      CutIncreasing(front);
      assert Increasing(last) by {
        forall i, j | 0 <= i < j < |last| ensures last[i].user < last[j].user {
          assert (c + last)[|c| + i] == last[i] && (c + last)[|c| + j] == last[j];
        }
      }
      assert UsersBefore(c, last) by {
        forall i, j | 0 <= i < |c| && 0 <= j < |last| ensures c[i].user < last[j].user {
          assert (c + last)[i] == c[i] && (c + last)[|c| + j] == last[j];
        }
      }
      SnocParts(front, last, parts);
    }
  }

  lemma SnocParts(front: seq<seq<Entry>>, last: seq<Entry>, parts: seq<seq<Entry>>)
    requires parts == front + [last] && UsersBefore(Concat(front), last)
    requires forall i, j :: 0 <= i < j < |front| ==> UsersBefore(front[i], front[j])
    requires forall e :: e in Concat(front) <==> InSome(front, e)
    ensures forall i, j :: 0 <= i < j < |parts| ==> UsersBefore(parts[i], parts[j])
    ensures forall e :: e in Concat(front) + last <==> InSome(parts, e)
  {
    forall e ensures e in Concat(front) + last <==> InSome(parts, e) {
      if e in Concat(front) {
        var i :| 0 <= i < |front| && e in front[i];
        assert e in parts[i];
      } else if e in last {
        assert e in parts[|front|];
      }
      if InSome(parts, e) {
        var i :| 0 <= i < |parts| && e in parts[i];
        assert i < |front| ==> InSome(front, e);
      }
    }
    forall i | 0 <= i < |front| ensures UsersBefore(front[i], last) {
      forall x, y | x in front[i] && y in last ensures x.user < y.user {
        assert InSome(front, x);
      }
    }
  }

  ghost predicate UsersBefore(a: seq<Entry>, b: seq<Entry>) {
    forall x, y :: x in a && y in b ==> x.user < y.user
  }

  /** The files a compaction writes, numbered from first on. */
  function OutputFiles(parts: seq<seq<Entry>>, first: nat, size: nat -> nat): (r: seq<File>)
    ensures |r| == |parts|
    ensures forall i {:trigger r[i]} :: 0 <= i < |parts| ==> r[i] == File(first + i, size(i), parts[i])
  {
    seq(|parts|, i requires 0 <= i < |parts| => File(first + i, size(i), parts[i]))
  }

  lemma OutputsFit(parts: seq<seq<Entry>>, first: nat, size: nat -> nat)
    requires Increasing(Concat(parts)) && forall i :: 0 <= i < |parts| ==> |parts[i]| > 0
    requires forall e :: e in Concat(parts) ==> e.seqno <= MAX_SEQUENCE
    ensures ValidFiles(OutputFiles(parts, first, size)) && Disjoint(OutputFiles(parts, first, size))
    ensures EntriesOf(OutputFiles(parts, first, size)) == SetOf(Concat(parts))
  {
    var files := OutputFiles(parts, first, size);
    CutIncreasing(parts);
    forall i | 0 <= i < |files| ensures ValidFile(files[i]) {
      forall e | e in files[i].entries ensures e.seqno <= MAX_SEQUENCE {
        assert InSome(parts, e);
      }
    }
    forall i, j | 0 <= i < j < |files| ensures Largest(files[i]).user < Smallest(files[j]).user {
      assert UsersBefore(parts[i], parts[j]);
      assert Largest(files[i]) in parts[i] && Smallest(files[j]) in parts[j];
    }
    OutputEntries(parts, files);
  }

  lemma OutputEntries(parts: seq<seq<Entry>>, files: seq<File>)
    requires |files| == |parts| && forall i :: 0 <= i < |files| ==> files[i].entries == parts[i]
    requires forall e :: e in Concat(parts) <==> InSome(parts, e)
    ensures EntriesOf(files) == SetOf(Concat(parts))
  {
    forall e ensures e in EntriesOf(files) <==> InSome(parts, e) {
      if InSome(parts, e) {
        var i :| 0 <= i < |parts| && e in parts[i];
        assert files[i] in files;
      }
    }
  }

  // ---------------------------------------------------------------- file numbers

  /** A file number names one file of one level, and numbers from next on are free. */
  ghost predicate ValidNumbers(v: Levels, next: nat) {
    && (forall l, f {:trigger f in v[l]} :: 0 <= l < |v| && f in v[l] ==> f.number < next)
    && (forall a, b, f, g {:trigger SameFile(a, b, f, g)} :: 0 <= a < |v| && 0 <= b < |v| && f in v[a] && g in v[b] ==>
          SameFile(a, b, f, g))
  }

  ghost predicate SameFile(a: int, b: int, f: File, g: File) {
    f.number == g.number ==> a == b && f == g
  }

  lemma NumbersUnique(v: Levels, next: nat, level: nat)
    requires ValidNumbers(v, next) && level < |v|
    ensures UniqueNumbers(v[level])
  {
    forall f, g | f in v[level] && g in v[level] ensures OneNumber(f, g) {
      assert SameFile(level, level, f, g);
    }
  }

  /** Where the files of v' come from: v, or new ones at a level. */
  lemma NumbersAdded(v: Levels, v': Levels, next: nat, next': nat, level: nat, added: seq<File>)
    requires ValidNumbers(v, next) && |v'| == |v| && level < |v| && next <= next'
    requires forall l, f :: 0 <= l < |v| && f in v'[l] ==> f in v[l] || (l == level && f in added)
    requires forall f :: f in added ==> next <= f.number < next'
    requires UniqueNumbers(added)
    ensures ValidNumbers(v', next')
  {
    forall l, f | 0 <= l < |v| && f in v'[l] ensures f.number < next' && (f in v[l] ==> f.number < next) {
    }
    forall a, b, f, g | 0 <= a < |v| && 0 <= b < |v| && f in v'[a] && g in v'[b] ensures SameFile(a, b, f, g) {
      if f in v[a] && g in v[b] {
        assert SameFile(a, b, f, g);
      } else if f in added && g in added {
        assert OneNumber(f, g);
      }
    }
  }

  /** A file moved to another level keeps its number. */
  lemma NumbersMoved(v: Levels, v': Levels, next: nat, level: nat, f: File)
    requires ValidNumbers(v, next) && |v'| == |v| && level + 1 < |v| && f in v[level]
    requires forall l, g :: 0 <= l < |v| && g in v'[l] ==>
               (g in v[l] && !(l == level && g == f)) || (l == level + 1 && g == f)
    ensures ValidNumbers(v', next)
  {
    forall l, g | 0 <= l < |v| && g in v'[l] ensures g.number < next {
      assert g in v[if l == level + 1 && g == f then level else l];
    }
    forall a, b, g, h | 0 <= a < |v| && 0 <= b < |v| && g in v'[a] && h in v'[b] ensures SameFile(a, b, g, h) {
      var a', b' := if a == level + 1 && g == f then level else a, if b == level + 1 && h == f then level else b;
      assert g in v[a'] && h in v[b'] && SameFile(a', b', g, h);
    }
  }

  lemma OutputNumbers(parts: seq<seq<Entry>>, first: nat, size: nat -> nat)
    ensures forall f :: f in OutputFiles(parts, first, size) ==> first <= f.number < first + |parts|
    ensures UniqueNumbers(OutputFiles(parts, first, size))
  {
  }

  // ---------------------------------------------------------------- the step

  /** The table files together with the younger entries still in memory. */
  ghost predicate ValidTables(young: set<Entry>, v: Levels, last: nat, next: nat) {
    && ValidVersion(v) && ValidNumbers(v, next)
    && OlderThan(young, AllEntries(v))
    && Numbered(young + AllEntries(v))
    && last < MAX_SEQUENCE && UpTo(young + AllEntries(v), last)
  }

  ghost predicate UpTo(s: set<Entry>, last: nat) {
    forall e {:trigger e in s} :: e in s ==> e.seqno <= last
  }

  /** Files whose entries were in the store before keep what is known of the entries. */
  lemma FewerEntries(young: set<Entry>, v: Levels, last: nat, next: nat, v': Levels, next': nat)
    requires ValidTables(young, v, last, next)
    requires ValidVersion(v') && ValidNumbers(v', next') && AllEntries(v') <= AllEntries(v)
    ensures ValidTables(young, v', last, next')
  {
  }

  /** Compaction outputs change no answer. */
  lemma CompactionInvisible(young: set<Entry>, v: Levels, last: nat, level: nat, inputs0: seq<File>,
                            inputs1: seq<File>, input: seq<Entry>, v': Levels, outputs: seq<File>,
                            user: real, r: Option<string>)
    requires ValidVersion(v) && OlderThan(young, AllEntries(v)) && ClosedSelection(v, level, inputs0, inputs1)
    requires Sorted(input) && SetOf(input) == EntriesOf(inputs0) + EntriesOf(inputs1)
    requires EntriesOf(outputs) == SetOf(Kept(input, |input|, last, v, level))
    requires AllEntries(v) == Untouched(v, level, inputs0, inputs1) + SetOf(input)
    requires AllEntries(v') == Untouched(v, level, inputs0, inputs1) + EntriesOf(outputs)
    requires Answer(young + AllEntries(v), user, last, r)
    ensures Answer(young + AllEntries(v'), user, last, r)
  {
    var untouched := Untouched(v, level, inputs0, inputs1);
    RestIsYounger(young, v, level, inputs0, inputs1, input);
    Grouped(young, untouched, SetOf(input));
    Grouped(young, untouched, EntriesOf(outputs));
    DropsAreInvisible(input, last, v, level, young + untouched, user, last, r);
  }

  lemma Grouped(a: set<Entry>, b: set<Entry>, c: set<Entry>)
    ensures a + (b + c) == (a + b) + c
  {
  }

  lemma RestIsYounger(young: set<Entry>, v: Levels, level: nat, inputs0: seq<File>, inputs1: seq<File>,
                      input: seq<Entry>)
    requires ValidVersion(v) && ClosedSelection(v, level, inputs0, inputs1) && OlderThan(young, AllEntries(v))
    requires SetOf(input) == EntriesOf(inputs0) + EntriesOf(inputs1) && SetOf(input) <= AllEntries(v)
    ensures NothingOlder(young + Untouched(v, level, inputs0, inputs1), input, v, level)
  {
    var rest := young + Untouched(v, level, inputs0, inputs1);
    forall d, e | d in rest && e in input && IsBaseLevel(v, level, e.user) ensures After(d, e)
    {
      assert e in SetOf(input);
      if d !in young { UntouchedIsNewer(v, level, inputs0, inputs1, d, e); }
    }
  }
}
