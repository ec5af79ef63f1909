/** Versions of the table files, server/lib/leveldb/db/version_set.cc: the level
    invariants, lookups, and the overlap searches of compaction. */
module Version {
  import opened Wrappers
  import opened InternalKeys

  const NUM_LEVELS: nat := 7
  const MAX_MEM_COMPACT_LEVEL: nat := 2
  const TARGET_FILE_SIZE: nat := 2 * 1048576
  const MAX_GRANDPARENT_OVERLAP_BYTES: nat := 10 * TARGET_FILE_SIZE
  const EXPANDED_COMPACTION_BYTE_SIZE_LIMIT: nat := 25 * TARGET_FILE_SIZE

  datatype File = File(number: nat, size: nat, entries: seq<Entry>)

  type Levels = seq<seq<File>>

  ghost predicate ValidFile(f: File) {
    && |f.entries| > 0 && Sorted(f.entries)
    && forall e {:trigger e in f.entries} :: e in f.entries ==> e.seqno <= MAX_SEQUENCE
  }

  ghost predicate ValidFiles(fs: seq<File>) {
    forall i :: 0 <= i < |fs| ==> ValidFile(fs[i])
  }

  function Smallest(f: File): Entry
    requires |f.entries| > 0
  {
    f.entries[0]
  }

  function Largest(f: File): Entry
    requires |f.entries| > 0
  {
    f.entries[|f.entries| - 1]
  }

  /** Every entry lies between the smallest and the largest. */
  lemma InRange(f: File, e: Entry)
    requires ValidFile(f) && e in f.entries
    ensures Smallest(f).user <= e.user <= Largest(f).user
    ensures e == Smallest(f) || Less(Smallest(f), e)
    ensures e == Largest(f) || Less(e, Largest(f))
  {
    var n := |f.entries| - 1;
    var i :| 0 <= i <= n && f.entries[i] == e;
    assert (i == 0 || Less(f.entries[0], f.entries[i])) && (i == n || Less(f.entries[i], f.entries[n]));
  }

  ghost function EntriesOf(fs: seq<File>): set<Entry> {
    set f, e | f in fs && e in f.entries :: e
  }

  ghost function AllEntries(v: Levels): set<Entry> {
    set l, f, e | 0 <= l < |v| && f in v[l] && e in f.entries :: e
  }

  // ---------------------------------------------------------------- level invariants

  /** Files in increasing order, no two sharing a user key. */
  ghost predicate Disjoint(fs: seq<File>)
    requires ValidFiles(fs)
  {
    forall i, j :: 0 <= i < j < |fs| ==> Largest(fs[i]).user < Smallest(fs[j]).user
  }

  /** Of two level-0 files the one with the larger number has the newer entries. */
  ghost predicate NumbersAge(fs: seq<File>) {
    forall f, g {:trigger ByNumber(f, g)} :: f in fs && g in fs ==> ByNumber(f, g)
  }

  ghost predicate ByNumber(f: File, g: File) {
    && (f.number == g.number ==> f == g)
    && (f.number < g.number ==> OlderThan(SetOf(g.entries), SetOf(f.entries)))
  }

  /** If both are of the same user key, d was written after e. */
  ghost predicate After(d: Entry, e: Entry) {
    d.user == e.user ==> d.seqno > e.seqno
  }

  ghost predicate OlderThan(newer: set<Entry>, older: set<Entry>) {
    forall d, e {:trigger After(d, e)} :: d in newer && e in older ==> After(d, e)
  }

  /** The entries of a user key get strictly older with depth. */
  ghost predicate AgesWithDepth(v: Levels) {
    forall a, b :: 0 <= a < b < |v| ==> OlderThan(EntriesOf(v[a]), EntriesOf(v[b]))
  }

  ghost predicate NoDuplicates(fs: seq<File>) {
    forall i, j {:trigger Differ(fs[i], fs[j])} :: 0 <= i < j < |fs| ==> Differ(fs[i], fs[j])
  }

  ghost predicate Differ(f: File, g: File) {
    f != g
  }

  ghost predicate ValidVersion(v: Levels) {
    && |v| == NUM_LEVELS
    && (forall l :: 0 <= l < NUM_LEVELS ==> NoDuplicates(v[l]))
    && (forall l :: 0 <= l < NUM_LEVELS ==> ValidFiles(v[l]))
    && (forall l :: 1 <= l < NUM_LEVELS ==> Disjoint(v[l]))
    && NumbersAge(v[0])
    && AgesWithDepth(v)
  }

  // ---------------------------------------------------------------- lookups

  /** Index of the first entry at or after the target. */
  function SeekIndex(s: seq<Entry>, target: Entry): (r: nat)
    ensures r <= |s|
    ensures forall i {:trigger Less(s[i], target)} :: 0 <= i < r ==> Less(s[i], target)
    ensures r < |s| ==> !Less(s[r], target)
  {
    if s == [] then 0
    else if Less(s[|s| - 1], target) && SeekIndex(s[..|s| - 1], target) == |s| - 1 then |s|
    else SeekIndex(s[..|s| - 1], target)
  }

  /** Search one sorted table: the first entry at or after the seek key, if it has the user key. */
  function TableGet(s: seq<Entry>, user: real, snapshot: nat): (r: Option<Entry>)
  {
    var i := SeekIndex(s, SeekKey(user, snapshot));
    if i < |s| && s[i].user == user then Some(s[i]) else None
  }

  ghost predicate Finds(s: set<Entry>, user: real, snapshot: nat, r: Option<Entry>) {
    match r
    case Some(e) => Newest(s, user, snapshot, e)
    case None => NoneVisible(s, user, snapshot)
  }

  ghost function SetOf(s: seq<Entry>): set<Entry> {
    set e | e in s
  }

  lemma TableGetFinds(s: seq<Entry>, user: real, snapshot: nat)
    requires Sorted(s)
    ensures Finds(SetOf(s), user, snapshot, TableGet(s, user, snapshot))
  {
    var key := SeekKey(user, snapshot);
    var i := SeekIndex(s, key);
    forall x | Visible(SetOf(s), user, snapshot, x)
      ensures i < |s| && s[i].user == user && (x == s[i] || Less(s[i], x))
    {
      var j :| 0 <= j < |s| && s[j] == x;
      assert !Less(x, key);
      assert i <= j;
      assert i == j || Less(s[i], s[j]);
    }
  }

  /** Index of the first file whose largest key is at or after the key. */
  method FindFile(files: seq<File>, key: Entry) returns (r: nat)
    requires ValidFiles(files) && Disjoint(files)
    ensures r <= |files|
    ensures forall i :: 0 <= i < r ==> Less(Largest(files[i]), key)
    ensures forall i :: r <= i < |files| ==> !Less(Largest(files[i]), key)
  {
    var left, right := 0, |files|;
    while left < right
      invariant 0 <= left <= right <= |files|
      invariant forall i :: 0 <= i < left ==> Less(Largest(files[i]), key)
      invariant forall i :: right <= i < |files| ==> !Less(Largest(files[i]), key)
    {
      var mid := (left + right) / 2;
      LargestIncreasing(files, mid);
      if Less(Largest(files[mid]), key) {
        left := mid + 1;
      } else {
        right := mid;
      }
    }
    r := right;
  }

  lemma LargestIncreasing(files: seq<File>, mid: nat)
    requires ValidFiles(files) && Disjoint(files) && mid < |files|
    ensures forall i :: 0 <= i < mid ==> Largest(files[i]).user < Largest(files[mid]).user
    ensures forall i :: mid < i < |files| ==> Largest(files[mid]).user < Largest(files[i]).user
  {
    forall i | 0 <= i < |files| ensures Smallest(files[i]).user <= Largest(files[i]).user {
      InRange(files[i], Largest(files[i]));
    }
  }

  /** Only the file found by the binary search can hold a visible entry of the user key. */
  lemma OnlyCandidate(files: seq<File>, user: real, snapshot: nat, r: nat)
    requires ValidFiles(files) && Disjoint(files) && r <= |files|
    requires forall i :: 0 <= i < r ==> Less(Largest(files[i]), SeekKey(user, snapshot))
    requires forall i :: r <= i < |files| ==> !Less(Largest(files[i]), SeekKey(user, snapshot))
    ensures forall f, e :: f in files && e in f.entries && e.user == user && e.seqno <= snapshot ==>
              r < |files| && f == files[r] && Smallest(f).user <= user
  {
    forall f, e | f in files && e in f.entries && e.user == user && e.seqno <= snapshot
      ensures r < |files| && f == files[r] && Smallest(f).user <= user
    {
      var i :| 0 <= i < |files| && files[i] == f;
      InRange(f, e);
      assert r <= i;
    }
  }

  /** Search one level above 0. */
  method LevelGet(files: seq<File>, user: real, snapshot: nat) returns (r: Option<Entry>)
    requires ValidFiles(files) && Disjoint(files)
    ensures Finds(EntriesOf(files), user, snapshot, r)
  {
    var index := FindFile(files, SeekKey(user, snapshot));
    OnlyCandidate(files, user, snapshot, index);
    if index >= |files| {
      return None;
    }
    var f := files[index];
    if user < Smallest(f).user {
      return None;
    }
    r := TableGet(f.entries, user, snapshot);
    TableGetFinds(f.entries, user, snapshot);
    CandidateDecides(files, f, user, snapshot, r);
  }

  /** If only one file can hold visible entries, its answer is the answer. */
  lemma CandidateDecides(files: seq<File>, f: File, user: real, snapshot: nat, r: Option<Entry>)
    requires f in files && Finds(SetOf(f.entries), user, snapshot, r)
    requires forall g, e :: g in files && e in g.entries && e.user == user && e.seqno <= snapshot ==> g == f
    ensures Finds(EntriesOf(files), user, snapshot, r)
  {
    forall x | Visible(EntriesOf(files), user, snapshot, x) ensures Visible(SetOf(f.entries), user, snapshot, x) {
    }
    if r.Some? {
      assert Visible(EntriesOf(files), user, snapshot, r.value);
    }
  }

  // ---------------------------------------------------------------- level 0

  /** Insert a file into a list sorted by decreasing number. */
  function InsertNewestFirst(f: File, fs: seq<File>): (r: seq<File>)
    ensures forall g :: g in r <==> g == f || g in fs
  {
    if fs == [] || f.number > fs[0].number then [f] + fs
    else
      assert fs == [fs[0]] + fs[1..];
      [fs[0]] + InsertNewestFirst(f, fs[1..])
  }

  ghost predicate NewestFirst(fs: seq<File>) {
    forall i, j :: 0 <= i < j < |fs| ==> fs[i].number > fs[j].number
  }

  lemma {:induction false} InsertedNewestFirst(f: File, fs: seq<File>)
    requires NewestFirst(fs) && forall g :: g in fs ==> g.number != f.number
    ensures NewestFirst(InsertNewestFirst(f, fs))
  {
    if fs != [] && f.number <= fs[0].number {
      InsertedNewestFirst(f, fs[1..]);
      var rest := InsertNewestFirst(f, fs[1..]);
      forall j | 0 <= j < |rest| ensures fs[0].number > rest[j].number {
        assert rest[j] in rest;
      }
    }
  }

  /** The files whose range holds the user key are all in the list. */
  ghost predicate HoldsCandidates(r: seq<File>, files: seq<File>, user: real)
    requires ValidFiles(files)
  {
    && (forall f :: f in r ==> f in files)
    && (forall f :: f in files && Smallest(f).user <= user <= Largest(f).user ==> f in r)
  }

  /** The level-0 files whose range holds the user key, newest first. */
  method OverlappingNewestFirst(files: seq<File>, user: real) returns (r: seq<File>)
    requires ValidFiles(files) && NumbersAge(files)
    ensures HoldsCandidates(r, files, user) && NewestFirst(r)
  {
    r := [];
    for i := 0 to |files|
      invariant HoldsCandidates(r, files[..i], user) && NewestFirst(r)
    {
      var f := files[i];
      assert files[..i + 1] == files[..i] + [f];
      if user >= Smallest(f).user && user <= Largest(f).user && f !in r {
        forall g | g in r ensures g.number != f.number {
          assert g in files && f in files && ByNumber(g, f);
        }
        InsertedNewestFirst(f, r);
        r := InsertNewestFirst(f, r);
      }
    }
    assert files[..|files|] == files;
  }

  /** Search level 0: the files that hold the user key, newest first. */
  method Level0Get(files: seq<File>, user: real, snapshot: nat) returns (r: Option<Entry>)
    requires ValidFiles(files) && NumbersAge(files)
    ensures Finds(EntriesOf(files), user, snapshot, r)
  {
    var tmp := OverlappingNewestFirst(files, user);
    r := None;
    for i := 0 to |tmp|
      invariant r == None
      invariant forall j :: 0 <= j < i ==> NoneVisible(SetOf(tmp[j].entries), user, snapshot)
    {
      var f := tmp[i];
      assert f in files;
      r := TableGet(f.entries, user, snapshot);
      TableGetFinds(f.entries, user, snapshot);
      if r.Some? {
        NewestFileDecides(files, tmp, i, user, snapshot, r.value);
        return;
      }
    }
    NoCandidateSees(files, tmp, user, snapshot);
  }

  lemma NoCandidateSees(files: seq<File>, tmp: seq<File>, user: real, snapshot: nat)
    requires ValidFiles(files) && HoldsCandidates(tmp, files, user)
    requires forall j :: 0 <= j < |tmp| ==> NoneVisible(SetOf(tmp[j].entries), user, snapshot)
    ensures NoneVisible(EntriesOf(files), user, snapshot)
  {
    forall x ensures !Visible(EntriesOf(files), user, snapshot, x) {
      if x in EntriesOf(files) && x.user == user {
        var f :| f in files && x in f.entries;
        InRange(f, x);
        var j :| 0 <= j < |tmp| && tmp[j] == f;
        assert !Visible(SetOf(tmp[j].entries), user, snapshot, x);
      }
    }
  }

  /** The newest file with a visible entry has the newest entry of the level. */
  lemma NewestFileDecides(files: seq<File>, tmp: seq<File>, i: nat, user: real, snapshot: nat, e: Entry)
    requires ValidFiles(files) && NumbersAge(files) && HoldsCandidates(tmp, files, user) && NewestFirst(tmp)
    requires i < |tmp|
    requires forall j :: 0 <= j < i ==> NoneVisible(SetOf(tmp[j].entries), user, snapshot)
    requires Newest(SetOf(tmp[i].entries), user, snapshot, e)
    ensures Newest(EntriesOf(files), user, snapshot, e)
  {
    assert tmp[i] in files;
    assert e in EntriesOf(files);
    forall x | Visible(EntriesOf(files), user, snapshot, x) ensures x == e || Less(e, x) {
      var f :| f in files && x in f.entries;
      InRange(f, x);
      assert f in tmp;
      OtherFileOlder(files, tmp, i, f, user, snapshot, e, x);
    }
  }

  lemma OtherFileOlder(files: seq<File>, tmp: seq<File>, i: nat, f: File, user: real, snapshot: nat, e: Entry, x: Entry)
    requires NumbersAge(files) && NewestFirst(tmp) && i < |tmp| && f in tmp
    requires tmp[i] in files && f in files
    requires forall j :: 0 <= j < i ==> NoneVisible(SetOf(tmp[j].entries), user, snapshot)
    requires Newest(SetOf(tmp[i].entries), user, snapshot, e)
    requires Visible(SetOf(f.entries), user, snapshot, x)
    ensures x == e || Less(e, x)
  {
    var j :| 0 <= j < |tmp| && tmp[j] == f;
    assert j >= i;
    if i < j {
      assert ByNumber(f, tmp[i]) && After(e, x);
    }
  }

  // ---------------------------------------------------------------- the whole version

  /** Search level by level.  The first hit is the newest visible entry of the version. */
  method Get(v: Levels, user: real, snapshot: nat) returns (r: Option<Entry>)
    requires ValidVersion(v)
    ensures Finds(AllEntries(v), user, snapshot, r)
  {
    r := None;
    for level := 0 to NUM_LEVELS
      invariant r == None
      invariant forall l :: 0 <= l < level ==> NoneVisible(EntriesOf(v[l]), user, snapshot)
    {
      if level == 0 {
        r := Level0Get(v[0], user, snapshot);
      } else {
        r := LevelGet(v[level], user, snapshot);
      }
      if r.Some? {
        FirstLevelDecides(v, level, user, snapshot, r.value);
        return;
      }
    }
    NoLevelSees(v, user, snapshot);
  }

  lemma NoLevelSees(v: Levels, user: real, snapshot: nat)
    requires forall l :: 0 <= l < |v| ==> NoneVisible(EntriesOf(v[l]), user, snapshot)
    ensures NoneVisible(AllEntries(v), user, snapshot)
  {
    forall x ensures !Visible(AllEntries(v), user, snapshot, x) {
      if x in AllEntries(v) {
        var l :| 0 <= l < |v| && x in EntriesOf(v[l]);
        assert !Visible(EntriesOf(v[l]), user, snapshot, x);
      }
    }
  }

  lemma FirstLevelDecides(v: Levels, level: nat, user: real, snapshot: nat, e: Entry)
    requires ValidVersion(v) && level < |v| && Newest(EntriesOf(v[level]), user, snapshot, e)
    requires forall l :: 0 <= l < level ==> NoneVisible(EntriesOf(v[l]), user, snapshot)
    ensures Newest(AllEntries(v), user, snapshot, e)
  {
    forall x | Visible(AllEntries(v), user, snapshot, x) ensures x == e || Less(e, x) {
      var l :| 0 <= l < |v| && x in EntriesOf(v[l]);
      assert Visible(EntriesOf(v[l]), user, snapshot, x);
      if level < l {
        assert OlderThan(EntriesOf(v[level]), EntriesOf(v[l])) && After(e, x);
      }
    }
  }
}
