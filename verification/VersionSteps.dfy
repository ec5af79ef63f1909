/** What flushes and compactions do to a version, and that they keep its invariants. */
module VersionSteps {
  import opened Wrappers
  import opened InternalKeys
  import opened Version
  import opened Overlap
  import opened CompactionWork
  import opened VersionBuilder

  /** Within a level a file number names one file. */
  ghost predicate UniqueNumbers(files: seq<File>) {
    forall f, g {:trigger OneNumber(f, g)} :: f in files && g in files ==> OneNumber(f, g)
  }

  ghost predicate OneNumber(f: File, g: File) {
    f.number == g.number ==> f == g
  }

  function Numbers(files: seq<File>): set<nat> {
    set f | f in files :: f.number
  }

  lemma DisjointNoDuplicates(files: seq<File>)
    requires ValidFiles(files) && Disjoint(files)
    ensures NoDuplicates(files)
  {
    forall i | 0 <= i < |files| ensures Smallest(files[i]).user <= Largest(files[i]).user {
      RangeOrder(files[i]);
    }
  }

  // ---------------------------------------------------------------- adding a flushed table

  /** A new table goes into a level with nothing of its range at or above that level. */
  ghost predicate CanAdd(v: Levels, level: nat, f: File)
    requires ValidVersion(v)
  {
    && level < NUM_LEVELS && ValidFile(f)
    && OlderThan(SetOf(f.entries), AllEntries(v))
    && (forall g :: g in v[level] ==> g.number < f.number)
    && (level > 0 ==> forall l :: 0 <= l <= level ==> !SomeOverlap(v[l], Some(Smallest(f).user), Some(Largest(f).user)))
  }

  ghost function WithFile(v: Levels, level: nat, f: File): Levels
    requires ValidVersion(v) && level < NUM_LEVELS && ValidFile(f)
  {
    v[level := Merged(v[level], {}, [f])]
  }

  lemma NoOverlapApart(files: seq<File>, f: File)
    requires ValidFiles(files) && ValidFile(f) && !SomeOverlap(files, Some(Smallest(f).user), Some(Largest(f).user))
    ensures forall g :: g in files ==> Apart(g, f)
    ensures forall d, e :: d in EntriesOf(files) && e in f.entries ==> d.user != e.user
  {
    forall g | g in files ensures Apart(g, f) {
      var i :| 0 <= i < |files| && files[i] == g;
      assert !Overlaps(files[i], Some(Smallest(f).user), Some(Largest(f).user));
    }
    forall d, e | d in EntriesOf(files) && e in f.entries ensures d.user != e.user {
      var g :| g in files && d in g.entries;
      InRange(g, d);
      InRange(f, e);
    }
  }

  lemma AddedFiles(files: seq<File>, f: File)
    requires ValidFiles(files) && ValidFile(f) && NoDuplicates(files) && f !in files
    ensures var fs := Merged(files, {}, [f]);
            && ValidFiles(fs) && NoDuplicates(fs) && EntriesOf(fs) == EntriesOf(files) + SetOf(f.entries)
            && forall g :: g in fs <==> g in files || g == f
  {
    var fs := Merged(files, {}, [f]);
    MergedFiles(files, {}, [f]);
    AppliedValid(files, {}, [f], fs);
    MergedNoDuplicates(files, {}, [f]);
  }

  lemma AddedDisjoint(files: seq<File>, f: File)
    requires ValidFiles(files) && ValidFile(f) && Disjoint(files)
    requires !SomeOverlap(files, Some(Smallest(f).user), Some(Largest(f).user))
    ensures ValidFiles(Merged(files, {}, [f])) && Disjoint(Merged(files, {}, [f]))
  {
    NoOverlapApart(files, f);
    MergedDisjoint(files, {}, [f]);
  }

  lemma AddedLevel(v: Levels, level: nat, f: File)
    requires ValidVersion(v) && CanAdd(v, level, f)
    ensures var fs := Merged(v[level], {}, [f]);
            && ValidFiles(fs) && NoDuplicates(fs) && EntriesOf(fs) == EntriesOf(v[level]) + SetOf(f.entries)
            && (level == 0 ==> NumbersAge(fs)) && (level > 0 ==> Disjoint(fs))
  {
    AddedFiles(v[level], f);
    if level == 0 {
      assert EntriesOf(v[0]) <= AllEntries(v);
      NewestNumber(v[0], f, Merged(v[0], {}, [f]));
    } else {
      AddedDisjoint(v[level], f);
    }
  }

  lemma NewestNumber(files: seq<File>, f: File, fs: seq<File>)
    requires NumbersAge(files) && OlderThan(SetOf(f.entries), EntriesOf(files))
    requires forall g :: g in files ==> g.number < f.number
    requires forall g :: g in fs <==> g in files || g == f
    ensures NumbersAge(fs)
  {
    forall g, h | g in fs && h in fs ensures ByNumber(g, h) {
      if g in files && h in files {
        assert ByNumber(g, h);
      } else if g in files {
        assert SetOf(g.entries) <= EntriesOf(files);
      }
    }
  }

  lemma AddedAges(v: Levels, level: nat, f: File, a: nat, b: nat)
    requires ValidVersion(v) && CanAdd(v, level, f) && a < b < NUM_LEVELS
    requires var v' := WithFile(v, level, f); EntriesOf(v'[level]) == EntriesOf(v[level]) + SetOf(f.entries)
    ensures var v' := WithFile(v, level, f); OlderThan(EntriesOf(v'[a]), EntriesOf(v'[b]))
  {
    assert OlderThan(EntriesOf(v[a]), EntriesOf(v[b]));
    if a == level {
      assert EntriesOf(v[b]) <= AllEntries(v);
    } else if b == level {
      NoOverlapApart(v[a], f);
    }
  }

  /** Flushing a table keeps the level invariants and adds exactly its entries. */
  lemma AddKeepsVersion(v: Levels, level: nat, f: File)
    requires ValidVersion(v) && CanAdd(v, level, f)
    ensures ValidVersion(WithFile(v, level, f))
    ensures AllEntries(WithFile(v, level, f)) == AllEntries(v) + SetOf(f.entries)
  {
    var v' := WithFile(v, level, f);
    AddedLevel(v, level, f);
    forall a, b | 0 <= a < b < |v'| ensures OlderThan(EntriesOf(v'[a]), EntriesOf(v'[b])) {
      AddedAges(v, level, f, a, b);
    }
    LevelUnion(v, v', level, EntriesOf(v[level]) + SetOf(f.entries));
  }

  /** Replacing the files of one level. */
  lemma LevelUnion(v: Levels, v': Levels, level: nat, entries: set<Entry>)
    requires |v| == |v'| && level < |v| && EntriesOf(v'[level]) == entries
    requires forall l :: 0 <= l < |v| && l != level ==> v'[l] == v[l]
    ensures AllEntries(v') == EntriesElsewhere(v, level) + entries
    ensures AllEntries(v) == EntriesElsewhere(v, level) + EntriesOf(v[level])
  {
    forall e | e in AllEntries(v') ensures e in EntriesElsewhere(v, level) + entries {
      var l, f :| 0 <= l < |v'| && f in v'[l] && e in f.entries;
    }
    forall e | e in EntriesElsewhere(v, level) + entries ensures e in AllEntries(v') {
      if e in EntriesElsewhere(v, level) {
        var l, f :| 0 <= l < |v| && l != level && f in v[l] && e in f.entries;
        assert f in v'[l];
      } else {
        assert e in EntriesOf(v'[level]);
      }
    }
  }

  ghost function EntriesElsewhere(v: Levels, level: nat): set<Entry> {
    set l, f, e | 0 <= l < |v| && l != level && f in v[l] && e in f.entries :: e
  }

  // ---------------------------------------------------------------- replacing the inputs of a compaction

  ghost function Replaced(v: Levels, level: nat, inputs0: seq<File>, inputs1: seq<File>, outputs: seq<File>): Levels
    requires ValidVersion(v) && level + 1 < NUM_LEVELS && ValidFiles(outputs)
  {
    v[level := Merged(v[level], Numbers(inputs0), [])][level + 1 := Merged(v[level + 1], Numbers(inputs1), outputs)]
  }

  /** The inputs are gone, the outputs are in the next level, and all other files are where they were. */
  lemma ReplacedFiles(v: Levels, level: nat, inputs0: seq<File>, inputs1: seq<File>, outputs: seq<File>, f: File)
    requires ValidVersion(v) && level + 1 < NUM_LEVELS && ValidFiles(outputs)
    ensures var v' := Replaced(v, level, inputs0, inputs1, outputs);
            && (f in v'[level] <==> f in v[level] && f.number !in Numbers(inputs0))
            && (f in v'[level + 1] <==> (f in v[level + 1] || f in outputs) && f.number !in Numbers(inputs1))
            && |v'| == |v| && forall l :: 0 <= l < |v| && l != level && l != level + 1 ==> v'[l] == v[l]
  {
    MergedFiles(v[level], Numbers(inputs0), []);
    MergedFiles(v[level + 1], Numbers(inputs1), outputs);
  }

  /** The outputs hold only entries of the inputs, in disjoint files with numbers of their own. */
  ghost predicate FitOutputs(v: Levels, level: nat, inputs0: seq<File>, inputs1: seq<File>, outputs: seq<File>)
    requires ValidVersion(v)
  {
    && ValidFiles(outputs) && Disjoint(outputs)
    && EntriesOf(outputs) <= EntriesOf(inputs0 + inputs1)
    && (forall f :: f in outputs ==> f.number !in Numbers(inputs1))
  }

  /** The files of a level that are not among the inputs. */
  ghost predicate IsRest(rest: seq<File>, files: seq<File>, inputs: seq<File>) {
    forall f :: f in rest <==> f in files && f !in inputs
  }

  lemma DeletedByNumber(files: seq<File>, inputs: seq<File>)
    requires UniqueNumbers(files) && Within(inputs, files)
    ensures forall f :: f in files ==> (f.number in Numbers(inputs) <==> f in inputs)
  {
    forall f | f in files && f.number in Numbers(inputs) ensures f in inputs {
      var g :| g in inputs && g.number == f.number;
      assert OneNumber(f, g);
    }
  }

  lemma RestOfLevel(files: seq<File>, inputs: seq<File>)
    requires ValidFiles(files) && UniqueNumbers(files) && Within(inputs, files)
    ensures var r := Merged(files, Numbers(inputs), []);
            IsRest(r, files, inputs) && ValidFiles(r) && (NoDuplicates(files) ==> NoDuplicates(r))
    ensures Disjoint(files) ==> Disjoint(Merged(files, Numbers(inputs), []))
  {
    var r := Merged(files, Numbers(inputs), []);
    MergedFiles(files, Numbers(inputs), []);
    DeletedByNumber(files, inputs);
    AppliedValid(files, Numbers(inputs), [], r);
    if NoDuplicates(files) { MergedNoDuplicates(files, Numbers(inputs), []); }
    if Disjoint(files) { MergedDisjoint(files, Numbers(inputs), []); }
  }

  lemma OutputsApart(b: File, inputs: seq<File>, outputs: seq<File>, a: File)
    requires ValidFile(b) && ValidFiles(inputs) && ValidFiles(outputs) && a in outputs
    requires Beyond(b, inputs) && EntriesOf(outputs) <= EntriesOf(inputs)
    ensures Apart(b, a)
  {
    assert Smallest(a) in a.entries && Largest(a) in a.entries;
    assert Smallest(a) in EntriesOf(outputs) && Largest(a) in EntriesOf(outputs);
    var f :| f in inputs && Smallest(a) in f.entries;
    var g :| g in inputs && Largest(a) in g.entries;
    InRange(f, Smallest(a));
    InRange(g, Largest(a));
  }

  /** The outputs fit between the files that stay in the next level. */
  lemma OutputLevel(v: Levels, level: nat, inputs0: seq<File>, inputs1: seq<File>, outputs: seq<File>)
    requires ValidVersion(v) && ClosedSelection(v, level, inputs0, inputs1)
    requires FitOutputs(v, level, inputs0, inputs1, outputs) && UniqueNumbers(v[level + 1])
    ensures var r := Merged(v[level + 1], Numbers(inputs1), outputs);
            && ValidFiles(r) && Disjoint(r) && NoDuplicates(r)
            && forall f :: f in r <==> (f in v[level + 1] && f !in inputs1) || f in outputs
  {
    var base, deleted := v[level + 1], Numbers(inputs1);
    forall b, a | b in base && a in outputs && b.number !in deleted ensures Apart(b, a) {
      assert b !in inputs1;
      OutputsApart(b, inputs0 + inputs1, outputs, a);
    }
    MergedDisjoint(base, deleted, outputs);
    DeletedByNumber(base, inputs1);
    MergedFiles(base, deleted, outputs);
    DisjointNoDuplicates(Merged(base, deleted, outputs));
  }

  ghost function RestEntries(files: seq<File>, inputs: seq<File>): set<Entry> {
    set f, e | f in files && f !in inputs && e in f.entries :: e
  }

  ghost predicate AllApart(files: seq<File>, inputs: seq<File>)
    requires ValidFiles(files) && ValidFiles(inputs)
  {
    forall f, g :: f in files && f !in inputs && g in inputs ==> Apart(f, g)
  }

  lemma ApartEntries(f: File, g: File, d: Entry, e: Entry)
    requires ValidFile(f) && ValidFile(g) && Apart(f, g) && d in f.entries && e in g.entries
    ensures d.user != e.user
  {
    InRange(f, d);
    InRange(g, e);
  }

  /** Entries left in the level are newer than inputs of the same user key, which can only come from the next level. */
  lemma RestIsNewer(files: seq<File>, next: seq<File>, inputs0: seq<File>, inputs1: seq<File>)
    requires ValidFiles(files) && ValidFiles(inputs0) && AllApart(files, inputs0) && Within(inputs1, next)
    requires OlderThan(EntriesOf(files), EntriesOf(next))
    ensures OlderThan(RestEntries(files, inputs0), EntriesOf(inputs0) + EntriesOf(inputs1))
  {
    forall d, e | d in RestEntries(files, inputs0) && e in EntriesOf(inputs0) + EntriesOf(inputs1)
      ensures After(d, e)
    {
      var f :| f in files && f !in inputs0 && d in f.entries;
      if e in EntriesOf(inputs0) {
        var g :| g in inputs0 && e in g.entries;
        ApartEntries(f, g, d, e);
      } else {
        var g :| g in inputs1 && e in g.entries;
        assert d in EntriesOf(files) && e in EntriesOf(next) && After(d, e);
      }
    }
  }

  lemma InputsWithin(files: seq<File>, inputs: seq<File>)
    requires Within(inputs, files)
    ensures EntriesOf(inputs) <= EntriesOf(files)
    ensures EntriesOf(files) == RestEntries(files, inputs) + EntriesOf(inputs)
    ensures RestEntries(files, inputs) <= EntriesOf(files)
  {
  }

  /** Ages are kept when a level passes entries on to the next one. */
  lemma AgesPassedOn(s: seq<set<Entry>>, level: nat, rest: set<Entry>, moved: set<Entry>, next: set<Entry>,
                     t: seq<set<Entry>>)
    requires level + 1 < |s| && forall a, b :: 0 <= a < b < |s| ==> OlderThan(s[a], s[b])
    requires rest <= s[level] && moved <= s[level] + s[level + 1] && next <= s[level + 1] + moved
    requires OlderThan(rest, moved) && t == s[level := rest][level + 1 := next]
    ensures forall a, b :: 0 <= a < b < |t| ==> OlderThan(t[a], t[b])
  {
    forall a, b | 0 <= a < b < |s| ensures OlderThan(t[a], t[b]) {
      assert OlderThan(s[a], s[b]);
      if a == level + 1 {
        assert OlderThan(s[level], s[b]);
      } else if b == level + 1 && a < level {
        assert OlderThan(s[a], s[level]);
      }
    }
  }

  ghost function Sets(v: Levels): (r: seq<set<Entry>>)
    ensures |r| == |v| && forall l {:trigger r[l]} :: 0 <= l < |v| ==> r[l] == EntriesOf(v[l])
  {
    seq(|v|, l requires 0 <= l < |v| => EntriesOf(v[l]))
  }

  lemma AgesBySets(v: Levels)
    ensures AgesWithDepth(v) <==> forall a, b :: 0 <= a < b < |v| ==> OlderThan(Sets(v)[a], Sets(v)[b])
  {
    if AgesWithDepth(v) {
      forall a, b | 0 <= a < b < |v| ensures OlderThan(Sets(v)[a], Sets(v)[b]) {
        assert OlderThan(EntriesOf(v[a]), EntriesOf(v[b]));
      }
    }
    if forall a, b :: 0 <= a < b < |v| ==> OlderThan(Sets(v)[a], Sets(v)[b]) {
      forall a, b | 0 <= a < b < |v| ensures OlderThan(EntriesOf(v[a]), EntriesOf(v[b])) {
        assert OlderThan(Sets(v)[a], Sets(v)[b]);
      }
    }
  }

  /** The two levels a compaction rewrites. */
  lemma ReplacedEntries(v: Levels, level: nat, inputs0: seq<File>, inputs1: seq<File>, outputs: seq<File>)
    requires ValidVersion(v) && ClosedSelection(v, level, inputs0, inputs1)
    requires FitOutputs(v, level, inputs0, inputs1, outputs)
    requires UniqueNumbers(v[level]) && UniqueNumbers(v[level + 1])
    ensures var v' := Replaced(v, level, inputs0, inputs1, outputs);
            && EntriesOf(v'[level]) == RestEntries(v[level], inputs0)
            && EntriesOf(v'[level + 1]) == RestEntries(v[level + 1], inputs1) + EntriesOf(outputs)
  {
    RestOfLevel(v[level], inputs0);
    OutputLevel(v, level, inputs0, inputs1, outputs);
  }

  lemma ReplacedAges(v: Levels, level: nat, inputs0: seq<File>, inputs1: seq<File>, outputs: seq<File>, v': Levels)
    requires level + 1 < |v| && AgesWithDepth(v) && ValidFiles(v[level]) && ValidFiles(inputs0)
    requires AllApart(v[level], inputs0) && Within(inputs0, v[level]) && Within(inputs1, v[level + 1])
    requires EntriesOf(outputs) <= EntriesOf(inputs0) + EntriesOf(inputs1)
    requires |v'| == |v| && forall l :: 0 <= l < |v| && l != level && l != level + 1 ==> v'[l] == v[l]
    requires EntriesOf(v'[level]) == RestEntries(v[level], inputs0)
    requires EntriesOf(v'[level + 1]) == RestEntries(v[level + 1], inputs1) + EntriesOf(outputs)
    ensures AgesWithDepth(v')
  {
    AgesBySets(v);
    AgesBySets(v');
    RestIsNewer(v[level], v[level + 1], inputs0, inputs1);
    InputsWithin(v[level], inputs0);
    InputsWithin(v[level + 1], inputs1);
    var rest, next := RestEntries(v[level], inputs0), EntriesOf(v'[level + 1]);
    assert Sets(v') == Sets(v)[level := rest][level + 1 := next];
    AgesPassedOn(Sets(v), level, rest, EntriesOf(inputs0) + EntriesOf(inputs1), next, Sets(v'));
  }

  lemma NumbersAgeSubset(files: seq<File>, rest: seq<File>)
    requires NumbersAge(files) && Within(rest, files)
    ensures NumbersAge(rest)
  {
  }

  /** A compaction keeps the level invariants. */
  lemma ReplaceKeepsVersion(v: Levels, level: nat, inputs0: seq<File>, inputs1: seq<File>, outputs: seq<File>)
    requires ValidVersion(v) && ClosedSelection(v, level, inputs0, inputs1)
    requires FitOutputs(v, level, inputs0, inputs1, outputs)
    requires UniqueNumbers(v[level]) && UniqueNumbers(v[level + 1])
    ensures ValidVersion(Replaced(v, level, inputs0, inputs1, outputs))
  {
    var v' := Replaced(v, level, inputs0, inputs1, outputs);
    ReplacedEntries(v, level, inputs0, inputs1, outputs);
    ConcatEntries(inputs0, inputs1);
    ReplacedAges(v, level, inputs0, inputs1, outputs, v');
    RestOfLevel(v[level], inputs0);
    OutputLevel(v, level, inputs0, inputs1, outputs);
    if level == 0 { NumbersAgeSubset(v[0], v'[0]); }
  }

  /** Everything a compaction does not touch. */
  ghost function Untouched(v: Levels, level: nat, inputs0: seq<File>, inputs1: seq<File>): set<Entry>
    requires level + 1 < |v|
  {
    EntriesBeside(v, level) + RestEntries(v[level], inputs0) + RestEntries(v[level + 1], inputs1)
  }

  ghost function EntriesBeside(v: Levels, level: nat): set<Entry> {
    set l, f, e | 0 <= l < |v| && l != level && l != level + 1 && f in v[l] && e in f.entries :: e
  }

  lemma TwoLevels(v: Levels, level: nat)
    requires level + 1 < |v|
    ensures AllEntries(v) == EntriesBeside(v, level) + EntriesOf(v[level]) + EntriesOf(v[level + 1])
  {
    forall e | e in AllEntries(v) ensures e in EntriesBeside(v, level) + EntriesOf(v[level]) + EntriesOf(v[level + 1]) {
      var l, f :| 0 <= l < |v| && f in v[l] && e in f.entries;
      if l != level && l != level + 1 { assert e in EntriesBeside(v, level); }
    }
    forall e | e in EntriesBeside(v, level) + EntriesOf(v[level]) + EntriesOf(v[level + 1]) ensures e in AllEntries(v) {
      if e in EntriesOf(v[level]) {
        var f :| f in v[level] && e in f.entries;
      } else if e in EntriesOf(v[level + 1]) {
        var f :| f in v[level + 1] && e in f.entries;
      }
    }
  }

  lemma SameBeside(v: Levels, v': Levels, level: nat)
    requires |v| == |v'| && forall l :: 0 <= l < |v| && l != level && l != level + 1 ==> v'[l] == v[l]
    ensures EntriesBeside(v', level) == EntriesBeside(v, level)
  {
  }

  lemma ConcatEntries(a: seq<File>, b: seq<File>)
    ensures EntriesOf(a + b) == EntriesOf(a) + EntriesOf(b)
  {
  }

  lemma Regroup(x: set<Entry>, r0: set<Entry>, i0: set<Entry>, r1: set<Entry>, i1: set<Entry>)
    ensures x + (r0 + i0) + (r1 + i1) == (x + r0 + r1) + (i0 + i1)
  {
  }

  lemma EntriesBefore(v: Levels, level: nat, inputs0: seq<File>, inputs1: seq<File>)
    requires level + 1 < |v| && Within(inputs0, v[level]) && Within(inputs1, v[level + 1])
    ensures AllEntries(v) == Untouched(v, level, inputs0, inputs1) + (EntriesOf(inputs0) + EntriesOf(inputs1))
  {
    TwoLevels(v, level);
    InputsWithin(v[level], inputs0);
    InputsWithin(v[level + 1], inputs1);
    Regroup(EntriesBeside(v, level), RestEntries(v[level], inputs0), EntriesOf(inputs0),
            RestEntries(v[level + 1], inputs1), EntriesOf(inputs1));
  }

  lemma EntriesAfter(v: Levels, level: nat, inputs0: seq<File>, inputs1: seq<File>, outputs: seq<File>, v': Levels)
    requires level + 1 < |v| == |v'|
    requires forall l :: 0 <= l < |v| && l != level && l != level + 1 ==> v'[l] == v[l]
    requires EntriesOf(v'[level]) == RestEntries(v[level], inputs0)
    requires EntriesOf(v'[level + 1]) == RestEntries(v[level + 1], inputs1) + EntriesOf(outputs)
    ensures AllEntries(v') == Untouched(v, level, inputs0, inputs1) + EntriesOf(outputs)
  {
    TwoLevels(v', level);
    SameBeside(v, v', level);
    Regroup(EntriesBeside(v, level), RestEntries(v[level], inputs0), {}, RestEntries(v[level + 1], inputs1),
            EntriesOf(outputs));
  }

  /** A compaction exchanges the entries of its inputs for those of its outputs. */
  lemma ReplaceEntries(v: Levels, level: nat, inputs0: seq<File>, inputs1: seq<File>, outputs: seq<File>)
    requires ValidVersion(v) && ClosedSelection(v, level, inputs0, inputs1)
    requires FitOutputs(v, level, inputs0, inputs1, outputs)
    requires UniqueNumbers(v[level]) && UniqueNumbers(v[level + 1])
    ensures AllEntries(v) == Untouched(v, level, inputs0, inputs1) + (EntriesOf(inputs0) + EntriesOf(inputs1))
    ensures AllEntries(Replaced(v, level, inputs0, inputs1, outputs))
            == Untouched(v, level, inputs0, inputs1) + EntriesOf(outputs)
  {
    var v' := Replaced(v, level, inputs0, inputs1, outputs);
    EntriesBefore(v, level, inputs0, inputs1);
    ReplacedEntries(v, level, inputs0, inputs1, outputs);
    EntriesAfter(v, level, inputs0, inputs1, outputs, v');
  }

  /** Where the base level test succeeds, everything the compaction does not touch is newer than its inputs. */
  lemma UntouchedIsNewer(v: Levels, level: nat, inputs0: seq<File>, inputs1: seq<File>, d: Entry, e: Entry)
    requires ValidVersion(v) && ClosedSelection(v, level, inputs0, inputs1)
    requires d in Untouched(v, level, inputs0, inputs1) && e in EntriesOf(inputs0) + EntriesOf(inputs1)
    requires IsBaseLevel(v, level, e.user)
    ensures After(d, e)
  {
    if d in RestEntries(v[level], inputs0) {
      assert OlderThan(EntriesOf(v[level]), EntriesOf(v[level + 1]));
      RestIsNewer(v[level], v[level + 1], inputs0, inputs1);
    } else if d in RestEntries(v[level + 1], inputs1) {
      ConcatEntries(inputs0, inputs1);
      BeyondHasOtherKeys(v[level + 1], inputs0, inputs1, d, e);
    } else {
      BesideIsNewer(v, level, inputs0, inputs1, d, e);
    }
  }

  lemma BeyondHasOtherKeys(next: seq<File>, inputs0: seq<File>, inputs1: seq<File>, d: Entry, e: Entry)
    requires ValidFiles(next) && ValidFiles(inputs0) && ValidFiles(inputs1) && OthersBeyond(next, inputs0, inputs1)
    requires d in RestEntries(next, inputs1) && e in EntriesOf(inputs0 + inputs1)
    ensures d.user != e.user
  {
    var f :| f in next && f !in inputs1 && d in f.entries;
    var g :| g in inputs0 + inputs1 && e in g.entries;
    assert Beyond(f, inputs0 + inputs1);
    InRange(f, d);
    InRange(g, e);
  }

  lemma BesideIsNewer(v: Levels, level: nat, inputs0: seq<File>, inputs1: seq<File>, d: Entry, e: Entry)
    requires ValidVersion(v) && level + 1 < NUM_LEVELS && Within(inputs0, v[level]) && Within(inputs1, v[level + 1])
    requires d in EntriesBeside(v, level) && e in EntriesOf(inputs0) + EntriesOf(inputs1)
    requires IsBaseLevel(v, level, e.user)
    ensures After(d, e)
  {
    InputsWithin(v[level], inputs0);
    InputsWithin(v[level + 1], inputs1);
    var l, f :| 0 <= l < |v| && l != level && l != level + 1 && f in v[l] && d in f.entries;
    if l < level {
      assert d in EntriesOf(v[l]);
      assert OlderThan(EntriesOf(v[l]), EntriesOf(v[level])) && OlderThan(EntriesOf(v[l]), EntriesOf(v[level + 1]));
    } else {
      OutOfRange(v, l, f, d);
    }
  }

  lemma OutOfRange(v: Levels, l: nat, f: File, d: Entry)
    requires ValidVersion(v) && l < NUM_LEVELS && f in v[l] && d in f.entries
    ensures !NotInLevel(v, l, d.user)
  {
    InRange(f, d);
  }
}
