/** Which files a range of user keys touches, server/lib/leveldb/db/version_set.cc. */
module Overlap {
  import opened Wrappers
  import opened InternalKeys
  import opened Version

  /** An absent lower bound is before all keys, an absent upper bound after all keys. */
  predicate AfterFile(user: Option<real>, f: File)
    requires |f.entries| > 0
  {
    user.Some? && user.value > Largest(f).user
  }

  predicate BeforeFile(user: Option<real>, f: File)
    requires |f.entries| > 0
  {
    user.Some? && user.value < Smallest(f).user
  }

  predicate Overlaps(f: File, lo: Option<real>, hi: Option<real>)
    requires |f.entries| > 0
  {
    !AfterFile(lo, f) && !BeforeFile(hi, f)
  }

  ghost predicate SomeOverlap(files: seq<File>, lo: Option<real>, hi: Option<real>)
    requires ValidFiles(files)
  {
    exists i :: 0 <= i < |files| && Overlaps(files[i], lo, hi)
  }

  /** Does any file touch the range?  On disjoint sorted files one binary search decides. */
  method SomeFileOverlapsRange(disjoint: bool, files: seq<File>, lo: Option<real>, hi: Option<real>) returns (r: bool)
    requires ValidFiles(files) && (disjoint ==> Disjoint(files))
    ensures r <==> SomeOverlap(files, lo, hi)
  {
    if !disjoint {
      for i := 0 to |files|
        invariant forall j :: 0 <= j < i ==> !Overlaps(files[j], lo, hi)
      {
        if !(AfterFile(lo, files[i]) || BeforeFile(hi, files[i])) {
          return true;
        }
      }
      return false;
    }
    var index := 0;
    if lo.Some? {
      index := FindFile(files, Entry(lo.value, MAX_SEQUENCE, Value, ""));
    }
    if index >= |files| {
      NoCandidate(files, lo, hi);
      return false;
    }
    r := !BeforeFile(hi, files[index]);
    FirstCandidateDecides(files, lo, hi, index);
  }

  lemma NoCandidate(files: seq<File>, lo: Option<real>, hi: Option<real>)
    requires ValidFiles(files) && (lo.None? ==> files == [])
    requires lo.Some? ==> forall i :: 0 <= i < |files| ==>
               Less(Largest(files[i]), Entry(lo.value, MAX_SEQUENCE, Value, ""))
    ensures !SomeOverlap(files, lo, hi)
  {
    forall i | 0 <= i < |files| ensures !Overlaps(files[i], lo, hi) {
      assert Largest(files[i]) in files[i].entries;
    }
  }

  lemma FirstCandidateDecides(files: seq<File>, lo: Option<real>, hi: Option<real>, index: nat)
    requires ValidFiles(files) && Disjoint(files) && index < |files|
    requires lo.None? ==> index == 0
    requires lo.Some? ==> forall i :: 0 <= i < index ==>
               Less(Largest(files[i]), Entry(lo.value, MAX_SEQUENCE, Value, ""))
    requires lo.Some? ==> !Less(Largest(files[index]), Entry(lo.value, MAX_SEQUENCE, Value, ""))
    ensures !BeforeFile(hi, files[index]) <==> SomeOverlap(files, lo, hi)
  {
    assert Largest(files[index]) in files[index].entries;
    forall i | 0 <= i < |files| && Overlaps(files[i], lo, hi) ensures index <= i && !BeforeFile(hi, files[index]) {
      assert Largest(files[i]) in files[i].entries;
      InRange(files[index], Largest(files[index]));
    }
  }

  // ---------------------------------------------------------------- collecting overlapping files

  function TotalFileSize(files: seq<File>): nat {
    if files == [] then 0 else files[0].size + TotalFileSize(files[1..])
  }

  /** The total size is the sum of the sizes. */
  lemma {:induction false} TotalAdds(a: seq<File>, b: seq<File>)
    ensures TotalFileSize(a + b) == TotalFileSize(a) + TotalFileSize(b)
    ensures forall f {:trigger TotalFileSize([f])} :: TotalFileSize([f]) == f.size
  {
    if a == [] {
      assert a + b == b;
    } else {
      TotalAdds(a[1..], b);
      assert (a + b)[1..] == a[1..] + b;
    }
  }

  /** How many files start before lo or end after hi: what a widening of the range can still pick up. */
  ghost function Outside(files: seq<File>, lo: Option<real>, hi: Option<real>): nat
    requires ValidFiles(files)
  {
    if files == [] then 0 else
      var f := files[|files| - 1];
      Outside(files[..|files| - 1], lo, hi)
      + (if lo.Some? && Smallest(f).user < lo.value then 1 else 0)
      + (if hi.Some? && Largest(f).user > hi.value then 1 else 0)
  }

  lemma {:induction false} WiderIsFewer(files: seq<File>, lo: Option<real>, hi: Option<real>, lo': Option<real>,
                                        hi': Option<real>)
    requires ValidFiles(files) && lo.Some? == lo'.Some? && hi.Some? == hi'.Some?
    requires (lo.Some? ==> lo'.value <= lo.value) && (hi.Some? ==> hi.value <= hi'.value)
    ensures Outside(files, lo', hi') <= Outside(files, lo, hi)
    ensures forall f :: f in files && lo.Some? && lo'.value <= Smallest(f).user < lo.value ==>
              Outside(files, lo', hi') < Outside(files, lo, hi)
    ensures forall f :: f in files && hi.Some? && hi.value < Largest(f).user <= hi'.value ==>
              Outside(files, lo', hi') < Outside(files, lo, hi)
  {
    if files != [] {
      var n := |files| - 1;
      WiderIsFewer(files[..n], lo, hi, lo', hi');
      assert files == files[..n] + [files[n]];
    }
  }

  /** The range the search ended with, and what it returned for it. */
  ghost predicate Collected(files: seq<File>, inputs: seq<File>, lo: Option<real>, hi: Option<real>)
    requires ValidFiles(files)
  {
    forall f :: f in inputs <==> f in files && Overlaps(f, lo, hi)
  }

  ghost predicate Covers(f: File, lo: Option<real>, hi: Option<real>)
    requires |f.entries| > 0
  {
    (lo.Some? ==> lo.value <= Smallest(f).user) && (hi.Some? ==> Largest(f).user <= hi.value)
  }

  lemma NotBefore(files: seq<File>, i: nat)
    requires NoDuplicates(files) && i < |files|
    ensures files[i] !in files[..i]
  {
    forall j | 0 <= j < i ensures files[j] != files[i] {
      assert Differ(files[j], files[i]);
    }
  }

  /** The files that touch the range, in order. */
  ghost function Touching(files: seq<File>, lo: Option<real>, hi: Option<real>): (r: seq<File>)
    requires ValidFiles(files)
    ensures Collected(files, r, lo, hi)
    ensures NoDuplicates(files) ==> NoDuplicates(r)
  {
    if files == [] then [] else
      var n := |files| - 1;
      var before := Touching(files[..n], lo, hi);
      assert files == files[..n] + [files[n]];
      assert NoDuplicates(files) ==> files[n] !in files[..n] by { if NoDuplicates(files) { NotBefore(files, n); } }
      if Overlaps(files[n], lo, hi) then before + [files[n]] else before
  }

  ghost predicate Wider(lo': Option<real>, hi': Option<real>, lo: Option<real>, hi: Option<real>) {
    && lo'.Some? == lo.Some? && hi'.Some? == hi.Some?
    && (lo.Some? ==> lo'.value <= lo.value) && (hi.Some? ==> hi.value <= hi'.value)
  }

  /** The range covers every file that it touches. */
  ghost predicate ClosedRange(files: seq<File>, lo: Option<real>, hi: Option<real>)
    requires ValidFiles(files)
  {
    forall f {:trigger f in files} :: f in files && Overlaps(f, lo, hi) ==> Covers(f, lo, hi)
  }

  /** Every closed range around [begin, end] is around [lo, hi]. */
  ghost predicate InEveryClosed(files: seq<File>, begin: Option<real>, end: Option<real>, lo: Option<real>,
                                hi: Option<real>)
    requires ValidFiles(files)
  {
    forall a, b {:trigger ClosedRange(files, a, b)} ::
      Wider(a, b, begin, end) && ClosedRange(files, a, b) ==> Wider(a, b, lo, hi)
  }

  /** The range that a search at the level ends with: the given one, or at level 0 the least closed one around it. */
  ghost predicate SearchRange(level: nat, files: seq<File>, begin: Option<real>, end: Option<real>, lo: Option<real>,
                              hi: Option<real>)
    requires ValidFiles(files)
  {
    if level > 0 then lo == begin && hi == end
    else Wider(lo, hi, begin, end) && ClosedRange(files, lo, hi) && InEveryClosed(files, begin, end, lo, hi)
  }

  lemma SearchRangeUnique(level: nat, files: seq<File>, begin: Option<real>, end: Option<real>, lo: Option<real>,
                          hi: Option<real>, lo': Option<real>, hi': Option<real>)
    requires ValidFiles(files)
    requires SearchRange(level, files, begin, end, lo, hi) && SearchRange(level, files, begin, end, lo', hi')
    ensures lo == lo' && hi == hi'
  {
  }

  /** A file that the range touches widens it no further than every closed range. */
  lemma WidenedInEvery(files: seq<File>, begin: Option<real>, end: Option<real>, lo: Option<real>, hi: Option<real>,
                       f: File)
    requires ValidFiles(files) && f in files && Overlaps(f, lo, hi) && InEveryClosed(files, begin, end, lo, hi)
    ensures lo.Some? && Smallest(f).user < lo.value ==> InEveryClosed(files, begin, end, Some(Smallest(f).user), hi)
    ensures hi.Some? && Largest(f).user > hi.value ==> InEveryClosed(files, begin, end, lo, Some(Largest(f).user))
  {
    forall a, b | Wider(a, b, begin, end) && ClosedRange(files, a, b) ensures Covers(f, a, b) {
      assert Wider(a, b, lo, hi) && Overlaps(f, a, b);
    }
  }

  /** What the search of a level has found among the first i files. */
  ghost predicate Searching(level: nat, files: seq<File>, begin: Option<real>, end: Option<real>, i: nat,
                            lo: Option<real>, hi: Option<real>, inputs: seq<File>)
    requires ValidFiles(files)
  {
    && i <= |files| && inputs == Touching(files[..i], lo, hi) && Wider(lo, hi, begin, end)
    && InEveryClosed(files, begin, end, lo, hi)
    && if level > 0 then lo == begin && hi == end else forall f :: f in inputs ==> Covers(f, lo, hi)
  }

  lemma SearchOne(level: nat, files: seq<File>, begin: Option<real>, end: Option<real>, i: nat, lo: Option<real>,
                  hi: Option<real>, inputs: seq<File>)
    requires ValidFiles(files) && Searching(level, files, begin, end, i, lo, hi, inputs) && i < |files|
    ensures !Overlaps(files[i], lo, hi) ==> Searching(level, files, begin, end, i + 1, lo, hi, inputs)
    ensures Overlaps(files[i], lo, hi) && (level > 0 || Covers(files[i], lo, hi)) ==>
              Searching(level, files, begin, end, i + 1, lo, hi, inputs + [files[i]])
  {
    assert files[..i + 1][..i] == files[..i];
  }

  lemma SearchAgain(files: seq<File>, begin: Option<real>, end: Option<real>, i: nat, lo: Option<real>,
                    hi: Option<real>, inputs: seq<File>)
    requires ValidFiles(files) && Searching(0, files, begin, end, i, lo, hi, inputs) && i < |files|
    requires Overlaps(files[i], lo, hi)
    ensures var f := files[i]; lo.Some? && Smallest(f).user < lo.value ==>
              && Searching(0, files, begin, end, 0, Some(Smallest(f).user), hi, [])
              && Outside(files, Some(Smallest(f).user), hi) < Outside(files, lo, hi)
    ensures var f := files[i]; hi.Some? && Largest(f).user > hi.value ==>
              && Searching(0, files, begin, end, 0, lo, Some(Largest(f).user), [])
              && Outside(files, lo, Some(Largest(f).user)) < Outside(files, lo, hi)
  {
    var f := files[i];
    assert f in files && files[..0] == [];
    WidenedInEvery(files, begin, end, lo, hi, f);
    if lo.Some? && Smallest(f).user < lo.value { WiderIsFewer(files, lo, hi, Some(Smallest(f).user), hi); }
    if hi.Some? && Largest(f).user > hi.value { WiderIsFewer(files, lo, hi, lo, Some(Largest(f).user)); }
  }

  /** All files of a level that touch [begin, end].  On level 0, where files overlap each
      other, the range grows until it covers every file it touches. */
  method GetOverlappingInputs(level: nat, files: seq<File>, begin: Option<real>, end: Option<real>)
    returns (inputs: seq<File>, ghost lo: Option<real>, ghost hi: Option<real>)
    requires ValidFiles(files)
    ensures inputs == Touching(files, lo, hi) && SearchRange(level, files, begin, end, lo, hi)
    ensures Collected(files, inputs, lo, hi) && Wider(lo, hi, begin, end)
    ensures level == 0 ==> forall f :: f in inputs ==> Covers(f, lo, hi)
    ensures NoDuplicates(files) ==> NoDuplicates(inputs)
  {
    inputs := [];
    var userBegin, userEnd := begin, end;
    var i := 0;
    assert files[..0] == [];
    while i < |files|
      invariant 0 <= i <= |files|
      invariant Searching(level, files, begin, end, i, userBegin, userEnd, inputs)
      decreases Outside(files, userBegin, userEnd), |files| - i
    {
      var f := files[i];
      SearchOne(level, files, begin, end, i, userBegin, userEnd, inputs);
      if AfterFile(userBegin, f) || BeforeFile(userEnd, f) {
        i := i + 1;
      } else {
        if level == 0 { SearchAgain(files, begin, end, i, userBegin, userEnd, inputs); }
        inputs, i := inputs + [f], i + 1;
        if level == 0 {
          if userBegin.Some? && Smallest(f).user < userBegin.value {
            userBegin, inputs, i := Some(Smallest(f).user), [], 0;
          } else if userEnd.Some? && Largest(f).user > userEnd.value {
            userEnd, inputs, i := Some(Largest(f).user), [], 0;
          }
        }
      }
    }
    assert files[..|files|] == files;
    lo, hi := userBegin, userEnd;
  }

  /** The files of a level that touch the range add up to more than 20 MB. */
  ghost predicate TooMuch(files: seq<File>, lo: real, hi: real)
    requires ValidFiles(files)
  {
    TotalFileSize(Touching(files, Some(lo), Some(hi))) > 20 * 1048576
  }

  /** A table at the level could just as well be one level deeper. */
  ghost predicate FitsBelow(v: Levels, lo: real, hi: real, level: nat)
    requires ValidVersion(v) && level + 1 < NUM_LEVELS
  {
    !SomeOverlap(v[level + 1], Some(lo), Some(hi)) && (level + 2 < NUM_LEVELS ==> !TooMuch(v[level + 2], lo, hi))
  }

  /** A new table goes down from level 0, if it overlaps nothing there, as long as it fits below, and at most to
      level 2. */
  ghost predicate LevelPicked(v: Levels, lo: real, hi: real, level: nat)
    requires ValidVersion(v)
  {
    && level <= 2 && (level > 0 ==> !SomeOverlap(v[0], Some(lo), Some(hi)))
    && (forall l {:trigger FitsBelow(v, lo, hi, l)} :: 0 <= l < level ==> FitsBelow(v, lo, hi, l))
    && (level < 2 ==> (level == 0 && SomeOverlap(v[0], Some(lo), Some(hi))) || !FitsBelow(v, lo, hi, level))
  }

  /** The deepest level up to 2 that a new table can be put at without passing overlapping files
      and without overlapping too much of the level after the next. */
  method PickLevelForMemTableOutput(v: Levels, lo: real, hi: real) returns (level: nat)
    requires ValidVersion(v)
    ensures LevelPicked(v, lo, hi, level)
    ensures level > 0 ==> forall l :: 0 <= l <= level ==> !SomeOverlap(v[l], Some(lo), Some(hi))
  {
    level := 0;
    var overlap := SomeFileOverlapsRange(false, v[0], Some(lo), Some(hi));
    if !overlap {
      while level < MAX_MEM_COMPACT_LEVEL
        invariant 0 <= level <= MAX_MEM_COMPACT_LEVEL
        invariant forall l :: 0 <= l <= level ==> !SomeOverlap(v[l], Some(lo), Some(hi))
        invariant forall l {:trigger FitsBelow(v, lo, hi, l)} :: 0 <= l < level ==> FitsBelow(v, lo, hi, l)
      {
        overlap := SomeFileOverlapsRange(true, v[level + 1], Some(lo), Some(hi));
        if overlap {
          break;
        }
        if level + 2 < NUM_LEVELS {
          var overlaps, _, _ := GetOverlappingInputs(level + 2, v[level + 2], Some(lo), Some(hi));
          if TotalFileSize(overlaps) > MAX_GRANDPARENT_OVERLAP_BYTES {
            break;
          }
        }
        level := level + 1;
      }
    }
  }

  // ---------------------------------------------------------------- the inputs of a compaction

  datatype Compaction = Compaction(level: nat, inputs0: seq<File>, inputs1: seq<File>, grandparents: seq<File>)

  /** lo and hi are the least and the greatest user key of the files. */
  ghost predicate Spans(files: seq<File>, lo: real, hi: real) {
    && ValidFiles(files) && (forall f :: f in files ==> lo <= Smallest(f).user && Largest(f).user <= hi)
    && (exists f :: f in files && Smallest(f).user == lo) && (exists f :: f in files && Largest(f).user == hi)
  }

  ghost predicate FoundBetween(v: Levels, at: nat, chosen: seq<File>, found: seq<File>, lo: real, hi: real,
                               l: Option<real>, h: Option<real>)
    requires ValidVersion(v) && at < NUM_LEVELS
  {
    && Spans(chosen, lo, hi) && SearchRange(at, v[at], Some(lo), Some(hi), l, h)
    && found == Touching(v[at], l, h)
  }

  /** The files of a level that a search for the range of the chosen files finds. */
  ghost predicate Found(v: Levels, at: nat, chosen: seq<File>, found: seq<File>)
    requires ValidVersion(v) && at < NUM_LEVELS
  {
    exists lo, hi, l, h :: FoundBetween(v, at, chosen, found, lo, hi, l, h)
  }

  lemma FoundOnce(v: Levels, at: nat, chosen: seq<File>, a: seq<File>, b: seq<File>)
    requires ValidVersion(v) && at < NUM_LEVELS && Found(v, at, chosen, a) && Found(v, at, chosen, b)
    ensures a == b
  {
    var lo, hi, l, h :| FoundBetween(v, at, chosen, a, lo, hi, l, h);
    var lo', hi', l', h' :| FoundBetween(v, at, chosen, b, lo', hi', l', h');
    SearchRangeUnique(at, v[at], Some(lo), Some(hi), l, h, l', h');
  }

  /** The least and the greatest key of a list of files. */
  method GetRange(inputs: seq<File>) returns (lo: Entry, hi: Entry)
    requires ValidFiles(inputs) && inputs != []
    ensures forall f :: f in inputs ==> Covers(f, Some(lo.user), Some(hi.user))
    ensures exists f :: f in inputs && Smallest(f) == lo
    ensures exists f :: f in inputs && Largest(f) == hi
    ensures Spans(inputs, lo.user, hi.user)
  {
    lo, hi := Smallest(inputs[0]), Largest(inputs[0]);
    for i := 1 to |inputs|
      invariant forall f :: f in inputs[..i] ==> Covers(f, Some(lo.user), Some(hi.user))
      invariant exists f :: f in inputs && Smallest(f) == lo
      invariant exists f :: f in inputs && Largest(f) == hi
    {
      var f := inputs[i];
      assert f in inputs;
      assert inputs[..i + 1] == inputs[..i] + [f];
      if Less(Smallest(f), lo) {
        lo := Smallest(f);
      }
      if Less(hi, Largest(f)) {
        hi := Largest(f);
      }
    }
    assert inputs[..|inputs|] == inputs;
  }

  /** No user key lies in the ranges of both. */
  ghost predicate Apart(f: File, g: File)
    requires |f.entries| > 0 && |g.entries| > 0
  {
    Largest(f).user < Smallest(g).user || Largest(g).user < Smallest(f).user
  }

  /** g lies entirely on one side of all the files. */
  ghost predicate Beyond(g: File, files: seq<File>)
    requires |g.entries| > 0 && ValidFiles(files)
  {
    || (forall f :: f in files ==> Largest(g).user < Smallest(f).user)
    || (forall f :: f in files ==> Largest(f).user < Smallest(g).user)
  }

  ghost predicate Within(inputs: seq<File>, files: seq<File>) {
    forall f :: f in inputs ==> f in files
  }

  /** What a choice of inputs must guarantee for the merged output to fit into level + 1. */
  ghost predicate ClosedSelection(v: Levels, level: nat, inputs0: seq<File>, inputs1: seq<File>)
    requires ValidVersion(v)
  {
    && level + 1 < NUM_LEVELS && inputs0 != [] && ClosedInLevel(v, level, inputs0)
    && Within(inputs1, v[level + 1]) && ValidFiles(inputs1) && NoDuplicates(inputs1)
    && OthersBeyond(v[level + 1], inputs0, inputs1)
  }

  ghost predicate OthersBeyond(files: seq<File>, inputs0: seq<File>, inputs1: seq<File>)
    requires ValidFiles(files) && ValidFiles(inputs0) && ValidFiles(inputs1)
  {
    forall g :: g in files && g !in inputs1 ==> Beyond(g, inputs0 + inputs1)
  }

  lemma WithinValid(inputs: seq<File>, files: seq<File>)
    requires Within(inputs, files) && ValidFiles(files)
    ensures ValidFiles(inputs)
  {
    forall i | 0 <= i < |inputs| ensures ValidFile(inputs[i]) {
      assert inputs[i] in files;
    }
  }

  /** Files of a disjoint level that touch no part of a range stand on one side of the range
      and of all the files that do touch it. */
  lemma UntouchedIsBeyond(files: seq<File>, inputs0: seq<File>, inputs1: seq<File>, lo: real, hi: real, g: File)
    requires ValidFiles(files) && Disjoint(files) && ValidFiles(inputs0) && inputs0 != []
    requires forall f :: f in inputs0 ==> Covers(f, Some(lo), Some(hi))
    requires Collected(files, inputs1, Some(lo), Some(hi)) && ValidFiles(inputs1)
    requires g in files && g !in inputs1
    ensures Beyond(g, inputs0 + inputs1)
  {
    assert !Overlaps(g, Some(lo), Some(hi));
    assert Smallest(inputs0[0]) in inputs0[0].entries;
    InRange(inputs0[0], Smallest(inputs0[0]));
    assert inputs0[0] in inputs0;
    if Largest(g).user < lo {
      forall f | f in inputs0 + inputs1 ensures Largest(g).user < Smallest(f).user {
        if f in inputs1 { TouchingIsAfter(files, g, f, lo, hi); }
      }
    } else {
      forall f | f in inputs0 + inputs1 ensures Largest(f).user < Smallest(g).user {
        if f in inputs1 { TouchingIsBefore(files, g, f, lo, hi); }
      }
    }
  }

  lemma TouchingIsAfter(files: seq<File>, g: File, f: File, lo: real, hi: real)
    requires ValidFiles(files) && Disjoint(files) && g in files && f in files
    requires Largest(g).user < lo && Overlaps(f, Some(lo), Some(hi))
    ensures Largest(g).user < Smallest(f).user
  {
    var i :| 0 <= i < |files| && files[i] == g;
    var j :| 0 <= j < |files| && files[j] == f;
    InRange(g, Largest(g));
    InRange(f, Largest(f));
  }

  lemma TouchingIsBefore(files: seq<File>, g: File, f: File, lo: real, hi: real)
    requires ValidFiles(files) && Disjoint(files) && g in files && f in files
    requires hi < Smallest(g).user && Overlaps(f, Some(lo), Some(hi))
    ensures Largest(f).user < Smallest(g).user
  {
    var i :| 0 <= i < |files| && files[i] == g;
    var j :| 0 <= j < |files| && files[j] == f;
    InRange(g, Largest(g));
    InRange(f, Largest(f));
  }

  lemma DisjointApart(files: seq<File>, f: File, g: File)
    requires ValidFiles(files) && Disjoint(files) && f in files && g in files && f != g
    ensures Apart(f, g)
  {
    var i :| 0 <= i < |files| && files[i] == f;
    var j :| 0 <= j < |files| && files[j] == g;
  }

  /** The chosen files of a level and those left behind share no user key. */
  ghost predicate ClosedInLevel(v: Levels, level: nat, inputs: seq<File>)
    requires ValidVersion(v) && level < NUM_LEVELS
  {
    && Within(inputs, v[level]) && ValidFiles(inputs) && NoDuplicates(inputs)
    && (forall f, g :: f in v[level] && f !in inputs && g in inputs ==> Apart(f, g))
  }

  /** Whatever the overlap search returns is closed in its level. */
  lemma CollectedClosed(v: Levels, level: nat, inputs: seq<File>, lo: real, hi: real)
    requires ValidVersion(v) && level < NUM_LEVELS && Collected(v[level], inputs, Some(lo), Some(hi))
    requires level == 0 ==> forall f :: f in inputs ==> |f.entries| > 0 && Covers(f, Some(lo), Some(hi))
    requires NoDuplicates(inputs)
    ensures ClosedInLevel(v, level, inputs)
  {
    WithinValid(inputs, v[level]);
    forall f, g | f in v[level] && f !in inputs && g in inputs ensures Apart(f, g) {
      if level > 0 { DisjointApart(v[level], f, g); }
    }
  }

  lemma SingleClosed(v: Levels, level: nat, f: File)
    requires ValidVersion(v) && 0 < level < NUM_LEVELS && f in v[level]
    ensures ClosedInLevel(v, level, [f])
  {
    WithinValid([f], v[level]);
    forall g | g in v[level] && g !in [f] ensures Apart(g, f) {
      DisjointApart(v[level], g, f);
    }
  }

  /** The files of the next level that the inputs touch. */
  method NextLevelInputs(v: Levels, level: nat, inputs0: seq<File>) returns (inputs1: seq<File>)
    requires ValidVersion(v) && level + 1 < NUM_LEVELS && inputs0 != [] && ClosedInLevel(v, level, inputs0)
    ensures ClosedSelection(v, level, inputs0, inputs1) && Found(v, level + 1, inputs0, inputs1)
  {
    var lo, hi := GetRange(inputs0);
    ghost var l, h;
    inputs1, l, h := GetOverlappingInputs(level + 1, v[level + 1], Some(lo.user), Some(hi.user));
    assert FoundBetween(v, level + 1, inputs0, inputs1, lo.user, hi.user, l, h);
    WithinValid(inputs1, v[level + 1]);
    forall g | g in v[level + 1] && g !in inputs1 ensures Beyond(g, inputs0 + inputs1) {
      UntouchedIsBeyond(v[level + 1], inputs0, inputs1, lo.user, hi.user, g);
    }
  }

  lemma InputsTouch(v: Levels, level: nat, inputs0: seq<File>, inputs1: seq<File>, lo: real, hi: real)
    requires ValidVersion(v) && ClosedSelection(v, level, inputs0, inputs1)
    requires forall f :: f in inputs0 + inputs1 ==> |f.entries| > 0 && Covers(f, Some(lo), Some(hi))
    ensures forall f :: f in inputs0 ==> f in v[level] && Overlaps(f, Some(lo), Some(hi))
  {
    forall f | f in inputs0 ensures f in v[level] && Overlaps(f, Some(lo), Some(hi)) {
      assert f in inputs0 + inputs1 && ValidFile(f);
      InRange(f, Smallest(f));
    }
  }

  /** More files of the level can be taken in: they are not too big and bring in no more of the next level. */
  ghost predicate Widens(v: Levels, level: nat, inputs0: seq<File>, inputs1: seq<File>, wide0: seq<File>,
                         wide1: seq<File>)
    requires ValidVersion(v) && level + 1 < NUM_LEVELS
  {
    && inputs1 != [] && Found(v, level, inputs0 + inputs1, wide0) && |wide0| > |inputs0|
    && TotalFileSize(inputs1) + TotalFileSize(wide0) < EXPANDED_COMPACTION_BYTE_SIZE_LIMIT
    && Found(v, level + 1, wide0, wide1) && |wide1| == |inputs1|
  }

  lemma NeverWidens(v: Levels, level: nat, inputs0: seq<File>, inputs1: seq<File>, wide0: seq<File>)
    requires ValidVersion(v) && level + 1 < NUM_LEVELS && Found(v, level, inputs0 + inputs1, wide0)
    requires || |wide0| <= |inputs0|
             || TotalFileSize(inputs1) + TotalFileSize(wide0) >= EXPANDED_COMPACTION_BYTE_SIZE_LIMIT
             || exists wide1 :: Found(v, level + 1, wide0, wide1) && |wide1| != |inputs1|
    ensures forall w0, w1 :: !Widens(v, level, inputs0, inputs1, w0, w1)
  {
    forall w0, w1 ensures !Widens(v, level, inputs0, inputs1, w0, w1) {
      if Widens(v, level, inputs0, inputs1, w0, w1) {
        FoundOnce(v, level, inputs0 + inputs1, w0, wide0);
        var wide1 :| Found(v, level + 1, wide0, wide1) && |wide1| != |inputs1|;
        FoundOnce(v, level + 1, wide0, w1, wide1);
      }
    }
  }

  /** The inputs are widened if that is possible, and only then. */
  ghost predicate WidenedIf(v: Levels, level: nat, inputs0: seq<File>, inputs1: seq<File>, new0: seq<File>,
                            new1: seq<File>)
    requires ValidVersion(v) && level + 1 < NUM_LEVELS
  {
    || Widens(v, level, inputs0, inputs1, new0, new1)
    || (new0 == inputs0 && new1 == inputs1 && forall w0, w1 :: !Widens(v, level, inputs0, inputs1, w0, w1))
  }

  /** Take in more files of the level if that brings in no more of the next one. */
  method ExpandInputs(v: Levels, level: nat, inputs0: seq<File>, inputs1: seq<File>)
    returns (new0: seq<File>, new1: seq<File>)
    requires ValidVersion(v) && ClosedSelection(v, level, inputs0, inputs1) && inputs1 != []
    ensures ClosedSelection(v, level, new0, new1) && Within(inputs0, new0)
    ensures WidenedIf(v, level, inputs0, inputs1, new0, new1)
  {
    new0, new1 := inputs0, inputs1;
    var allLo, allHi := GetRange(inputs0 + inputs1);
    InputsTouch(v, level, inputs0, inputs1, allLo.user, allHi.user);
    var expanded0 := GetExpanded(v, level, inputs0 + inputs1, allLo.user, allHi.user);
    if |expanded0| > |inputs0|
       && TotalFileSize(inputs1) + TotalFileSize(expanded0) < EXPANDED_COMPACTION_BYTE_SIZE_LIMIT {
      var expanded1 := NextLevelInputs(v, level, expanded0);
      if |expanded1| == |inputs1| {
        new0, new1 := expanded0, expanded1;
        return;
      }
    }
    NeverWidens(v, level, inputs0, inputs1, expanded0);
  }

  /** The files two levels down that the inputs touch, if there is such a level. */
  ghost predicate Grandparents(v: Levels, c: Compaction)
    requires ValidVersion(v)
  {
    if c.level + 2 < NUM_LEVELS then Found(v, c.level + 2, c.inputs0 + c.inputs1, c.grandparents)
    else c.grandparents == []
  }

  method FindGrandparents(v: Levels, level: nat, inputs0: seq<File>, inputs1: seq<File>) returns (found: seq<File>)
    requires ValidVersion(v) && ClosedSelection(v, level, inputs0, inputs1)
    ensures Grandparents(v, Compaction(level, inputs0, inputs1, found))
  {
    found := [];
    if level + 2 < NUM_LEVELS {
      var allLo, allHi := GetRange(inputs0 + inputs1);
      ghost var l, h;
      found, l, h := GetOverlappingInputs(level + 2, v[level + 2], Some(allLo.user), Some(allHi.user));
      assert FoundBetween(v, level + 2, inputs0 + inputs1, found, allLo.user, allHi.user, l, h);
    }
  }

  /** Add the files of the next level that the inputs touch, and remember the overlap with the level after. */
  method SetupOtherInputs(v: Levels, level: nat, chosen: seq<File>) returns (c: Compaction, ghost first: seq<File>)
    requires ValidVersion(v) && level + 1 < NUM_LEVELS && chosen != [] && ClosedInLevel(v, level, chosen)
    ensures c.level == level && ClosedSelection(v, level, c.inputs0, c.inputs1) && Within(chosen, c.inputs0)
    ensures Found(v, level + 1, chosen, first) && WidenedIf(v, level, chosen, first, c.inputs0, c.inputs1)
    ensures Grandparents(v, c)
  {
    var inputs0 := chosen;
    var inputs1 := NextLevelInputs(v, level, inputs0);
    first := inputs1;
    if inputs1 != [] {
      inputs0, inputs1 := ExpandInputs(v, level, inputs0, inputs1);
    }
    var grandparents := FindGrandparents(v, level, inputs0, inputs1);
    c := Compaction(level, inputs0, inputs1, grandparents);
  }

  method GetExpanded(v: Levels, level: nat, ghost chosen: seq<File>, lo: real, hi: real) returns (inputs: seq<File>)
    requires ValidVersion(v) && level < NUM_LEVELS && Spans(chosen, lo, hi)
    ensures forall f :: f in v[level] && Overlaps(f, Some(lo), Some(hi)) ==> f in inputs
    ensures ClosedInLevel(v, level, inputs) && Found(v, level, chosen, inputs)
  {
    ghost var l, h;
    inputs, l, h := GetOverlappingInputs(level, v[level], Some(lo), Some(hi));
    assert FoundBetween(v, level, chosen, inputs, lo, hi, l, h);
    CollectedClosed(v, level, inputs, l.value, h.value);
  }

  /** The files of the level that a compaction starts from: at level 0 with all that the file drags in. */
  ghost predicate StartsFrom(v: Levels, level: nat, start: File, chosen: seq<File>)
    requires ValidVersion(v) && level < NUM_LEVELS
  {
    if level == 0 then Found(v, 0, [start], chosen) else chosen == [start]
  }

  /** The inputs that a compaction from a file has. */
  ghost predicate PickedFrom(v: Levels, start: File, c: Compaction)
    requires ValidVersion(v) && c.level + 1 < NUM_LEVELS
  {
    Grandparents(v, c) && exists chosen, first :: PickedVia(v, start, chosen, first, c)
  }

  ghost predicate PickedVia(v: Levels, start: File, chosen: seq<File>, first: seq<File>, c: Compaction)
    requires ValidVersion(v) && c.level + 1 < NUM_LEVELS
  {
    && StartsFrom(v, c.level, start, chosen) && Found(v, c.level + 1, chosen, first)
    && WidenedIf(v, c.level, chosen, first, c.inputs0, c.inputs1)
  }

  method ChooseStart(v: Levels, level: nat, start: File) returns (chosen: seq<File>)
    requires ValidVersion(v) && level < NUM_LEVELS && start in v[level]
    ensures StartsFrom(v, level, start, chosen) && ClosedInLevel(v, level, chosen) && start in chosen
  {
    chosen := [start];
    if level == 0 {
      WithinValid(chosen, v[0]);
      var lo, hi := GetRange(chosen);
      InRange(start, Smallest(start));
      assert start in chosen && Overlaps(start, Some(lo.user), Some(hi.user));
      chosen := GetExpanded(v, 0, chosen, lo.user, hi.user);
    } else {
      SingleClosed(v, level, start);
    }
  }

  /** The inputs of a compaction that starts from one file of a level. */
  method PickInputs(v: Levels, level: nat, start: File) returns (c: Compaction)
    requires ValidVersion(v) && level + 1 < NUM_LEVELS && start in v[level]
    ensures c.level == level && ClosedSelection(v, level, c.inputs0, c.inputs1) && start in c.inputs0
    ensures PickedFrom(v, start, c)
  {
    var chosen := ChooseStart(v, level, start);
    ghost var first;
    c, first := SetupOtherInputs(v, level, chosen);
    assert PickedVia(v, start, chosen, first, c);
  }

  /** A single file with nothing below it to merge with is moved, unless it would overlap
      too much of the level after. */
  predicate IsTrivialMove(c: Compaction) {
    |c.inputs0| == 1 && |c.inputs1| == 0 && TotalFileSize(c.grandparents) <= MAX_GRANDPARENT_OVERLAP_BYTES
  }

  ghost predicate StandsAlone(v: Levels, level: nat, f: File)
    requires ValidVersion(v) && level + 1 < NUM_LEVELS && f in v[level]
  {
    && (level == 0 ==> forall g :: g in v[0] && g != f ==> Apart(f, g))
    && (forall g :: g in v[level + 1] ==> Apart(f, g))
  }

  /** The file shares no user key with another one of level 0 or with one of the next level, and those that it
      touches two levels down add up to at most 20 MB. */
  ghost predicate MovesDown(v: Levels, level: nat, f: File)
    requires ValidVersion(v) && level + 1 < NUM_LEVELS && f in v[level]
  {
    && StandsAlone(v, level, f)
    && (level + 2 < NUM_LEVELS ==>
          TotalFileSize(Touching(v[level + 2], Some(Smallest(f).user), Some(Largest(f).user))) <= 20 * 1048576)
  }

  lemma SpanOfOne(f: File, lo: real, hi: real)
    requires Spans([f], lo, hi)
    ensures lo == Smallest(f).user && hi == Largest(f).user
  {
  }

  lemma OnlyOne(files: seq<File>, f: File)
    requires NoDuplicates(files) && f in files && forall g :: g in files ==> g == f
    ensures files == [f]
  {
    assert files[0] in files;
    if |files| > 1 {
      assert files[1] in files;
      NotBefore(files, 1);
    }
  }

  /** Nothing of the next level is found exactly when everything there is apart from the file. */
  lemma NothingBelow(v: Levels, level: nat, f: File, found: seq<File>)
    requires ValidVersion(v) && level + 1 < NUM_LEVELS && f in v[level] && Found(v, level + 1, [f], found)
    ensures found == [] <==> forall g :: g in v[level + 1] ==> Apart(f, g)
  {
    var lo, hi, l, h :| FoundBetween(v, level + 1, [f], found, lo, hi, l, h);
    SpanOfOne(f, lo, hi);
    forall g | g in v[level + 1] ensures g in found <==> !Apart(f, g) {
    }
    if found != [] { assert found[0] in found; }
  }

  /** At level 0 a file that is apart from all others drags in none. */
  lemma DragsNone(v: Levels, f: File, chosen: seq<File>, lo: real, hi: real, l: Option<real>, h: Option<real>)
    requires ValidVersion(v) && f in v[0] && FoundBetween(v, 0, [f], chosen, lo, hi, l, h)
    requires forall g :: g in v[0] && g != f ==> Apart(f, g)
    ensures |chosen| == 1
  {
    SpanOfOne(f, lo, hi);
    assert ClosedRange(v[0], Some(lo), Some(hi));
    assert l == Some(lo) && h == Some(hi);
    InRange(f, Smallest(f));
    DragsTouching(v, f, chosen, lo, hi, l, h, f);
    OnlyOne(chosen, f);
  }

  lemma DragsTouching(v: Levels, f: File, chosen: seq<File>, lo: real, hi: real, l: Option<real>, h: Option<real>,
                      g: File)
    requires ValidVersion(v) && f in v[0] && FoundBetween(v, 0, [f], chosen, lo, hi, l, h)
    requires g in v[0] && !Apart(f, g)
    ensures g in chosen
  {
    SpanOfOne(f, lo, hi);
    assert Overlaps(g, l, h);
  }

  /** At level 0 a file drags in no other exactly when all others are apart from it. */
  lemma AloneInLevel0(v: Levels, f: File, chosen: seq<File>)
    requires ValidVersion(v) && f in v[0] && Found(v, 0, [f], chosen)
    ensures f in chosen
    ensures |chosen| == 1 <==> forall g :: g in v[0] && g != f ==> Apart(f, g)
  {
    var lo, hi, l, h :| FoundBetween(v, 0, [f], chosen, lo, hi, l, h);
    InRange(f, Smallest(f));
    DragsTouching(v, f, chosen, lo, hi, l, h, f);
    if forall g :: g in v[0] && g != f ==> Apart(f, g) {
      DragsNone(v, f, chosen, lo, hi, l, h);
    } else {
      var g :| g in v[0] && g != f && !Apart(f, g);
      DragsTouching(v, f, chosen, lo, hi, l, h, g);
    }
  }

  /** The files that count for a move are those two levels down that the file itself touches. */
  lemma GrandparentsOfOne(v: Levels, c: Compaction, f: File)
    requires ValidVersion(v) && Grandparents(v, c) && c.level + 2 < NUM_LEVELS && c.inputs0 == [f] && c.inputs1 == []
    requires |f.entries| > 0
    ensures c.grandparents == Touching(v[c.level + 2], Some(Smallest(f).user), Some(Largest(f).user))
  {
    assert c.inputs0 + c.inputs1 == [f];
    var lo, hi, l, h :| FoundBetween(v, c.level + 2, [f], c.grandparents, lo, hi, l, h);
    SpanOfOne(f, lo, hi);
  }

  lemma PicksOnlyStart(v: Levels, level: nat, start: File, chosen: seq<File>, first: seq<File>)
    requires ValidVersion(v) && level + 1 < NUM_LEVELS && start in v[level]
    requires StartsFrom(v, level, start, chosen) && Found(v, level + 1, chosen, first)
    ensures |chosen| == 1 && first == [] <==> StandsAlone(v, level, start)
    ensures |chosen| == 1 ==> chosen == [start]
  {
    if level == 0 { AloneInLevel0(v, start, chosen); }
    if |chosen| == 1 {
      assert chosen == [start];
      NothingBelow(v, level, start, first);
    }
  }

  lemma WidenedNone(v: Levels, level: nat, chosen: seq<File>, first: seq<File>, new0: seq<File>, new1: seq<File>)
    requires ValidVersion(v) && level + 1 < NUM_LEVELS && WidenedIf(v, level, chosen, first, new0, new1)
    ensures new1 == [] <==> first == []
    ensures first == [] ==> new0 == chosen
  {
  }

  /** A compaction from one file comes down to moving it exactly when it stands alone. */
  lemma MoveExact(v: Levels, start: File, c: Compaction)
    requires ValidVersion(v) && c.level + 1 < NUM_LEVELS && start in v[c.level] && PickedFrom(v, start, c)
    ensures IsTrivialMove(c) <==> MovesDown(v, c.level, start)
    ensures IsTrivialMove(c) ==> c.inputs0 == [start] && c.inputs1 == []
  {
    var chosen, first :| PickedVia(v, start, chosen, first, c);
    PickedAlone(v, start, chosen, first, c);
    MoveDecided(v, start, c);
  }

  /** A single file without anything of the next level is the input exactly when it stands alone. */
  lemma PickedAlone(v: Levels, start: File, chosen: seq<File>, first: seq<File>, c: Compaction)
    requires ValidVersion(v) && c.level + 1 < NUM_LEVELS && start in v[c.level] && PickedVia(v, start, chosen, first, c)
    ensures |c.inputs0| == 1 && c.inputs1 == [] <==> StandsAlone(v, c.level, start)
    ensures |c.inputs0| == 1 && c.inputs1 == [] ==> c.inputs0 == [start]
  {
    PicksOnlyStart(v, c.level, start, chosen, first);
    WidenedNone(v, c.level, chosen, first, c.inputs0, c.inputs1);
  }

  lemma MoveDecided(v: Levels, start: File, c: Compaction)
    requires ValidVersion(v) && c.level + 1 < NUM_LEVELS && start in v[c.level] && Grandparents(v, c)
    requires |c.inputs0| == 1 && c.inputs1 == [] <==> StandsAlone(v, c.level, start)
    requires |c.inputs0| == 1 && c.inputs1 == [] ==> c.inputs0 == [start]
    ensures IsTrivialMove(c) <==> MovesDown(v, c.level, start)
    ensures IsTrivialMove(c) ==> c.inputs0 == [start] && c.inputs1 == []
  {
    if c.inputs0 == [start] && c.inputs1 == [] && c.level + 2 < NUM_LEVELS {
      GrandparentsOfOne(v, c, start);
    }
  }
}
