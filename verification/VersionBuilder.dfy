/** Applying an edit to one level, VersionSet::Builder of server/lib/leveldb/db/version_set.cc. */
module VersionBuilder {
  import opened InternalKeys
  import opened Version
  import opened Overlap

  /** By smallest key, ties broken by number. */
  predicate BySmallestKey(f: File, g: File)
    requires |f.entries| > 0 && |g.entries| > 0
  {
    Less(Smallest(f), Smallest(g))
    || (!Less(Smallest(g), Smallest(f)) && f.number < g.number)
  }

  ghost predicate Precedes(x: File, y: File)
    requires |x.entries| > 0 && |y.entries| > 0
  {
    Largest(x).user < Smallest(y).user
  }

  /** The files that survive an edit. */
  ghost predicate Applied(base: seq<File>, deleted: set<nat>, added: seq<File>, r: seq<File>) {
    forall f :: f in r <==> (f in base || f in added) && f.number !in deleted
  }

  /** The remaining and the added files have no user key in common. */
  ghost predicate Compatible(base: seq<File>, deleted: set<nat>, added: seq<File>)
    requires ValidFiles(base) && ValidFiles(added)
  {
    && Disjoint(base) && Disjoint(added)
    && forall b, a :: b in base && a in added && b.number !in deleted ==> Apart(b, a)
  }

  function KeepFile(deleted: set<nat>, f: File): seq<File> {
    if f.number in deleted then [] else [f]
  }

  /** The base files and the added files in order, without the deleted ones. */
  function Merged(base: seq<File>, deleted: set<nat>, added: seq<File>): (r: seq<File>)
    requires ValidFiles(base) && ValidFiles(added)
    decreases |base| + |added|
  {
    if base == [] && added == [] then []
    else if base != [] && (added == [] || !BySmallestKey(added[0], base[0])) then
      KeepFile(deleted, base[0]) + Merged(base[1..], deleted, added)
    else
      KeepFile(deleted, added[0]) + Merged(base, deleted, added[1..])
  }

  lemma {:induction false} MergedFiles(base: seq<File>, deleted: set<nat>, added: seq<File>)
    requires ValidFiles(base) && ValidFiles(added)
    ensures Applied(base, deleted, added, Merged(base, deleted, added))
    decreases |base| + |added|
  {
    if base == [] && added == [] {
    } else if base != [] && (added == [] || !BySmallestKey(added[0], base[0])) {
      MergedFiles(base[1..], deleted, added);
      assert base == [base[0]] + base[1..];
    } else {
      MergedFiles(base, deleted, added[1..]);
      assert added == [added[0]] + added[1..];
    }
  }

  lemma AppliedValid(base: seq<File>, deleted: set<nat>, added: seq<File>, r: seq<File>)
    requires ValidFiles(base) && ValidFiles(added) && Applied(base, deleted, added, r)
    ensures ValidFiles(r)
  {
    forall i | 0 <= i < |r| ensures ValidFile(r[i]) {
      assert r[i] in r;
    }
  }

  lemma RangeOrder(f: File)
    requires ValidFile(f)
    ensures Smallest(f).user <= Largest(f).user
  {
    InRange(f, Smallest(f));
  }

  /** A disjoint list is in order of smallest keys, and its head precedes the rest. */
  lemma HeadPrecedes(fs: seq<File>)
    requires ValidFiles(fs) && Disjoint(fs) && fs != []
    ensures forall f :: f in fs[1..] ==> Precedes(fs[0], f)
    ensures forall f :: f in fs ==> Smallest(fs[0]).user <= Smallest(f).user
  {
    RangeOrder(fs[0]);
    forall f | f in fs ensures Smallest(fs[0]).user <= Smallest(f).user {
      var k :| 0 <= k < |fs| && fs[k] == f;
    }
  }

  /** A file apart from a list of files that start no earlier precedes them all. */
  lemma ApartPrecedes(x: File, fs: seq<File>)
    requires ValidFile(x) && ValidFiles(fs)
    requires forall f :: f in fs ==> Apart(x, f) && Smallest(x).user <= Smallest(f).user
    ensures forall f :: f in fs ==> Precedes(x, f)
  {
    forall f | f in fs ensures Precedes(x, f) {
      RangeOrder(f);
    }
  }

  lemma ConsDisjoint(x: File, fs: seq<File>)
    requires ValidFile(x) && ValidFiles(fs) && Disjoint(fs) && forall f :: f in fs ==> Precedes(x, f)
    ensures ValidFiles([x] + fs) && Disjoint([x] + fs)
  {
    forall j | 1 <= j < |[x] + fs| ensures Precedes(x, ([x] + fs)[j]) {
      assert ([x] + fs)[j] in fs;
    }
  }

  lemma TailCompatible(base: seq<File>, deleted: set<nat>, added: seq<File>)
    requires ValidFiles(base) && ValidFiles(added) && Compatible(base, deleted, added)
    ensures base != [] ==> ValidFiles(base[1..]) && Compatible(base[1..], deleted, added)
    ensures added != [] ==> ValidFiles(added[1..]) && Compatible(base, deleted, added[1..])
  {
  }

  /** Merging compatible files keeps a level disjoint. */
  lemma {:induction false} MergedDisjoint(base: seq<File>, deleted: set<nat>, added: seq<File>)
    requires ValidFiles(base) && ValidFiles(added) && Compatible(base, deleted, added)
    ensures ValidFiles(Merged(base, deleted, added)) && Disjoint(Merged(base, deleted, added))
    decreases |base| + |added|
  {
    TailCompatible(base, deleted, added);
    if base == [] && added == [] {
    } else if base != [] && (added == [] || !BySmallestKey(added[0], base[0])) {
      MergedDisjoint(base[1..], deleted, added);
      if base[0].number !in deleted { BaseFirst(base, deleted, added); }
    } else {
      MergedDisjoint(base, deleted, added[1..]);
      if added[0].number !in deleted { AddedFirst(base, deleted, added); }
    }
  }

  lemma BaseFirst(base: seq<File>, deleted: set<nat>, added: seq<File>)
    requires ValidFiles(base) && ValidFiles(added) && Compatible(base, deleted, added) && base != []
    requires (added == [] || !BySmallestKey(added[0], base[0])) && base[0].number !in deleted
    requires ValidFiles(Merged(base[1..], deleted, added)) && Disjoint(Merged(base[1..], deleted, added))
    ensures var r := [base[0]] + Merged(base[1..], deleted, added); ValidFiles(r) && Disjoint(r)
  {
    var x, rest := base[0], Merged(base[1..], deleted, added);
    assert x in base;
    HeadPrecedes(base);
    if added != [] { HeadPrecedes(added); }
    ApartPrecedes(x, added);
    MergedFiles(base[1..], deleted, added);
    ConsDisjoint(x, rest);
  }

  lemma AddedFirst(base: seq<File>, deleted: set<nat>, added: seq<File>)
    requires ValidFiles(base) && ValidFiles(added) && Compatible(base, deleted, added) && added != []
    requires (base == [] || BySmallestKey(added[0], base[0])) && added[0].number !in deleted
    requires ValidFiles(Merged(base, deleted, added[1..])) && Disjoint(Merged(base, deleted, added[1..]))
    ensures var r := [added[0]] + Merged(base, deleted, added[1..]); ValidFiles(r) && Disjoint(r)
  {
    var x, rest := added[0], Merged(base, deleted, added[1..]);
    assert x in added;
    HeadPrecedes(added);
    if base != [] { HeadPrecedes(base); }
    MergedFiles(base, deleted, added[1..]);
    forall f | f in rest ensures Precedes(x, f) {
      if f in base {
        RangeOrder(f);
        assert Apart(f, x);
      }
    }
    ConsDisjoint(x, rest);
  }

  lemma HeadDiffers(fs: seq<File>)
    requires NoDuplicates(fs) && fs != []
    ensures fs[0] in fs && fs[0] !in fs[1..] && NoDuplicates(fs[1..])
  {
    forall j | 0 < j < |fs| ensures fs[0] != fs[j] {
      assert Differ(fs[0], fs[j]);
    }
    forall i, j | 0 <= i < j < |fs[1..]| ensures Differ(fs[1..][i], fs[1..][j]) {
      assert Differ(fs[i + 1], fs[j + 1]);
    }
  }

  lemma {:induction false} MergedNoDuplicates(base: seq<File>, deleted: set<nat>, added: seq<File>)
    requires ValidFiles(base) && ValidFiles(added)
    requires NoDuplicates(base) && NoDuplicates(added) && forall f :: f in added ==> f !in base
    ensures NoDuplicates(Merged(base, deleted, added))
    decreases |base| + |added|
  {
    if base == [] && added == [] {
    } else if base != [] && (added == [] || !BySmallestKey(added[0], base[0])) {
      MergedNoDuplicates(base[1..], deleted, added);
      MergedFiles(base[1..], deleted, added);
      HeadDiffers(base);
    } else {
      MergedNoDuplicates(base, deleted, added[1..]);
      MergedFiles(base, deleted, added[1..]);
      HeadDiffers(added);
    }
  }

  /** The file with the smaller smallest key comes first; of two with the same one, that with the smaller number. */
  ghost predicate InOrder(x: File, y: File) {
    && |x.entries| > 0 && |y.entries| > 0
    && (Less(Smallest(x), Smallest(y)) || (!Less(Smallest(y), Smallest(x)) && x.number <= y.number))
  }

  ghost predicate Ordered(fs: seq<File>) {
    forall i, j {:trigger InOrder(fs[i], fs[j])} :: 0 <= i < j < |fs| ==> InOrder(fs[i], fs[j])
  }

  lemma ConsOrdered(x: File, fs: seq<File>)
    requires Ordered(fs) && forall f :: f in fs ==> InOrder(x, f)
    ensures Ordered([x] + fs)
  {
    var r := [x] + fs;
    forall i, j | 0 <= i < j < |r| ensures InOrder(r[i], r[j]) {
      if i == 0 { assert r[j] in fs; } else { assert InOrder(fs[i - 1], fs[j - 1]); }
    }
  }

  lemma OrderedTail(fs: seq<File>)
    requires Ordered(fs) && fs != []
    ensures Ordered(fs[1..]) && forall f :: f in fs[1..] ==> InOrder(fs[0], f)
  {
    forall f | f in fs[1..] ensures InOrder(fs[0], f) {
      var j :| 0 <= j < |fs[1..]| && fs[1..][j] == f;
      assert InOrder(fs[0], fs[j + 1]);
    }
    forall i, j | 0 <= i < j < |fs[1..]| ensures InOrder(fs[1..][i], fs[1..][j]) {
      assert InOrder(fs[i + 1], fs[j + 1]);
    }
  }

  /** What starts no later than the head of an ordered list starts no later than the list. */
  lemma BeforeHead(x: File, fs: seq<File>)
    requires ValidFiles(fs) && Ordered(fs) && (fs != [] ==> InOrder(x, fs[0]))
    ensures forall f :: f in fs ==> InOrder(x, f)
  {
    if fs != [] {
      OrderedTail(fs);
      assert fs == [fs[0]] + fs[1..];
    }
  }

  /** Merging files in order gives files in order, on level 0 too. */
  lemma {:induction false} MergedOrdered(base: seq<File>, deleted: set<nat>, added: seq<File>)
    requires ValidFiles(base) && ValidFiles(added) && Ordered(base) && Ordered(added)
    ensures Ordered(Merged(base, deleted, added))
    decreases |base| + |added|
  {
    if base == [] && added == [] {
    } else if base != [] && (added == [] || !BySmallestKey(added[0], base[0])) {
      OrderedTail(base);
      BeforeHead(base[0], added);
      MergedOrdered(base[1..], deleted, added);
      MergedFiles(base[1..], deleted, added);
      ConsOrdered(base[0], Merged(base[1..], deleted, added));
    } else {
      OrderedTail(added);
      BeforeHead(added[0], base);
      MergedOrdered(base, deleted, added[1..]);
      MergedFiles(base, deleted, added[1..]);
      ConsOrdered(added[0], Merged(base, deleted, added[1..]));
    }
  }

  lemma MergedStep(base: seq<File>, i: nat, deleted: set<nat>, added: seq<File>, j: nat)
    requires ValidFiles(base) && ValidFiles(added) && i <= |base| && j <= |added|
    ensures i < |base| && (j == |added| || !BySmallestKey(added[j], base[i])) ==>
              Merged(base[i..], deleted, added[j..]) ==
              KeepFile(deleted, base[i]) + Merged(base[i + 1..], deleted, added[j..])
    ensures j < |added| && (i == |base| || BySmallestKey(added[j], base[i])) ==>
              Merged(base[i..], deleted, added[j..]) ==
              KeepFile(deleted, added[j]) + Merged(base[i..], deleted, added[j + 1..])
  {
    if i < |base| { assert base[i..][0] == base[i] && base[i..][1..] == base[i + 1..]; }
    if j < |added| { assert added[j..][0] == added[j] && added[j..][1..] == added[j + 1..]; }
  }

  /** The merge of what is left from i and from j on, by index. */
  ghost function MergedFrom(base: seq<File>, i: nat, deleted: set<nat>, added: seq<File>, j: nat): seq<File>
    requires ValidFiles(base) && ValidFiles(added) && i <= |base| && j <= |added|
    decreases |base| - i + |added| - j
  {
    if i == |base| && j == |added| then []
    else if i < |base| && (j == |added| || !BySmallestKey(added[j], base[i])) then
      KeepFile(deleted, base[i]) + MergedFrom(base, i + 1, deleted, added, j)
    else
      KeepFile(deleted, added[j]) + MergedFrom(base, i, deleted, added, j + 1)
  }

  lemma {:induction false} MergedFromSlices(base: seq<File>, i: nat, deleted: set<nat>, added: seq<File>, j: nat)
    requires ValidFiles(base) && ValidFiles(added) && i <= |base| && j <= |added|
    ensures MergedFrom(base, i, deleted, added, j) == Merged(base[i..], deleted, added[j..])
    decreases |base| - i + |added| - j
  {
    MergedStep(base, i, deleted, added, j);
    if i == |base| && j == |added| {
    } else if i < |base| && (j == |added| || !BySmallestKey(added[j], base[i])) {
      MergedFromSlices(base, i + 1, deleted, added, j);
    } else {
      MergedFromSlices(base, i, deleted, added, j + 1);
    }
  }

  /** Copy the base files from i on that come no later than the next added file, if there is one. */
  method CopyBase(base: seq<File>, i: nat, deleted: set<nat>, added: seq<File>, j: nat) returns (r: seq<File>, k: nat)
    requires ValidFiles(base) && ValidFiles(added) && i <= |base| && j <= |added|
    ensures i <= k <= |base| && (k < |base| ==> j < |added| && BySmallestKey(added[j], base[k]))
    ensures MergedFrom(base, i, deleted, added, j) == r + MergedFrom(base, k, deleted, added, j)
  {
    r, k := [], i;
    while k < |base| && (j == |added| || !BySmallestKey(added[j], base[k]))
      invariant i <= k <= |base|
      invariant MergedFrom(base, i, deleted, added, j) == r + MergedFrom(base, k, deleted, added, j)
      decreases |base| - k
    {
      r := r + KeepFile(deleted, base[k]);
      k := k + 1;
    }
  }

  /** Merge the added files into the base files of a level, leaving out the deleted ones. */
  method SaveLevel(base: seq<File>, deleted: set<nat>, added: seq<File>) returns (r: seq<File>)
    requires ValidFiles(base) && ValidFiles(added)
    ensures r == Merged(base, deleted, added) && Applied(base, deleted, added, r)
    ensures Ordered(base) && Ordered(added) ==> Ordered(r)
  {
    r := [];
    var i, copied := 0, [];
    for j := 0 to |added|
      invariant 0 <= i <= |base|
      invariant MergedFrom(base, 0, deleted, added, 0) == r + MergedFrom(base, i, deleted, added, j)
    {
      copied, i := CopyBase(base, i, deleted, added, j);
      r := r + copied + KeepFile(deleted, added[j]);
    }
    copied, i := CopyBase(base, i, deleted, added, |added|);
    r := r + copied;
    MergedFromSlices(base, 0, deleted, added, 0);
    assert base[0..] == base && added[0..] == added;
    MergedFiles(base, deleted, added);
    if Ordered(base) && Ordered(added) { MergedOrdered(base, deleted, added); }
  }
}
