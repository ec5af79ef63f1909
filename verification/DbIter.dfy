/** The iterator users see, server/lib/leveldb/db/db_iter.cc: it hides sequence numbers,
    overwritten values and deletions of the entries below it. */
module DbIter {
  import opened Wrappers
  import opened InternalKeys
  import opened Version
  import MergingIterator

  // ---------------------------------------------------------------- live entries

  predicate Seen(m: seq<Entry>, s: nat, i: int)
    requires 0 <= i < |m|
  {
    m[i].seqno <= s
  }

  /** Entry i is a value, and the first entry of its user key not newer than s. */
  ghost predicate Live(m: seq<Entry>, s: nat, i: int)
    requires 0 <= i < |m|
  {
    && Seen(m, s, i) && m[i].kind.Value?
    && forall j {:trigger Seen(m, s, j)} :: 0 <= j < i && m[j].user == m[i].user ==> !Seen(m, s, j)
  }

  ghost predicate NoneLive(m: seq<Entry>, s: nat, lo: int, hi: int)
    requires -1 <= lo && hi <= |m|
  {
    forall i {:trigger Live(m, s, i)} :: lo < i < hi ==> !Live(m, s, i)
  }

  /** The live entries among the first n, in order. */
  ghost function LiveIndices(m: seq<Entry>, s: nat, n: nat): seq<nat>
    requires n <= |m|
  {
    if n == 0 then []
    else LiveIndices(m, s, n - 1) + (if Live(m, s, n - 1) then [n - 1] else [])
  }

  lemma {:induction false} LiveIndicesAre(m: seq<Entry>, s: nat, n: nat)
    requires n <= |m|
    ensures forall j {:trigger LiveIndices(m, s, n)[j]} :: 0 <= j < |LiveIndices(m, s, n)| ==>
              LiveIndices(m, s, n)[j] < n && Live(m, s, LiveIndices(m, s, n)[j])
    ensures forall j, k :: 0 <= j < k < |LiveIndices(m, s, n)| ==> LiveIndices(m, s, n)[j] < LiveIndices(m, s, n)[k]
    ensures forall i {:trigger Live(m, s, i)} :: 0 <= i < n && Live(m, s, i) ==> i in LiveIndices(m, s, n)
  {
    if n > 0 {
      LiveIndicesAre(m, s, n - 1);
    }
  }

  /** What the iterator runs over: the live pairs in order of user keys. */
  ghost function LivePairs(m: seq<Entry>, s: nat): (r: seq<(real, string)>)
    ensures |r| == |LiveIndices(m, s, |m|)|
    ensures forall j {:trigger r[j]} :: 0 <= j < |r| ==>
              LiveIndices(m, s, |m|)[j] < |m|
              && r[j] == (m[LiveIndices(m, s, |m|)[j]].user, m[LiveIndices(m, s, |m|)[j]].value)
  {
    LiveIndicesAre(m, s, |m|);
    var live := LiveIndices(m, s, |m|);
    seq(|live|, j requires 0 <= j < |live| => (m[live[j]].user, m[live[j]].value))
  }

  /** A live entry is what a read of its user key finds. */
  lemma LiveIsNewest(m: seq<Entry>, s: nat, i: nat)
    requires Sorted(m) && i < |m| && m[i].kind.Value?
    ensures Live(m, s, i) <==> Newest(SetOf(m), m[i].user, s, m[i])
  {
    if Live(m, s, i) {
      forall x | Visible(SetOf(m), m[i].user, s, x) ensures x == m[i] || Less(m[i], x) {
        var j :| 0 <= j < |m| && m[j] == x;
        assert Seen(m, s, j);
        assert i < j ==> Less(m[i], m[j]);
      }
    }
    if Newest(SetOf(m), m[i].user, s, m[i]) {
      forall j | 0 <= j < i && m[j].user == m[i].user ensures !Seen(m, s, j) {
        assert Less(m[j], m[i]);
        assert Seen(m, s, j) ==> Visible(SetOf(m), m[i].user, s, m[j]);
      }
    }
  }

  /** The live pairs are in key order, one for each user key. */
  lemma LivePairsIncrease(m: seq<Entry>, s: nat, j: nat, k: nat)
    requires Sorted(m) && j < k < |LivePairs(m, s)|
    ensures LivePairs(m, s)[j].0 < LivePairs(m, s)[k].0
  {
    LiveIndicesAre(m, s, |m|);
    var x, y := LiveIndices(m, s, |m|)[j], LiveIndices(m, s, |m|)[k];
    assert Less(m[x], m[y]) && Seen(m, s, x);
  }

  /** The live pairs are exactly the answers of reads. */
  lemma LivePairsAnswer(m: seq<Entry>, s: nat, user: real, value: string)
    requires Sorted(m)
    ensures (user, value) in LivePairs(m, s) <==> Answer(SetOf(m), user, s, Some(value))
  {
    LiveIndicesAre(m, s, |m|);
    var live := LiveIndices(m, s, |m|);
    if (user, value) in LivePairs(m, s) {
      var j :| 0 <= j < |live| && LivePairs(m, s)[j] == (user, value);
      LiveIsNewest(m, s, live[j]);
    }
    if Answer(SetOf(m), user, s, Some(value)) {
      var e :| Newest(SetOf(m), user, s, e) && e.kind.Value? && e.value == value;
      var i :| 0 <= i < |m| && m[i] == e;
      LiveIsNewest(m, s, i);
      var j :| 0 <= j < |live| && live[j] == i;
      assert LivePairs(m, s)[j] == (user, value);
    }
  }

  // ---------------------------------------------------------------- neighbours in the list

  lemma NextLive(m: seq<Entry>, s: nat, at: int, i: nat)
    requires -1 <= at < |LiveIndices(m, s, |m|)| && i <= |m|
    requires var lo := if at < 0 then -1 else LiveIndices(m, s, |m|)[at]; lo < i && -1 <= lo && NoneLive(m, s, lo, i)
    requires i < |m| ==> Live(m, s, i)
    ensures i < |m| ==> at + 1 < |LiveIndices(m, s, |m|)| && LiveIndices(m, s, |m|)[at + 1] == i
    ensures i == |m| ==> at + 1 == |LiveIndices(m, s, |m|)|
  {
    LiveIndicesAre(m, s, |m|);
    var live := LiveIndices(m, s, |m|);
    if at + 1 < |live| {
      assert Live(m, s, live[at + 1]);
    }
    if i < |m| {
      var j :| 0 <= j < |live| && live[j] == i;
    }
  }

  lemma PrevLive(m: seq<Entry>, s: nat, at: nat, i: int)
    requires at <= |LiveIndices(m, s, |m|)| && -1 <= i < |m|
    requires var hi := if at == |LiveIndices(m, s, |m|)| then |m| else LiveIndices(m, s, |m|)[at];
             i < hi <= |m| && NoneLive(m, s, i, hi)
    requires i >= 0 ==> Live(m, s, i)
    ensures i >= 0 ==> at > 0 && LiveIndices(m, s, |m|)[at - 1] == i
    ensures i < 0 ==> at == 0
  {
    LiveIndicesAre(m, s, |m|);
    var live := LiveIndices(m, s, |m|);
    if at > 0 {
      assert Live(m, s, live[at - 1]);
    }
    if i >= 0 {
      var j :| 0 <= j < |live| && live[j] == i;
    }
  }

  // ---------------------------------------------------------------- scanning forward

  function Max(a: int, b: int): int {
    if a < b then b else a
  }

  /** No visible entry from j on shares its user key with a visible one before j, unless it is skipped. */
  ghost predicate HiddenAreSkipped(m: seq<Entry>, s: nat, j: nat, skipping: bool, skip: real) {
    forall i, h {:trigger Seen(m, s, i), Seen(m, s, h)} ::
      j <= i < |m| && 0 <= h < j && Seen(m, s, i) && Seen(m, s, h) && m[i].user == m[h].user ==>
        skipping && m[i].user <= skip
  }

  /** What is skipped from j on is not live, or not after t. */
  ghost predicate SkippedAreDead(m: seq<Entry>, s: nat, j: nat, skipping: bool, skip: real, t: int) {
    forall i {:trigger Live(m, s, i)} :: j <= i < |m| && i > t && skipping && m[i].user <= skip ==> !Live(m, s, i)
  }

  /** If the scan starts at or before t, then t is skipped and nothing before it is visible. */
  ghost predicate SkipsStart(m: seq<Entry>, s: nat, j: nat, skipping: bool, skip: real, t: int)
    requires -1 <= t < |m|
  {
    j <= t ==> skipping && m[t].user <= skip && forall i {:trigger Seen(m, s, i)} :: j <= i < t ==> !Seen(m, s, i)
  }

  ghost predicate Scanning(m: seq<Entry>, s: nat, j: nat, skipping: bool, skip: real, t: int)
    requires -1 <= t < |m|
  {
    && HiddenAreSkipped(m, s, j, skipping, skip) && SkippedAreDead(m, s, j, skipping, skip, t)
    && SkipsStart(m, s, j, skipping, skip, t)
  }

  lemma PassUnseen(m: seq<Entry>, s: nat, j: nat, skipping: bool, skip: real, t: int)
    requires -1 <= t < |m| && j < |m| && Scanning(m, s, j, skipping, skip, t) && !Seen(m, s, j)
    ensures Scanning(m, s, j + 1, skipping, skip, t)
  {
  }

  lemma PassDeletion(m: seq<Entry>, s: nat, j: nat, skipping: bool, skip: real, t: int)
    requires -1 <= t < |m| && j < |m| && Sorted(m) && Scanning(m, s, j, skipping, skip, t) && Seen(m, s, j)
    requires t >= 0 ==> m[t].kind.Value?
    requires m[j].kind.Deletion?
    ensures Scanning(m, s, j + 1, true, m[j].user, t)
  {
    forall i | j < i < |m| && m[i].user <= m[j].user ensures !Live(m, s, i) {
      UserOrder(m, j, i);
    }
    forall i, h | j < i < |m| && 0 <= h <= j && m[i].user == m[h].user ensures m[i].user <= m[j].user {
      UserOrder(m, h, j);
    }
  }

  lemma PassHidden(m: seq<Entry>, s: nat, j: nat, skipping: bool, skip: real, t: int)
    requires -1 <= t < |m| && j < |m| && Sorted(m) && Scanning(m, s, j, skipping, skip, t) && Seen(m, s, j)
    requires skipping && m[j].user <= skip
    ensures Scanning(m, s, j + 1, skipping, skip, t) && (j > t ==> !Live(m, s, j))
  {
  }

  lemma FoundNext(m: seq<Entry>, s: nat, j: nat, skipping: bool, skip: real, t: int)
    requires -1 <= t < |m| && j < |m| && Sorted(m) && Scanning(m, s, j, skipping, skip, t) && Seen(m, s, j)
    requires m[j].kind.Value? && !(skipping && m[j].user <= skip)
    ensures Live(m, s, j) && j > t
  {
  }

  /** A visible value that is not skipped ends the scan. */
  predicate Yields(ikey: Entry, s: nat, skipping: bool, skip: real) {
    ikey.seqno <= s && ikey.kind.Value? && !(skipping && ikey.user <= skip)
  }

  /** A visible deletion makes the scan skip its user key. */
  predicate Hides(ikey: Entry, s: nat) {
    ikey.seqno <= s && ikey.kind.Deletion?
  }

  lemma ScanStep(m: seq<Entry>, s: nat, j: nat, skipping: bool, skip: real, t: int)
    requires -1 <= t < |m| && j < |m| && Sorted(m) && Scanning(m, s, j, skipping, skip, t)
    requires t >= 0 ==> m[t].kind.Value?
    ensures Yields(m[j], s, skipping, skip) ==> Live(m, s, j) && j > t
    ensures !Yields(m[j], s, skipping, skip) ==> (j > t ==> !Live(m, s, j))
    ensures Hides(m[j], s) ==> Scanning(m, s, j + 1, true, m[j].user, t)
    ensures !Yields(m[j], s, skipping, skip) && !Hides(m[j], s) ==> Scanning(m, s, j + 1, skipping, skip, t)
  {
    if !Seen(m, s, j) {
      PassUnseen(m, s, j, skipping, skip, t);
    } else if m[j].kind.Deletion? {
      PassDeletion(m, s, j, skipping, skip, t);
    } else if skipping && m[j].user <= skip {
      PassHidden(m, s, j, skipping, skip, t);
    } else {
      FoundNext(m, s, j, skipping, skip, t);
    }
  }

  lemma UserOrder(m: seq<Entry>, i: nat, j: nat)
    requires Sorted(m) && i <= j < |m|
    ensures m[i].user <= m[j].user
  {
    assert i < j ==> Less(m[i], m[j]);
  }

  /** Where a scan for the entry after t may start: at t itself, or at the first entry after
      the place where the inner iterator waits in reverse. */
  lemma NextAfterCurrent(m: seq<Entry>, s: nat, t: nat)
    requires Sorted(m) && t < |m| && Live(m, s, t)
    ensures Scanning(m, s, t, true, m[t].user, t)
  {
    forall i | t < i < |m| && m[i].user <= m[t].user ensures !Live(m, s, i) {
      UserOrder(m, t, i);
    }
    forall i, h | t <= i < |m| && 0 <= h < t && m[i].user == m[h].user ensures m[i].user <= m[t].user {
      UserOrder(m, h, t);
    }
  }

  lemma NextAfterSaved(m: seq<Entry>, s: nat, t: nat, b: nat, key: real)
    requires Sorted(m) && t < |m| && Live(m, s, t) && key == m[t].user
    requires b <= t && NoneSeen(m, s, b - 1, t) && (b > 0 ==> m[b - 1].user < key)
    ensures Scanning(m, s, b, true, key, t)
  {
    forall i | t < i < |m| && m[i].user <= m[t].user ensures !Live(m, s, i) {
      UserOrder(m, t, i);
    }
    forall i, h | b <= i < |m| && 0 <= h < b && m[i].user == m[h].user ensures m[i].user <= key {
      UserOrder(m, h, b - 1);
    }
  }

  lemma SeekStarts(m: seq<Entry>, s: nat, target: real, b: nat)
    requires Sorted(m) && b < |m| && b == SeekIndex(m, SeekKey(target, s))
    ensures Scanning(m, s, b, false, 0.0, -1)
  {
    forall i, h | b <= i < |m| && 0 <= h < b && Seen(m, s, h) ensures m[h].user < m[i].user {
      assert Less(m[h], SeekKey(target, s));
      assert !Less(m[b], SeekKey(target, s));
      UserOrder(m, b, i);
    }
  }

  /** The position in the list of the live entry that a seek has found. */
  lemma SoughtPosition(m: seq<Entry>, s: nat, target: real, i: nat) returns (p: nat)
    requires Sorted(m) && i <= |m| && (i < |m| ==> Live(m, s, i))
    requires var b := SeekIndex(m, SeekKey(target, s)); b <= i && NoneLive(m, s, b - 1, i)
    ensures p <= |LivePairs(m, s)| && (i == |m| ==> p == |LivePairs(m, s)|)
    ensures i < |m| ==> p < |LivePairs(m, s)| && LiveIndices(m, s, |m|)[p] == i && LivePairs(m, s)[p].0 >= target
    ensures forall j :: 0 <= j < p ==> LivePairs(m, s)[j].0 < target
  {
    LiveIndicesAre(m, s, |m|);
    var live, b := LiveIndices(m, s, |m|), SeekIndex(m, SeekKey(target, s));
    p := |live|;
    if i < |m| {
      p :| 0 <= p < |live| && live[p] == i;
      assert !Less(m[b], SeekKey(target, s));
      UserOrder(m, b, i);
    }
    forall j | 0 <= j < p ensures m[live[j]].user < target {
      assert live[j] < i && Live(m, s, live[j]);
      assert Less(m[live[j]], SeekKey(target, s));
    }
  }

  // ---------------------------------------------------------------- scanning back

  /** In reverse the live entry t is saved, and the inner iterator is before all visible
      entries of its user key. */
  ghost predicate SavedAt(m: seq<Entry>, s: nat, t: nat, p: nat, key: real, value: string)
    requires t < |m|
  {
    && key == m[t].user && value == m[t].value
    && if p < |m| then p < t && m[p].user < m[t].user && NoneSeen(m, s, p, t) else NoneSeen(m, s, -1, t)
  }

  ghost predicate NoneSeen(m: seq<Entry>, s: nat, lo: int, hi: int)
    requires -1 <= lo && hi <= |m|
  {
    forall i {:trigger Seen(m, s, i)} :: lo < i < hi ==> !Seen(m, s, i)
  }

  lemma SavedIsNext(m: seq<Entry>, s: nat, t: nat, p: nat, key: real, value: string)
    requires t < |m| && SavedAt(m, s, t, p, key, value)
    ensures var h := if p < |m| then p else -1; h < t && NoneLive(m, s, h, t)
  {
  }

  lemma NoneLiveBetween(m: seq<Entry>, s: nat, u: int, h: int, t: int)
    requires -1 <= u <= h < t <= |m| && NoneLive(m, s, u, h + 1) && NoneLive(m, s, h, t)
    ensures NoneLive(m, s, u, t)
  {
  }

  /** The last visible entry passed by the backward scan, now at j, is the value t. */
  ghost predicate Candidate(m: seq<Entry>, s: nat, j: int, t: int, h: int)
    requires -1 <= j && h < |m|
  {
    && j < t <= h && Seen(m, s, t) && m[t].kind.Value?
    && NoneSeen(m, s, j, t) && NoneLive(m, s, t, h + 1)
  }

  /** What the backward scan from h knows at j. */
  ghost predicate Scanned(m: seq<Entry>, s: nat, j: int, deleted: bool, key: real, value: string, t: int, h: int)
    requires -1 <= j && h < |m|
  {
    if deleted then NoneLive(m, s, j, h + 1)
    else Candidate(m, s, j, t, h) && key == m[t].user && value == m[t].value
  }

  lemma CandidateIsLive(m: seq<Entry>, s: nat, j: int, t: int, h: int)
    requires -1 <= j && h < |m| && Sorted(m) && Candidate(m, s, j, t, h)
    requires j >= 0 ==> m[j].user < m[t].user
    ensures Live(m, s, t)
  {
    forall i | 0 <= i < t && m[i].user == m[t].user ensures !Seen(m, s, i) {
      if i <= j { UserOrder(m, i, j); }
    }
  }

  /** Passing a visible entry at j, of the candidate's user key if there is a candidate. */
  lemma PassBack(m: seq<Entry>, s: nat, j: nat, deleted: bool, key: real, value: string, t: int, h: nat)
    requires j <= h < |m| && Sorted(m) && Seen(m, s, j) && Scanned(m, s, j, deleted, key, value, t, h)
    requires deleted || m[j].user >= key
    ensures Scanned(m, s, j - 1, m[j].kind.Deletion?, m[j].user, m[j].value, j, h)
  {
    if !deleted {
      UserOrder(m, j, t);
      assert !Live(m, s, t);
    }
  }

  /** One step of the backward scan at j. */
  lemma BackStep(m: seq<Entry>, s: nat, j: nat, deleted: bool, key: real, value: string, t: int, h: nat)
    requires j <= h < |m| && Sorted(m) && Scanned(m, s, j, deleted, key, value, t, h)
    ensures !Seen(m, s, j) ==> Scanned(m, s, j - 1, deleted, key, value, t, h)
    ensures Seen(m, s, j) && !deleted && m[j].user < key ==> Live(m, s, t) && SavedAt(m, s, t, j, key, value)
    ensures Seen(m, s, j) && (deleted || m[j].user >= key) ==>
              Scanned(m, s, j - 1, m[j].kind.Deletion?, m[j].user, m[j].value, j, h)
  {
    if Seen(m, s, j) && !deleted && m[j].user < key {
      CandidateIsLive(m, s, j, t, h);
    } else if Seen(m, s, j) {
      PassBack(m, s, j, deleted, key, value, t, h);
    }
  }

  // ---------------------------------------------------------------- the iterator

  class Iterator {
    const iter: MergingIterator.Iterator
    const sequence: nat
    var valid: bool
    var forward: bool
    var savedKey: real
    var savedValue: string
    ghost var at: nat

    ghost function Entries(): seq<Entry> {
      iter.merged
    }

    ghost function LiveList(): seq<nat> {
      LiveIndices(Entries(), sequence, |Entries()|)
    }

    ghost function Pairs(): seq<(real, string)> {
      LivePairs(Entries(), sequence)
    }

    ghost predicate Valid()
      reads this, iter, iter.pos
    {
      && iter.Valid()
      && (!valid ==> at == |LiveList()|)
      && (valid ==> at < |LiveList()| && LiveList()[at] < |Entries()| && Live(Entries(), sequence, LiveList()[at]))
      && (valid && forward ==> iter.at == LiveList()[at])
      && (valid && !forward ==> SavedAt(Entries(), sequence, LiveList()[at], iter.at, savedKey, savedValue))
    }

    constructor (iter: MergingIterator.Iterator, sequence: nat)
      requires iter.Valid()
      ensures Valid() && !valid && this.iter == iter && this.sequence == sequence
    {
      this.iter, this.sequence, valid, forward := iter, sequence, false, true;
      savedKey, savedValue := 0.0, "";
      at := |LiveIndices(iter.merged, sequence, |iter.merged|)|;
    }

    /** The key and value of the pair the iterator is at. */
    function Current(): (r: (real, string))
      requires Valid() && valid
      reads this, iter, iter.pos
      ensures at < |Pairs()| && r == Pairs()[at]
    {
      if forward then (iter.Key().user, iter.Key().value) else (savedKey, savedValue)
    }

    /** Run forward to the first live entry after t that the inner iterator has not passed. */
    method FindNextUserEntry(skipping: bool, skip: real, ghost t: int) returns (found: bool)
      requires iter.Valid() && iter.current.Some? && Sorted(Entries()) && -1 <= t < |Entries()|
      requires t >= 0 ==> Entries()[t].kind.Value?
      requires Scanning(Entries(), sequence, iter.at, skipping, skip, t)
      modifies iter, iter.pos
      ensures iter.Valid() && iter.at <= |Entries()| && NoneLive(Entries(), sequence, Max(t, old(iter.at) - 1), iter.at)
      ensures iter.at >= old(iter.at) && (found <==> iter.at < |Entries()|)
      ensures found ==> iter.at > t && Live(Entries(), sequence, iter.at)
    {
      ghost var m := Entries();
      var skips, key := skipping, skip;
      while iter.current.Some?
        invariant iter.Valid() && old(iter.at) <= iter.at <= |m| && (iter.current.None? <==> iter.at == |m|)
        invariant Scanning(m, sequence, iter.at, skips, key, t)
        invariant NoneLive(m, sequence, Max(t, old(iter.at) - 1), iter.at)
        decreases |m| - iter.at
      {
        var ikey := iter.Key();
        ScanStep(m, sequence, iter.at, skips, key, t);
        if Yields(ikey, sequence, skips, key) {
          return true;
        }
        if Hides(ikey, sequence) {
          skips, key := true, ikey.user;
        }
        iter.Next();
      }
      found := false;
    }

    /** Run back until the last live entry has been passed, keeping the last value seen. */
    method ScanBack() returns (deleted: bool, key: real, value: string, ghost t: int)
      requires iter.Valid() && Sorted(Entries())
      modifies iter, iter.pos
      ensures iter.Valid()
      ensures var h := if old(iter.current).Some? then old(iter.at) else -1; var m := Entries();
              && -1 <= t <= h < |m|
              && if deleted then NoneLive(m, sequence, -1, h + 1)
                 else && 0 <= t && Live(m, sequence, t) && NoneLive(m, sequence, t, h + 1)
                      && SavedAt(m, sequence, t, iter.at, key, value)
    {
      ghost var m := Entries();
      ghost var h := if iter.current.Some? then iter.at else -1;
      deleted, key, value, t := true, 0.0, "", -1;
      while iter.current.Some?
        invariant iter.Valid() && -1 <= t <= h
        invariant (iter.current.Some? ==> iter.at <= h) && (iter.current.None? ==> iter.at == |m|)
        invariant Scanned(m, sequence, if iter.current.Some? then iter.at else -1, deleted, key, value, t, h)
        decreases if iter.current.Some? then iter.at + 1 else 0
      {
        var ikey := iter.Key();
        ghost var j := iter.at;
        BackStep(m, sequence, j, deleted, key, value, t, h);
        if ikey.seqno <= sequence {
          if !deleted && ikey.user < key {
            return;
          }
          deleted, key, value, t := ikey.kind.Deletion?, ikey.user, ikey.value, j;
        }
        iter.Prev();
      }
      if !deleted { CandidateIsLive(m, sequence, -1, t, h); }
    }

    /** Run back to the last live entry at or before the inner iterator. */
    method FindPrevUserEntry() returns (ghost t: int)
      requires iter.Valid() && !forward && Sorted(Entries())
      modifies `valid, `forward, `savedKey, `savedValue, iter, iter.pos
      ensures iter.Valid()
      ensures valid ==> !forward && 0 <= t < |Entries()| && Live(Entries(), sequence, t)
      ensures valid ==> SavedAt(Entries(), sequence, t, iter.at, savedKey, savedValue)
      ensures !valid ==> t == -1
      ensures var h := if old(iter.current).Some? then old(iter.at) else -1;
              -1 <= t <= h < |Entries()| && NoneLive(Entries(), sequence, t, h + 1)
    {
      var deleted, key, value;
      deleted, key, value, t := ScanBack();
      if deleted {
        valid, savedKey, savedValue, forward := false, 0.0, "", true;
        t := -1;
      } else {
        valid, savedKey, savedValue := true, key, value;
      }
    }

    /** Put the inner iterator where the scan for the entry after t may begin. */
    method PassCurrent(ghost t: nat) returns (skip: real)
      requires iter.Valid() && Sorted(Entries()) && t < |Entries()| && Live(Entries(), sequence, t)
      requires if forward then iter.at == t else SavedAt(Entries(), sequence, t, iter.at, savedKey, savedValue)
      modifies iter, iter.pos
      ensures iter.Valid() && iter.at <= t + 1 && (iter.current.None? <==> iter.at == |Entries()|)
      ensures Scanning(Entries(), sequence, iter.at, true, skip, t)
    {
      skip := savedKey;
      if !forward {
        if iter.current.None? {
          iter.SeekToFirst();
        } else {
          iter.Next();
        }
        NextAfterSaved(Entries(), sequence, t, iter.at, skip);
      } else {
        skip := iter.Key().user;
        NextAfterCurrent(Entries(), sequence, t);
      }
    }

    /** Move the inner iterator to the live entry after t. */
    method NextEntry(ghost t: nat) returns (found: bool)
      requires iter.Valid() && Sorted(Entries()) && t < |Entries()| && Live(Entries(), sequence, t)
      requires if forward then iter.at == t else SavedAt(Entries(), sequence, t, iter.at, savedKey, savedValue)
      modifies iter, iter.pos
      ensures iter.Valid() && t < iter.at <= |Entries()| && NoneLive(Entries(), sequence, t, iter.at)
      ensures (found <==> iter.at < |Entries()|) && (found ==> Live(Entries(), sequence, iter.at))
    {
      var skip := PassCurrent(t);
      found := false;
      if iter.current.Some? {
        found := FindNextUserEntry(true, skip, t);
      }
    }

    /** Step to the next live pair. */
    method Next()
      requires Valid() && valid
      modifies this, iter, iter.pos
      ensures Valid() && at == old(at) + 1
    {
      var found := NextEntry(LiveList()[at]);
      NextLive(Entries(), sequence, at, iter.at);
      valid, forward, at := found, true, at + 1;
    }

    /** Leave the entries of the current user key backwards. */
    method LeaveKey(ghost t: nat)
      requires iter.Valid() && iter.current.Some? && Sorted(Entries()) && iter.at == t < |Entries()|
      requires Live(Entries(), sequence, t)
      modifies iter, iter.pos
      ensures iter.Valid()
      ensures var j := if iter.current.Some? then iter.at else -1; j < t && NoneLive(Entries(), sequence, j, t)
    {
      ghost var m := Entries();
      var key := iter.Key().user;
      while true
        invariant iter.Valid() && iter.current.Some? && iter.at <= t
        invariant forall i :: iter.at <= i < t ==> m[i].user == key
        decreases iter.at
      {
        iter.Prev();
        if iter.current.None? || iter.Key().user < key {
          break;
        }
        UserOrder(m, iter.at, t);
      }
    }

    /** Step to the previous live pair. */
    method Prev()
      requires Valid() && valid
      modifies this, iter, iter.pos
      ensures Valid() && at == MergingIterator.PrevPosition(Pairs(), old(at))
    {
      ghost var m, t := Entries(), LiveList()[at];
      if forward {
        LeaveKey(t);
        if iter.current.None? {
          PrevLive(m, sequence, at, -1);
          valid, savedKey, savedValue, at := false, 0.0, "", |LiveList()|;
          return;
        }
        forward := false;
      } else {
        SavedIsNext(m, sequence, t, iter.at, savedKey, savedValue);
      }
      StepBack(at);
    }

    /** From before the live entry with number p, or before the end, go to the live entry before it. */
    method StepBack(ghost p: nat)
      requires iter.Valid() && !forward && Sorted(Entries()) && p <= |LiveList()|
      requires var t, h := EntryOf(p), if iter.current.Some? then iter.at else -1;
               h < t <= |Entries()| && NoneLive(Entries(), sequence, h, t)
      modifies this, iter, iter.pos
      ensures Valid() && at == MergingIterator.PrevPosition(Pairs(), p)
    {
      ghost var h := if iter.current.Some? then iter.at else -1;
      ghost var u := FindPrevUserEntry();
      NoneLiveBetween(Entries(), sequence, u, h, EntryOf(p));
      PrevLive(Entries(), sequence, p, u);
      at := MergingIterator.PrevPosition(Pairs(), p);
    }

    /** The live entry with number p, or the end. */
    ghost function EntryOf(p: nat): int {
      if p < |LiveList()| then LiveList()[p] else |Entries()|
    }

    /** Move the inner iterator to the first live entry whose key is at or after the target. */
    method SeekEntry(target: real) returns (found: bool)
      requires iter.Valid()
      modifies iter, iter.pos
      ensures iter.Valid() && iter.at <= |Entries()| && (found <==> iter.at < |Entries()|)
      ensures found ==> Live(Entries(), sequence, iter.at)
      ensures var b := SeekIndex(Entries(), SeekKey(target, sequence));
              b <= iter.at && NoneLive(Entries(), sequence, b - 1, iter.at)
    {
      iter.Seek(SeekKey(target, sequence));
      found := false;
      if iter.current.Some? {
        SeekStarts(Entries(), sequence, target, iter.at);
        found := FindNextUserEntry(false, 0.0, -1);
      }
    }

    /** Go to the first live pair whose key is at or after the target. */
    method Seek(target: real)
      requires Valid()
      modifies this, iter, iter.pos
      ensures Valid()
      ensures forall j :: 0 <= j < at ==> Pairs()[j].0 < target
      ensures at < |Pairs()| ==> Pairs()[at].0 >= target
    {
      var found := SeekEntry(target);
      ghost var p := SoughtPosition(Entries(), sequence, target, iter.at);
      valid, forward, at := found, true, p;
    }

    /** Move the inner iterator to the first live entry. */
    method FirstEntry() returns (found: bool)
      requires iter.Valid()
      modifies iter, iter.pos
      ensures iter.Valid() && iter.at <= |Entries()| && NoneLive(Entries(), sequence, -1, iter.at)
      ensures (found <==> iter.at < |Entries()|) && (found ==> Live(Entries(), sequence, iter.at))
    {
      iter.SeekToFirst();
      found := false;
      if iter.current.Some? {
        found := FindNextUserEntry(false, 0.0, -1);
      }
    }

    method SeekToFirst()
      requires Valid()
      modifies this, iter, iter.pos
      ensures Valid() && at == 0
    {
      var found := FirstEntry();
      NextLive(Entries(), sequence, -1, iter.at);
      valid, forward, at := found, true, 0;
    }

    method SeekToLast()
      requires Valid()
      modifies this, iter, iter.pos
      ensures Valid() && at == MergingIterator.LastPosition(Pairs())
    {
      iter.SeekToLast();
      forward := false;
      StepBack(|LiveList()|);
    }
  }
}
