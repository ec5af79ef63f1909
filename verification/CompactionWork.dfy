/** Merging the inputs of a compaction, server/lib/leveldb/db/db_impl.cc: which entries are
    dropped, and why no read can tell. */
module CompactionWork {
  import opened Wrappers
  import opened InternalKeys
  import opened Version

  // ---------------------------------------------------------------- reads have answers

  /** Every write has its own sequence number. */
  ghost predicate Numbered(s: set<Entry>) {
    forall x, y {:trigger SameWrite(x, y)} :: x in s && y in s ==> SameWrite(x, y)
  }

  ghost predicate SameWrite(x: Entry, y: Entry) {
    x.seqno == y.seqno ==> x == y
  }

  // ---------------------------------------------------------------- the base level test

  /** No file two or more levels down has the user key in its range. */
  ghost predicate IsBaseLevel(v: Levels, level: nat, user: real)
    requires ValidVersion(v)
  {
    forall l :: level + 2 <= l < NUM_LEVELS ==> NotInLevel(v, l, user)
  }

  ghost predicate NotInLevel(v: Levels, l: nat, user: real)
    requires ValidVersion(v) && l < NUM_LEVELS
  {
    forall f :: f in v[l] ==> !(Smallest(f).user <= user <= Largest(f).user)
  }

  /** The cursors of a compaction into the levels below its output.  They only move forward,
      which is enough because the user keys asked about only grow. */
  class BaseLevelCursors {
    const v: Levels
    const level: nat
    const ptrs: array<nat>
    ghost var asked: Option<real>

    ghost predicate Valid()
      reads this, ptrs
    {
      && ValidVersion(v) && ptrs.Length == NUM_LEVELS
      && forall l :: level + 2 <= l < NUM_LEVELS ==> Passed(l)
    }

    /** The files before cursor l end before the key asked about last. */
    ghost predicate Passed(l: nat)
      requires ValidVersion(v) && ptrs.Length == NUM_LEVELS && l < NUM_LEVELS
      reads this, ptrs
    {
      && ptrs[l] <= |v[l]|
      && forall i :: 0 <= i < ptrs[l] ==> asked.Some? && Largest(v[l][i]).user < asked.value
    }

    constructor (v: Levels, level: nat)
      requires ValidVersion(v)
      ensures Valid() && this.v == v && this.level == level && asked == None && fresh(ptrs)
    {
      this.v, this.level, asked := v, level, None;
      ptrs := new nat[NUM_LEVELS](_ => 0);
    }

    /** Move cursor l past the files that end before the key. */
    method Advance(l: nat, user: real)
      requires Valid() && asked == Some(user) && level + 2 <= l < NUM_LEVELS
      modifies ptrs
      ensures Valid()
      ensures ptrs[l] < |v[l]| ==> user <= Largest(v[l][ptrs[l]]).user
    {
      while ptrs[l] < |v[l]| && Largest(v[l][ptrs[l]]).user < user
        invariant ptrs[l] <= |v[l]| && Passed(l)
        invariant forall k :: 0 <= k < NUM_LEVELS && k != l ==> ptrs[k] == old(ptrs[k])
        decreases |v[l]| - ptrs[l]
      {
        ptrs[l] := ptrs[l] + 1;
      }
      forall k | level + 2 <= k < NUM_LEVELS ensures Passed(k) {
        assert old(Passed(k));
      }
    }

    method IsBaseLevelForKey(user: real) returns (r: bool)
      requires Valid() && (asked.Some? ==> asked.value <= user)
      modifies this, ptrs
      ensures Valid() && asked == Some(user)
      ensures r <==> IsBaseLevel(v, level, user)
    {
      asked := Some(user);
      forall k | level + 2 <= k < NUM_LEVELS ensures Passed(k) {
        assert old(Passed(k));
      }
      var lvl := level + 2;
      while lvl < NUM_LEVELS
        invariant level + 2 <= lvl
        invariant Valid() && asked == Some(user)
        invariant forall l :: level + 2 <= l < lvl && l < NUM_LEVELS ==> NotInLevel(v, l, user)
      {
        Advance(lvl, user);
        var p := ptrs[lvl];
        assert Passed(lvl);
        if p < |v[lvl]| && user >= Smallest(v[lvl][p]).user {
          assert v[lvl][p] in v[lvl] && !NotInLevel(v, lvl, user);
          return false;
        }
        NoLaterFile(v, lvl, p, user);
        lvl := lvl + 1;
      }
      r := true;
    }
  }

  /** Files before the cursor end before the key; the one at the cursor, if any, starts after it. */
  lemma NoLaterFile(v: Levels, l: nat, p: nat, user: real)
    requires ValidVersion(v) && 1 <= l < NUM_LEVELS && p <= |v[l]|
    requires forall i :: 0 <= i < p ==> Largest(v[l][i]).user < user
    requires p < |v[l]| ==> user < Smallest(v[l][p]).user
    ensures NotInLevel(v, l, user)
  {
    forall f | f in v[l] ensures !(Smallest(f).user <= user <= Largest(f).user) {
      var i :| 0 <= i < |v[l]| && v[l][i] == f;
      if p < i { InRange(v[l][p], Smallest(v[l][p])); }
    }
  }

  // ---------------------------------------------------------------- the drop rules

  /** Entry i is hidden by a newer entry that every reader sees, or is a deletion with nothing left to hide. */
  ghost predicate Dropped(input: seq<Entry>, i: nat, smallestSnapshot: nat, v: Levels, level: nat)
    requires ValidVersion(v) && i < |input|
  {
    || (i > 0 && input[i - 1].user == input[i].user && input[i - 1].seqno <= smallestSnapshot)
    || (input[i].kind.Deletion? && input[i].seqno <= smallestSnapshot && IsBaseLevel(v, level, input[i].user))
  }

  /** What is left of the first n entries. */
  ghost function Kept(input: seq<Entry>, n: nat, smallestSnapshot: nat, v: Levels, level: nat): seq<Entry>
    requires ValidVersion(v) && n <= |input|
  {
    if n == 0 then [] else
      Kept(input, n - 1, smallestSnapshot, v, level)
      + (if Dropped(input, n - 1, smallestSnapshot, v, level) then [] else [input[n - 1]])
  }

  lemma {:induction false} KeptEntries(input: seq<Entry>, n: nat, smallestSnapshot: nat, v: Levels, level: nat)
    requires ValidVersion(v) && n <= |input| && Sorted(input)
    ensures forall e :: e in Kept(input, n, smallestSnapshot, v, level) <==>
              exists i :: 0 <= i < n && input[i] == e && !Dropped(input, i, smallestSnapshot, v, level)
    ensures Sorted(Kept(input, n, smallestSnapshot, v, level))
  {
    if n > 0 {
      KeptEntries(input, n - 1, smallestSnapshot, v, level);
      var before := Kept(input, n - 1, smallestSnapshot, v, level);
      forall j | 0 <= j < |before| ensures Less(before[j], input[n - 1]) {
        assert before[j] in before;
      }
    }
  }

  /** No file two or more levels below the level of the inputs has the user key in its range. */
  ghost predicate NoneDeeper(v: Levels, level: nat, user: real)
    requires ValidVersion(v)
  {
    forall l, f {:trigger f in v[l]} :: level + 2 <= l < NUM_LEVELS && f in v[l] ==>
      !(Smallest(f).user <= user <= Largest(f).user)
  }

  /** What is left of an input: entries that some reader may still see, and no deletion that hides nothing. */
  ghost predicate Survives(input: seq<Entry>, e: Entry, smallestSnapshot: nat, v: Levels, level: nat)
    requires ValidVersion(v)
  {
    && e in input
    && (forall d :: d in input && d.user == e.user && Less(d, e) ==> d.seqno > smallestSnapshot)
    && !(e.kind == Deletion && e.seqno <= smallestSnapshot && NoneDeeper(v, level, e.user))
  }

  lemma BaseIsDeepest(v: Levels, level: nat, user: real)
    requires ValidVersion(v)
    ensures IsBaseLevel(v, level, user) <==> NoneDeeper(v, level, user)
  {
    if IsBaseLevel(v, level, user) {
      forall l, f | level + 2 <= l < NUM_LEVELS && f in v[l] ensures !(Smallest(f).user <= user <= Largest(f).user) {
        assert NotInLevel(v, l, user);
      }
    }
    if NoneDeeper(v, level, user) {
      forall l | level + 2 <= l < NUM_LEVELS ensures NotInLevel(v, l, user) {
      }
    }
  }

  lemma InOrder(input: seq<Entry>, i: nat, j: nat)
    requires Sorted(input) && i < j < |input|
    ensures !Less(input[j], input[i])
  {
    assert Less(input[i], input[j]);
  }

  lemma SurvivesAt(input: seq<Entry>, i: nat, smallestSnapshot: nat, v: Levels, level: nat)
    requires ValidVersion(v) && Sorted(input) && i < |input|
    ensures Survives(input, input[i], smallestSnapshot, v, level) <==> !Dropped(input, i, smallestSnapshot, v, level)
  {
    BaseIsDeepest(v, level, input[i].user);
    if i > 0 { assert Less(input[i - 1], input[i]) && input[i - 1] in input; }
    forall d | d in input && d.user == input[i].user && Less(d, input[i])
      ensures i > 0 && input[i - 1].user == d.user && input[i - 1].seqno <= d.seqno
    {
      var j :| 0 <= j < |input| && input[j] == d;
      if i < j {
        InOrder(input, i, j);
      } else if j < i - 1 {
        assert Less(input[j], input[i - 1]) && Less(input[i - 1], input[i]);
      }
    }
  }

  /** The drop rules leave exactly what survives. */
  lemma KeptSurvives(input: seq<Entry>, smallestSnapshot: nat, v: Levels, level: nat, e: Entry)
    requires ValidVersion(v) && Sorted(input)
    ensures e in Kept(input, |input|, smallestSnapshot, v, level) <==> Survives(input, e, smallestSnapshot, v, level)
  {
    KeptEntries(input, |input|, smallestSnapshot, v, level);
    if e in Kept(input, |input|, smallestSnapshot, v, level) {
      var i :| 0 <= i < |input| && input[i] == e && !Dropped(input, i, smallestSnapshot, v, level);
      SurvivesAt(input, i, smallestSnapshot, v, level);
    }
    if Survives(input, e, smallestSnapshot, v, level) {
      var i :| 0 <= i < |input| && input[i] == e;
      SurvivesAt(input, i, smallestSnapshot, v, level);
    }
  }

  function Concat(parts: seq<seq<Entry>>): seq<Entry> {
    if parts == [] then [] else Concat(parts[..|parts| - 1]) + parts[|parts| - 1]
  }

  /** What the loop remembers of the entry before entry i. */
  ghost predicate Remembers(input: seq<Entry>, i: nat, currentUserKey: Option<real>, lastSequenceForKey: nat)
    requires i <= |input|
  {
    if i == 0 then currentUserKey == None
    else currentUserKey == Some(input[i - 1].user) && lastSequenceForKey == input[i - 1].seqno
  }

  /** Decide about entry i from what is remembered of the entry before it. */
  method DecideDrop(ghost input: seq<Entry>, ghost i: nat, ikey: Entry, currentUserKey: Option<real>,
                    lastSequenceForKey: nat, smallestSnapshot: nat, cursors: BaseLevelCursors) returns (drop: bool)
    requires Sorted(input) && i < |input| && ikey == input[i] && smallestSnapshot < MAX_SEQUENCE
    requires Remembers(input, i, currentUserKey, lastSequenceForKey)
    requires cursors.Valid() && (cursors.asked.Some? ==> cursors.asked.value <= ikey.user)
    modifies cursors, cursors.ptrs
    ensures cursors.Valid() && (cursors.asked.Some? ==> cursors.asked.value <= ikey.user)
    ensures drop <==> Dropped(input, i, smallestSnapshot, cursors.v, cursors.level)
  {
    drop := false;
    var last := lastSequenceForKey;
    if currentUserKey == None || currentUserKey.value != ikey.user {
      last := MAX_SEQUENCE;
    }
    if last <= smallestSnapshot {
      drop := true;
    } else if ikey.kind.Deletion? && ikey.seqno <= smallestSnapshot {
      drop := cursors.IsBaseLevelForKey(ikey.user);
    }
  }

  /** Finished output files and the one being built hold the kept entries in order. */
  ghost predicate Emitted(outputs: seq<seq<Entry>>, builder: seq<Entry>, kept: seq<Entry>) {
    Concat(outputs) + builder == kept && forall p :: 0 <= p < |outputs| ==> |outputs[p]| > 0
  }

  /** Finish the file being built, if there is one. */
  function Finish(outputs: seq<seq<Entry>>, builder: seq<Entry>): seq<seq<Entry>> {
    if builder == [] then outputs else outputs + [builder]
  }

  lemma EmittedFinish(outputs: seq<seq<Entry>>, builder: seq<Entry>, kept: seq<Entry>)
    requires Emitted(outputs, builder, kept)
    ensures Emitted(Finish(outputs, builder), [], kept)
  {
    assert (outputs + [builder])[..|outputs + [builder]| - 1] == outputs;
  }

  lemma EmittedAdd(outputs: seq<seq<Entry>>, builder: seq<Entry>, kept: seq<Entry>, e: Entry)
    requires Emitted(outputs, builder, kept)
    ensures Emitted(outputs, builder + [e], kept + [e])
  {
    assert Concat(outputs) + (builder + [e]) == (Concat(outputs) + builder) + [e];
  }

  // ---------------------------------------------------------------- where outputs are cut

  /** Between entry a and a later entry b an output file ends: a filled it, or some entry up to b stops it. */
  ghost predicate CutBetween(stopBefore: nat -> bool, full: nat -> bool, a: nat, b: nat) {
    full(a) || exists i :: a < i <= b && stopBefore(i)
  }

  /** The entries at the places. */
  ghost predicate TakenFrom(input: seq<Entry>, places: seq<nat>, part: seq<Entry>) {
    && |part| == |places|
    && forall q {:trigger places[q]} :: 0 <= q < |places| ==> places[q] < |input| && part[q] == input[places[q]]
  }

  /** Entries that follow each other in one file. */
  ghost predicate Uncut(stopBefore: nat -> bool, full: nat -> bool, places: seq<nat>) {
    && places != []
    && forall q {:trigger Together(stopBefore, full, places, q)} :: 0 <= q < |places| - 1 ==>
         Together(stopBefore, full, places, q)
  }

  ghost predicate Together(stopBefore: nat -> bool, full: nat -> bool, places: seq<nat>, q: nat)
    requires q + 1 < |places|
  {
    places[q] < places[q + 1] && !CutBetween(stopBefore, full, places[q], places[q + 1])
  }

  ghost predicate CutAfter(stopBefore: nat -> bool, full: nat -> bool, all: seq<seq<nat>>, p: nat)
    requires p + 1 < |all|
  {
    && all[p] != [] && all[p + 1] != [] && all[p][|all[p]| - 1] < all[p + 1][0]
    && CutBetween(stopBefore, full, all[p][|all[p]| - 1], all[p + 1][0])
  }

  /** Files end exactly where they are told to. */
  ghost predicate CutAsTold(stopBefore: nat -> bool, full: nat -> bool, all: seq<seq<nat>>) {
    && (forall p {:trigger all[p]} :: 0 <= p < |all| ==> Uncut(stopBefore, full, all[p]))
    && (forall p {:trigger CutAfter(stopBefore, full, all, p)} :: 0 <= p < |all| - 1 ==>
          CutAfter(stopBefore, full, all, p))
  }

  /** The output files hold the entries at the places, cut as told. */
  ghost predicate OutputAt(input: seq<Entry>, stopBefore: nat -> bool, full: nat -> bool, places: seq<seq<nat>>,
                           outputs: seq<seq<Entry>>)
  {
    && |outputs| == |places| && CutAsTold(stopBefore, full, places)
    && forall p {:trigger outputs[p]} :: 0 <= p < |outputs| ==> TakenFrom(input, places[p], outputs[p])
  }

  /** The last place before m was `last`; among the entries after it and before n one stops a file, or it filled one. */
  ghost predicate CutSince(stopBefore: nat -> bool, full: nat -> bool, last: nat, m: nat, n: nat) {
    last < m <= n && (full(last) || exists i :: last < i < n && stopBefore(i))
  }

  ghost predicate OpenSince(stopBefore: nat -> bool, full: nat -> bool, last: nat, m: nat, n: nat) {
    last < m <= n && !full(last) && forall i :: last < i < n ==> !stopBefore(i)
  }

  /** The places of the finished files and of the one being built, which are before m, when the entries before n have
      been asked whether they stop a file. */
  ghost predicate Cutting(input: seq<Entry>, stopBefore: nat -> bool, full: nat -> bool, places: seq<seq<nat>>,
                          outputs: seq<seq<Entry>>, open: seq<nat>, builder: seq<Entry>, m: nat, n: nat)
  {
    && |open| == |builder|
    && if open == [] then
         && OutputAt(input, stopBefore, full, places, outputs)
         && (places != [] ==> var last := places[|places| - 1];
                              last != [] && CutSince(stopBefore, full, last[|last| - 1], m, n))
       else
         && OutputAt(input, stopBefore, full, places + [open], outputs + [builder])
         && OpenSince(stopBefore, full, open[|open| - 1], m, n)
  }

  ghost function FinishPlaces(places: seq<seq<nat>>, open: seq<nat>): seq<seq<nat>> {
    if open == [] then places else places + [open]
  }

  /** Entry n is asked. */
  lemma CutAsk(input: seq<Entry>, stopBefore: nat -> bool, full: nat -> bool, places: seq<seq<nat>>,
               outputs: seq<seq<Entry>>, open: seq<nat>, builder: seq<Entry>, n: nat)
    requires Cutting(input, stopBefore, full, places, outputs, open, builder, n, n)
    ensures if stopBefore(n)
            then Cutting(input, stopBefore, full, FinishPlaces(places, open), Finish(outputs, builder), [], [],
                         n, n + 1)
            else Cutting(input, stopBefore, full, places, outputs, open, builder, n, n + 1)
  {
    if stopBefore(n) && open != [] {
      var all := FinishPlaces(places, open);
      assert all[|all| - 1] == open && CutSince(stopBefore, full, open[|open| - 1], n, n + 1);
    }
  }

  lemma CutDrop(input: seq<Entry>, stopBefore: nat -> bool, full: nat -> bool, places: seq<seq<nat>>,
                outputs: seq<seq<Entry>>, open: seq<nat>, builder: seq<Entry>, n: nat)
    requires Cutting(input, stopBefore, full, places, outputs, open, builder, n, n + 1)
    ensures Cutting(input, stopBefore, full, places, outputs, open, builder, n + 1, n + 1)
  {
  }

  /** Entry n is added to the file being built. */
  lemma CutAdd(input: seq<Entry>, stopBefore: nat -> bool, full: nat -> bool, places: seq<seq<nat>>,
               outputs: seq<seq<Entry>>, open: seq<nat>, builder: seq<Entry>, n: nat)
    requires Cutting(input, stopBefore, full, places, outputs, open, builder, n, n + 1) && n < |input|
    ensures OutputAt(input, stopBefore, full, places + [open + [n]], outputs + [builder + [input[n]]])
    ensures !full(n) ==>
              Cutting(input, stopBefore, full, places, outputs, open + [n], builder + [input[n]], n + 1, n + 1)
    ensures full(n) ==>
              Cutting(input, stopBefore, full, places + [open + [n]], outputs + [builder + [input[n]]], [], [],
                      n + 1, n + 1)
  {
    if open == [] {
      NewFile(stopBefore, full, places, n);
      assert open + [n] == [n] && builder + [input[n]] == [input[n]];
    } else {
      LongerFile(stopBefore, full, places, open, n);
    }
    var all, parts := places + [open + [n]], outputs + [builder + [input[n]]];
    var before, partsBefore := FinishPlaces(places, open), Finish(outputs, builder);
    forall p | 0 <= p < |parts| ensures TakenFrom(input, all[p], parts[p]) {
      if p < |partsBefore| { assert TakenFrom(input, before[p], partsBefore[p]); }
    }
  }

  lemma NewFile(stopBefore: nat -> bool, full: nat -> bool, places: seq<seq<nat>>, n: nat)
    requires CutAsTold(stopBefore, full, places)
    requires places != [] ==> var last := places[|places| - 1];
                              last != [] && CutSince(stopBefore, full, last[|last| - 1], n, n + 1)
    ensures CutAsTold(stopBefore, full, places + [[n]])
  {
    var all := places + [[n]];
    forall p | 0 <= p < |all| - 1 ensures CutAfter(stopBefore, full, all, p) {
      if p < |places| - 1 { assert CutAfter(stopBefore, full, places, p); }
    }
  }

  lemma LongerFile(stopBefore: nat -> bool, full: nat -> bool, places: seq<seq<nat>>, open: seq<nat>, n: nat)
    requires CutAsTold(stopBefore, full, places + [open]) && open != []
    requires OpenSince(stopBefore, full, open[|open| - 1], n, n + 1)
    ensures CutAsTold(stopBefore, full, places + [open + [n]])
  {
    var before, all := places + [open], places + [open + [n]];
    assert Uncut(stopBefore, full, before[|places|]);
    forall q | 0 <= q < |open| ensures Together(stopBefore, full, open + [n], q) {
      if q < |open| - 1 { assert Together(stopBefore, full, open, q); }
    }
    forall p | 0 <= p < |all| - 1 ensures CutAfter(stopBefore, full, all, p) {
      assert CutAfter(stopBefore, full, before, p);
    }
    forall p | 0 <= p < |places| ensures Uncut(stopBefore, full, all[p]) {
      assert all[p] == before[p];
    }
  }

  /** Finish the file being built if entry i stops it. */
  method AskStop(ghost input: seq<Entry>, stopBefore: nat -> bool, ghost full: nat -> bool, i: nat,
                 outputs: seq<seq<Entry>>, builder: seq<Entry>, ghost kept: seq<Entry>, ghost places: seq<seq<nat>>,
                 ghost open: seq<nat>)
    returns (outputs': seq<seq<Entry>>, builder': seq<Entry>, ghost places': seq<seq<nat>>, ghost open': seq<nat>)
    requires Emitted(outputs, builder, kept)
    requires Cutting(input, stopBefore, full, places, outputs, open, builder, i, i)
    ensures Emitted(outputs', builder', kept)
    ensures Cutting(input, stopBefore, full, places', outputs', open', builder', i, i + 1)
  {
    outputs', builder', places', open' := outputs, builder, places, open;
    CutAsk(input, stopBefore, full, places, outputs, open, builder, i);
    if stopBefore(i) {
      EmittedFinish(outputs, builder, kept);
      outputs', builder', places', open' := Finish(outputs, builder), [], FinishPlaces(places, open), [];
    }
  }

  /** Add entry i to the file being built, and finish the file if it is full. */
  method AddEntry(input: seq<Entry>, ghost stopBefore: nat -> bool, full: nat -> bool, i: nat,
                  outputs: seq<seq<Entry>>, builder: seq<Entry>, ghost kept: seq<Entry>, ghost places: seq<seq<nat>>,
                  ghost open: seq<nat>)
    returns (outputs': seq<seq<Entry>>, builder': seq<Entry>, ghost places': seq<seq<nat>>, ghost open': seq<nat>)
    requires i < |input| && Emitted(outputs, builder, kept)
    requires Cutting(input, stopBefore, full, places, outputs, open, builder, i, i + 1)
    ensures Emitted(outputs', builder', kept + [input[i]])
    ensures Cutting(input, stopBefore, full, places', outputs', open', builder', i + 1, i + 1)
  {
    EmittedAdd(outputs, builder, kept, input[i]);
    CutAdd(input, stopBefore, full, places, outputs, open, builder, i);
    outputs', builder', places', open' := outputs, builder + [input[i]], places, open + [i];
    if full(i) {
      EmittedFinish(outputs, builder', kept + [input[i]]);
      outputs', builder', places', open' := Finish(outputs, builder'), [], FinishPlaces(places, open'), [];
    }
  }

  lemma OutputsSurvive(input: seq<Entry>, smallestSnapshot: nat, v: Levels, level: nat, outputs: seq<seq<Entry>>)
    requires ValidVersion(v) && Sorted(input) && Emitted(outputs, [], Kept(input, |input|, smallestSnapshot, v, level))
    ensures forall e {:trigger e in Concat(outputs)} ::
              e in Concat(outputs) <==> Survives(input, e, smallestSnapshot, v, level)
  {
    forall e ensures e in Concat(outputs) <==> Survives(input, e, smallestSnapshot, v, level) {
      KeptSurvives(input, smallestSnapshot, v, level, e);
      assert Concat(outputs) + [] == Concat(outputs);
    }
  }

  /** Run over the merged input, dropping entries and cutting the rest into output files.
      Where files are cut is up to the two oracles, which stand for the size limits. */
  method DoCompactionWork(input: seq<Entry>, smallestSnapshot: nat, cursors: BaseLevelCursors,
                          stopBefore: nat -> bool, full: nat -> bool)
    returns (outputs: seq<seq<Entry>>, ghost places: seq<seq<nat>>)
    requires Sorted(input) && cursors.Valid() && cursors.asked == None && smallestSnapshot < MAX_SEQUENCE
    modifies cursors, cursors.ptrs
    ensures Emitted(outputs, [], Kept(input, |input|, smallestSnapshot, cursors.v, cursors.level))
    ensures OutputAt(input, stopBefore, full, places, outputs)
    ensures forall e {:trigger e in Concat(outputs)} ::
              e in Concat(outputs) <==> Survives(input, e, smallestSnapshot, cursors.v, cursors.level)
  {
    outputs, places := [], [];
    var builder: seq<Entry> := [];
    var currentUserKey: Option<real> := None;
    var lastSequenceForKey := MAX_SEQUENCE;
    ghost var open: seq<nat> := [];
    for i := 0 to |input|
      invariant cursors.Valid() && (cursors.asked.Some? ==> i > 0 && cursors.asked.value <= input[i - 1].user)
      invariant Remembers(input, i, currentUserKey, lastSequenceForKey)
      invariant Emitted(outputs, builder, Kept(input, i, smallestSnapshot, cursors.v, cursors.level))
      invariant Cutting(input, stopBefore, full, places, outputs, open, builder, i, i)
    {
      ghost var kept := Kept(input, i, smallestSnapshot, cursors.v, cursors.level);
      outputs, builder, places, open :=
        AskStop(input, stopBefore, full, i, outputs, builder, kept, places, open);
      var ikey := input[i];
      assert i > 0 ==> Less(input[i - 1], ikey);
      var drop := DecideDrop(input, i, ikey, currentUserKey, lastSequenceForKey, smallestSnapshot, cursors);
      currentUserKey, lastSequenceForKey := Some(ikey.user), ikey.seqno;
      if drop {
        assert kept + [] == kept;
        CutDrop(input, stopBefore, full, places, outputs, open, builder, i);
      } else {
        outputs, builder, places, open :=
          AddEntry(input, stopBefore, full, i, outputs, builder, kept, places, open);
      }
    }
    EmittedFinish(outputs, builder, Kept(input, |input|, smallestSnapshot, cursors.v, cursors.level));
    outputs, places := Finish(outputs, builder), FinishPlaces(places, open);
    OutputsSurvive(input, smallestSnapshot, cursors.v, cursors.level, outputs);
  }

  // ---------------------------------------------------------------- no read can tell

  /** The other entries of a user key whose deletion may be dropped are all newer than the input. */
  ghost predicate NothingOlder(rest: set<Entry>, input: seq<Entry>, v: Levels, level: nat)
    requires ValidVersion(v)
  {
    forall d, e {:trigger After(d, e)} :: d in rest && e in input && IsBaseLevel(v, level, e.user) ==> After(d, e)
  }

  /** An entry of the input that is the newest visible one is kept, or is a deletion that leaves nothing visible. */
  lemma NewestSurvives(input: seq<Entry>, i: nat, smallestSnapshot: nat, v: Levels, level: nat, rest: set<Entry>,
                       user: real, snapshot: nat)
    requires ValidVersion(v) && Sorted(input) && i < |input| && snapshot >= smallestSnapshot
    requires Newest(rest + SetOf(input), user, snapshot, input[i])
    requires Dropped(input, i, smallestSnapshot, v, level)
    ensures input[i].kind.Deletion? && input[i].seqno <= smallestSnapshot && IsBaseLevel(v, level, user)
  {
    if i > 0 && input[i - 1].user == input[i].user && input[i - 1].seqno <= smallestSnapshot {
      assert Less(input[i - 1], input[i]);
      assert Visible(rest + SetOf(input), user, snapshot, input[i - 1]);
    }
  }

  /** After a dropped deletion every older entry of the same user key is dropped too. */
  lemma OlderDropped(input: seq<Entry>, i: nat, j: nat, smallestSnapshot: nat, v: Levels, level: nat)
    requires ValidVersion(v) && Sorted(input) && i < j < |input|
    requires input[i].user == input[j].user && input[i].seqno <= smallestSnapshot
    ensures Dropped(input, j, smallestSnapshot, v, level)
  {
    assert Less(input[j - 1], input[j]);
    assert i == j - 1 || Less(input[i], input[j - 1]);
  }

  /** When the newest visible entry is a dropped deletion, nothing of the user key stays visible. */
  lemma DroppedDeletionLeavesNothing(input: seq<Entry>, i: nat, smallestSnapshot: nat, v: Levels, level: nat,
                                     rest: set<Entry>, user: real, snapshot: nat)
    requires ValidVersion(v) && Sorted(input) && i < |input| && snapshot >= smallestSnapshot
    requires NothingOlder(rest, input, v, level)
    requires Newest(rest + SetOf(input), user, snapshot, input[i])
    requires Dropped(input, i, smallestSnapshot, v, level)
    ensures input[i].kind.Deletion?
    ensures NoneVisible(rest + SetOf(Kept(input, |input|, smallestSnapshot, v, level)), user, snapshot)
  {
    NewestSurvives(input, i, smallestSnapshot, v, level, rest, user, snapshot);
    KeptEntries(input, |input|, smallestSnapshot, v, level);
    var after := rest + SetOf(Kept(input, |input|, smallestSnapshot, v, level));
    forall x ensures !Visible(after, user, snapshot, x) {
      if x in rest {
        assert input[i] in input && After(x, input[i]);
        assert Visible(rest + SetOf(input), user, snapshot, x) ==> !Visible(after, user, snapshot, x);
      } else if x in after {
        var j :| 0 <= j < |input| && input[j] == x && !Dropped(input, j, smallestSnapshot, v, level);
        KeptIsOutOfSight(input, i, j, smallestSnapshot, v, level, rest, user, snapshot);
      }
    }
  }

  lemma KeptIsOutOfSight(input: seq<Entry>, i: nat, j: nat, smallestSnapshot: nat, v: Levels, level: nat,
                         rest: set<Entry>, user: real, snapshot: nat)
    requires ValidVersion(v) && Sorted(input) && i < |input| && j < |input|
    requires Newest(rest + SetOf(input), user, snapshot, input[i]) && input[i].seqno <= smallestSnapshot
    requires Dropped(input, i, smallestSnapshot, v, level) && !Dropped(input, j, smallestSnapshot, v, level)
    ensures !(input[j].user == user && input[j].seqno <= snapshot)
  {
    if i < j && input[j].user == user {
      OlderDropped(input, i, j, smallestSnapshot, v, level);
    } else if j < i {
      assert Less(input[j], input[i]);
      assert Visible(rest + SetOf(input), user, snapshot, input[j])
             <==> input[j].user == user && input[j].seqno <= snapshot;
    }
  }

  /** A compaction changes the answer of no read at or after the smallest snapshot. */
  lemma DropsAreInvisible(input: seq<Entry>, smallestSnapshot: nat, v: Levels, level: nat, rest: set<Entry>,
                          user: real, snapshot: nat, r: Option<string>)
    requires ValidVersion(v) && Sorted(input) && snapshot >= smallestSnapshot && NothingOlder(rest, input, v, level)
    requires Answer(rest + SetOf(input), user, snapshot, r)
    ensures Answer(rest + SetOf(Kept(input, |input|, smallestSnapshot, v, level)), user, snapshot, r)
  {
    var before, kept := rest + SetOf(input), Kept(input, |input|, smallestSnapshot, v, level);
    var after := rest + SetOf(kept);
    KeptEntries(input, |input|, smallestSnapshot, v, level);
    forall x | Visible(after, user, snapshot, x) ensures Visible(before, user, snapshot, x) {
    }
    if e :| Newest(before, user, snapshot, e) {
      NewestUniqueAnswer(before, user, snapshot, e, r);
      if e in after {
        assert Newest(after, user, snapshot, e);
      } else {
        var i :| 0 <= i < |input| && input[i] == e;
        assert Dropped(input, i, smallestSnapshot, v, level);
        DroppedDeletionLeavesNothing(input, i, smallestSnapshot, v, level, rest, user, snapshot);
      }
    }
  }

  lemma NewestUniqueAnswer(s: set<Entry>, user: real, snapshot: nat, e: Entry, r: Option<string>)
    requires Newest(s, user, snapshot, e) && Answer(s, user, snapshot, r)
    ensures r == if e.kind.Value? then Some(e.value) else None
  {
    AnswerUnique(s, user, snapshot, r, if e.kind.Value? then Some(e.value) else None);
  }
}
