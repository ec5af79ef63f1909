/** The store as a whole, server/lib/leveldb/db/db_impl.cc: two memtables over a version of
    table files.  Whatever writes, flushes, compactions and moves happen, a read returns
    what a plain map would. */
module DbImpl {
  import opened Wrappers
  import opened InternalKeys
  import opened Version
  import opened Overlap
  import opened VersionBuilder
  import opened CompactionWork
  import opened VersionSteps
  import opened CompactionStep
  import opened MergedEntries

  datatype Update = Put(user: real, value: string) | Delete(user: real)

  function EntryOf(u: Update, seqno: nat): Entry {
    match u
    case Put(user, value) => Entry(user, seqno, Value, value)
    case Delete(user) => Entry(user, seqno, Deletion, "")
  }

  function Updated(contents: map<real, string>, u: Update): map<real, string> {
    match u
    case Put(user, value) => contents[user := value]
    case Delete(user) => contents - {user}
  }

  function UpdatedAll(contents: map<real, string>, batch: seq<Update>): map<real, string> {
    if batch == [] then contents
    else Updated(UpdatedAll(contents, batch[..|batch| - 1]), batch[|batch| - 1])
  }

  lemma UpdatedStep(contents: map<real, string>, batch: seq<Update>, i: nat)
    requires i < |batch|
    ensures UpdatedAll(contents, batch[..i + 1]) == Updated(UpdatedAll(contents, batch[..i]), batch[i])
  {
    assert batch[..i + 1][..i] == batch[..i];
  }

  /** Update i is the last one of the user key in the batch. */
  ghost predicate LastUpdate(batch: seq<Update>, user: real, i: nat) {
    && i < |batch| && batch[i].user == user
    && forall j {:trigger batch[j]} :: i < j < |batch| ==> batch[j].user != user
  }

  /** The map has the value that the last update of each user key gave it, or else the one it had. */
  ghost predicate TakesUpdates(contents: map<real, string>, batch: seq<Update>, contents': map<real, string>) {
    && (forall user, i: nat {:trigger LastUpdate(batch, user, i)} :: LastUpdate(batch, user, i) ==>
          match batch[i]
          case Put(_, value) => user in contents' && contents'[user] == value
          case Delete(_) => user !in contents')
    && (forall user {:trigger user in contents'} :: (forall i :: 0 <= i < |batch| ==> batch[i].user != user) ==>
          (user in contents' <==> user in contents) && (user in contents ==> contents'[user] == contents[user]))
  }

  lemma {:induction false} UpdatesTaken(contents: map<real, string>, batch: seq<Update>)
    ensures TakesUpdates(contents, batch, UpdatedAll(contents, batch))
  {
    if batch != [] {
      var n := |batch| - 1;
      var before, after := UpdatedAll(contents, batch[..n]), UpdatedAll(contents, batch);
      UpdatesTaken(contents, batch[..n]);
      forall user, i: nat | LastUpdate(batch, user, i)
        ensures match batch[i]
                case Put(_, value) => user in after && after[user] == value
                case Delete(_) => user !in after
      {
        if i < n { assert LastUpdate(batch[..n], user, i) && batch[n].user != user; }
      }
      forall user | forall i :: 0 <= i < |batch| ==> batch[i].user != user
        ensures (user in after <==> user in contents) && (user in contents ==> after[user] == contents[user])
      {
        assert batch[n].user != user && forall i :: 0 <= i < n ==> batch[..n][i] == batch[i];
        assert user in before <==> user in contents;
        assert user in before ==> before[user] == contents[user];
      }
    }
  }

  /** The entry that update i of a batch is stored as, numbered from the last sequence number on. */
  ghost predicate Stores(batch: seq<Update>, i: nat, last: nat, e: Entry) {
    && i < |batch| && e.seqno == last + 1 + i && e.user == batch[i].user
    && match batch[i]
       case Put(_, value) => e.kind == Value && e.value == value
       case Delete(_) => e.kind == Deletion && e.value == ""
  }

  /** The table holds the old entries and one for each of the first n updates. */
  ghost predicate Inserted(mem: seq<Entry>, batch: seq<Update>, n: nat, last: nat, mem': seq<Entry>) {
    forall e {:trigger e in mem'} :: e in mem' <==> e in mem || exists i :: 0 <= i < n && Stores(batch, i, last, e)
  }

  lemma InsertedStep(mem: seq<Entry>, batch: seq<Update>, n: nat, last: nat, mem1: seq<Entry>, mem2: seq<Entry>)
    requires Inserted(mem, batch, n, last, mem1) && n < |batch|
    requires SetOf(mem2) == SetOf(mem1) + {EntryOf(batch[n], last + 1 + n)}
    ensures Inserted(mem, batch, n + 1, last, mem2)
  {
    var e0 := EntryOf(batch[n], last + 1 + n);
    assert Stores(batch, n, last, e0);
    forall e ensures e in mem2 <==> e in mem || exists i :: 0 <= i < n + 1 && Stores(batch, i, last, e) {
      assert e in mem2 <==> e in SetOf(mem2);
      assert e in mem1 <==> e in SetOf(mem1);
      if e in mem1 && e !in mem {
        var i :| 0 <= i < n && Stores(batch, i, last, e);
      }
      if i :| 0 <= i < n + 1 && Stores(batch, i, last, e) {
        assert i == n ==> e == e0;
      }
    }
  }

  function Lookup(contents: map<real, string>, user: real): Option<string> {
    if user in contents then Some(contents[user]) else None
  }

  /** Reading any user key at the snapshot answers with the map. */
  ghost predicate Agrees(s: set<Entry>, snapshot: nat, contents: map<real, string>) {
    forall user {:trigger Answer(s, user, snapshot, Lookup(contents, user))} ::
      Answer(s, user, snapshot, Lookup(contents, user))
  }

  // ---------------------------------------------------------------- memtables

  lemma JoinSorted(a: seq<Entry>, b: seq<Entry>)
    requires Sorted(a) && Sorted(b) && forall i, j :: 0 <= i < |a| && 0 <= j < |b| ==> Less(a[i], b[j])
    ensures Sorted(a + b)
  {
  }

  /** Insert an entry whose key is not in the table. */
  method Insert(mem: seq<Entry>, e: Entry) returns (mem': seq<Entry>)
    requires Sorted(mem) && forall x :: x in mem ==> Less(x, e) || Less(e, x)
    ensures Sorted(mem') && SetOf(mem') == SetOf(mem) + {e}
  {
    var i := SeekIndex(mem, e);
    forall j | i <= j < |mem| ensures Less(e, mem[j]) {
      assert mem[i] in mem;
      assert i == j || Less(mem[i], mem[j]);
    }
    JoinSorted(mem[..i], [e]);
    JoinSorted(mem[..i] + [e], mem[i..]);
    InsertedEntries(mem, i, e);
    mem' := mem[..i] + [e] + mem[i..];
  }

  lemma InsertedEntries(mem: seq<Entry>, i: nat, e: Entry)
    requires i <= |mem|
    ensures SetOf(mem[..i] + [e] + mem[i..]) == SetOf(mem) + {e}
  {
    assert mem == mem[..i] + mem[i..];
  }

  /** A write newer than everything stored changes the answers as it changes the map. */
  lemma NewEntryAnswers(s: set<Entry>, last: nat, contents: map<real, string>, u: Update)
    requires Agrees(s, last, contents) && forall x :: x in s ==> x.seqno <= last
    ensures Agrees(s + {EntryOf(u, last + 1)}, last + 1, Updated(contents, u))
  {
    var e, contents' := EntryOf(u, last + 1), Updated(contents, u);
    var s' := s + {e};
    forall user ensures Answer(s', user, last + 1, Lookup(contents', user)) {
      if user == e.user {
        assert Newest(s', user, last + 1, e);
      } else {
        assert Answer(s, user, last, Lookup(contents, user));
        SameVisible(s, last, s', last + 1, user, Lookup(contents, user));
      }
    }
  }

  lemma SameVisible(s: set<Entry>, a: nat, t: set<Entry>, b: nat, user: real, r: Option<string>)
    requires forall x :: Visible(s, user, a, x) <==> Visible(t, user, b, x)
    requires Answer(s, user, a, r)
    ensures Answer(t, user, b, r)
  {
    if e :| Newest(s, user, a, e) {
      assert Newest(t, user, b, e);
      NewestUniqueAnswer(s, user, a, e, r);
    }
  }

  // ---------------------------------------------------------------- reads

  /** A hit among younger entries decides; otherwise the older ones do. */
  lemma YoungerFirst(young: set<Entry>, old_: set<Entry>, user: real, snapshot: nat, a: Option<Entry>, b: Option<Entry>)
    requires OlderThan(young, old_) && Finds(young, user, snapshot, a)
    requires a.None? ==> Finds(old_, user, snapshot, b)
    ensures Finds(young + old_, user, snapshot, if a.Some? then a else b)
  {
    var all := young + old_;
    forall x
      ensures Visible(all, user, snapshot, x) <==> Visible(young, user, snapshot, x) || Visible(old_, user, snapshot, x)
    {
    }
    if a.Some? {
      forall x | Visible(old_, user, snapshot, x) ensures Less(a.value, x) {
        assert After(a.value, x);
      }
    }
  }

  function ValueOf(r: Option<Entry>): Option<string> {
    if r.Some? && r.value.kind.Value? then Some(r.value.value) else None
  }

  // ---------------------------------------------------------------- the store

  /** What background work is offered: the file that the next size compaction starts from,
      where outputs are cut and how large files turn out. */
  datatype Work = Work(level: nat, index: nat, stopBefore: nat -> bool, full: nat -> bool, size: nat -> nat)

  datatype Command = Write(batch: seq<Update>) | SwitchMemTable | Background(work: Work)

  ghost function ContentsAfter(contents: map<real, string>, commands: seq<Command>): map<real, string> {
    if commands == [] then contents
    else
      var before := ContentsAfter(contents, commands[..|commands| - 1]);
      var c := commands[|commands| - 1];
      if c.Write? then UpdatedAll(before, c.batch) else before
  }

  /** How many sequence numbers the commands use. */
  ghost function Writes(commands: seq<Command>): nat {
    if commands == [] then 0
    else
      var c := commands[|commands| - 1];
      Writes(commands[..|commands| - 1]) + if c.Write? then |c.batch| else 0
  }

  /** The tables are valid and reads at the last sequence number answer with the map. */
  ghost predicate ReadsAs(young: set<Entry>, v: Levels, last: nat, next: nat, contents: map<real, string>) {
    ValidTables(young, v, last, next) && Agrees(young + AllEntries(v), last, contents)
  }

  /** The memtable is sorted and newer than the frozen one, and reads answer with the map. */
  ghost predicate InMemory(mem: seq<Entry>, frozen: seq<Entry>, v: Levels, last: nat, next: nat,
                           contents: map<real, string>)
  {
    Sorted(mem) && OlderThan(SetOf(mem), SetOf(frozen)) && ReadsAs(SetOf(mem) + SetOf(frozen), v, last, next, contents)
  }

  method AddUpdate(u: Update, seqno: nat, mem: seq<Entry>, ghost frozen: seq<Entry>, ghost v: Levels, ghost next: nat,
                   ghost contents: map<real, string>) returns (mem': seq<Entry>)
    requires 0 < seqno < MAX_SEQUENCE && InMemory(mem, frozen, v, seqno - 1, next, contents)
    ensures InMemory(mem', frozen, v, seqno, next, Updated(contents, u))
    ensures SetOf(mem') == SetOf(mem) + {EntryOf(u, seqno)}
  {
    AllNumberedBefore(mem, frozen, v, seqno - 1, next);
    mem' := Insert(mem, EntryOf(u, seqno));
    AddedInMemory(mem, mem', frozen, v, seqno - 1, next, contents, u);
  }

  /** Insert the updates of a batch, numbered from the last sequence number on. */
  method InsertInto(batch: seq<Update>, mem: seq<Entry>, ghost frozen: seq<Entry>, ghost v: Levels, last: nat,
                    ghost next: nat, ghost contents: map<real, string>) returns (mem': seq<Entry>)
    requires InMemory(mem, frozen, v, last, next, contents) && last + |batch| < MAX_SEQUENCE
    ensures InMemory(mem', frozen, v, last + |batch|, next, UpdatedAll(contents, batch))
    ensures Inserted(mem, batch, |batch|, last, mem')
  {
    mem' := mem;
    for i := 0 to |batch|
      invariant InMemory(mem', frozen, v, last + i, next, UpdatedAll(contents, batch[..i]))
      invariant Inserted(mem, batch, i, last, mem')
    {
      UpdatedStep(contents, batch, i);
      ghost var before := mem';
      mem' := AddUpdate(batch[i], last + i + 1, mem', frozen, v, next, UpdatedAll(contents, batch[..i]));
      InsertedStep(mem, batch, i, last, before, mem');
    }
    assert batch[..|batch|] == batch;
  }

  /** The pieces hold exactly the surviving entries, and end where the work says. */
  ghost predicate CutAndKept(input: seq<Entry>, pieces: seq<seq<Entry>>, last: nat, v: Levels, level: nat, work: Work)
    requires ValidVersion(v)
  {
    && (exists places :: OutputAt(input, work.stopBefore, work.full, places, pieces))
    && (forall e {:trigger e in Concat(pieces)} :: e in Concat(pieces) <==> Survives(input, e, last, v, level))
  }

  /** Merge the input files and cut what is left into pieces. */
  method MergePieces(v: Levels, c: Compaction, last: nat, work: Work)
    returns (ghost input: seq<Entry>, pieces: seq<seq<Entry>>)
    requires ValidVersion(v) && ClosedSelection(v, c.level, c.inputs0, c.inputs1) && last < MAX_SEQUENCE
    ensures Sorted(input) && SetOf(input) == EntriesOf(c.inputs0) + EntriesOf(c.inputs1)
    ensures Emitted(pieces, [], Kept(input, |input|, last, v, c.level))
    ensures CutAndKept(input, pieces, last, v, c.level, work)
  {
    MergedInput(v, c.level, c.inputs0, c.inputs1);
    var merged := MergeAll(Tables(c.inputs0 + c.inputs1));
    input := merged;
    var cursors := new BaseLevelCursors(v, c.level);
    ghost var places;
    pieces, places := DoCompactionWork(merged, last, cursors, work.stopBefore, work.full);
    assert OutputAt(input, work.stopBefore, work.full, places, pieces);
  }

  /** Apply a compaction's edit: take its inputs out of two levels and put its outputs into the lower one. */
  method Install(v: Levels, level: nat, inputs0: seq<File>, inputs1: seq<File>, outputs: seq<File>) returns (v': Levels)
    requires ValidVersion(v) && level + 1 < NUM_LEVELS && ValidFiles(outputs)
    ensures v' == Replaced(v, level, inputs0, inputs1, outputs)
  {
    var upper := SaveLevel(v[level], Numbers(inputs0), []);
    var lower := SaveLevel(v[level + 1], Numbers(inputs1), outputs);
    v' := v[level := upper][level + 1 := lower];
  }

  /** The inputs are gone, and what the drop rules keep of their merged entries is in new files of the next level. */
  ghost predicate MergedBy(v: Levels, v': Levels, last: nat, next: nat, next': nat, c: Compaction, work: Work,
                           input: seq<Entry>, pieces: seq<seq<Entry>>)
    requires ValidVersion(v) && c.level + 1 < NUM_LEVELS
  {
    && Sorted(input) && SetOf(input) == EntriesOf(c.inputs0) + EntriesOf(c.inputs1)
    && Emitted(pieces, [], Kept(input, |input|, last, v, c.level)) && CutAndKept(input, pieces, last, v, c.level, work)
    && ValidFiles(OutputFiles(pieces, next, work.size))
    && v' == Replaced(v, c.level, c.inputs0, c.inputs1, OutputFiles(pieces, next, work.size))
    && next' == next + |pieces|
  }

  /** What a compaction from a file does to the files: it moves the file down if that one stands alone, and
      otherwise merges. */
  ghost predicate CompactedBy(v: Levels, v': Levels, last: nat, next: nat, next': nat, start: File, c: Compaction,
                              work: Work)
    requires ValidVersion(v) && c.level + 1 < NUM_LEVELS && start in v[c.level]
  {
    if MovesDown(v, c.level, start)
    then ValidFiles([start]) && v' == Replaced(v, c.level, [start], [], [start]) && next' == next
    else exists input, pieces :: MergedBy(v, v', last, next, next', c, work, input, pieces)
  }

  /** Merge the inputs of a compaction into new files of the next level. */
  method MergeInputs(ghost young: set<Entry>, v: Levels, last: nat, next: nat, c: Compaction, work: Work,
                     ghost contents: map<real, string>) returns (v': Levels, next': nat)
    requires ReadsAs(young, v, last, next, contents) && ClosedSelection(v, c.level, c.inputs0, c.inputs1)
    ensures ReadsAs(young, v', last, next', contents)
    ensures exists input, pieces :: MergedBy(v, v', last, next, next', c, work, input, pieces)
  {
    ghost var input;
    var pieces;
    input, pieces := MergePieces(v, c, last, work);
    MergedDown(young, v, last, next, c.level, c.inputs0, c.inputs1, input, pieces, work.size, contents);
    v' := Install(v, c.level, c.inputs0, c.inputs1, OutputFiles(pieces, next, work.size));
    next' := next + |pieces|;
    assert MergedBy(v, v', last, next, next', c, work, input, pieces);
  }

  /** Move the one input file of a compaction down a level. */
  method MoveFile(ghost young: set<Entry>, v: Levels, ghost last: nat, ghost next: nat, c: Compaction,
                  ghost contents: map<real, string>) returns (v': Levels)
    requires ReadsAs(young, v, last, next, contents) && ClosedSelection(v, c.level, c.inputs0, c.inputs1)
    requires IsTrivialMove(c)
    ensures ReadsAs(young, v', last, next, contents) && AllEntries(v') == AllEntries(v)
    ensures ValidFiles(c.inputs0) && v' == Replaced(v, c.level, c.inputs0, [], c.inputs0)
  {
    var f := c.inputs0[0];
    assert c.inputs0 == [f] && c.inputs1 == [];
    Moved(young, v, last, next, c.level, f, contents);
    v' := Install(v, c.level, [f], [], [f]);
  }

  /** The offered file has been compacted, with the inputs that go with it. */
  ghost predicate Compacted(v: Levels, v': Levels, last: nat, next: nat, next': nat, c: Compaction, work: Work)
    requires ValidVersion(v) && work.level + 1 < NUM_LEVELS && work.index < |v[work.level]|
  {
    var start := v[work.level][work.index];
    && c.level == work.level && PickedFrom(v, start, c) && start in c.inputs0
    && CompactedBy(v, v', last, next, next', start, c, work)
  }

  /** Compact from the offered file. */
  method CompactFrom(ghost young: set<Entry>, v: Levels, last: nat, next: nat, work: Work,
                     ghost contents: map<real, string>) returns (v': Levels, next': nat, ghost c: Compaction)
    requires ReadsAs(young, v, last, next, contents) && work.level + 1 < NUM_LEVELS && work.index < |v[work.level]|
    ensures ReadsAs(young, v', last, next', contents)
    ensures Compacted(v, v', last, next, next', c, work)
  {
    var start := v[work.level][work.index];
    var picked := PickInputs(v, work.level, start);
    c := picked;
    MoveExact(v, start, picked);
    if IsTrivialMove(picked) {
      v' := MoveFile(young, v, last, next, picked, contents);
      next' := next;
    } else {
      v', next' := MergeInputs(young, v, last, next, picked, work, contents);
    }
  }

  class Store {
    var mem: seq<Entry>
    var imm: Option<seq<Entry>>
    var levels: Levels
    var lastSequence: nat
    var nextFileNumber: nat
    ghost var contents: map<real, string>

    ghost function Young(): set<Entry>
      reads `mem, `imm
    {
      SetOf(mem) + SetOf(Frozen())
    }

    function Frozen(): seq<Entry>
      reads `mem, `imm
    {
      if imm.Some? then imm.value else []
    }

    ghost function Stored(): set<Entry>
      reads this
    {
      Young() + AllEntries(levels)
    }

    ghost predicate ValidMemory()
      reads `mem, `imm
    {
      Sorted(mem) && Sorted(Frozen()) && OlderThan(SetOf(mem), SetOf(Frozen()))
    }

    ghost predicate Valid()
      reads this
    {
      && ValidMemory()
      && ReadsAs(Young(), levels, lastSequence, nextFileNumber, contents)
    }

    /** An empty store. */
    constructor ()
      ensures Valid() && contents == map[] && lastSequence == 0
    {
      mem, imm, levels := [], None, seq(NUM_LEVELS, _ => []);
      lastSequence, nextFileNumber, contents := 0, 2, map[];
      new;
      assert forall l :: 0 <= l < NUM_LEVELS ==> levels[l] == [];
      assert Stored() == {};
      forall user ensures Answer(Stored(), user, 0, Lookup(contents, user)) {
        assert NoneVisible(Stored(), user, 0);
      }
    }

    /** Read a user key at a snapshot: memtable, frozen memtable, then the table files. */
    method Get(user: real, snapshot: nat) returns (r: Option<string>)
      requires Valid()
      ensures Answer(Stored(), user, snapshot, r)
      ensures snapshot == lastSequence ==> r == if user in contents then Some(contents[user]) else None
    {
      var e := TableGet(mem, user, snapshot);
      TableGetFinds(mem, user, snapshot);
      if e.None? {
        e := TableGet(Frozen(), user, snapshot);
        TableGetFinds(Frozen(), user, snapshot);
      }
      YoungerFirst(SetOf(mem), SetOf(Frozen()), user, snapshot, TableGet(mem, user, snapshot),
                   TableGet(Frozen(), user, snapshot));
      ghost var young := e;
      if e.None? {
        e := Version.Get(levels, user, snapshot);
      }
      YoungerFirst(Young(), AllEntries(levels), user, snapshot, young, e);
      r := ValueOf(e);
      if snapshot == lastSequence {
        AnswerUnique(Stored(), user, snapshot, r, Lookup(contents, user));
      }
    }

    /** Apply a batch.  Readers see it only when the last sequence number moves. */
    method Write(batch: seq<Update>)
      requires Valid() && lastSequence + |batch| < MAX_SEQUENCE
      modifies this
      ensures Valid() && contents == UpdatedAll(old(contents), batch)
      ensures lastSequence == old(lastSequence) + |batch|
      ensures TakesUpdates(old(contents), batch, contents)
      ensures Inserted(old(mem), batch, |batch|, old(lastSequence), mem) && imm == old(imm) && levels == old(levels)
    {
      mem := InsertInto(batch, mem, Frozen(), levels, lastSequence, nextFileNumber, contents);
      lastSequence := lastSequence + |batch|;
      contents := UpdatedAll(contents, batch);
      UpdatesTaken(old(contents), batch);
    }

    /** Freeze a full memtable, if the previous one has been flushed. */
    method SwitchMemTable() returns (switched: bool)
      requires Valid()
      modifies this
      ensures Valid() && contents == old(contents) && lastSequence == old(lastSequence)
      ensures Stored() == old(Stored()) && levels == old(levels) && (switched <==> old(imm).None?)
      ensures if switched then imm == Some(old(mem)) && mem == [] else imm == old(imm) && mem == old(mem)
    {
      switched := imm.None?;
      if switched {
        imm, mem := Some(mem), [];
        nextFileNumber := nextFileNumber + 1;
        assert Young() == old(Young());
        MoreNumbers(Young(), levels, lastSequence, nextFileNumber - 1, nextFileNumber, contents);
      }
    }

    /** Write the frozen memtable to a table file, at the deepest level that is safe. */
    method CompactMemTable(size: nat) returns (ghost level: nat)
      requires Valid() && imm.Some?
      modifies this
      ensures Valid() && contents == old(contents) && lastSequence == old(lastSequence)
      ensures imm == None && mem == old(mem) && Stored() == old(Stored()) && level < NUM_LEVELS
      ensures old(imm).value == [] ==> levels == old(levels)
      ensures var f := File(old(nextFileNumber), size, old(imm).value);
              f.entries != [] ==>
                && ValidFile(f) && LevelPicked(old(levels), Smallest(f).user, Largest(f).user, level)
                && levels == WithFile(old(levels), level, f)
    {
      level := 0;
      var entries := imm.value;
      var number := nextFileNumber;
      nextFileNumber := nextFileNumber + 1;
      if entries == [] {
        MoreNumbers(Young(), levels, lastSequence, number, nextFileNumber, contents);
        imm := None;
        assert Young() == old(Young());
      } else {
        levels, level :=
          WriteTable(SetOf(mem), levels, lastSequence, File(number, size, entries), contents);
        imm := None;
        assert Young() == SetOf(mem);
      }
    }

    method SetFiles(v: Levels, next: nat)
      requires ValidMemory() && ReadsAs(Young(), v, lastSequence, next, contents)
      modifies `levels, `nextFileNumber
      ensures Valid() && levels == v && nextFileNumber == next
    {
      levels, nextFileNumber := v, next;
    }

    method CompactOffered(work: Work) returns (ghost c: Compaction)
      requires Valid() && work.level + 1 < NUM_LEVELS && work.index < |levels[work.level]|
      modifies `levels, `nextFileNumber
      ensures Valid() && Compacted(old(levels), levels, lastSequence, old(nextFileNumber), nextFileNumber, c, work)
    {
      var v, next;
      v, next, c := CompactFrom(Young(), levels, lastSequence, nextFileNumber, work, contents);
      SetFiles(v, next);
    }

    /** Flush a frozen memtable first; otherwise compact from the offered file, if there is one. */
    method BackgroundCompaction(work: Work) returns (ghost done: Option<Compaction>)
      requires Valid()
      modifies this
      ensures Valid() && contents == old(contents) && lastSequence == old(lastSequence) && imm == None
      ensures mem == old(mem)
      ensures old(imm).None? ==> (done.Some? <==> work.level + 1 < NUM_LEVELS && work.index < |old(levels)[work.level]|)
      ensures old(imm).None? && done.None? ==> levels == old(levels)
      ensures done.Some? ==> old(imm).None?
      ensures done.Some? ==>
                Compacted(old(levels), levels, lastSequence, old(nextFileNumber), nextFileNumber, done.value, work)
    {
      done := None;
      if imm.Some? {
        ghost var _ := CompactMemTable(work.size(0));
      } else if work.level + 1 < NUM_LEVELS && work.index < |levels[work.level]| {
        ghost var c := CompactOffered(work);
        done := Some(c);
      }
    }

    /** Any run of writes, memtable switches and background work leaves the store reading as
        the map to which only the writes were applied. */
    method Run(commands: seq<Command>)
      requires Valid() && lastSequence + Writes(commands) < MAX_SEQUENCE
      modifies this
      ensures Valid() && contents == ContentsAfter(old(contents), commands)
    {
      for i := 0 to |commands|
        invariant Valid() && contents == ContentsAfter(old(contents), commands[..i])
        invariant lastSequence == old(lastSequence) + Writes(commands[..i])
      {
        WritesGrow(commands, i);
        assert commands[..i + 1][..i] == commands[..i];
        match commands[i] {
          case Write(batch) => Write(batch);
          case SwitchMemTable => var _ := SwitchMemTable();
          case Background(work) => ghost var _ := BackgroundCompaction(work);
        }
      }
      assert commands[..|commands|] == commands;
    }
  }

  lemma {:induction false} WritesGrow(commands: seq<Command>, i: nat)
    requires i < |commands|
    ensures Writes(commands[..i + 1]) <= Writes(commands)
    ensures Writes(commands[..i + 1]) == Writes(commands[..i]) + if commands[i].Write? then |commands[i].batch| else 0
    decreases |commands|
  {
    var n := |commands| - 1;
    assert commands[..i + 1][..i] == commands[..i];
    if i == n {
      assert commands[..i + 1] == commands;
    } else {
      WritesGrow(commands[..n], i);
      assert commands[..n][..i + 1] == commands[..i + 1] && commands[..n][..i] == commands[..i];
    }
  }

  // ---------------------------------------------------------------- what each step keeps

  lemma NewestAdded(young: set<Entry>, v: Levels, last: nat, next: nat, e: Entry)
    requires ValidTables(young, v, last, next) && e.seqno == last + 1 < MAX_SEQUENCE
    ensures ValidTables(young + {e}, v, last + 1, next)
  {
  }

  lemma AddedInMemory(mem: seq<Entry>, mem': seq<Entry>, frozen: seq<Entry>, v: Levels, last: nat, next: nat,
                      contents: map<real, string>, u: Update)
    requires OlderThan(SetOf(mem), SetOf(frozen)) && last + 1 < MAX_SEQUENCE
    requires SetOf(mem') == SetOf(mem) + {EntryOf(u, last + 1)}
    requires ReadsAs(SetOf(mem) + SetOf(frozen), v, last, next, contents)
    ensures OlderThan(SetOf(mem'), SetOf(frozen))
    ensures ReadsAs(SetOf(mem') + SetOf(frozen), v, last + 1, next, Updated(contents, u))
  {
    var e := EntryOf(u, last + 1);
    var young := SetOf(mem) + SetOf(frozen);
    AllNumberedBefore(mem, frozen, v, last, next);
    NewestAdded(young, v, last, next, e);
    NewEntryAnswers(young + AllEntries(v), last, contents, u);
    Exchanged(SetOf(mem), SetOf(frozen), AllEntries(v), {e});
  }

  lemma AllNumberedBefore(mem: seq<Entry>, frozen: seq<Entry>, v: Levels, last: nat, next: nat)
    requires ValidTables(SetOf(mem) + SetOf(frozen), v, last, next)
    ensures forall x :: x in mem ==> x.seqno <= last
    ensures forall x :: x in frozen ==> x.seqno <= last
  {
    forall x | x in mem ensures x.seqno <= last {
      assert x in SetOf(mem) + SetOf(frozen) + AllEntries(v);
    }
    forall x | x in frozen ensures x.seqno <= last {
      assert x in SetOf(mem) + SetOf(frozen) + AllEntries(v);
    }
  }

  lemma Exchanged(a: set<Entry>, b: set<Entry>, c: set<Entry>, d: set<Entry>)
    ensures (a + d) + b == (a + b) + d
    ensures ((a + b) + d) + c == ((a + b) + c) + d
  {
  }

  lemma MoreNumbers(young: set<Entry>, v: Levels, last: nat, next: nat, next': nat, contents: map<real, string>)
    requires ReadsAs(young, v, last, next, contents) && next <= next'
    ensures ReadsAs(young, v, last, next', contents)
  {
  }

  lemma FlushFits(young: set<Entry>, v: Levels, last: nat, number: nat, level: nat, f: File)
    requires ValidTables(young + SetOf(f.entries), v, last, number) && level < NUM_LEVELS && f.number == number
    requires Sorted(f.entries) && |f.entries| > 0
    requires level > 0 ==> forall l :: 0 <= l <= level ==>
               !SomeOverlap(v[l], Some(Smallest(f).user), Some(Largest(f).user))
    ensures CanAdd(v, level, f)
  {
    assert forall e :: e in f.entries ==> e in young + SetOf(f.entries) + AllEntries(v);
    assert SetOf(f.entries) <= young + SetOf(f.entries);
  }

  lemma Flushed(young: set<Entry>, v: Levels, last: nat, number: nat, level: nat, f: File, contents: map<real, string>)
    requires ReadsAs(young + SetOf(f.entries), v, last, number, contents) && level < NUM_LEVELS && f.number == number
    requires Sorted(f.entries) && |f.entries| > 0 && OlderThan(young, SetOf(f.entries))
    requires level > 0 ==> forall l :: 0 <= l <= level ==>
               !SomeOverlap(v[l], Some(Smallest(f).user), Some(Largest(f).user))
    ensures ValidFile(f) && ReadsAs(young, WithFile(v, level, f), last, number + 1, contents)
    ensures young + AllEntries(WithFile(v, level, f)) == young + SetOf(f.entries) + AllEntries(v)
  {
    FlushFits(young, v, last, number, level, f);
    AddKeepsVersion(v, level, f);
    AddedNumber(v, level, f);
    FlushedTables(young, SetOf(f.entries), v, last, number, WithFile(v, level, f));
  }

  lemma AddedNumber(v: Levels, level: nat, f: File)
    requires ValidVersion(v) && CanAdd(v, level, f) && ValidNumbers(v, f.number)
    ensures ValidNumbers(WithFile(v, level, f), f.number + 1)
  {
    AddedFiles(v[level], f);
    NumbersAdded(v, WithFile(v, level, f), f.number, f.number + 1, level, [f]);
  }

  lemma FlushedTables(young: set<Entry>, flushed: set<Entry>, v: Levels, last: nat, number: nat, v': Levels)
    requires ValidTables(young + flushed, v, last, number) && OlderThan(young, flushed)
    requires ValidVersion(v') && ValidNumbers(v', number + 1) && AllEntries(v') == AllEntries(v) + flushed
    ensures ValidTables(young, v', last, number + 1)
    ensures young + AllEntries(v') == young + flushed + AllEntries(v)
  {
    assert young + AllEntries(v') == young + flushed + AllEntries(v);
  }

  /** Put a new table at the level picked for it. */
  method WriteTable(ghost young: set<Entry>, v: Levels, ghost last: nat, f: File, ghost contents: map<real, string>)
    returns (v': Levels, ghost level: nat)
    requires ReadsAs(young + SetOf(f.entries), v, last, f.number, contents)
    requires Sorted(f.entries) && |f.entries| > 0 && OlderThan(young, SetOf(f.entries))
    ensures ValidFile(f) && LevelPicked(v, Smallest(f).user, Largest(f).user, level)
    ensures v' == WithFile(v, level, f) && ReadsAs(young, v', last, f.number + 1, contents)
    ensures young + AllEntries(v') == young + SetOf(f.entries) + AllEntries(v)
  {
    var target := PickLevelForMemTableOutput(v, Smallest(f).user, Largest(f).user);
    Flushed(young, v, last, f.number, target, f, contents);
    var files := SaveLevel(v[target], {}, [f]);
    v', level := v[target := files], target;
  }

  /** Moving a file down keeps the level invariants and all entries. */
  lemma MoveKeepsVersion(v: Levels, next: nat, level: nat, f: File)
    requires ValidVersion(v) && ValidNumbers(v, next) && ClosedSelection(v, level, [f], [])
    ensures ValidFile(f) && ValidVersion(Replaced(v, level, [f], [], [f]))
    ensures AllEntries(Replaced(v, level, [f], [], [f])) == AllEntries(v)
  {
    NumbersUnique(v, next, level);
    NumbersUnique(v, next, level + 1);
    assert f in [f];
    assert [f] + [] == [f];
    assert FitOutputs(v, level, [f], [], [f]);
    ReplaceKeepsVersion(v, level, [f], [], [f]);
    ReplaceEntries(v, level, [f], [], [f]);
  }

  lemma MoveKeepsNumbers(v: Levels, next: nat, level: nat, f: File)
    requires ValidVersion(v) && ValidNumbers(v, next) && level + 1 < NUM_LEVELS && f in v[level] && ValidFiles([f])
    ensures ValidNumbers(Replaced(v, level, [f], [], [f]), next)
  {
    MergedFiles(v[level], Numbers([f]), []);
    MergedFiles(v[level + 1], Numbers([]), [f]);
    NumbersMoved(v, Replaced(v, level, [f], [], [f]), next, level, f);
  }

  lemma Moved(young: set<Entry>, v: Levels, last: nat, next: nat, level: nat, f: File, contents: map<real, string>)
    requires ReadsAs(young, v, last, next, contents) && ClosedSelection(v, level, [f], [])
    ensures ValidFile(f) && ReadsAs(young, Replaced(v, level, [f], [], [f]), last, next, contents)
    ensures AllEntries(Replaced(v, level, [f], [], [f])) == AllEntries(v)
  {
    MoveKeepsVersion(v, next, level, f);
    assert f in [f];
    MoveKeepsNumbers(v, next, level, f);
    FewerEntries(young, v, last, next, Replaced(v, level, [f], [], [f]), next);
  }

  /** Merging files down keeps the level invariants and what every read returns. */
  lemma MergedDown(young: set<Entry>, v: Levels, last: nat, next: nat, level: nat, inputs0: seq<File>,
                   inputs1: seq<File>,
                   input: seq<Entry>, parts: seq<seq<Entry>>, size: nat -> nat, contents: map<real, string>)
    requires ReadsAs(young, v, last, next, contents) && ClosedSelection(v, level, inputs0, inputs1)
    requires Sorted(input) && SetOf(input) == EntriesOf(inputs0) + EntriesOf(inputs1)
    requires Emitted(parts, [], Kept(input, |input|, last, v, level))
    ensures var outputs := OutputFiles(parts, next, size);
            && ValidFiles(outputs)
            && ReadsAs(young, Replaced(v, level, inputs0, inputs1, outputs), last, next + |parts|, contents)
  {
    var outputs := OutputFiles(parts, next, size);
    EntriesBefore(v, level, inputs0, inputs1);
    InputNumbered(young, v, last, next, input);
    OutputsOfMerge(input, last, v, level, parts, next, size);
    MergedTables(young, v, last, next, level, inputs0, inputs1, parts, size);
    var v' := Replaced(v, level, inputs0, inputs1, outputs);
    forall user ensures Answer(young + AllEntries(v'), user, last, Lookup(contents, user)) {
      CompactionInvisible(young, v, last, level, inputs0, inputs1, input, v', outputs, user, Lookup(contents, user));
    }
  }

  lemma MergedTables(young: set<Entry>, v: Levels, last: nat, next: nat, level: nat, inputs0: seq<File>,
                     inputs1: seq<File>, parts: seq<seq<Entry>>, size: nat -> nat)
    requires ValidTables(young, v, last, next) && ClosedSelection(v, level, inputs0, inputs1)
    requires var outputs := OutputFiles(parts, next, size);
             ValidFiles(outputs) && Disjoint(outputs) && EntriesOf(outputs) <= EntriesOf(inputs0) + EntriesOf(inputs1)
    ensures var outputs := OutputFiles(parts, next, size);
            var v' := Replaced(v, level, inputs0, inputs1, outputs);
            && ValidTables(young, v', last, next + |parts|)
            && AllEntries(v') == Untouched(v, level, inputs0, inputs1) + EntriesOf(outputs)
  {
    var outputs := OutputFiles(parts, next, size);
    OutputNumbers(parts, next, size);
    MergeKeepsVersion(v, next, level, inputs0, inputs1, outputs);
    MergedNumbers(v, next, level, inputs0, inputs1, outputs, next + |parts|);
    EntriesBefore(v, level, inputs0, inputs1);
    FewerEntries(young, v, last, next, Replaced(v, level, inputs0, inputs1, outputs), next + |parts|);
  }

  lemma InputNumbered(young: set<Entry>, v: Levels, last: nat, next: nat, input: seq<Entry>)
    requires ValidTables(young, v, last, next) && SetOf(input) <= AllEntries(v)
    ensures forall i :: 0 <= i < |input| ==> input[i].seqno <= last
  {
    forall i | 0 <= i < |input| ensures input[i].seqno <= last {
      assert input[i] in SetOf(input);
    }
  }

  lemma MergeKeepsVersion(v: Levels, next: nat, level: nat, inputs0: seq<File>, inputs1: seq<File>, outputs: seq<File>)
    requires ValidVersion(v) && ValidNumbers(v, next) && ClosedSelection(v, level, inputs0, inputs1)
    requires ValidFiles(outputs) && Disjoint(outputs) && EntriesOf(outputs) <= EntriesOf(inputs0) + EntriesOf(inputs1)
    requires forall f :: f in outputs ==> next <= f.number
    ensures ValidVersion(Replaced(v, level, inputs0, inputs1, outputs))
    ensures AllEntries(Replaced(v, level, inputs0, inputs1, outputs))
            == Untouched(v, level, inputs0, inputs1) + EntriesOf(outputs)
  {
    NumbersUnique(v, next, level);
    NumbersUnique(v, next, level + 1);
    ConcatEntries(inputs0, inputs1);
    NewNumbers(v, level, inputs1, outputs, next);
    ReplaceKeepsVersion(v, level, inputs0, inputs1, outputs);
    ReplaceEntries(v, level, inputs0, inputs1, outputs);
  }

  lemma OutputsOfMerge(input: seq<Entry>, last: nat, v: Levels, level: nat, parts: seq<seq<Entry>>, next: nat,
                       size: nat -> nat)
    requires ValidVersion(v) && Sorted(input) && last < MAX_SEQUENCE
    requires forall i :: 0 <= i < |input| ==> input[i].seqno <= last
    requires Emitted(parts, [], Kept(input, |input|, last, v, level))
    ensures var outputs := OutputFiles(parts, next, size);
            && ValidFiles(outputs) && Disjoint(outputs)
            && EntriesOf(outputs) == SetOf(Kept(input, |input|, last, v, level))
            && EntriesOf(outputs) <= SetOf(input)
  {
    var kept := Kept(input, |input|, last, v, level);
    assert Concat(parts) + [] == Concat(parts);
    KeptIncreasing(input, |input|, last, v, level);
    KeptEntries(input, |input|, last, v, level);
    OutputsFit(parts, next, size);
  }

  lemma NewNumbers(v: Levels, level: nat, inputs1: seq<File>, outputs: seq<File>, next: nat)
    requires ValidNumbers(v, next) && level + 1 < |v| && Within(inputs1, v[level + 1])
    requires forall f :: f in outputs ==> next <= f.number
    ensures forall f :: f in outputs ==> f.number !in Numbers(inputs1)
  {
  }

  lemma MergedNumbers(v: Levels, next: nat, level: nat, inputs0: seq<File>, inputs1: seq<File>, outputs: seq<File>,
                      next': nat)
    requires ValidVersion(v) && ValidNumbers(v, next) && level + 1 < NUM_LEVELS && next <= next'
    requires ValidFiles(outputs) && UniqueNumbers(outputs) && forall f :: f in outputs ==> next <= f.number < next'
    ensures ValidNumbers(Replaced(v, level, inputs0, inputs1, outputs), next')
  {
    MergedFiles(v[level], Numbers(inputs0), []);
    MergedFiles(v[level + 1], Numbers(inputs1), outputs);
    NumbersAdded(v, Replaced(v, level, inputs0, inputs1, outputs), next, next', level + 1, outputs);
  }
}
