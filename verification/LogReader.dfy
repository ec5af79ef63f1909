/** Reading records back from the log, server/lib/leveldb/db/log_reader.cc, from a file that
    a crash may have cut off anywhere. */
module LogReader {
  import opened Sequences
  import opened Wrappers
  import opened LogFormat
  import LogWriter

  /** What reading a physical record gives: its type code and payload, or that there is none. */
  datatype Result = Got(code: byte, payload: seq<byte>) | Eof | BadRecord

  function LengthOf(a: byte, b: byte): nat {
    a as int + 256 * b as int
  }

  // ---------------------------------------------------------------- the next physical record

  /** Past the trailer the same records follow. */
  lemma TrailerSkipped(crc: Checksum, o: Offset, ps: seq<Physical>, trailer: seq<byte>, tail: seq<byte>)
    requires Fit(o, ps) && trailer + tail <= Layout(crc, o, ps) && |trailer| == Trailer(o)
    ensures Fit(Start(o), ps) && tail <= Layout(crc, Start(o), ps)
  {
    if ps != [] {
      var p := ps[0];
      var more := Layout(crc, After(o, p), ps[1..]);
      var head := Header(crc, p) + p.payload;
      assert Written(crc, o, p) == Zeros(Trailer(o)) + head && Written(crc, Start(o), p) == head;
      Regrouped(Zeros(Trailer(o)), head, more);
      PrefixTail(trailer, tail, Zeros(Trailer(o)), head + more);
    }
  }

  lemma DropFront(a: seq<byte>, b: seq<byte>, n: nat)
    requires n <= |a|
    ensures (a + b)[n..] == a[n..] + b
  {
  }

  lemma PrefixTail(a: seq<byte>, b: seq<byte>, x: seq<byte>, y: seq<byte>)
    requires a + b <= x + y && |a| == |x|
    ensures b <= y && a == x
  {
    assert b == (a + b)[|a|..] && y == (x + y)[|x|..];
    assert a == (a + b)[..|a|] && x == (x + y)[..|x|];
  }

  /** How the header and payload of the first physical record read. */
  lemma FirstRecord(crc: Checksum, o: Offset, ps: seq<Physical>, tail: seq<byte>)
    requires Fit(o, ps) && tail <= Layout(crc, o, ps) && Trailer(o) == 0 && |tail| >= HEADER_SIZE
    ensures ps != [] && tail[..HEADER_SIZE] == Header(crc, ps[0])
    ensures var n := HEADER_SIZE + |ps[0].payload|;
            n <= |tail| ==> tail[HEADER_SIZE..n] == ps[0].payload && tail[n..] <= Layout(crc, After(o, ps[0]), ps[1..])
  {
    var p := ps[0];
    assert Written(crc, o, p) == Header(crc, p) + p.payload;
    Sliced(tail, Header(crc, p), p.payload, Layout(crc, After(o, p), ps[1..]));
  }

  lemma Sliced(tail: seq<byte>, head: seq<byte>, payload: seq<byte>, more: seq<byte>)
    requires tail <= head + payload + more && |tail| >= |head|
    ensures tail[..|head|] == head
    ensures var n := |head| + |payload|; n <= |tail| ==> tail[|head|..n] == payload && tail[n..] <= more
  {
    var all, n := head + payload + more, |head| + |payload|;
    assert tail[..|head|] == all[..|head|] == head;
    if n <= |tail| {
      assert tail[|head|..n] == all[|head|..n] == payload;
      assert all[n..] == more;
    }
  }

  /** Parsing the header of a physical record at the start of the buffer. */
  lemma HeaderInBuffer(crc: Checksum, p: Physical, buffer: seq<byte>, tail: seq<byte>)
    requires |p.payload| < 65536 && HEADER_SIZE <= |buffer| && buffer <= tail
    requires tail[..HEADER_SIZE] == Header(crc, p)
    requires HEADER_SIZE + |p.payload| <= |tail| ==> tail[HEADER_SIZE..HEADER_SIZE + |p.payload|] == p.payload
    ensures buffer[6] == Code(p.kind) && LengthOf(buffer[4], buffer[5]) == |p.payload|
    ensures HEADER_SIZE + |p.payload| <= |buffer| ==>
              && buffer[HEADER_SIZE..HEADER_SIZE + |p.payload|] == p.payload
              && crc.stored(buffer[6..HEADER_SIZE + |p.payload|]) == (buffer[0], buffer[1], buffer[2], buffer[3])
  {
    assert forall i :: 0 <= i < HEADER_SIZE ==> buffer[i] == tail[..HEADER_SIZE][i];
    if HEADER_SIZE + |p.payload| <= |buffer| {
      assert buffer[HEADER_SIZE..HEADER_SIZE + |p.payload|] == tail[HEADER_SIZE..HEADER_SIZE + |p.payload|];
      assert buffer[6..HEADER_SIZE + |p.payload|] == [Code(p.kind)] + p.payload;
    }
  }

  /** Join a fragment to the record so far, of which `left` is to come. */
  method Join(code: byte, payload: seq<byte>, scratch: seq<byte>, fragmented: bool,
              ghost data: seq<byte>, ghost left: seq<byte>, ghost n: nat)
    returns (done: bool, record: Option<seq<byte>>, scratch': seq<byte>, fragmented': bool)
    requires n <= |left| && scratch + left == data && (!fragmented ==> scratch == [])
    requires code == Code(KindOf(!fragmented, n == |left|)) && payload == left[..n]
    ensures done <==> n == |left|
    ensures if done then record == Some(data) else record == None && fragmented' && scratch' + left[n..] == data
  {
    done, record, scratch', fragmented' := false, None, scratch, fragmented;
    Assembled(data, scratch, left, n);
    if code == Code(Full) {
      done, record := true, Some(payload);
    } else if code == Code(First) {
      scratch', fragmented' := payload, true;
    } else if code == Code(Middle) && fragmented {
      scratch' := scratch + payload;
    } else if code == Code(Last) && fragmented {
      done, record := true, Some(scratch + payload);
    }
  }

  class Reader {
    const crc: Checksum
    const checksum: bool
    var file: seq<byte>
    var buffer: seq<byte>
    var eof: bool
    ghost var blockLength: Offset
    ghost var rest: seq<Physical>

    /** The bytes not yet consumed: those in the buffer and those not yet read. */
    ghost function Unread(): seq<byte>
      reads this
    {
      buffer + file
    }

    ghost predicate Buffered()
      reads this
    {
      |buffer| <= blockLength && if eof then file == [] else blockLength == BLOCK_SIZE
    }

    ghost function At(): Offset
      requires Buffered()
      reads this
    {
      blockLength - |buffer|
    }

    /** What is left of the file is a beginning of the physical records still to come. */
    ghost predicate Valid()
      reads this
    {
      Buffered() && Fit(At(), rest) && Unread() <= Layout(crc, At(), rest)
    }

    ghost predicate Exhausted()
      reads this
    {
      eof && buffer == [] && rest == []
    }

    /** Read from a file that a log of the records may have been cut down to. */
    constructor (crc: Checksum, checksum: bool, file: seq<byte>, ghost records: seq<seq<byte>>)
      requires file <= LogOf(crc, records)
      ensures Valid() && rest == AllFragments(0, records) && At() == BLOCK_SIZE && Unread() == file && this.crc == crc
    {
      this.crc, this.checksum, this.file := crc, checksum, file;
      buffer, eof, blockLength, rest := [], false, BLOCK_SIZE, AllFragments(0, records);
      AllFit(0, records);
      BlockEnd(crc, AllFragments(0, records));
      new;
      assert buffer + file == file;
    }

    /** Drop a trailer and read the next block. */
    method Refill()
      requires Valid() && |buffer| < HEADER_SIZE && !eof
      modifies `file, `buffer, `eof, `blockLength
      ensures Valid() && At() == Start(old(At())) && (|buffer| < HEADER_SIZE ==> eof)
      ensures |Unread()| == |old(Unread())| - Trailer(old(At()))
    {
      TrailerSkipped(crc, At(), rest, buffer, file);
      var n := if BLOCK_SIZE <= |file| then BLOCK_SIZE else |file|;
      ghost var before := file;
      buffer, file := file[..n], file[n..];
      eof, blockLength := n < BLOCK_SIZE, n;
      assert Unread() == before;
    }

    /** The buffer starts with a header, and what it says of the next physical record is right. */
    lemma HeaderParsed() returns (p: Physical)
      requires Valid() && |buffer| >= HEADER_SIZE
      ensures rest != [] && p == rest[0] && Trailer(At()) == 0 && |p.payload| <= Available(At())
      ensures buffer[6] == Code(p.kind) && LengthOf(buffer[4], buffer[5]) == |p.payload|
      ensures HEADER_SIZE + |p.payload| <= |buffer| <==> HEADER_SIZE + |p.payload| <= |Unread()|
      ensures HEADER_SIZE + |p.payload| > |buffer| ==> eof
      ensures HEADER_SIZE + |p.payload| <= |buffer| ==>
                && buffer[HEADER_SIZE..HEADER_SIZE + |p.payload|] == p.payload
                && crc.stored(buffer[6..HEADER_SIZE + |p.payload|]) == (buffer[0], buffer[1], buffer[2], buffer[3])
                && Unread()[HEADER_SIZE + |p.payload|..] <= Layout(crc, After(At(), p), rest[1..])
    {
      FirstRecord(crc, At(), rest, Unread());
      p := rest[0];
      HeaderInBuffer(crc, p, buffer, Unread());
    }

    /** Step over the physical record at the start of the buffer. */
    method Consume(n: nat)
      requires Valid() && n <= |buffer| && rest != [] && After(At(), rest[0]) == At() + n && Fit(At() + n, rest[1..])
      requires Unread()[n..] <= Layout(crc, At() + n, rest[1..])
      modifies `buffer, `rest
      ensures Valid() && rest == old(rest)[1..] && At() == old(At()) + n && |Unread()| == |old(Unread())| - n
    {
      DropFront(buffer, file, n);
      buffer, rest := buffer[n..], rest[1..];
    }

    /** Give up on what is left of the file. */
    method Discard()
      requires Buffered() && eof
      modifies `buffer, `rest
      ensures Valid() && Exhausted()
    {
      buffer, rest := [], [];
    }

    /** Parse and check the physical record at the start of the buffer. */
    method ParseRecord() returns (r: Result)
      requires Valid() && |buffer| >= HEADER_SIZE
      modifies `buffer, `rest
      ensures Valid() && Trailer(old(At())) == 0 && old(rest) != []
      ensures var p := old(rest)[0];
              if HEADER_SIZE + |p.payload| <= |old(Unread())|
              then && r == Got(Code(p.kind), p.payload) && rest == old(rest)[1..] && At() == After(old(At()), p)
                   && |Unread()| == |old(Unread())| - HEADER_SIZE - |p.payload|
              else r == BadRecord && Exhausted()
    {
      ghost var p := HeaderParsed();
      var code, length := buffer[6], LengthOf(buffer[4], buffer[5]);
      if HEADER_SIZE + length > |buffer| || (code == 0 && length == 0)
         || (checksum && crc.stored(buffer[6..HEADER_SIZE + length]) != (buffer[0], buffer[1], buffer[2], buffer[3])) {
        Discard();
        return BadRecord;
      }
      r := Got(code, buffer[HEADER_SIZE..HEADER_SIZE + length]);
      Consume(HEADER_SIZE + length);
    }

    method ReadPhysicalRecord() returns (r: Result)
      requires Valid()
      modifies `file, `buffer, `eof, `blockLength, `rest
      ensures Valid()
      ensures if old(rest) != [] && |Written(crc, old(At()), old(rest)[0])| <= |old(Unread())|
              then && r == Got(Code(old(rest)[0].kind), old(rest)[0].payload)
                   && rest == old(rest)[1..] && At() == After(old(At()), old(rest)[0])
                   && |Unread()| == |old(Unread())| - |Written(crc, old(At()), old(rest)[0])|
              else (r == Eof || r == BadRecord) && Exhausted()
      ensures old(Exhausted()) ==> r == Eof
    {
      if |buffer| < HEADER_SIZE && !eof {
        Refill();
      }
      if |buffer| < HEADER_SIZE {
        Discard();
        return Eof;
      }
      r := ParseRecord();
    }

    /** Read the next fragment of a record of which `left` is to come, if any is. */
    method ReadFragment(ghost lost: bool, ghost left: seq<byte>, ghost begin: bool, ghost end: Offset,
                        ghost more: seq<seq<byte>>)
      returns (r: Result, ghost n: nat)
      requires Valid() && if lost then rest == [] else Reading(At(), left, begin, rest, end, more)
      modifies `file, `buffer, `eof, `blockLength, `rest
      ensures Valid() && n <= |left|
      ensures r.Got? ==> !lost && r == Got(Code(KindOf(begin, n == |left|)), left[..n]) && |rest| < |old(rest)|
      ensures r.Got? && n == |left| ==> At() == end && rest == AllFragments(end, more)
      ensures r.Got? && n == |left| ==> |Unread()| == |old(Unread())| - |RecordBytes(crc, old(At()), left, begin)|
      ensures r.Got? && n < |left| ==> Reading(At(), left[n..], false, rest, end, more)
      ensures r.Got? && n < |left| ==>
                |Unread()| - |RecordBytes(crc, At(), left[n..], false)|
                  == |old(Unread())| - |RecordBytes(crc, old(At()), left, begin)|
      ensures !r.Got? ==> Exhausted() && (lost || |RecordBytes(crc, old(At()), left, begin)| > |old(Unread())|)
      ensures old(Exhausted()) ==> r == Eof
    {
      n := FragmentLength(At(), |left|);
      if !lost { ReadingStep(crc, At(), left, begin, rest, end, more); }
      r := ReadPhysicalRecord();
    }

    /** In the middle of the first of the records to do, of which `left` is to come; or it is lost.  After it
        `spare` bytes remain, if that is not negative. */
    ghost predicate Assembling(todo: seq<seq<byte>>, lost: bool, left: seq<byte>, scratch: seq<byte>, fragmented: bool,
                               end: Offset, spare: int)
      reads this
    {
      && Valid()
      && (lost ==> rest == [] && spare < 0 && (todo != [] ==> Exhausted()))
      && (!lost ==> && todo != [] && scratch + left == todo[0] && (!fragmented ==> scratch == [])
                    && Reading(At(), left, !fragmented, rest, end, todo[1..])
                    && |Unread()| - |RecordBytes(crc, At(), left, !fragmented)| == spare)
    }

    /** The record was read, or the file did not hold all of it. */
    ghost predicate Finished(todo: seq<seq<byte>>, record: Option<seq<byte>>, end: Offset, spare: int)
      reads this
    {
      Valid() && if spare < 0 then record == None && Exhausted()
                 else && todo != [] && record == Some(todo[0]) && At() == end && rest == AllFragments(end, todo[1..])
                      && |Unread()| == spare
    }

    /** How many things can still happen. */
    ghost function Phase(lost: bool): nat
      reads this
    {
      if !lost then 2 else if Exhausted() then 0 else 1
    }

    /** What a fragment makes of the record so far. */
    method TakeFragment(ghost todo: seq<seq<byte>>, ghost lost: bool, ghost left: seq<byte>, scratch: seq<byte>,
                        fragmented: bool, ghost end: Offset, ghost spare: int)
      returns (done: bool, record: Option<seq<byte>>, ghost lost': bool, ghost left': seq<byte>, scratch': seq<byte>,
               fragmented': bool)
      requires Assembling(todo, lost, left, scratch, fragmented, end, spare)
      modifies `file, `buffer, `eof, `blockLength, `rest
      ensures if done then Finished(todo, record, end, spare)
              else && Assembling(todo, lost', left', scratch', fragmented', end, spare)
                   && Phase(lost') <= old(Phase(lost)) && (Phase(lost') < old(Phase(lost)) || |rest| < |old(rest)|)
    {
      done, record, lost', left', scratch', fragmented' := false, None, lost, left, scratch, fragmented;
      ghost var n, data, more := 0, if lost then [] else todo[0], if lost then [] else todo[1..];
      var fragment;
      fragment, n := ReadFragment(lost, left, !fragmented, end, more);
      if fragment.Eof? {
        done := true;
      } else if fragment.BadRecord? {
        lost', fragmented', scratch' := true, false, [];
      } else {
        left' := left[n..];
        done, record, scratch', fragmented' :=
          Join(fragment.code, fragment.payload, scratch, fragmented, data, left, n);
      }
    }

    /** Read the next record, if the file holds all of it. */
    method ReadRecord(ghost todo: seq<seq<byte>>) returns (record: Option<seq<byte>>)
      requires Valid() && rest == AllFragments(At(), todo)
      modifies `file, `buffer, `eof, `blockLength, `rest
      ensures Valid()
      ensures var o := old(At());
              if todo != [] && |RecordBytes(crc, o, todo[0], true)| <= |old(Unread())|
              then && record == Some(todo[0]) && At() == AfterRecord(o, todo[0])
                   && rest == AllFragments(At(), todo[1..])
                   && |Unread()| == |old(Unread())| - |RecordBytes(crc, o, todo[0], true)|
              else record == None && Exhausted()
    {
      var done, scratch, inFragmentedRecord := false, [], false;
      ghost var lost, left, end: Offset, spare := todo == [], [], 0, -1;
      if !lost {
        left, end, spare := todo[0], AfterRecord(At(), todo[0]), |Unread()| - |RecordBytes(crc, At(), todo[0], true)|;
      }
      record := None;
      while !done
        invariant if done then Finished(todo, record, end, spare)
                  else Assembling(todo, lost, left, scratch, inFragmentedRecord, end, spare)
        decreases if done then 0 else 1, Phase(lost), |rest|
      {
        done, record, lost, left, scratch, inFragmentedRecord :=
          TakeFragment(todo, lost, left, scratch, inFragmentedRecord, end, spare);
      }
    }

    /** Read until there is no further record: exactly the records that the file holds all of. */
    method ReadAll(ghost records: seq<seq<byte>>) returns (read: seq<seq<byte>>)
      requires Valid() && rest == AllFragments(At(), records)
      modifies `file, `buffer, `eof, `blockLength, `rest
      ensures read == Complete(crc, old(At()), records, |old(Unread())|)
    {
      read := [];
      ghost var todo, goal := records, Complete(crc, At(), records, |Unread()|);
      while true
        invariant Valid() && rest == AllFragments(At(), todo)
        invariant goal == read + Complete(crc, At(), todo, |Unread()|)
        decreases |todo|
      {
        ghost var still := Complete(crc, At(), todo, |Unread()|);
        var record := ReadRecord(todo);
        if record.None? {
          NothingMore(goal, read, still);
          return;
        }
        OneMore(goal, read, record.value, Complete(crc, At(), todo[1..], |Unread()|));
        read := read + [record.value];
        todo := todo[1..];
      }
    }
  }

  lemma NothingMore(goal: seq<seq<byte>>, read: seq<seq<byte>>, still: seq<seq<byte>>)
    requires goal == read + still && still == []
    ensures goal == read
  {
  }

  lemma OneMore(goal: seq<seq<byte>>, read: seq<seq<byte>>, record: seq<byte>, still: seq<seq<byte>>)
    requires goal == read + ([record] + still)
    ensures goal == (read + [record]) + still
  {
  }

  lemma Assembled(data: seq<byte>, scratch: seq<byte>, left: seq<byte>, n: nat)
    requires scratch + left == data && n <= |left|
    ensures (scratch + left[..n]) + left[n..] == data
    ensures n == |left| ==> scratch + left[..n] == data && (scratch == [] ==> left[..n] == data)
    ensures scratch == [] ==> left[..n] + left[n..] == data
  {
    if scratch == [] { assert data == left; }
  }

  /** At offset o the rest of a record, of which `left` is to come, is followed by more records. */
  ghost predicate Reading(o: Offset, left: seq<byte>, begin: bool, rest: seq<Physical>, end: Offset,
                          more: seq<seq<byte>>)
  {
    rest == Fragments(o, left, begin) + AllFragments(end, more) && LogWriter.AfterRest(o, left, begin) == end
  }

  lemma ReadingStep(crc: Checksum, o: Offset, left: seq<byte>, begin: bool, rest: seq<Physical>, end: Offset,
                    more: seq<seq<byte>>)
    requires Reading(o, left, begin, rest, end, more)
    ensures var p := Fragment(o, left, begin); var n := |p.payload|;
            && rest != [] && rest[0] == p
            && (n == |left| ==> After(o, p) == end && rest[1..] == AllFragments(end, more)
                                && |Written(crc, o, p)| == |RecordBytes(crc, o, left, begin)|)
            && (n != |left| ==> Reading(After(o, p), left[n..], false, rest[1..], end, more)
                                && |Written(crc, o, p)| + |RecordBytes(crc, After(o, p), left[n..], false)|
                                  == |RecordBytes(crc, o, left, begin)|)
  {
    var p, ps := Fragment(o, left, begin), Fragments(o, left, begin);
    LogWriter.FirstFragment(crc, o, left, begin, []);
    if |p.payload| == |left| {
      assert ps == [p];
    } else {
      assert ps[1..] == Fragments(After(o, p), left[|p.payload|..], false);
      assert rest[1..] == ps[1..] + AllFragments(end, more);
    }
  }

  lemma KeptRecords(crc: Checksum, records: seq<seq<byte>>, kept: nat)
    ensures var read := Complete(crc, 0, records, kept);
            read <= records && forall n {:trigger records[..n]} :: 0 <= n <= |records| ==>
              (n <= |read| <==> |LogOf(crc, records[..n])| <= kept)
  {
    CompleteIs(crc, 0, records, kept, 0);
    forall n | 0 <= n <= |records|
      ensures n <= |Complete(crc, 0, records, kept)| <==> |LogOf(crc, records[..n])| <= kept
    {
      CompleteIs(crc, 0, records, kept, n);
    }
  }

  /** Write the records, keep any number of bytes, read: what comes back are the records whose
      bytes were all kept.  Keeping everything gives all records back. */
  method WriteCrashRead(crc: Checksum, checksum: bool, records: seq<seq<byte>>, kept: nat)
    returns (read: seq<seq<byte>>)
    requires kept <= |LogOf(crc, records)|
    ensures read == Complete(crc, 0, records, kept)
    ensures read <= records && forall n {:trigger records[..n]} :: 0 <= n <= |records| ==>
              (n <= |read| <==> |LogOf(crc, records[..n])| <= kept)
    ensures kept == |LogOf(crc, records)| ==> read == records
  {
    var writer := new LogWriter.Writer(crc);
    for i := 0 to |records|
      invariant writer.Valid() && writer.crc == crc && writer.records == records[..i]
    {
      writer.AddRecord(records[i]);
      assert records[..i + 1] == records[..i] + [records[i]];
    }
    assert records[..|records|] == records;
    var reader := new Reader(crc, checksum, writer.dest[..kept], records);
    SameFragments(crc, records, kept);
    read := reader.ReadAll(records);
    AllComplete(crc, 0, records);
    KeptRecords(crc, records, kept);
  }

  /** Records come out the same at the end of a block as at the beginning of the next one. */
  lemma SameFragments(crc: Checksum, records: seq<seq<byte>>, kept: nat)
    ensures AllFragments(0, records) == AllFragments(BLOCK_SIZE, records)
    ensures Complete(crc, 0, records, kept) == Complete(crc, BLOCK_SIZE, records, kept)
  {
    if records != [] {
      var ps := Fragments(0, records[0], true);
      assert ps == Fragments(BLOCK_SIZE, records[0], true);
      FragmentsFit(0, records[0], true);
      BlockEnd(crc, ps);
    }
  }
}
