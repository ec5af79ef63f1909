/** Appending records to the log, server/lib/leveldb/db/log_writer.cc. */
module LogWriter {
  import opened Sequences
  import opened LogFormat
  import opened LogBytes

  class Writer {
    const crc: Checksum
    var dest: seq<byte>
    var blockOffset: Offset
    ghost var records: seq<seq<byte>>

    /** The file holds exactly the records, and the offset in the block is that of its end. */
    ghost predicate Valid()
      reads this
    {
      dest == LogOf(crc, records) && blockOffset == EndOffset(records)
    }

    constructor (crc: Checksum)
      ensures Valid() && records == [] && this.crc == crc
    {
      this.crc, dest, blockOffset, records := crc, [], 0, [];
    }

    method EmitPhysicalRecord(t: RecordType, payload: seq<byte>)
      requires blockOffset + HEADER_SIZE + |payload| <= BLOCK_SIZE
      modifies `dest, `blockOffset
      ensures blockOffset == old(blockOffset) + HEADER_SIZE + |payload|
      ensures dest == old(dest) + Header(crc, Physical(t, payload)) + payload
    {
      dest := dest + Header(crc, Physical(t, payload));
      dest := dest + payload;
      blockOffset := blockOffset + HEADER_SIZE + |payload|;
    }

    /** Leave a block tail that is too short for a header. */
    method SkipTrailer()
      modifies `dest, `blockOffset
      ensures dest == old(dest) + Zeros(Trailer(old(blockOffset))) && blockOffset == Start(old(blockOffset))
    {
      var leftover := BLOCK_SIZE - blockOffset;
      if leftover < HEADER_SIZE {
        if leftover > 0 {
          dest := dest + Zeros(leftover);
        }
        blockOffset := 0;
      }
    }

    /** Emit the next fragment of a record of which `data` is left. */
    method EmitFragment(data: seq<byte>, begin: bool) returns (n: nat)
      modifies `dest, `blockOffset
      ensures var p := Fragment(old(blockOffset), data, begin);
              && n == |p.payload| <= |data| && blockOffset == After(old(blockOffset), p)
              && dest == old(dest) + Written(crc, old(blockOffset), p)
    {
      SkipTrailer();
      var avail := BLOCK_SIZE - blockOffset - HEADER_SIZE;
      n := if |data| < avail then |data| else avail;
      var end := |data| == n;
      EmitPhysicalRecord(KindOf(begin, end), data[..n]);
    }

    /** Emit a record fragment by fragment, at least one. */
    method EmitRecord(data: seq<byte>)
      modifies `dest, `blockOffset
      ensures dest == old(dest) + RecordBytes(crc, old(blockOffset), data, true)
      ensures blockOffset == AfterRecord(old(blockOffset), data)
    {
      ghost var goal := dest + RecordBytes(crc, blockOffset, data, true);
      ghost var end := AfterRecord(blockOffset, data);
      var rest, begin, done := data, true, false;
      while !done
        invariant done ==> dest == goal && blockOffset == end
        invariant !done ==> goal == dest + RecordBytes(crc, blockOffset, rest, begin)
        invariant !done ==> AfterRest(blockOffset, rest, begin) == end
        decreases if done then 0 else |Fragments(blockOffset, rest, begin)|
      {
        FirstFragment(crc, blockOffset, rest, begin, dest);
        var n := EmitFragment(rest, begin);
        done := n == |rest|;
        rest, begin := rest[n..], false;
      }
    }

    method AddRecord(data: seq<byte>)
      requires Valid()
      modifies this
      ensures Valid() && records == old(records) + [data]
      ensures old(dest) <= dest && Holds(crc, dest, |old(dest)|, data, true, |dest|)
    {
      LogGrows(crc, records, data);
      EndPlace(crc, records);
      EmitRecord(data);
      RecordHeldBehind(crc, old(blockOffset), data, old(dest), dest);
      records := records + [data];
    }
  }

  ghost function AfterRest(o: Offset, data: seq<byte>, begin: bool): Offset {
    FragmentsFit(o, data, begin);
    AfterAll(o, Fragments(o, data, begin))
  }

  /** After the first fragment the rest of the record is left. */
  lemma FirstFragment(crc: Checksum, o: Offset, data: seq<byte>, begin: bool, before: seq<byte>)
    ensures var p := Fragment(o, data, begin); var n := |p.payload|; var after := before + Written(crc, o, p);
            if n == |data|
            then before + RecordBytes(crc, o, data, begin) == after && AfterRest(o, data, begin) == After(o, p)
            else && before + RecordBytes(crc, o, data, begin) == after + RecordBytes(crc, After(o, p), data[n..], false)
                 && AfterRest(o, data, begin) == AfterRest(After(o, p), data[n..], false)
                 && |Fragments(After(o, p), data[n..], false)| < |Fragments(o, data, begin)|
  {
    var p, ps := Fragment(o, data, begin), Fragments(o, data, begin);
    FragmentsFit(o, data, begin);
    if |p.payload| == |data| {
      assert ps[1..] == [];
      assert Layout(crc, o, ps) == Written(crc, o, p) + [];
      assert AfterAll(After(o, p), ps[1..]) == After(o, p);
    } else {
      assert ps[1..] == Fragments(After(o, p), data[|p.payload|..], false);
      Regrouped(before, Written(crc, o, p), Layout(crc, After(o, p), ps[1..]));
    }
  }

  /** The end of a log is at its offset in a block. */
  lemma EndPlace(crc: Checksum, records: seq<seq<byte>>)
    ensures OffsetOf(|LogOf(crc, records)|, EndOffset(records))
  {
    EndOffsetIs(records);
    PlaceAfter(crc, 0, 0, AllFragments(0, records));
  }

  lemma {:induction false} PlaceAfter(crc: Checksum, x: nat, o: Offset, ps: seq<Physical>)
    requires Fit(o, ps) && OffsetOf(x, o)
    ensures OffsetOf(x + |Layout(crc, o, ps)|, AfterAll(o, ps))
    decreases ps
  {
    if ps != [] {
      NextPlaceIs(x, o);
      PlaceAfter(crc, x + |Written(crc, o, ps[0])|, After(o, ps[0]), ps[1..]);
    }
  }

  ghost function EndOffset(records: seq<seq<byte>>): Offset {
    if records == [] then 0 else AfterRecord(EndOffset(records[..|records| - 1]), records[|records| - 1])
  }

  /** The physical records of one more record come last. */
  lemma {:induction false} AllFragmentsSnoc(o: Offset, records: seq<seq<byte>>, data: seq<byte>)
    requires Fit(o, AllFragments(o, records))
    ensures AllFragments(o, records + [data]) ==
            AllFragments(o, records) + Fragments(AfterAll(o, AllFragments(o, records)), data, true)
    decreases records
  {
    if records == [] {
      assert records + [data] == [data];
      assert AllFragments(o, [data]) == Fragments(o, data, true) + [];
    } else {
      var e, f, more := AfterRecord(o, records[0]), Fragments(o, records[0], true),
        AllFragments(AfterRecord(o, records[0]), records[1..]);
      FragmentsFit(o, records[0], true);
      AllFit(e, records[1..]);
      FitSplit(o, f, more);
      AllFragmentsSnoc(e, records[1..], data);
      assert (records + [data])[1..] == records[1..] + [data];
      Regrouped(f, more, Fragments(AfterAll(e, more), data, true));
    }
  }

  lemma {:induction false} EndOffsetIs(records: seq<seq<byte>>)
    ensures Fit(0, AllFragments(0, records)) && AfterAll(0, AllFragments(0, records)) == EndOffset(records)
  {
    AllFit(0, records);
    if records != [] {
      var n := |records| - 1;
      EndOffsetIs(records[..n]);
      AllFragmentsSnoc(0, records[..n], records[n]);
      assert records[..n] + [records[n]] == records;
      FragmentsFit(EndOffset(records[..n]), records[n], true);
      FitSplit(0, AllFragments(0, records[..n]), Fragments(EndOffset(records[..n]), records[n], true));
    }
  }

  /** A further record adds its fragments at the end of the log. */
  lemma LogGrows(crc: Checksum, records: seq<seq<byte>>, data: seq<byte>)
    ensures LogOf(crc, records + [data]) == LogOf(crc, records) + RecordBytes(crc, EndOffset(records), data, true)
    ensures EndOffset(records + [data]) == AfterRecord(EndOffset(records), data)
  {
    EndOffsetIs(records);
    AllFragmentsSnoc(0, records, data);
    AllFit(0, records + [data]);
    FragmentsFit(EndOffset(records), data, true);
    LayoutSplit(crc, 0, AllFragments(0, records), Fragments(EndOffset(records), data, true));
    assert (records + [data])[..|records|] == records;
  }
}
