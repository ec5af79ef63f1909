/** The record log, server/lib/leveldb/db/log_format.h: fixed-size blocks of physical
    records, each a fragment of a logical record.  A position in the log is an offset in the
    current block, from 0 to the block size. */
module LogFormat {
  import opened Sequences

  const BLOCK_SIZE: nat := 32768
  const HEADER_SIZE: nat := 7

  type byte = b: int | 0 <= b < 256

  datatype RecordType = Full | First | Middle | Last

  function Code(t: RecordType): byte {
    match t
    case Full => 1
    case First => 2
    case Middle => 3
    case Last => 4
  }

  datatype Physical = Physical(kind: RecordType, payload: seq<byte>)

  /** The four stored checksum bytes of a type and payload; any function will do. */
  datatype Checksum = Checksum(stored: seq<byte> -> (byte, byte, byte, byte))

  type Offset = o: nat | o <= BLOCK_SIZE

  function Header(crc: Checksum, p: Physical): (h: seq<byte>)
    requires |p.payload| < 65536
    ensures |h| == HEADER_SIZE
  {
    var c := crc.stored([Code(p.kind)] + p.payload);
    [c.0, c.1, c.2, c.3, |p.payload| % 256, |p.payload| / 256, Code(p.kind)]
  }

  // ---------------------------------------------------------------- physical records in blocks

  /** A block tail too short for a header is filled with zeros. */
  function Trailer(o: Offset): nat {
    if BLOCK_SIZE - o < HEADER_SIZE then BLOCK_SIZE - o else 0
  }

  function Start(o: Offset): Offset {
    if BLOCK_SIZE - o < HEADER_SIZE then 0 else o
  }

  /** Payload bytes that fit behind a header at the next position. */
  function Available(o: Offset): nat {
    BLOCK_SIZE - Start(o) - HEADER_SIZE
  }

  function After(o: Offset, p: Physical): Offset
    requires |p.payload| <= Available(o)
  {
    Start(o) + HEADER_SIZE + |p.payload|
  }

  ghost predicate Fit(o: Offset, ps: seq<Physical>)
    decreases ps
  {
    ps == [] || (|ps[0].payload| <= Available(o) && Fit(After(o, ps[0]), ps[1..]))
  }

  ghost function AfterAll(o: Offset, ps: seq<Physical>): Offset
    requires Fit(o, ps)
    decreases ps
  {
    if ps == [] then o else AfterAll(After(o, ps[0]), ps[1..])
  }

  function Zeros(n: nat): (z: seq<byte>)
    ensures |z| == n
  {
    seq(n, _ => 0)
  }

  /** One physical record, with the trailer before it if there is one. */
  ghost function Written(crc: Checksum, o: Offset, p: Physical): (w: seq<byte>)
    requires |p.payload| <= Available(o)
    ensures |w| == Trailer(o) + HEADER_SIZE + |p.payload|
  {
    Zeros(Trailer(o)) + Header(crc, p) + p.payload
  }

  /** The bytes of a list of physical records. */
  ghost function Layout(crc: Checksum, o: Offset, ps: seq<Physical>): seq<byte>
    requires Fit(o, ps)
    decreases ps
  {
    if ps == [] then [] else Written(crc, o, ps[0]) + Layout(crc, After(o, ps[0]), ps[1..])
  }

  lemma {:induction false} FitSplit(o: Offset, a: seq<Physical>, b: seq<Physical>)
    requires Fit(o, a) && Fit(AfterAll(o, a), b)
    ensures Fit(o, a + b) && AfterAll(o, a + b) == AfterAll(AfterAll(o, a), b)
    decreases a
  {
    if a == [] {
      assert a + b == b;
    } else {
      assert (a + b)[0] == a[0] && (a + b)[1..] == a[1..] + b;
      FitSplit(After(o, a[0]), a[1..], b);
    }
  }

  lemma {:induction false} LayoutSplit(crc: Checksum, o: Offset, a: seq<Physical>, b: seq<Physical>)
    requires Fit(o, a) && Fit(AfterAll(o, a), b) && Fit(o, a + b)
    ensures Layout(crc, o, a + b) == Layout(crc, o, a) + Layout(crc, AfterAll(o, a), b)
    decreases a
  {
    if a == [] {
      assert a + b == b;
    } else {
      assert (a + b)[0] == a[0] && (a + b)[1..] == a[1..] + b;
      LayoutSplit(crc, After(o, a[0]), a[1..], b);
      Regrouped(Written(crc, o, a[0]), Layout(crc, After(o, a[0]), a[1..]), Layout(crc, AfterAll(o, a), b));
    }
  }

  /** A full block and the beginning of the next one are the same position. */
  lemma BlockEnd(crc: Checksum, ps: seq<Physical>)
    requires Fit(0, ps)
    ensures Fit(BLOCK_SIZE, ps) && Layout(crc, BLOCK_SIZE, ps) == Layout(crc, 0, ps)
  {
  }

  // ---------------------------------------------------------------- fragments of a record

  function KindOf(begin: bool, end: bool): RecordType {
    if begin && end then Full else if begin then First else if end then Last else Middle
  }

  function FragmentLength(o: Offset, left: nat): nat {
    if left < Available(o) then left else Available(o)
  }

  /** The physical record that holds as much as fits of what is left of a record. */
  function Fragment(o: Offset, data: seq<byte>, begin: bool): Physical {
    var n := FragmentLength(o, |data|);
    Physical(KindOf(begin, n == |data|), data[..n])
  }

  /** The physical records of a record of which `data` is left.  A fragment without room for
      payload fills its block, so the next one has room. */
  function Fragments(o: Offset, data: seq<byte>, begin: bool): (ps: seq<Physical>)
    ensures ps != [] && ps[0] == Fragment(o, data, begin)
    decreases |data|, if Available(o) == 0 then 1 else 0
  {
    var p := Fragment(o, data, begin);
    if |p.payload| == |data| then [p]
    else [p] + Fragments(After(o, p), data[|p.payload|..], false)
  }

  lemma {:induction false} FragmentsFit(o: Offset, data: seq<byte>, begin: bool)
    ensures Fit(o, Fragments(o, data, begin))
    decreases |data|, if Available(o) == 0 then 1 else 0
  {
    var p, ps := Fragment(o, data, begin), Fragments(o, data, begin);
    if |p.payload| == |data| {
      assert ps[1..] == [];
    } else {
      assert ps[1..] == Fragments(After(o, p), data[|p.payload|..], false);
      FragmentsFit(After(o, p), data[|p.payload|..], false);
    }
  }

  /** The bytes of what is left of a record, and the position after it. */
  ghost function RecordBytes(crc: Checksum, o: Offset, data: seq<byte>, begin: bool): seq<byte> {
    FragmentsFit(o, data, begin);
    Layout(crc, o, Fragments(o, data, begin))
  }

  ghost function AfterRecord(o: Offset, data: seq<byte>): Offset {
    FragmentsFit(o, data, true);
    AfterAll(o, Fragments(o, data, true))
  }

  /** The physical records of a list of records. */
  ghost function AllFragments(o: Offset, records: seq<seq<byte>>): seq<Physical>
    decreases records
  {
    if records == [] then []
    else Fragments(o, records[0], true) + AllFragments(AfterRecord(o, records[0]), records[1..])
  }

  lemma {:induction false} AllFit(o: Offset, records: seq<seq<byte>>)
    ensures Fit(o, AllFragments(o, records))
    decreases records
  {
    if records != [] {
      FragmentsFit(o, records[0], true);
      AllFit(AfterRecord(o, records[0]), records[1..]);
      FitSplit(o, Fragments(o, records[0], true), AllFragments(AfterRecord(o, records[0]), records[1..]));
    }
  }

  /** The bytes of a list of records are those of the first one and then those of the others. */
  lemma FirstOfLog(crc: Checksum, o: Offset, records: seq<seq<byte>>)
    requires records != []
    ensures var e := AfterRecord(o, records[0]);
            && Fit(o, AllFragments(o, records)) && Fit(e, AllFragments(e, records[1..]))
            && Layout(crc, o, AllFragments(o, records)) ==
               RecordBytes(crc, o, records[0], true) + Layout(crc, e, AllFragments(e, records[1..]))
  {
    var e := AfterRecord(o, records[0]);
    FragmentsFit(o, records[0], true);
    AllFit(o, records);
    AllFit(e, records[1..]);
    LayoutSplit(crc, o, Fragments(o, records[0], true), AllFragments(e, records[1..]));
  }

  /** The log that holds the records. */
  ghost function LogOf(crc: Checksum, records: seq<seq<byte>>): seq<byte> {
    AllFit(0, records);
    Layout(crc, 0, AllFragments(0, records))
  }

  /** The records that lie wholly within the first `length` bytes. */
  ghost function Complete(crc: Checksum, o: Offset, records: seq<seq<byte>>, length: nat): seq<seq<byte>>
    decreases records
  {
    if records == [] then []
    else
      var size := |RecordBytes(crc, o, records[0], true)|;
      if size > length then []
      else [records[0]] + Complete(crc, AfterRecord(o, records[0]), records[1..], length - size)
  }

  /** The bytes that records take from an offset on. */
  ghost function SizeOf(crc: Checksum, o: Offset, records: seq<seq<byte>>): nat {
    AllFit(o, records);
    |Layout(crc, o, AllFragments(o, records))|
  }

  lemma SizeOfFirst(crc: Checksum, o: Offset, records: seq<seq<byte>>, n: nat)
    requires 0 < n <= |records|
    ensures SizeOf(crc, o, records[..n]) ==
            |RecordBytes(crc, o, records[0], true)| + SizeOf(crc, AfterRecord(o, records[0]), records[1..][..n - 1])
  {
    assert records[..n][0] == records[0] && records[..n][1..] == records[1..][..n - 1];
    FirstOfLog(crc, o, records[..n]);
  }

  /** They are the first records, as many as fit into the bytes. */
  lemma {:induction false} CompleteIs(crc: Checksum, o: Offset, records: seq<seq<byte>>, length: nat, n: nat)
    requires n <= |records|
    ensures Complete(crc, o, records, length) <= records
    ensures n <= |Complete(crc, o, records, length)| <==> SizeOf(crc, o, records[..n]) <= length
    decreases records
  {
    if n > 0 { SizeOfFirst(crc, o, records, n); }
    if records != [] && |RecordBytes(crc, o, records[0], true)| <= length {
      var size := |RecordBytes(crc, o, records[0], true)|;
      CompleteIs(crc, AfterRecord(o, records[0]), records[1..], length - size, if n > 0 then n - 1 else 0);
    }
    if n == 0 {
      assert records[..n] == [];
    }
  }

  /** Nothing is missing from a whole log. */
  lemma {:induction false} AllComplete(crc: Checksum, o: Offset, records: seq<seq<byte>>)
    ensures Fit(o, AllFragments(o, records))
    ensures Complete(crc, o, records, |Layout(crc, o, AllFragments(o, records))|) == records
    decreases records
  {
    AllFit(o, records);
    if records != [] {
      FirstOfLog(crc, o, records);
      AllComplete(crc, AfterRecord(o, records[0]), records[1..]);
    }
  }
}
