/** What the bytes of a log are, at their places in the file: the format of
    server/lib/leveldb/db/log_format.h without reference to how it is written. */
module LogBytes {
  import opened LogFormat

  /** Where the next physical record can be: a header does not begin in the last six bytes of a 32 KB block. */
  ghost function NextPlace(x: nat): nat {
    if x % 32768 > 32761 then x - x % 32768 + 32768 else x
  }

  /** A physical record at a place: checksum, length with the low byte first, type, payload. */
  ghost predicate PhysicalAt(crc: Checksum, file: seq<byte>, x: nat, code: byte, payload: seq<byte>) {
    && x + 7 + |payload| <= |file| && file[x + 7..x + 7 + |payload|] == payload
    && (file[x], file[x + 1], file[x + 2], file[x + 3]) == crc.stored([code] + payload)
    && file[x + 4] as int + 256 * file[x + 5] as int == |payload| && file[x + 6] == code
  }

  ghost predicate ZerosBetween(file: seq<byte>, x: nat, y: nat) {
    y <= |file| && forall i {:trigger file[i]} :: x <= i < y ==> file[i] == 0
  }

  /** The type of a fragment: 1 for a whole record, 2, 3 and 4 for its first, middle and last one. */
  ghost function CodeOf(begin: bool, end: bool): byte {
    if begin then if end then 1 else 2 else if end then 4 else 3
  }

  /** The first fragment of the rest of a record: in one block, and it fills the block unless it is the last one. */
  ghost predicate FirstAt(crc: Checksum, file: seq<byte>, x: nat, data: seq<byte>, begin: bool, n: nat, y: nat) {
    && n <= |data| && y == NextPlace(x) && ZerosBetween(file, x, y)
    && PhysicalAt(crc, file, y, CodeOf(begin, n == |data|), data[..n]) && y % 32768 + 7 + n <= 32768
    && (n < |data| ==> (y + 7 + n) % 32768 == 0)
  }

  /** From place x to the end place the file holds the rest of a record, in fragments of the given lengths. */
  ghost predicate HoldsRecord(crc: Checksum, file: seq<byte>, x: nat, data: seq<byte>, begin: bool, lengths: seq<nat>,
                              end: nat)
    decreases lengths
  {
    && lengths != [] && FirstAt(crc, file, x, data, begin, lengths[0], NextPlace(x))
    && if lengths[0] == |data| then |lengths| == 1 && NextPlace(x) + 7 + lengths[0] == end
       else HoldsRecord(crc, file, NextPlace(x) + 7 + lengths[0], data[lengths[0]..], false, lengths[1..], end)
  }

  /** The offset in a block of a place in the file. */
  ghost predicate OffsetOf(x: nat, o: Offset) {
    x % 32768 == o % 32768
  }

  lemma NextPlaceIs(x: nat, o: Offset)
    requires OffsetOf(x, o)
    ensures NextPlace(x) == x + Trailer(o) && NextPlace(x) % 32768 == Start(o) % 32768
  {
  }

  lemma WrittenAt(crc: Checksum, o: Offset, p: Physical, file: seq<byte>, x: nat)
    requires |p.payload| <= Available(o) && x <= |file| && Written(crc, o, p) <= file[x..]
    ensures ZerosBetween(file, x, x + Trailer(o))
    ensures PhysicalAt(crc, file, x + Trailer(o), Code(p.kind), p.payload)
  {
    var w, t := Written(crc, o, p), Trailer(o);
    assert forall i :: 0 <= i < |w| ==> file[x + i] == w[i];
    assert file[x + t + 7..x + t + 7 + |p.payload|] == w[t + 7..] == p.payload;
    var h := Header(crc, p);
    assert forall i :: 0 <= i < 7 ==> file[x + t + i] == h[i];
  }

  lemma FirstHeld(crc: Checksum, o: Offset, data: seq<byte>, begin: bool, file: seq<byte>, x: nat)
    requires OffsetOf(x, o) && x <= |file| && Written(crc, o, Fragment(o, data, begin)) <= file[x..]
    ensures var p := Fragment(o, data, begin); var n := |p.payload|; var y := x + Trailer(o);
            && FirstAt(crc, file, x, data, begin, n, y)
            && y + 7 + n == x + |Written(crc, o, p)|
  {
    WrittenAt(crc, o, Fragment(o, data, begin), file, x);
    InBlock(x, o, FragmentLength(o, |data|));
  }

  lemma InBlock(x: nat, o: Offset, n: nat)
    requires OffsetOf(x, o) && n <= Available(o)
    ensures NextPlace(x) == x + Trailer(o) && NextPlace(x) % 32768 + 7 + n <= 32768
    ensures n == Available(o) ==> (NextPlace(x) + 7 + n) % 32768 == 0
  {
    NextPlaceIs(x, o);
  }

  lemma OffsetAfter(crc: Checksum, o: Offset, p: Physical, x: nat)
    requires OffsetOf(x, o) && |p.payload| <= Available(o)
    ensures OffsetOf(x + |Written(crc, o, p)|, After(o, p))
  {
    SumOffset(x, Trailer(o) + 7 + |p.payload|, o);
  }

  lemma SumOffset(x: nat, k: nat, o: nat)
    requires x % 32768 == o % 32768
    ensures (x + k) % 32768 == (o + k) % 32768
  {
  }

  lemma RestOfRecord(crc: Checksum, o: Offset, data: seq<byte>, begin: bool)
    ensures var p := Fragment(o, data, begin); var n := |p.payload|;
            if n == |data| then RecordBytes(crc, o, data, begin) == Written(crc, o, p)
            else RecordBytes(crc, o, data, begin)
                 == Written(crc, o, p) + RecordBytes(crc, After(o, p), data[n..], false)
  {
    var p, ps := Fragment(o, data, begin), Fragments(o, data, begin);
    FragmentsFit(o, data, begin);
    if |p.payload| == |data| {
      assert ps[1..] == [];
      assert Layout(crc, o, ps) == Written(crc, o, p) + [];
    } else {
      assert ps[1..] == Fragments(After(o, p), data[|p.payload|..], false);
    }
  }

  /** The file holds the rest of a record, in some fragments. */
  ghost predicate Holds(crc: Checksum, file: seq<byte>, x: nat, data: seq<byte>, begin: bool, end: nat) {
    exists lengths :: HoldsRecord(crc, file, x, data, begin, lengths, end)
  }

  lemma HoldsLast(crc: Checksum, file: seq<byte>, x: nat, data: seq<byte>, begin: bool, y: nat)
    requires FirstAt(crc, file, x, data, begin, |data|, y)
    ensures Holds(crc, file, x, data, begin, y + 7 + |data|)
  {
    assert HoldsRecord(crc, file, x, data, begin, [|data|], y + 7 + |data|);
  }

  lemma HoldsMore(crc: Checksum, file: seq<byte>, x: nat, data: seq<byte>, begin: bool, n: nat, y: nat, end: nat)
    requires FirstAt(crc, file, x, data, begin, n, y) && n < |data|
    requires Holds(crc, file, y + 7 + n, data[n..], false, end)
    ensures Holds(crc, file, x, data, begin, end)
  {
    var more :| HoldsRecord(crc, file, y + 7 + n, data[n..], false, more, end);
    assert ([n] + more)[1..] == more;
    assert HoldsRecord(crc, file, x, data, begin, [n] + more, end);
  }

  lemma HeldLast(crc: Checksum, o: Offset, data: seq<byte>, begin: bool, file: seq<byte>, x: nat, end: nat)
    requires OffsetOf(x, o) && x <= |file| && Written(crc, o, Fragment(o, data, begin)) <= file[x..]
    requires |Fragment(o, data, begin).payload| == |data| && end == x + |Written(crc, o, Fragment(o, data, begin))|
    ensures Holds(crc, file, x, data, begin, end)
  {
    FirstHeld(crc, o, data, begin, file, x);
    HoldsLast(crc, file, x, data, begin, x + Trailer(o));
  }

  lemma HeldMore(crc: Checksum, o: Offset, data: seq<byte>, begin: bool, file: seq<byte>, x: nat, end: nat)
    requires OffsetOf(x, o) && x <= |file| && Written(crc, o, Fragment(o, data, begin)) <= file[x..]
    requires var p := Fragment(o, data, begin); var n := |p.payload|;
             n < |data| && Holds(crc, file, x + |Written(crc, o, p)|, data[n..], false, end)
    ensures Holds(crc, file, x, data, begin, end)
  {
    FirstHeld(crc, o, data, begin, file, x);
    HoldsMore(crc, file, x, data, begin, |Fragment(o, data, begin).payload|, x + Trailer(o), end);
  }

  /** The bytes of a record, wherever they are in a file. */
  lemma {:induction false} RecordHeld(crc: Checksum, o: Offset, data: seq<byte>, begin: bool, file: seq<byte>, x: nat,
                                      end: nat)
    requires OffsetOf(x, o) && x <= |file| && RecordBytes(crc, o, data, begin) <= file[x..]
    requires end == x + |RecordBytes(crc, o, data, begin)|
    ensures Holds(crc, file, x, data, begin, end)
    decreases |data|, if Available(o) == 0 then 1 else 0
  {
    var p := Fragment(o, data, begin);
    var n, w := |p.payload|, Written(crc, o, p);
    RestOfRecord(crc, o, data, begin);
    PrefixOfPrefix(w, RecordBytes(crc, o, data, begin), file[x..]);
    if n == |data| {
      HeldLast(crc, o, data, begin, file, x, end);
    } else {
      SuffixOfPrefix(w, RecordBytes(crc, After(o, p), data[n..], false), file, x);
      OffsetAfter(crc, o, p, x);
      RecordHeld(crc, After(o, p), data[n..], false, file, x + |w|, end);
      HeldMore(crc, o, data, begin, file, x, end);
    }
  }

  lemma PrefixOfPrefix(a: seq<byte>, b: seq<byte>, c: seq<byte>)
    requires a <= b <= c
    ensures a <= c
  {
  }

  lemma SuffixOfPrefix(a: seq<byte>, b: seq<byte>, file: seq<byte>, x: nat)
    requires x <= |file| && a + b <= file[x..]
    ensures x + |a| <= |file| && b <= file[x + |a|..]
  {
    assert b == (a + b)[|a|..] && file[x..][|a|..] == file[x + |a|..];
  }

  /** A record written behind a file is held there, up to the end. */
  lemma RecordHeldBehind(crc: Checksum, o: Offset, data: seq<byte>, before: seq<byte>, file: seq<byte>)
    requires OffsetOf(|before|, o) && file == before + RecordBytes(crc, o, data, true)
    ensures before <= file && Holds(crc, file, |before|, data, true, |file|)
  {
    assert file[|before|..] == RecordBytes(crc, o, data, true);
    RecordHeld(crc, o, data, true, file, |before|, |file|);
  }
}
