/** Integer encodings, server/lib/leveldb/util/coding.cc. */
module Coding {
  type byte = b: int | 0 <= b < 256

  const UINT32: nat := 0x1_0000_0000

  // ---------------------------------------------------------------- fixed 32-bit integers

  function Fixed32(v: nat): (r: seq<byte>)
    ensures |r| == 4
  {
    [v % 256, v / 256 % 256, v / 256 / 256 % 256, v / 256 / 256 / 256 % 256]
  }

  function DecodeFixed32(s: seq<byte>): nat
    requires |s| >= 4
  {
    s[0] as int + 256 * (s[1] as int + 256 * (s[2] as int + 256 * s[3] as int))
  }

  lemma Fixed32RoundTrip(v: nat, rest: seq<byte>)
    requires v < UINT32
    ensures DecodeFixed32(Fixed32(v) + rest) == v
  {
    var a := v / 256;
    var b := a / 256;
    var c := b / 256;
    assert c < 256;
  }

  /** The bytes of a number, the least significant first. */
  lemma Fixed32Bytes(v: nat)
    requires v < UINT32
    ensures var r := Fixed32(v);
            r[0] as int + 256 * r[1] as int + 65536 * r[2] as int + 16777216 * r[3] as int == v
  {
    Fixed32RoundTrip(v, []);
  }

  // ---------------------------------------------------------------- variable-length integers

  /** Seven bits to a byte, least significant first; the high bit says that more follow. */
  function Varint(v: nat): (r: seq<byte>)
    ensures |r| >= 1
  {
    if v < 128 then [v] else [v % 128 + 128] + Varint(v / 128)
  }

  /** Seven bits of each byte count, those of the first one least. */
  ghost function SevenBits(s: seq<byte>): nat {
    if s == [] then 0 else s[0] as int % 128 + 128 * SevenBits(s[1..])
  }

  /** All bytes but the last have the high bit. */
  ghost predicate IsVarint(s: seq<byte>, v: nat) {
    && |s| > 0 && s[|s| - 1] < 128 && (forall i :: 0 <= i < |s| - 1 ==> s[i] >= 128)
    && SevenBits(s) == v
  }

  lemma {:induction false} VarintBytes(v: nat)
    ensures IsVarint(Varint(v), v)
    ensures |Varint(v)| > 1 ==> Varint(v)[|Varint(v)| - 1] > 0
  {
    if v >= 128 {
      VarintBytes(v / 128);
      assert Varint(v)[1..] == Varint(v / 128);
    }
  }

  datatype Decoded = Bad | Good(value: nat, length: nat)

  /** Read at most `bytes` more bytes. */
  function ReadVarint(s: seq<byte>, bytes: nat): (r: Decoded)
    ensures r.Good? ==> 1 <= r.length <= |s|
  {
    if bytes == 0 || s == [] then Bad
    else if s[0] < 128 then Good(s[0], 1)
    else
      var more := ReadVarint(s[1..], bytes - 1);
      if more.Bad? then Bad else Good(s[0] as int - 128 + 128 * more.value, 1 + more.length)
  }

  /** At most five bytes, of which only 32 bits count. */
  function GetVarint32(s: seq<byte>): (r: Decoded)
    ensures r.Good? ==> 1 <= r.length <= |s|
  {
    var r := ReadVarint(s, 5);
    if r.Bad? then Bad else Good(r.value % UINT32, r.length)
  }

  function Power128(n: nat): nat {
    if n == 0 then 1 else 128 * Power128(n - 1)
  }

  lemma {:induction false} ReadVarintRoundTrip(v: nat, bytes: nat, rest: seq<byte>)
    requires bytes > 0 && v < Power128(bytes)
    ensures ReadVarint(Varint(v) + rest, bytes) == Good(v, |Varint(v)|)
  {
    if v >= 128 {
      assert (Varint(v) + rest)[1..] == Varint(v / 128) + rest;
      ReadVarintRoundTrip(v / 128, bytes - 1, rest);
    }
  }

  lemma Varint32RoundTrip(v: nat, rest: seq<byte>)
    requires v < UINT32
    ensures GetVarint32(Varint(v) + rest) == Good(v, |Varint(v)|)
    ensures (Varint(v) + rest)[0] < 128 <==> v < 128
  {
    assert Power128(5) == 128 * (128 * (128 * (128 * Power128(1))));
    assert (Varint(v) + rest)[0] == Varint(v)[0];
    ReadVarintRoundTrip(v, 5, rest);
  }
}
