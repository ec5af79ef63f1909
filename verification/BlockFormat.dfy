/** The layout of a table block, server/lib/leveldb/table/block_builder.cc: entries that
    share a prefix of their key with the entry before, restart points that share nothing. */
module BlockFormat {
  import opened Coding

  datatype Pair = Pair(key: seq<byte>, value: seq<byte>)

  function EntryBytes(p: Pair, shared: nat): seq<byte>
    requires shared <= |p.key|
  {
    Varint(shared) + Varint(|p.key| - shared) + Varint(|p.value|) + p.key[shared..] + p.value
  }

  /** What the reader has to know: the pairs, how much each key shares with the one before it,
      and which pairs are restart points. */
  datatype Contents = Contents(pairs: seq<Pair>, shared: seq<nat>, starts: seq<nat>)

  ghost predicate Shares(c: Contents) {
    && |c.shared| == |c.pairs|
    && forall i {:trigger SharesAt(c, i)} :: 0 <= i < |c.pairs| ==> SharesAt(c, i)
  }

  ghost predicate SharesAt(c: Contents, i: nat)
    requires |c.shared| == |c.pairs| && i < |c.pairs|
  {
    && c.shared[i] <= |c.pairs[i].key|
    && if i == 0 then c.shared[i] == 0
       else c.shared[i] <= |c.pairs[i - 1].key| && c.pairs[i - 1].key[..c.shared[i]] == c.pairs[i].key[..c.shared[i]]
  }

  ghost predicate Restarts(c: Contents)
    requires |c.shared| == |c.pairs|
  {
    && |c.starts| > 0 && c.starts[0] == 0
    && (forall j, k {:trigger Below(c.starts[j], c.starts[k])} :: 0 <= j < k < |c.starts| ==>
        Below(c.starts[j], c.starts[k]))
    && (forall j :: 0 < j < |c.starts| ==> c.starts[j] < |c.pairs|)
    && (forall j :: 0 <= j < |c.starts| && c.starts[j] < |c.pairs| ==> c.shared[c.starts[j]] == 0)
  }

  ghost predicate Below(a: nat, b: nat) {
    a < b
  }

  ghost predicate WellFormed(c: Contents) {
    Shares(c) && Restarts(c)
  }

  /** The first n entries. */
  ghost function Body(c: Contents, n: nat): seq<byte>
    requires Shares(c) && n <= |c.pairs|
  {
    if n == 0 then [] else
      assert SharesAt(c, n - 1);
      Body(c, n - 1) + EntryBytes(c.pairs[n - 1], c.shared[n - 1])
  }

  ghost function EntryOffset(c: Contents, n: nat): nat
    requires Shares(c) && n <= |c.pairs|
  {
    |Body(c, n)|
  }

  ghost function RestartBytes(c: Contents, n: nat): (r: seq<byte>)
    requires WellFormed(c) && n <= |c.starts|
    ensures |r| == 4 * n
  {
    if n == 0 then [] else RestartBytes(c, n - 1) + Fixed32(EntryOffset(c, c.starts[n - 1]))
  }

  /** The bytes of a finished block. */
  ghost function BlockBytes(c: Contents): seq<byte>
    requires WellFormed(c)
  {
    Body(c, |c.pairs|) + RestartBytes(c, |c.starts|) + Fixed32(|c.starts|)
  }

  // ---------------------------------------------------------------- finding things in a block

  lemma {:induction false} BodyPrefix(c: Contents, m: nat, n: nat)
    requires Shares(c) && m <= n <= |c.pairs|
    ensures Body(c, m) <= Body(c, n)
    ensures m < n ==> EntryOffset(c, m) + 3 <= EntryOffset(c, n)
  {
    if m < n {
      assert SharesAt(c, n - 1);
      BodyPrefix(c, m, n - 1);
    }
  }

  /** Entry i starts at its offset. */
  lemma EntryAt(c: Contents, i: nat)
    requires Shares(c) && i < |c.pairs|
    ensures SharesAt(c, i)
    ensures EntryOffset(c, i) + |EntryBytes(c.pairs[i], c.shared[i])| == EntryOffset(c, i + 1) <= |Body(c, |c.pairs|)|
    ensures EntryBytes(c.pairs[i], c.shared[i]) <= Body(c, |c.pairs|)[EntryOffset(c, i)..]
  {
    assert SharesAt(c, i);
    BodyPrefix(c, i + 1, |c.pairs|);
    var all, next, here := Body(c, |c.pairs|), Body(c, i + 1), Body(c, i);
    assert all[..|next|] == next;
    assert next[|here|..] == EntryBytes(c.pairs[i], c.shared[i]);
    assert all[|here|..][..|next| - |here|] == next[|here|..];
  }

  lemma {:induction false} RestartAt(c: Contents, n: nat, j: nat)
    requires WellFormed(c) && j < n <= |c.starts|
    ensures Fixed32(EntryOffset(c, c.starts[j])) <= RestartBytes(c, n)[4 * j..]
  {
    var before, last := RestartBytes(c, n - 1), Fixed32(EntryOffset(c, c.starts[n - 1]));
    if j == n - 1 {
      assert (before + last)[4 * j..] == last;
    } else {
      RestartAt(c, n - 1, j);
      assert (before + last)[4 * j..] == before[4 * j..] + last;
    }
  }

  // ---------------------------------------------------------------- decoding an entry

  datatype Entry = NoEntry | Entry(shared: nat, nonShared: nat, valueLength: nat, start: nat)

  /** Decode the lengths of the entry at the start of s; `start` is where its key bytes begin. */
  function DecodeEntry(s: seq<byte>): Entry {
    if |s| < 3 then NoEntry
    else
      var e := if s[0] < 128 && s[1] < 128 && s[2] < 128 then Entry(s[0], s[1], s[2], 3) else DecodeSlow(s);
      if e.NoEntry? || |s| - e.start < e.nonShared + e.valueLength then NoEntry else e
  }

  function DecodeSlow(s: seq<byte>): (e: Entry)
    ensures e.Entry? ==> e.start <= |s|
  {
    var a := GetVarint32(s);
    if a.Bad? then NoEntry else
      var s1 := s[a.length..];
      var b := GetVarint32(s1);
      if b.Bad? then NoEntry else
        var s2 := s1[b.length..];
        var c := GetVarint32(s2);
        if c.Bad? then NoEntry else Entry(a.value, b.value, c.value, a.length + b.length + c.length)
  }

  function Lengths(x: nat, y: nat, z: nat, tail: seq<byte>): seq<byte> {
    Varint(x) + (Varint(y) + (Varint(z) + tail))
  }

  lemma Skipped(a: seq<byte>, t: seq<byte>)
    ensures (a + t)[|a|..] == t
  {
  }

  lemma SlowFrom(a: seq<byte>, b: seq<byte>, c: seq<byte>, tail: seq<byte>, x: nat, y: nat, z: nat)
    requires GetVarint32(a + (b + (c + tail))) == Good(x, |a|)
    requires GetVarint32(b + (c + tail)) == Good(y, |b|)
    requires GetVarint32(c + tail) == Good(z, |c|)
    ensures DecodeSlow(a + (b + (c + tail))) == Entry(x, y, z, |a| + |b| + |c|)
  {
    Skipped(a, b + (c + tail));
    Skipped(b, c + tail);
  }

  lemma SlowDecodes(x: nat, y: nat, z: nat, tail: seq<byte>)
    requires x < UINT32 && y < UINT32 && z < UINT32
    ensures DecodeSlow(Lengths(x, y, z, tail)) == Entry(x, y, z, |Varint(x)| + |Varint(y)| + |Varint(z)|)
  {
    Varint32RoundTrip(x, Varint(y) + (Varint(z) + tail));
    Varint32RoundTrip(y, Varint(z) + tail);
    Varint32RoundTrip(z, tail);
    SlowFrom(Varint(x), Varint(y), Varint(z), tail, x, y, z);
  }

  /** Three small first bytes are the three lengths. */
  lemma FastDecodes(x: nat, y: nat, z: nat, tail: seq<byte>)
    requires x < UINT32 && y < UINT32 && z < UINT32
    ensures var s := Lengths(x, y, z, tail);
            |s| >= 3 && (s[0] < 128 && s[1] < 128 && s[2] < 128 ==>
                         x == s[0] && y == s[1] && z == s[2] && |Varint(x)| + |Varint(y)| + |Varint(z)| == 3)
  {
    var s := Lengths(x, y, z, tail);
    Varint32RoundTrip(x, Varint(y) + (Varint(z) + tail));
    if s[0] < 128 {
      assert s[1..] == Varint(y) + (Varint(z) + tail);
      Varint32RoundTrip(y, Varint(z) + tail);
      if s[1] < 128 {
        assert s[2..] == s[1..][1..] == Varint(z) + tail;
        Varint32RoundTrip(z, tail);
      }
    }
  }

  /** Decoding gives back the lengths, by the fast path and by the slow one. */
  lemma DecodeEncoded(x: nat, y: nat, z: nat, tail: seq<byte>)
    requires x < UINT32 && y < UINT32 && z < UINT32 && |tail| >= y + z
    ensures DecodeEntry(Lengths(x, y, z, tail)) == Entry(x, y, z, |Varint(x)| + |Varint(y)| + |Varint(z)|)
  {
    SlowDecodes(x, y, z, tail);
    FastDecodes(x, y, z, tail);
  }

  /** Where the key bytes of an entry begin. */
  function HeaderSize(p: Pair, shared: nat): nat
    requires shared <= |p.key|
  {
    |Varint(shared)| + |Varint(|p.key| - shared)| + |Varint(|p.value|)|
  }

  /** Decoding an entry of a block gives back its lengths. */
  lemma DecodeEntryBytes(p: Pair, shared: nat, rest: seq<byte>)
    requires shared <= |p.key| < UINT32 && |p.value| < UINT32
    ensures DecodeEntry(EntryBytes(p, shared) + rest)
              == Entry(shared, |p.key| - shared, |p.value|, HeaderSize(p, shared))
  {
    var tail := EntryAsLengths(p, shared, rest);
    DecodeLengths(EntryBytes(p, shared) + rest, shared, |p.key| - shared, |p.value|, tail);
  }

  lemma DecodeLengths(s: seq<byte>, x: nat, y: nat, z: nat, tail: seq<byte>)
    requires x < UINT32 && y < UINT32 && z < UINT32 && |tail| >= y + z && s == Lengths(x, y, z, tail)
    ensures DecodeEntry(s) == Entry(x, y, z, |Varint(x)| + |Varint(y)| + |Varint(z)|)
  {
    DecodeEncoded(x, y, z, tail);
  }

  lemma EntryAsLengths(p: Pair, shared: nat, rest: seq<byte>) returns (tail: seq<byte>)
    requires shared <= |p.key|
    ensures |tail| >= |p.key| - shared + |p.value|
    ensures EntryBytes(p, shared) + rest == Lengths(shared, |p.key| - shared, |p.value|, tail)
  {
    tail := p.key[shared..] + (p.value + rest);
    EntryRegrouped(Varint(shared), Varint(|p.key| - shared), Varint(|p.value|), p.key[shared..], p.value, rest);
  }

  lemma EntryRegrouped(x: seq<byte>, y: seq<byte>, z: seq<byte>, k: seq<byte>, v: seq<byte>, rest: seq<byte>)
    ensures x + y + z + k + v + rest == x + (y + (z + (k + (v + rest))))
  {
  }

  /** The key bytes and the value follow the lengths. */
  lemma EntrySlices(p: Pair, shared: nat, rest: seq<byte>)
    requires shared <= |p.key|
    ensures var s := EntryBytes(p, shared) + rest; var h := HeaderSize(p, shared); var n := |p.key| - shared;
            && h + n + |p.value| == |EntryBytes(p, shared)|
            && s[h..h + n] == p.key[shared..] && s[h + n..h + n + |p.value|] == p.value
  {
    Slices(Varint(shared) + Varint(|p.key| - shared) + Varint(|p.value|), p.key[shared..], p.value, rest);
  }

  lemma Slices(h: seq<byte>, k: seq<byte>, v: seq<byte>, rest: seq<byte>)
    ensures var s := h + k + v + rest;
            s[|h|..|h| + |k|] == k && s[|h| + |k|..|h| + |k| + |v|] == v
  {
  }
}
