/** What the bytes of a table block are, at their places: the format that the comments of
    server/lib/leveldb/table/block_builder.cc describe. */
module BlockLayout {
  import opened Coding
  import opened BlockFormat

  /** Three lengths, the rest of the key, the value. */
  ghost predicate EntryParts(e: seq<byte>, p: Pair, shared: nat, x: seq<byte>, y: seq<byte>, z: seq<byte>) {
    && shared <= |p.key| && IsVarint(x, shared) && IsVarint(y, |p.key| - shared) && IsVarint(z, |p.value|)
    && e == x + y + z + p.key[shared..] + p.value
  }

  ghost predicate IsEntry(e: seq<byte>, p: Pair, shared: nat) {
    exists x, y, z :: EntryParts(e, p, shared, x, y, z)
  }

  /** The number in four bytes, the least significant first. */
  ghost predicate NumberAt(block: seq<byte>, at: nat, v: nat) {
    && at + 4 <= |block|
    && block[at] as int + 256 * block[at + 1] as int + 65536 * block[at + 2] as int + 16777216 * block[at + 3] as int
       == v
  }

  ghost predicate EntryFrom(block: seq<byte>, c: Contents, offsets: seq<nat>, i: nat) {
    && i + 1 < |offsets| && i < |c.pairs| == |c.shared| && offsets[i] < offsets[i + 1] <= |block|
    && IsEntry(block[offsets[i]..offsets[i + 1]], c.pairs[i], c.shared[i])
  }

  ghost predicate RestartFrom(block: seq<byte>, c: Contents, offsets: seq<nat>, j: nat) {
    && j < |c.starts| && c.starts[j] < |offsets| == |c.pairs| + 1
    && NumberAt(block, offsets[|c.pairs|] + 4 * j, offsets[c.starts[j]])
  }

  /** The entries from the offsets on, then the offsets of the restart points, then their number. */
  ghost predicate LaidAt(block: seq<byte>, c: Contents, offsets: seq<nat>) {
    && |offsets| == |c.pairs| + 1 && offsets[0] == 0
    && (forall i {:trigger EntryFrom(block, c, offsets, i)} :: 0 <= i < |c.pairs| ==> EntryFrom(block, c, offsets, i))
    && (forall j {:trigger RestartFrom(block, c, offsets, j)} :: 0 <= j < |c.starts| ==>
          RestartFrom(block, c, offsets, j))
    && |block| == offsets[|c.pairs|] + 4 * |c.starts| + 4 && NumberAt(block, |block| - 4, |c.starts|)
  }

  ghost predicate LaidOut(block: seq<byte>, c: Contents) {
    exists offsets :: LaidAt(block, c, offsets)
  }

  lemma EntryIs(p: Pair, shared: nat)
    requires shared <= |p.key|
    ensures IsEntry(EntryBytes(p, shared), p, shared)
  {
    VarintBytes(shared);
    VarintBytes(|p.key| - shared);
    VarintBytes(|p.value|);
    assert EntryParts(EntryBytes(p, shared), p, shared, Varint(shared), Varint(|p.key| - shared), Varint(|p.value|));
  }

  lemma NumberIs(block: seq<byte>, at: nat, v: nat)
    requires at <= |block| && Fixed32(v) <= block[at..] && v < UINT32
    ensures NumberAt(block, at, v)
  {
    Fixed32Bytes(v);
    var s := block[at..];
    assert s[0] == Fixed32(v)[0] && s[1] == Fixed32(v)[1] && s[2] == Fixed32(v)[2] && s[3] == Fixed32(v)[3];
  }

  /** The three parts of a block. */
  lemma Parts(body: seq<byte>, restarts: seq<byte>, count: seq<byte>, at: nat)
    requires at <= |restarts|
    ensures var block := body + restarts + count;
            && block[|body| + at..] == restarts[at..] + count && block[|body| + |restarts|..] == count
            && body <= block
  {
  }

  ghost function Offsets(c: Contents): (r: seq<nat>)
    requires Shares(c)
    ensures |r| == |c.pairs| + 1
    ensures forall i {:trigger r[i]} {:trigger EntryOffset(c, i)} :: 0 <= i < |r| ==> r[i] == EntryOffset(c, i)
  {
    seq(|c.pairs| + 1, i requires 0 <= i <= |c.pairs| => EntryOffset(c, i))
  }

  lemma EntryLaid(c: Contents, i: nat)
    requires WellFormed(c) && i < |c.pairs|
    ensures EntryFrom(BlockBytes(c), c, Offsets(c), i)
  {
    EntryAt(c, i);
    EntryIs(c.pairs[i], c.shared[i]);
    var body, e := Body(c, |c.pairs|), EntryBytes(c.pairs[i], c.shared[i]);
    Parts(body, RestartBytes(c, |c.starts|), Fixed32(|c.starts|), 0);
    EntryInBlock(body, BlockBytes(c), c, Offsets(c), i, e);
  }

  lemma EntryInBlock(body: seq<byte>, block: seq<byte>, c: Contents, offsets: seq<nat>, i: nat, e: seq<byte>)
    requires body <= block && i < |c.pairs| == |c.shared| && |offsets| == |c.pairs| + 1
    requires offsets[i] + |e| == offsets[i + 1] <= |body| && e <= body[offsets[i]..]
    requires IsEntry(e, c.pairs[i], c.shared[i])
    ensures EntryFrom(block, c, offsets, i)
  {
    SliceInPrefix(body, block, offsets[i], e);
    var x, y, z :| EntryParts(e, c.pairs[i], c.shared[i], x, y, z);
    assert |x| > 0;
  }

  lemma SliceInPrefix(body: seq<byte>, block: seq<byte>, o: nat, e: seq<byte>)
    requires body <= block && o <= |body| && e <= body[o..]
    ensures o + |e| <= |block| && block[o..o + |e|] == e
  {
    forall k | 0 <= k < |e| ensures block[o..o + |e|][k] == e[k] {
      assert body[o..][k] == e[k];
    }
  }

  lemma RestartLaid(c: Contents, j: nat)
    requires WellFormed(c) && j < |c.starts| && |BlockBytes(c)| < UINT32
    ensures RestartFrom(BlockBytes(c), c, Offsets(c), j)
  {
    var body, restarts, count := Body(c, |c.pairs|), RestartBytes(c, |c.starts|), Fixed32(|c.starts|);
    RestartAt(c, |c.starts|, j);
    BodyPrefix(c, c.starts[j], |c.pairs|);
    Parts(body, restarts, count, 4 * j);
    NumberIs(BlockBytes(c), |body| + 4 * j, EntryOffset(c, c.starts[j]));
  }

  /** A finished block is laid out so, as long as it is below 4 GB. */
  lemma BlockLaidOut(c: Contents)
    requires WellFormed(c) && |BlockBytes(c)| < UINT32
    ensures LaidOut(BlockBytes(c), c)
  {
    var block, offsets := BlockBytes(c), Offsets(c);
    forall i | 0 <= i < |c.pairs| ensures EntryFrom(block, c, offsets, i) { EntryLaid(c, i); }
    forall j | 0 <= j < |c.starts| ensures RestartFrom(block, c, offsets, j) { RestartLaid(c, j); }
    var body, restarts, count := Body(c, |c.pairs|), RestartBytes(c, |c.starts|), Fixed32(|c.starts|);
    Parts(body, restarts, count, 0);
    assert block[|block| - 4..] == count;
    NumberIs(block, |block| - 4, |c.starts|);
    assert LaidAt(block, c, offsets);
  }
}
