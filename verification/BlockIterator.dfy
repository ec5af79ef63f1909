/** Iterating over a table block, server/lib/leveldb/table/block.cc: a cursor on the pairs
    that went into the block. */
module BlockIterator {
  import opened Coding
  import opened BlockFormat
  import BlockLayout
  import BlockBuilder

  /** A block with room for its offsets in 32 bits. */
  ghost predicate IsBlock(data: seq<byte>, c: Contents) {
    WellFormed(c) && data == BlockBytes(c) && |data| < UINT32
  }

  ghost function Limit(c: Contents): nat
    requires WellFormed(c)
  {
    EntryOffset(c, |c.pairs|)
  }

  lemma BlockParts(data: seq<byte>, c: Contents)
    requires IsBlock(data, c)
    ensures |data| == Limit(c) + 4 * |c.starts| + 4
    ensures data[..Limit(c)] == Body(c, |c.pairs|)
    ensures data[Limit(c)..|data| - 4] == RestartBytes(c, |c.starts|)
    ensures data[|data| - 4..] == Fixed32(|c.starts|)
  {
  }

  /** The numbers at the end of the block. */
  lemma BlockTrailer(data: seq<byte>, c: Contents)
    requires IsBlock(data, c)
    ensures |data| >= 4 && DecodeFixed32(data[|data| - 4..]) == |c.starts|
    ensures |c.starts| <= (|data| - 4) / 4 && |data| - (1 + |c.starts|) * 4 == Limit(c)
  {
    BlockParts(data, c);
    Fixed32RoundTrip(|c.starts|, []);
    assert Fixed32(|c.starts|) + [] == Fixed32(|c.starts|);
  }

  lemma RestartPoint(data: seq<byte>, c: Contents, j: nat)
    requires IsBlock(data, c) && j < |c.starts|
    ensures c.starts[j] <= |c.pairs| && Limit(c) + 4 * j + 4 <= |data|
    ensures DecodeFixed32(data[Limit(c) + 4 * j..]) == EntryOffset(c, c.starts[j])
  {
    BlockParts(data, c);
    RestartAt(c, |c.starts|, j);
    var v := EntryOffset(c, c.starts[j]);
    BodyPrefix(c, c.starts[j], |c.pairs|);
    var s, t := data[Limit(c) + 4 * j..], RestartBytes(c, |c.starts|)[4 * j..];
    assert s[..|t|] == t;
    assert s == Fixed32(v) + s[4..];
    Fixed32RoundTrip(v, s[4..]);
  }

  lemma EntryInData(data: seq<byte>, c: Contents, i: nat)
    requires IsBlock(data, c) && i < |c.pairs|
    ensures SharesAt(c, i) && EntryOffset(c, i) < EntryOffset(c, i + 1) <= Limit(c) <= |data|
    ensures EntryOffset(c, i + 1) == EntryOffset(c, i) + |EntryBytes(c.pairs[i], c.shared[i])|
    ensures EntryBytes(c.pairs[i], c.shared[i]) <= data[EntryOffset(c, i)..Limit(c)]
  {
    EntryAt(c, i);
    BodyPrefix(c, i, i + 1);
    BlockParts(data, c);
    assert data[EntryOffset(c, i)..Limit(c)] == data[..Limit(c)][EntryOffset(c, i)..];
  }

  lemma SlicesOfSlice(data: seq<byte>, o: nat, limit: nat, a: nat, b: nat)
    requires o <= limit <= |data| && a <= b <= limit - o
    ensures data[o + a..o + b] == data[o..limit][a..b]
  {
    forall k | 0 <= k < b - a ensures data[o + a..o + b][k] == data[o..limit][a..b][k] {
    }
  }

  /** At offset o the entry of a pair that shares so much decodes, and ends at `next`. */
  ghost predicate Reads(data: seq<byte>, o: nat, limit: nat, p: Pair, shared: nat, next: nat) {
    && o < next <= limit <= |data| && shared <= |p.key|
    && var n := |p.key| - shared; var h := HeaderSize(p, shared);
       && o + h + n + |p.value| == next
       && DecodeEntry(data[o..limit]) == Entry(shared, n, |p.value|, h)
       && data[o + h..o + h + n] == p.key[shared..] && data[o + h + n..next] == p.value
  }

  lemma LengthsAt(data: seq<byte>, o: nat, limit: nat, p: Pair, shared: nat)
    requires o <= limit <= |data| < UINT32 && shared <= |p.key| < UINT32 && EntryBytes(p, shared) <= data[o..limit]
    requires |p.value| < UINT32
    ensures DecodeEntry(data[o..limit]) == Entry(shared, |p.key| - shared, |p.value|, HeaderSize(p, shared))
  {
    var s, e := data[o..limit], EntryBytes(p, shared);
    assert s == e + s[|e|..];
    DecodeEntryBytes(p, shared, s[|e|..]);
  }

  lemma PayloadAt(data: seq<byte>, o: nat, limit: nat, p: Pair, shared: nat)
    requires o <= limit <= |data| && shared <= |p.key| && EntryBytes(p, shared) <= data[o..limit]
    ensures var n := |p.key| - shared; var h := HeaderSize(p, shared); var next := o + h + n + |p.value|;
            && next == o + |EntryBytes(p, shared)| <= limit
            && data[o + h..o + h + n] == p.key[shared..] && data[o + h + n..next] == p.value
  {
    var s, e := data[o..limit], EntryBytes(p, shared);
    assert s == e + s[|e|..];
    EntrySlices(p, shared, s[|e|..]);
    var h, n := HeaderSize(p, shared), |p.key| - shared;
    SlicesOfSlice(data, o, limit, h, h + n);
    SlicesOfSlice(data, o, limit, h + n, h + n + |p.value|);
  }

  lemma DecodedAt(data: seq<byte>, o: nat, limit: nat, p: Pair, shared: nat)
    requires o <= limit <= |data| < UINT32 && shared <= |p.key| < UINT32 && EntryBytes(p, shared) <= data[o..limit]
    ensures Reads(data, o, limit, p, shared, o + |EntryBytes(p, shared)|)
  {
    PayloadAt(data, o, limit, p, shared);
    LengthsAt(data, o, limit, p, shared);
  }

  /** A key is no longer than the entries up to its own: every byte of it is stored somewhere. */
  lemma {:induction false} KeyLength(c: Contents, i: nat)
    requires Shares(c) && i < |c.pairs|
    ensures |c.pairs[i].key| <= EntryOffset(c, i + 1)
  {
    StepLength(c, i);
    if i > 0 { KeyLength(c, i - 1); }
  }

  lemma StepLength(c: Contents, i: nat)
    requires Shares(c) && i < |c.pairs|
    ensures EntryOffset(c, i) + |c.pairs[i].key| - c.shared[i] <= EntryOffset(c, i + 1)
    ensures c.shared[i] <= if i == 0 then 0 else |c.pairs[i - 1].key|
  {
    assert SharesAt(c, i);
  }

  /** Entry i decodes at its offset. */
  lemma EntryDecoded(data: seq<byte>, c: Contents, i: nat)
    requires IsBlock(data, c) && i < |c.pairs|
    ensures SharesAt(c, i) && Reads(data, EntryOffset(c, i), Limit(c), c.pairs[i], c.shared[i], EntryOffset(c, i + 1))
  {
    EntryInData(data, c, i);
    KeyLength(c, i);
    DecodedAt(data, EntryOffset(c, i), Limit(c), c.pairs[i], c.shared[i]);
  }

  // ---------------------------------------------------------------- what a reader relies on

  ghost predicate EntryReads(data: seq<byte>, limit: nat, c: Contents, offsets: seq<nat>, i: nat)
    requires |c.shared| == |c.pairs| && |offsets| == |c.pairs| + 1 && i < |c.pairs|
  {
    Reads(data, offsets[i], limit, c.pairs[i], c.shared[i], offsets[i + 1])
  }

  ghost predicate PointReads(data: seq<byte>, limit: nat, c: Contents, offsets: seq<nat>, j: nat)
    requires j < |c.starts| && |offsets| == |c.pairs| + 1
  {
    && c.starts[j] <= |c.pairs| && limit + 4 * j + 4 <= |data|
    && DecodeFixed32(data[limit + 4 * j..]) == offsets[c.starts[j]]
  }

  /** Every entry decodes at its offset, and every restart point is the offset of an entry. */
  ghost predicate Parsable(data: seq<byte>, limit: nat, c: Contents, offsets: seq<nat>) {
    && WellFormed(c) && |offsets| == |c.pairs| + 1 && offsets[|c.pairs|] == limit <= |data|
    && (forall i {:trigger EntryReads(data, limit, c, offsets, i)} :: 0 <= i < |c.pairs| ==>
        EntryReads(data, limit, c, offsets, i))
    && (forall j {:trigger PointReads(data, limit, c, offsets, j)} :: 0 <= j < |c.starts| ==>
        PointReads(data, limit, c, offsets, j))
  }

  /** A built block is parsable. */
  lemma BlockParses(data: seq<byte>, c: Contents)
    requires IsBlock(data, c)
    ensures Parsable(data, Limit(c), c, BlockLayout.Offsets(c))
  {
    var offsets := BlockLayout.Offsets(c);
    BlockParts(data, c);
    assert offsets[|c.pairs|] == EntryOffset(c, |c.pairs|);
    forall i | 0 <= i < |c.pairs| ensures EntryReads(data, Limit(c), c, offsets, i) {
      EntryDecoded(data, c, i);
      assert offsets[i] == EntryOffset(c, i) && offsets[i + 1] == EntryOffset(c, i + 1);
    }
    forall j | 0 <= j < |c.starts| ensures PointReads(data, Limit(c), c, offsets, j) {
      RestartPoint(data, c, j);
      assert offsets[c.starts[j]] == EntryOffset(c, c.starts[j]);
    }
  }

  /** Offsets are in the order of the entries. */
  lemma {:induction false} OffsetsIncrease(data: seq<byte>, limit: nat, c: Contents, offsets: seq<nat>, i: nat, j: nat)
    requires Parsable(data, limit, c, offsets) && i < j <= |c.pairs|
    ensures offsets[i] < offsets[j]
  {
    assert EntryReads(data, limit, c, offsets, j - 1);
    if i < j - 1 { OffsetsIncrease(data, limit, c, offsets, i, j - 1); }
  }

  lemma OffsetsOrder(data: seq<byte>, limit: nat, c: Contents, offsets: seq<nat>, i: nat, j: nat)
    requires Parsable(data, limit, c, offsets) && i <= |c.pairs| && j <= |c.pairs|
    ensures i < j <==> offsets[i] < offsets[j]
  {
    if i < j {
      OffsetsIncrease(data, limit, c, offsets, i, j);
    } else if j < i {
      OffsetsIncrease(data, limit, c, offsets, j, i);
    }
  }

  // ---------------------------------------------------------------- the iterator

  /** The key starts with what entry j shares with the key before it. */
  ghost predicate SharesWith(c: Contents, j: nat, key: seq<byte>)
    requires |c.shared| == |c.pairs| && j < |c.pairs|
  {
    c.shared[j] <= |key| && c.shared[j] <= |c.pairs[j].key| && key[..c.shared[j]] == c.pairs[j].key[..c.shared[j]]
  }

  /** Decode the entry at an offset. */
  method Decode(data: seq<byte>, ghost c: Contents, ghost offsets: seq<nat>, offset: nat, limit: nat, ghost j: nat)
    returns (e: Entry)
    requires Parsable(data, limit, c, offsets) && j < |c.pairs| && offset == offsets[j]
    ensures e.Entry? && e.shared == c.shared[j] <= |c.pairs[j].key|
    ensures e.nonShared == |c.pairs[j].key| - c.shared[j] && e.valueLength == |c.pairs[j].value|
    ensures var k := offset + e.start;
            && k + e.nonShared + e.valueLength == offsets[j + 1] <= |data|
            && data[k..k + e.nonShared] == c.pairs[j].key[c.shared[j]..]
            && data[k + e.nonShared..k + e.nonShared + e.valueLength] == c.pairs[j].value
  {
    assert EntryReads(data, limit, c, offsets, j);
    e := DecodeEntry(data[offset..limit]);
  }

  /** Parse the entry at the current offset, given the key before it. */
  method ParseEntry(data: seq<byte>, ghost c: Contents, ghost offsets: seq<nat>, current: nat, limit: nat,
                    key: seq<byte>, ghost j: nat)
    returns (key': seq<byte>, valueStart: nat, valueSize: nat)
    requires Parsable(data, limit, c, offsets) && j < |c.pairs| && current == offsets[j] && SharesWith(c, j, key)
    ensures key' == c.pairs[j].key && valueStart + valueSize == offsets[j + 1] <= |data|
    ensures data[valueStart..valueStart + valueSize] == c.pairs[j].value
  {
    JoinKey(c.pairs[j].key, key, c.shared[j]);
    var e := Decode(data, c, offsets, current, limit, j);
    key' := key[..e.shared] + data[current + e.start..current + e.start + e.nonShared];
    valueStart, valueSize := current + e.start + e.nonShared, e.valueLength;
  }

  class Iter {
    const data: seq<byte>
    const restarts: nat
    const numRestarts: nat
    ghost const c: Contents
    ghost const offsets: seq<nat>
    var current: nat
    var restartIndex: nat
    var key: seq<byte>
    var valueStart: nat
    var valueSize: nat
    ghost var at: nat

    ghost predicate Sound() {
      Parsable(data, restarts, c, offsets) && numRestarts == |c.starts|
    }

    function NextEntryOffset(): nat
      reads this
    {
      valueStart + valueSize
    }

    /** Parsing continues with entry j, and the key holds what entry j shares. */
    ghost predicate BeforeEntry(j: nat)
      requires Sound()
      reads this
    {
      && j <= |c.pairs| && NextEntryOffset() == offsets[j]
      && (j < |c.pairs| ==> SharesWith(c, j, key))
    }

    /** The restart block of the entry; at its first entry it may still be the block before. */
    ghost predicate RestartBlock(i: nat)
      requires Sound()
      reads this
    {
      && restartIndex < |c.starts| && c.starts[restartIndex] <= i
      && (restartIndex + 1 < |c.starts| ==> i <= c.starts[restartIndex + 1])
    }

    ghost predicate AtEntry(i: nat)
      requires Sound() && i < |c.pairs|
      reads this
    {
      && current == offsets[i] && key == c.pairs[i].key
      && NextEntryOffset() == offsets[i + 1] <= |data|
      && data[valueStart..valueStart + valueSize] == c.pairs[i].value
      && RestartBlock(i)
    }

    ghost predicate Valid()
      reads this
    {
      && Sound() && at <= |c.pairs|
      && if at < |c.pairs| then AtEntry(at) else current == restarts && restartIndex == numRestarts
    }

    constructor (data: seq<byte>, ghost c: Contents)
      requires IsBlock(data, c)
      ensures Valid() && at == |c.pairs| && this.data == data && this.c == c
    {
      BlockTrailer(data, c);
      BlockParses(data, c);
      var n := DecodeFixed32(data[|data| - 4..]);
      this.data, this.c, offsets, numRestarts := data, c, BlockLayout.Offsets(c), n;
      restarts := |data| - (1 + n) * 4;
      current, restartIndex := |data| - (1 + n) * 4, n;
      key, valueStart, valueSize, at := [], 0, 0, |c.pairs|;
    }

    function GetRestartPoint(index: nat): (offset: nat)
      requires Sound() && index < numRestarts
      ensures c.starts[index] <= |c.pairs| && offset == offsets[c.starts[index]]
    {
      assert PointReads(data, restarts, c, offsets, index);
      DecodeFixed32(data[restarts + 4 * index..])
    }

    method SeekToRestartPoint(index: nat)
      requires Sound() && index < numRestarts
      modifies this
      ensures restartIndex == index && c.starts[index] <= |c.pairs| && BeforeEntry(c.starts[index]) && at == old(at)
    {
      key := [];
      restartIndex := index;
      valueStart, valueSize := GetRestartPoint(index), 0;
    }

    /** Move the restart index up to the last restart point before the current entry. */
    method AdvanceRestart(ghost j: nat)
      requires Sound() && j < |c.pairs| && current == offsets[j] && restartIndex < numRestarts
      requires c.starts[restartIndex] <= j
      modifies `restartIndex
      ensures RestartBlock(j)
    {
      while restartIndex + 1 < numRestarts && GetRestartPoint(restartIndex + 1) < current
        invariant restartIndex < numRestarts && c.starts[restartIndex] <= j
        decreases numRestarts - restartIndex
      {
        OffsetsOrder(data, restarts, c, offsets, c.starts[restartIndex + 1], j);
        restartIndex := restartIndex + 1;
      }
      if restartIndex + 1 < numRestarts {
        OffsetsOrder(data, restarts, c, offsets, c.starts[restartIndex + 1], j);
      }
    }

    /** Parse entry j. */
    method ParseNextKey(ghost j: nat) returns (ok: bool)
      requires Sound() && BeforeEntry(j)
      requires j < |c.pairs| ==> restartIndex < numRestarts && c.starts[restartIndex] <= j
      modifies this
      ensures Valid() && at == j && (ok <==> j < |c.pairs|)
    {
      OffsetsOrder(data, restarts, c, offsets, j, |c.pairs|);
      current := NextEntryOffset();
      at := j;
      if current >= restarts {
        current, restartIndex := restarts, numRestarts;
        return false;
      }
      key, valueStart, valueSize := ParseEntry(data, c, offsets, current, restarts, key, j);
      AdvanceRestart(j);
      ok := true;
    }

    /** The pair the iterator is at. */
    function Current(): (p: Pair)
      requires Valid() && at < |c.pairs|
      reads this
      ensures p == c.pairs[at]
    {
      Pair(key, data[valueStart..valueStart + valueSize])
    }

    /** At an entry, parsing goes on with the next one. */
    lemma AfterCurrent()
      requires Valid() && at < |c.pairs|
      ensures BeforeEntry(at + 1) && c.starts[restartIndex] <= at + 1
    {
      if at + 1 < |c.pairs| { assert SharesAt(c, at + 1); }
    }

    method Next()
      requires Valid() && at < |c.pairs|
      modifies this
      ensures Valid() && at == old(at) + 1
    {
      AfterCurrent();
      var _ := ParseNextKey(at + 1);
    }

    method SeekToFirst()
      requires Valid()
      modifies this
      ensures Valid() && at == 0
    {
      SeekToRestartPoint(0);
      var _ := ParseNextKey(0);
    }

    /** Parse on from the last restart point until the entry that ends at `end`, or to the end. */
    method ParseUntil(end: nat, ghost j: nat, ghost target: nat)
      requires Sound() && BeforeEntry(j) && j <= target <= |c.pairs| && end == offsets[target]
      requires j < target || j == |c.pairs|
      requires j < |c.pairs| ==> restartIndex < numRestarts && c.starts[restartIndex] <= j
      modifies this
      ensures Valid() && at == if j < target then target - 1 else |c.pairs|
    {
      var ok := ParseNextKey(j);
      while ok && NextEntryOffset() < end
        invariant Valid() && j <= at && (ok <==> at < |c.pairs|) && (j < target ==> at < target)
        invariant j == target ==> !ok
        decreases if ok then |c.pairs| - at else 0
      {
        OffsetsOrder(data, restarts, c, offsets, at + 1, target);
        AfterCurrent();
        ok := ParseNextKey(at + 1);
      }
      if ok { OffsetsOrder(data, restarts, c, offsets, at + 1, target); }
    }

    method SeekToLast()
      requires Valid()
      modifies this
      ensures Valid() && at == if c.pairs == [] then 0 else |c.pairs| - 1
    {
      SeekToRestartPoint(numRestarts - 1);
      ParseUntil(restarts, c.starts[|c.starts| - 1], |c.pairs|);
    }

    method Prev()
      requires Valid() && at < |c.pairs|
      modifies this
      ensures Valid() && at == if old(at) == 0 then |c.pairs| else old(at) - 1
    {
      var original := current;
      ghost var i := at;
      while GetRestartPoint(restartIndex) >= original
        invariant restartIndex < numRestarts && c.starts[restartIndex] <= i && at == i && original == offsets[i]
        decreases restartIndex
      {
        OffsetsOrder(data, restarts, c, offsets, c.starts[restartIndex], i);
        if restartIndex == 0 {
          current, restartIndex, at := restarts, numRestarts, |c.pairs|;
          return;
        }
        assert Below(c.starts[restartIndex - 1], c.starts[restartIndex]);
        restartIndex := restartIndex - 1;
      }
      OffsetsOrder(data, restarts, c, offsets, c.starts[restartIndex], i);
      ghost var j := c.starts[restartIndex];
      SeekToRestartPoint(restartIndex);
      ParseUntil(original, j, i);
    }

    /** The last restart point whose key is before the target, or the first one. */
    method FindRestart(less: (seq<byte>, seq<byte>) -> bool, target: seq<byte>) returns (left: nat)
      requires Sound()
      ensures left < numRestarts
      ensures left > 0 ==> c.starts[left] < |c.pairs| && less(c.pairs[c.starts[left]].key, target)
      ensures left + 1 < numRestarts ==>
                c.starts[left + 1] < |c.pairs| && !less(c.pairs[c.starts[left + 1]].key, target)
    {
      left := 0;
      var right := numRestarts - 1;
      while left < right
        invariant 0 <= left <= right < numRestarts
        invariant left > 0 ==> c.starts[left] < |c.pairs| && less(c.pairs[c.starts[left]].key, target)
        invariant right + 1 < numRestarts ==>
                    c.starts[right + 1] < |c.pairs| && !less(c.pairs[c.starts[right + 1]].key, target)
        decreases right - left
      {
        var mid := (left + right + 1) / 2;
        var offset := GetRestartPoint(mid);
        var e := Decode(data, c, offsets, offset, restarts, c.starts[mid]);
        var midKey := data[offset + e.start..offset + e.start + e.nonShared];
        assert midKey == c.pairs[c.starts[mid]].key;
        if less(midKey, target) {
          left := mid;
        } else {
          right := mid - 1;
        }
      }
    }

    /** Go to the first pair whose key is not before the target. */
    method Seek(less: (seq<byte>, seq<byte>) -> bool, target: seq<byte>)
      requires Valid() && Increasing(c.pairs, less) && Transitive(less)
      modifies this
      ensures Valid() && forall i :: 0 <= i < at ==> less(c.pairs[i].key, target)
      ensures at < |c.pairs| ==> !less(c.pairs[at].key, target)
    {
      var left := FindRestart(less, target);
      ghost var start := c.starts[left];
      if left > 0 { EarlierLess(c.pairs, less, start, target); }
      SeekToRestartPoint(left);
      var ok := ParseNextKey(start);
      while ok && less(key, target)
        invariant Valid() && (ok <==> at < |c.pairs|)
        invariant forall i :: 0 <= i < at ==> less(c.pairs[i].key, target)
        decreases |c.pairs| - at
      {
        AfterCurrent();
        ok := ParseNextKey(at + 1);
      }
    }
  }

  ghost predicate Increasing(pairs: seq<Pair>, less: (seq<byte>, seq<byte>) -> bool) {
    forall i, j {:trigger less(pairs[i].key, pairs[j].key)} :: 0 <= i < j < |pairs| ==> less(pairs[i].key, pairs[j].key)
  }

  ghost predicate Transitive(less: (seq<byte>, seq<byte>) -> bool) {
    forall a, b, c {:trigger less(a, b), less(b, c)} :: less(a, b) && less(b, c) ==> less(a, c)
  }

  lemma EarlierLess(pairs: seq<Pair>, less: (seq<byte>, seq<byte>) -> bool, n: nat, target: seq<byte>)
    requires Increasing(pairs, less) && Transitive(less) && n < |pairs| && less(pairs[n].key, target)
    ensures forall i :: 0 <= i < n ==> less(pairs[i].key, target)
  {
    forall i | 0 <= i < n ensures less(pairs[i].key, target) {
      assert less(pairs[i].key, pairs[n].key);
    }
  }

  lemma JoinKey(full: seq<byte>, key: seq<byte>, shared: nat)
    requires shared <= |key| && shared <= |full| && key[..shared] == full[..shared]
    ensures key[..shared] + full[shared..] == full
  {
  }

  /** Building a block of any pairs at any restart interval and reading it forward gives the
      pairs back, and reading it backward gives them in reverse. */
  method RoundTrip(pairs: seq<Pair>, interval: nat) returns (block: seq<byte>, forth: seq<Pair>, back: seq<Pair>)
    requires interval >= 1
    ensures |block| < UINT32 ==> forth == pairs
    ensures |block| < UINT32 ==> |back| == |pairs| && forall k :: 0 <= k < |pairs| ==> back[k] == pairs[|pairs| - 1 - k]
  {
    ghost var c;
    block, c := BlockBuilder.Build(pairs, interval);
    forth, back := [], [];
    if |block| < UINT32 {
      var iter := new Iter(block, c);
      forth := ReadForward(iter);
      back := ReadBackward(iter);
    }
  }

  method ReadForward(iter: Iter) returns (r: seq<Pair>)
    requires iter.Valid()
    modifies iter
    ensures iter.Valid() && r == iter.c.pairs
  {
    r := [];
    iter.SeekToFirst();
    while iter.current < iter.restarts
      invariant iter.Valid() && r == iter.c.pairs[..iter.at]
      decreases |iter.c.pairs| - iter.at
    {
      AtEntryWhenBefore(iter);
      r := r + [iter.Current()];
      iter.Next();
    }
    AtEntryWhenBefore(iter);
  }

  method ReadBackward(iter: Iter) returns (r: seq<Pair>)
    requires iter.Valid()
    modifies iter
    ensures iter.Valid() && |r| == |iter.c.pairs|
    ensures forall k :: 0 <= k < |r| ==> r[k] == iter.c.pairs[|iter.c.pairs| - 1 - k]
  {
    r := [];
    iter.SeekToLast();
    ghost var n := |iter.c.pairs|;
    while iter.current < iter.restarts
      invariant iter.Valid() && |r| <= n && (if |r| < n then iter.at == n - 1 - |r| else iter.at == n)
      invariant forall k :: 0 <= k < |r| ==> r[k] == iter.c.pairs[n - 1 - k]
      decreases n - |r|
    {
      AtEntryWhenBefore(iter);
      r := r + [iter.Current()];
      iter.Prev();
    }
    AtEntryWhenBefore(iter);
  }

  /** The iterator is valid exactly when its offset lies before the restart array. */
  lemma AtEntryWhenBefore(iter: Iter)
    requires iter.Valid()
    ensures iter.current < iter.restarts <==> iter.at < |iter.c.pairs|
  {
    OffsetsOrder(iter.data, iter.restarts, iter.c, iter.offsets, iter.at, |iter.c.pairs|);
  }
}
