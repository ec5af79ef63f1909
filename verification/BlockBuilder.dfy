/** Building a table block, server/lib/leveldb/table/block_builder.cc. */
module BlockBuilder {
  import opened Arithmetic
  import opened Coding
  import opened BlockFormat
  import opened BlockLayout

  /** One more pair; a restart point if nothing is to be shared. */
  ghost function Extended(c: Contents, p: Pair, shared: nat, restart: bool): Contents {
    Contents(c.pairs + [p], c.shared + [shared], if restart then c.starts + [|c.pairs|] else c.starts)
  }

  lemma ExtendedShares(c: Contents, p: Pair, shared: nat, restart: bool)
    requires Shares(c) && shared <= |p.key|
    requires if c.pairs == [] then shared == 0
             else var last := c.pairs[|c.pairs| - 1].key; shared <= |last| && last[..shared] == p.key[..shared]
    ensures Shares(Extended(c, p, shared, restart))
  {
    var c' := Extended(c, p, shared, restart);
    forall i | 0 <= i < |c'.pairs| ensures SharesAt(c', i) {
      if i < |c.pairs| { assert SharesAt(c, i); }
    }
  }

  lemma {:induction false} BodyExtended(c: Contents, p: Pair, shared: nat, restart: bool, n: nat)
    requires Shares(c) && Shares(Extended(c, p, shared, restart)) && n <= |c.pairs|
    ensures Body(Extended(c, p, shared, restart), n) == Body(c, n)
  {
    if n > 0 {
      assert SharesAt(c, n - 1);
      BodyExtended(c, p, shared, restart, n - 1);
    }
  }

  /** The restart array of the builder holds the offsets of the restart points. */
  ghost predicate RestartOffsets(c: Contents, restarts: seq<nat>)
    requires WellFormed(c)
  {
    && |restarts| == |c.starts|
    && forall j {:trigger restarts[j]} :: 0 <= j < |restarts| ==>
         c.starts[j] <= |c.pairs| && restarts[j] == EntryOffset(c, c.starts[j])
  }

  /** All restart points but the last are followed by exactly `interval` pairs. */
  ghost predicate Spaced(c: Contents, interval: nat, counter: nat)
    requires WellFormed(c)
  {
    && 0 < interval && counter <= interval && c.starts[|c.starts| - 1] + counter == |c.pairs|
    && forall j {:trigger NextAfter(c, interval, j)} :: 0 <= j < |c.starts| - 1 ==> NextAfter(c, interval, j)
  }

  ghost predicate NextAfter(c: Contents, interval: nat, j: nat)
    requires j + 1 < |c.starts|
  {
    c.starts[j] + interval == c.starts[j + 1]
  }

  lemma SpacedExtended(c: Contents, interval: nat, counter: nat, p: Pair, shared: nat, restart: bool)
    requires WellFormed(c) && WellFormed(Extended(c, p, shared, restart)) && Spaced(c, interval, counter)
    requires restart <==> counter >= interval
    ensures Spaced(Extended(c, p, shared, restart), interval, if restart then 1 else counter + 1)
  {
    var c' := Extended(c, p, shared, restart);
    forall j | 0 <= j < |c'.starts| - 1 ensures NextAfter(c', interval, j) {
      if j < |c.starts| - 1 { assert NextAfter(c, interval, j); }
    }
  }

  ghost function LastKey(c: Contents): seq<byte> {
    if c.pairs == [] then [] else c.pairs[|c.pairs| - 1].key
  }

  lemma RestartOffsetsExtended(c: Contents, restarts: seq<nat>, p: Pair, shared: nat, restart: bool)
    requires WellFormed(c) && WellFormed(Extended(c, p, shared, restart)) && RestartOffsets(c, restarts)
    ensures RestartOffsets(Extended(c, p, shared, restart),
                           if restart then restarts + [EntryOffset(c, |c.pairs|)] else restarts)
  {
    var c' := Extended(c, p, shared, restart);
    forall n | 0 <= n <= |c.pairs| ensures EntryOffset(c', n) == EntryOffset(c, n) {
      BodyExtended(c, p, shared, restart, n);
    }
  }

  lemma BodyGrows(c: Contents, p: Pair, shared: nat, restart: bool)
    requires Shares(c) && Shares(Extended(c, p, shared, restart)) && shared <= |p.key|
    ensures Body(Extended(c, p, shared, restart), |c.pairs| + 1) == Body(c, |c.pairs|) + EntryBytes(p, shared)
  {
    BodyExtended(c, p, shared, restart, |c.pairs|);
  }

  /** n is how many leading bytes two keys have in common. */
  ghost predicate LongestPrefix(a: seq<byte>, b: seq<byte>, n: nat) {
    n <= |a| && n <= |b| && a[..n] == b[..n] && (n == |a| || n == |b| || a[n] != b[n])
  }

  /** Pair i is a restart point, by the interval, and shares nothing; or else shares all it can with the key before. */
  ghost predicate CompressedAt(c: Contents, interval: nat, i: nat)
    requires interval > 0 && |c.shared| == |c.pairs| && i < |c.pairs|
  {
    if i % interval == 0 then c.shared[i] == 0 && i in c.starts
    else i !in c.starts && LongestPrefix(c.pairs[i - 1].key, c.pairs[i].key, c.shared[i])
  }

  ghost predicate Compressed(c: Contents, interval: nat)
    requires interval > 0 && |c.shared| == |c.pairs|
  {
    forall i {:trigger CompressedAt(c, interval, i)} :: 0 <= i < |c.pairs| ==> CompressedAt(c, interval, i)
  }

  /** Restart point j is pair j * interval. */
  lemma {:induction false} StartAt(c: Contents, interval: nat, counter: nat, j: nat)
    requires WellFormed(c) && Spaced(c, interval, counter) && j < |c.starts|
    ensures c.starts[j] == interval * j
  {
    if j > 0 {
      Distribute(interval, j - 1, 1);
      StartAt(c, interval, counter, j - 1);
      assert NextAfter(c, interval, j - 1);
    }
  }

  lemma PlaceInRun(s: nat, interval: nat, counter: nat)
    requires 0 < interval && counter <= interval
    ensures (interval * s + counter) % interval == if counter == interval then 0 else counter
  {
    if counter == interval {
      Distribute(interval, s, 1);
      RemainderOf(s + 1, interval, 0);
    } else {
      RemainderOf(s, interval, counter);
    }
  }

  lemma CompressedExtended(c: Contents, interval: nat, counter: nat, p: Pair, shared: nat, restart: bool)
    requires WellFormed(c) && Spaced(c, interval, counter) && Compressed(c, interval)
    requires restart <==> counter >= interval
    requires if restart || c.pairs == [] then shared == 0 else LongestPrefix(LastKey(c), p.key, shared)
    ensures Compressed(Extended(c, p, shared, restart), interval)
  {
    var c', n, s := Extended(c, p, shared, restart), |c.pairs|, |c.starts| - 1;
    StartAt(c, interval, counter, s);
    PlaceInRun(s, interval, counter);
    forall i | 0 <= i <= n ensures CompressedAt(c', interval, i) {
      if i < n {
        assert CompressedAt(c, interval, i);
      } else if i % interval == 0 && !restart {
        assert i == c.starts[s];
      } else if !restart {
        NotAStart(c, interval, counter, i);
      }
    }
  }

  lemma NotAStart(c: Contents, interval: nat, counter: nat, i: nat)
    requires WellFormed(c) && Spaced(c, interval, counter) && i > c.starts[|c.starts| - 1]
    ensures i !in c.starts
  {
    forall j | 0 <= j < |c.starts| ensures c.starts[j] != i {
      if j < |c.starts| - 1 { assert Below(c.starts[j], c.starts[|c.starts| - 1]); }
    }
  }

  /** The builder's state describes the contents. */
  ghost predicate Built(c: Contents, interval: nat, restarts: seq<nat>, counter: nat, lastKey: seq<byte>) {
    && WellFormed(c) && RestartOffsets(c, restarts) && Spaced(c, interval, counter) && lastKey == LastKey(c)
    && Compressed(c, interval)
  }

  lemma Added(c: Contents, interval: nat, restarts: seq<nat>, counter: nat, lastKey: seq<byte>, buffer: seq<byte>,
              p: Pair, shared: nat)
    requires Built(c, interval, restarts, counter, lastKey) && buffer == Body(c, |c.pairs|)
    requires shared <= |lastKey| && shared <= |p.key| && lastKey[..shared] == p.key[..shared]
    requires if counter >= interval then shared == 0 else LongestPrefix(lastKey, p.key, shared)
    ensures var restart := counter >= interval; var c' := Extended(c, p, shared, restart);
            && Built(c', interval, if restart then restarts + [|buffer|] else restarts,
                     (if restart then 0 else counter) + 1,
                     lastKey[..shared] + p.key[shared..])
            && buffer + EntryBytes(p, shared) == Body(c', |c'.pairs|)
  {
    var restart := counter >= interval;
    AddFits(c, p, shared, restart);
    RestartOffsetsExtended(c, restarts, p, shared, restart);
    SpacedExtended(c, interval, counter, p, shared, restart);
    CompressedExtended(c, interval, counter, p, shared, restart);
    BodyGrows(c, p, shared, restart);
    Rejoined(lastKey, p.key, shared);
    assert LastKey(Extended(c, p, shared, restart)) == p.key;
  }

  lemma Rejoined(lastKey: seq<byte>, key: seq<byte>, shared: nat)
    requires shared <= |lastKey| && shared <= |key| && lastKey[..shared] == key[..shared]
    ensures lastKey[..shared] + key[shared..] == key
  {
    assert key[..shared] + key[shared..] == key;
  }

  /** Append a pair: share with the last key, unless it is time for a restart point. */
  method AddPair(interval: nat, restarts: seq<nat>, counter: nat, buffer: seq<byte>, lastKey: seq<byte>,
                 ghost c: Contents, key: seq<byte>, value: seq<byte>)
    returns (restarts': seq<nat>, counter': nat, buffer': seq<byte>, lastKey': seq<byte>, ghost c': Contents)
    requires Built(c, interval, restarts, counter, lastKey) && buffer == Body(c, |c.pairs|)
    ensures Built(c', interval, restarts', counter', lastKey') && buffer' == Body(c', |c'.pairs|)
    ensures c'.pairs == c.pairs + [Pair(key, value)]
  {
    var shared := 0;
    restarts', counter' := restarts, counter;
    if counter < interval {
      shared := CommonPrefix(lastKey, key);
    } else {
      restarts' := restarts + [|buffer|];
      counter' := 0;
    }
    Added(c, interval, restarts, counter, lastKey, buffer, Pair(key, value), shared);
    buffer' := buffer + EntryBytes(Pair(key, value), shared);
    lastKey' := lastKey[..shared] + key[shared..];
    counter' := counter' + 1;
    c' := Extended(c, Pair(key, value), shared, counter >= interval);
  }

  class Builder {
    const interval: nat
    var buffer: seq<byte>
    var restarts: seq<nat>
    var counter: nat
    var finished: bool
    var lastKey: seq<byte>
    ghost var contents: Contents

    ghost predicate Valid()
      reads this
    {
      && Built(contents, interval, restarts, counter, lastKey)
      && buffer == if finished then BlockBytes(contents) else Body(contents, |contents.pairs|)
    }

    constructor (interval: nat)
      requires interval >= 1
      ensures Valid() && !finished && contents.pairs == [] && this.interval == interval
    {
      this.interval := interval;
      buffer, restarts, counter, finished, lastKey := [], [0], 0, false, [];
      contents := Contents([], [], [0]);
    }

    /** Append a pair. */
    method Add(key: seq<byte>, value: seq<byte>)
      requires Valid() && !finished
      modifies this
      ensures Valid() && !finished && contents.pairs == old(contents.pairs) + [Pair(key, value)]
    {
      restarts, counter, buffer, lastKey, contents :=
        AddPair(interval, restarts, counter, buffer, lastKey, contents, key, value);
    }

    ghost predicate Holding(pairs: seq<Pair>)
      reads this
    {
      Valid() && !finished && contents.pairs == pairs
    }

    method AddNext(pairs: seq<Pair>, i: nat)
      requires i < |pairs| && Holding(pairs[..i])
      modifies this
      ensures Holding(pairs[..i + 1])
    {
      assert pairs[..i + 1] == pairs[..i] + [pairs[i]];
      Add(pairs[i].key, pairs[i].value);
    }

    /** Append the restart array. */
    method Finish() returns (block: seq<byte>)
      requires Valid() && !finished
      modifies `buffer, `finished
      ensures Valid() && finished && block == BlockBytes(contents)
    {
      ghost var body := buffer;
      for i := 0 to |restarts|
        invariant buffer == body + RestartBytes(contents, i)
      {
        ghost var before := buffer;
        buffer := buffer + Fixed32(restarts[i]);
      }
      buffer := buffer + Fixed32(|restarts|);
      finished := true;
      block := buffer;
    }
  }

  /** How many leading bytes two keys have in common. */
  method CommonPrefix(a: seq<byte>, b: seq<byte>) returns (shared: nat)
    ensures LongestPrefix(a, b, shared)
  {
    shared := 0;
    var minLength := if |a| < |b| then |a| else |b|;
    while shared < minLength && a[shared] == b[shared]
      invariant shared <= minLength && a[..shared] == b[..shared]
    {
      shared := shared + 1;
    }
  }

  lemma AddFits(c: Contents, p: Pair, shared: nat, restart: bool)
    requires WellFormed(c) && shared <= |p.key|
    requires restart ==> shared == 0 && c.pairs != [] && c.starts[|c.starts| - 1] < |c.pairs|
    requires if c.pairs == [] then shared == 0
             else var last := c.pairs[|c.pairs| - 1].key; shared <= |last| && last[..shared] == p.key[..shared]
    ensures WellFormed(Extended(c, p, shared, restart))
  {
    ExtendedShares(c, p, shared, restart);
    var c' := Extended(c, p, shared, restart);
    forall j, k | 0 <= j < k < |c'.starts| ensures Below(c'.starts[j], c'.starts[k]) {
      if k < |c.starts| {
        assert Below(c.starts[j], c.starts[k]);
      } else if j < |c.starts| - 1 {
        assert Below(c.starts[j], c.starts[|c.starts| - 1]);
      }
    }
  }

  /** Build a block of the pairs. */
  method Build(pairs: seq<Pair>, interval: nat) returns (block: seq<byte>, ghost c: Contents)
    requires interval >= 1
    ensures WellFormed(c) && c.pairs == pairs && block == BlockBytes(c) && Compressed(c, interval)
    ensures |block| < UINT32 ==> LaidOut(block, c)
  {
    var builder := new Builder(interval);
    for i := 0 to |pairs|
      invariant fresh(builder) && builder.Holding(pairs[..i])
    {
      builder.AddNext(pairs, i);
    }
    assert pairs[..|pairs|] == pairs;
    block := builder.Finish();
    c := builder.contents;
    if |block| < UINT32 { BlockLaidOut(c); }
  }
}
