/** The CRSSS codec object of client/coding/CDCodec.cc, with the buffers it reuses from call to call. */
module RampCodec {
  import opened Arithmetic
  import opened GaloisField
  import opened Matrix
  import opened Inversion
  import opened Distribution
  import opened Regions
  import opened ConvergentDispersal
  import opened RampSharing

  /** Store the Cauchy matrix. */
  method FillCauchyMatrix(f: Field<bv8>, n: nat, k: nat, d: array2<bv8>)
    requires n + k <= 256 && d.Length0 == n && d.Length1 == k
    modifies d
    ensures Rows(d) == Dispersed(f, n, k)
  {
    ghost var goal := Dispersed(f, n, k);
    for i := 0 to n
      invariant forall r, c :: 0 <= r < i && 0 <= c < k ==> d[r, c] == goal[r][c]
    {
      for j := 0 to k
        invariant forall r, c :: 0 <= r < i && 0 <= c < k ==> d[r, c] == goal[r][c]
        invariant forall c :: 0 <= c < j ==> d[i, c] == goal[i][c]
      {
        var sum := f.add(Element(i), Element(n + j));
        d[i, j] := f.divide(f.one, sum);
      }
    }
    EqualEntries(Rows(d), goal, n, k);
  }

  class Codec {
    const n: nat
    const k: nat
    const r: nat
    const f: Field<bv8>
    const ramp: Ramp
    const hashInputBuffer: array<bv8>
    const rHashes: array<bv8>
    const alignedSecretBuffer: array<bv8>
    const erasureCodingData: array<bv8>
    const distributionMatrix: array2<bv8>
    const squareMatrix: array2<bv8>
    const inverseMatrix: array2<bv8>

    ghost function Buffers(): set<object> {
      {hashInputBuffer, rHashes, alignedSecretBuffer, erasureCodingData, squareMatrix, inverseMatrix}
    }

    ghost predicate Valid()
      reads distributionMatrix
    {
      && f == GF256(f.multiply, f.divide) && IsField(f)
      && ramp.Valid() && n + k <= 256 && 0 < r < k < n && ramp.words == k - r && ramp.blocks == k
      && hashInputBuffer.Length == ramp.groupSize + 1 && rHashes.Length == ramp.wordSize * r
      && alignedSecretBuffer.Length == MAX_SECRET_SIZE + ramp.groupSize
      && erasureCodingData.Length == CodingSize(ramp)
      && hashInputBuffer != rHashes && hashInputBuffer != alignedSecretBuffer && hashInputBuffer != erasureCodingData
      && rHashes != alignedSecretBuffer && rHashes != erasureCodingData && alignedSecretBuffer != erasureCodingData
      && squareMatrix.Length0 == squareMatrix.Length1 == inverseMatrix.Length0 == inverseMatrix.Length1 == k
      && squareMatrix != inverseMatrix && distributionMatrix !in Buffers()
      && distributionMatrix.Length0 == n && distributionMatrix.Length1 == k
      && Rows(distributionMatrix) == Dispersed(f, n, k)
    }

    constructor (n: nat, m: nat, r: nat, multiply: (bv8, bv8) -> bv8, divide: (bv8, bv8) -> bv8,
                 hash: Bytes -> Bytes, hashSize: nat)
      requires 0 < m < n && n - m > 1 && 0 < r < n - m && n + (n - m) <= 256 && IsField(GF256(multiply, divide))
      requires 0 < hashSize && forall x :: |hash(x)| == hashSize
      ensures Valid() && this.n == n && k == n - m && this.r == r && f == GF256(multiply, divide)
      ensures ramp == Ramp(hash, hashSize, n - m - r, n - m, hashSize * (n - m - r))
      ensures fresh(Buffers()) && fresh(distributionMatrix)
    {
      var k, field := n - m, GF256(multiply, divide);
      BlockFits(0, k - r, hashSize);
      var p := Ramp(hash, hashSize, k - r, k, hashSize * (k - r));
      this.n, this.k, this.r, this.f, this.ramp := n, k, r, field, p;
      hashInputBuffer := new bv8[p.groupSize + 1];
      rHashes := new bv8[hashSize * r];
      alignedSecretBuffer := new bv8[MAX_SECRET_SIZE + p.groupSize];
      erasureCodingData := new bv8[CodingSize(p)];
      var d := new bv8[n, k];
      FillCauchyMatrix(field, n, k, d);
      distributionMatrix := d;
      squareMatrix := new bv8[k, k];
      inverseMatrix := new bv8[k, k];
    }

    // ---------------------------------------------------------------- encoding

    /** Hash j of the group at the offset, into its place among the r hashes. */
    method HashWithSeed(offset: nat, ghost group: Bytes, j: nat)
      requires Valid() && offset + ramp.groupSize <= alignedSecretBuffer.Length && j < r
      requires group == alignedSecretBuffer[offset..offset + ramp.groupSize]
      modifies hashInputBuffer, rHashes
      ensures Blocks(rHashes[..], r, ramp.wordSize)
              == old(Blocks(rHashes[..], r, ramp.wordSize))[j := HashWords(ramp, group)[j]]
    {
      var g, w := ramp.groupSize, ramp.wordSize;
      CopyRegion(alignedSecretBuffer[offset..offset + g], hashInputBuffer, 0);
      hashInputBuffer[g] := Element(j);
      assert hashInputBuffer[..] == group + [Element(j)];
      SplicedBlock(rHashes[..], j, r, w, ramp.hash(hashInputBuffer[..]));
      CopyRegion(ramp.hash(hashInputBuffer[..]), rHashes, w * j);
    }

    method ReadHash(j: nat) returns (word: Bytes)
      requires Valid() && j < r
      ensures word == Blocks(rHashes[..], r, ramp.wordSize)[j]
    {
      BlockFits(j, r, ramp.wordSize);
      word := rHashes[ramp.wordSize * j..ramp.wordSize * (j + 1)];
    }

    /** The r hashes of the group at the offset. */
    method HashGroup(offset: nat, ghost group: Bytes)
      requires Valid() && offset + ramp.groupSize <= alignedSecretBuffer.Length
      requires group == alignedSecretBuffer[offset..offset + ramp.groupSize]
      modifies hashInputBuffer, rHashes
      ensures Blocks(rHashes[..], r, ramp.wordSize) == HashWords(ramp, group)
    {
      for j := 0 to r
        invariant AgreeUpTo(Blocks(rHashes[..], r, ramp.wordSize), HashWords(ramp, group), j)
      {
        ghost var before := Blocks(rHashes[..], r, ramp.wordSize);
        HashWithSeed(offset, group, j);
        NextAgrees(before, HashWords(ramp, group), j);
      }
    }

    /** Put word i of data block j in place. */
    method CopyWord(x: Bytes, i: nat, j: nat, count: nat)
      requires Valid() && i < count && j < k && |x| == ramp.wordSize && ramp.Size(count) * k <= erasureCodingData.Length
      modifies erasureCodingData
      ensures DataWords(ramp, erasureCodingData[..], count)
              == old(DataWords(ramp, erasureCodingData[..], count))[Cell(count, k, i, j) := x]
    {
      WordOffset(ramp.wordSize, count, k, i, j);
      MultiplyAssociates(ramp.wordSize, count, k);
      SplicedBlock(erasureCodingData[..], Cell(count, k, i, j), count * k, ramp.wordSize, x);
      CopyRegion(x, erasureCodingData, ramp.Size(count) * j + ramp.wordSize * i);
    }

    /** The aligned secret in groups, and what of it is in the data blocks. */
    ghost predicate Spreading(groups: Mat<bv8>, i: nat, j: nat)
      requires Valid()
      reads distributionMatrix, alignedSecretBuffer, erasureCodingData
    {
      && ramp.groupSize * |groups| <= alignedSecretBuffer.Length
      && groups == Blocks(alignedSecretBuffer[..], |groups|, ramp.groupSize)
      && ramp.Size(|groups|) * k <= erasureCodingData.Length
      && PlacedUpTo(ramp, groups, DataWords(ramp, erasureCodingData[..], |groups|), i, j)
    }

    /** Put a word of group i in place. */
    method PlaceWord(x: Bytes, i: nat, j: nat, count: nat, ghost groups: Mat<bv8>)
      requires Valid() && Spreading(groups, i, j) && i < count == |groups| && j < k && x == WordOf(ramp, groups[i], j)
      modifies erasureCodingData
      ensures Spreading(groups, i, j + 1)
    {
      ghost var before := DataWords(ramp, erasureCodingData[..], count);
      CopyWord(x, i, j, count);
      PlaceNext(ramp, groups, before, i, j);
    }

    /** Put the words of group i in place. */
    method SpreadOwnWords(i: nat, count: nat, ghost groups: Mat<bv8>, offset: nat)
      requires Valid() && Spreading(groups, i, 0) && i < count == |groups|
      requires offset == ramp.groupSize * i && offset + ramp.groupSize <= alignedSecretBuffer.Length
      requires groups[i] == alignedSecretBuffer[..][offset..offset + ramp.groupSize]
      modifies erasureCodingData
      ensures Spreading(groups, i, ramp.words)
    {
      var w := ramp.wordSize;
      for j := 0 to ramp.words
        invariant Spreading(groups, i, j)
      {
        OwnWord(ramp, alignedSecretBuffer[..], offset, j);
        PlaceWord(alignedSecretBuffer[..][offset + w * j..offset + w * j + w], i, j, count, groups);
      }
    }

    /** Put the hashes of group i in place. */
    method SpreadHashes(i: nat, count: nat, ghost groups: Mat<bv8>)
      requires Valid() && Spreading(groups, i, ramp.words) && i < count == |groups|
      requires Blocks(rHashes[..], r, ramp.wordSize) == HashWords(ramp, groups[i])
      modifies erasureCodingData
      ensures Spreading(groups, i, k)
    {
      for j := 0 to r
        invariant Spreading(groups, i, ramp.words + j)
      {
        var word := ReadHash(j);
        PlaceWord(word, i, ramp.words + j, count, groups);
      }
    }

    /** Put the words of group i and its hashes in place. */
    method SpreadGroup(i: nat, count: nat, ghost groups: Mat<bv8>)
      requires Valid() && Spreading(groups, i, 0) && i < count == |groups|
      modifies hashInputBuffer, rHashes, erasureCodingData
      ensures Spreading(groups, i + 1, 0)
    {
      var g := ramp.groupSize;
      BlockFits(i, count, g);
      assert groups[i] == alignedSecretBuffer[..][g * i..g * i + g] == alignedSecretBuffer[g * i..g * i + g];
      HashGroup(g * i, groups[i]);
      SpreadOwnWords(i, count, groups, g * i);
      SpreadHashes(i, count, groups);
      GroupDone(ramp, groups, DataWords(ramp, erasureCodingData[..], count), i);
    }

    /** Spread the aligned secret over the data blocks. */
    method SpreadSecret(count: nat, ghost aligned: nat, ghost size: nat)
      requires Valid() && aligned == ramp.groupSize * count <= alignedSecretBuffer.Length
      requires size == ramp.Size(count) * k <= erasureCodingData.Length
      modifies hashInputBuffer, rHashes, erasureCodingData
      ensures Spread(ramp, count, alignedSecretBuffer[..aligned], erasureCodingData[..size])
    {
      ghost var groups := Blocks(alignedSecretBuffer[..], count, ramp.groupSize);
      for i := 0 to count
        invariant Spreading(groups, i, 0)
      {
        SpreadGroup(i, count, groups);
      }
      BlocksOfPrefix(alignedSecretBuffer[..], count, ramp.groupSize);
      WordsOfPrefix(ramp, erasureCodingData[..], count);
      assert alignedSecretBuffer[..][..aligned] == alignedSecretBuffer[..aligned];
      assert erasureCodingData[..][..size] == erasureCodingData[..size];
    }

    /** Encode a secret into n shares. */
    method CrsssEncoding(secret: Bytes, shareBuffer: array<bv8>) returns (ok: bool, shareSize: nat, ghost data: Bytes)
      requires Valid() && shareBuffer !in Buffers()
      requires ramp.Size(GroupsOf(ramp, |secret|)) * n <= shareBuffer.Length
      modifies Buffers(), shareBuffer
      ensures Valid()
      ensures ok <==> AlignedToGroups(|secret|, ramp.groupSize) <= alignedSecretBuffer.Length
      ensures |secret| <= MAX_SECRET_SIZE ==> ok
      ensures ok ==> shareSize == ramp.Size(GroupsOf(ramp, |secret|))
      ensures ok ==> Spread(ramp, GroupsOf(ramp, |secret|), AlignedSecretOf(ramp, secret), data)
      ensures ok ==> Blocks(shareBuffer[..], n, shareSize)
                     == Product(f, Dispersed(f, n, k), Blocks(data, k, shareSize), k, shareSize)
      ensures ok ==> SpreadByByte(ramp, GroupsOf(ramp, |secret|), AlignedSecretOf(ramp, secret), data)
      ensures ok ==> SumsByByte(f, n, k, data, shareSize, Blocks(shareBuffer[..], n, shareSize))
    {
      var g := ramp.groupSize;
      var aligned := AlignedToGroups(|secret|, g);
      RampBuffersSuffice(ramp, |secret|);
      GroupsCover(|secret|, g);
      data := [];
      if alignedSecretBuffer.Length < aligned {
        return false, 0, data;
      }
      var numOfGroups := aligned / g;
      shareSize := ramp.Size(numOfGroups);
      ok := shareSize * k <= erasureCodingData.Length;
      if !ok {
        return;
      }
      CopyPadded(secret, alignedSecretBuffer, aligned);
      SpreadSecret(numOfGroups, aligned, shareSize * k);
      data := erasureCodingData[..shareSize * k];
      SpreadIsBytes(ramp, numOfGroups, AlignedSecretOf(ramp, secret), data);
      SumsAreBytes(f, n, k, data, shareSize);
      MultiplyBlocks(f, Rows(distributionMatrix), k, erasureCodingData[..shareSize * k], shareSize, shareBuffer);
    }

    // ---------------------------------------------------------------- decoding

    /** Word i of data block j. */
    method ReadWord(i: nat, j: nat, count: nat) returns (word: Bytes)
      requires Valid() && i < count && j < k && ramp.Size(count) * k <= erasureCodingData.Length
      ensures word == DataWords(ramp, erasureCodingData[..], count)[Cell(count, k, i, j)]
    {
      var from := ramp.Size(count) * j + ramp.wordSize * i;
      WordRead(ramp, erasureCodingData[..], count, i, j);
      word := erasureCodingData[..][from..from + ramp.wordSize];
    }

    /** Copy the words of group i to the aligned secret. */
    method FetchGroup(i: nat, count: nat) returns (ghost group: Bytes)
      requires Valid() && i < count && ramp.Size(count) * k <= erasureCodingData.Length
      requires ramp.groupSize * count <= alignedSecretBuffer.Length
      modifies alignedSecretBuffer
      ensures JoinsWords(ramp, DataWords(ramp, erasureCodingData[..], count), count, i, group)
      ensures Blocks(alignedSecretBuffer[..], count, ramp.groupSize)
              == old(Blocks(alignedSecretBuffer[..], count, ramp.groupSize))[i := group]
    {
      var g, w := ramp.groupSize, ramp.wordSize;
      BlockFits(i, count, g);
      ghost var before, words := alignedSecretBuffer[..], DataWords(ramp, erasureCodingData[..], count);
      ghost var goal := seq(ramp.words, j requires 0 <= j < ramp.words => words[Cell(count, k, i, j)]);
      group := before[g * i..g * i + g];
      assert Spliced(before, g * i, group) == before;
      for j := 0 to ramp.words
        invariant |group| == g && alignedSecretBuffer[..] == Spliced(before, g * i, group)
        invariant AgreeUpTo(Blocks(group, ramp.words, w), goal, j)
      {
        ghost var last := Blocks(group, ramp.words, w);
        var word := ReadWord(i, j, count);
        group := CopyInside(word, alignedSecretBuffer, g * i, j, ramp.words, before, group);
        NextAgrees(last, goal, j);
      }
      SplicedBlock(before, i, count, g, group);
      assert forall j {:trigger Block(group, j, ramp.words, w)} :: 0 <= j < ramp.words ==>
          Block(group, j, ramp.words, w) == Blocks(group, ramp.words, w)[j];
    }

    /** Compare hash j of group i with the stored one. */
    method CheckWord(i: nat, j: nat, count: nat, ghost groups: Mat<bv8>) returns (same: bool)
      requires Valid() && i < count == |groups| && j < r && ramp.Size(count) * k <= erasureCodingData.Length
      requires ramp.groupSize * count <= alignedSecretBuffer.Length
      requires groups == Blocks(alignedSecretBuffer[..], count, ramp.groupSize)
      modifies hashInputBuffer, rHashes
      ensures same <==> Placed(ramp, groups, DataWords(ramp, erasureCodingData[..], count), i, ramp.words + j)
    {
      var g := ramp.groupSize;
      BlockFits(i, count, g);
      assert groups[i] == alignedSecretBuffer[g * i..g * i + g];
      HashWithSeed(g * i, groups[i], j);
      var hash := ReadHash(j);
      var word := ReadWord(i, ramp.words + j, count);
      same := word == hash;
    }

    /** Check the hashes of group i, up to the first one that is wrong. */
    method CheckGroup(i: nat, count: nat, ghost groups: Mat<bv8>) returns (ok: bool, ghost bad: nat)
      requires Valid() && i < count == |groups| && ramp.Size(count) * k <= erasureCodingData.Length
      requires ramp.groupSize * count <= alignedSecretBuffer.Length
      requires groups == Blocks(alignedSecretBuffer[..], count, ramp.groupSize)
      modifies hashInputBuffer, rHashes
      ensures var words := DataWords(ramp, erasureCodingData[..], count);
              if ok then forall j: nat {:trigger Placed(ramp, groups, words, i, j)} ::
                           ramp.words <= j < k ==> Placed(ramp, groups, words, i, j)
              else bad < k && !Placed(ramp, groups, words, i, bad)
    {
      ghost var words := DataWords(ramp, erasureCodingData[..], count);
      bad := 0;
      for j := 0 to r
        invariant forall b: nat {:trigger Placed(ramp, groups, words, i, b)} ::
                    ramp.words <= b < ramp.words + j ==> Placed(ramp, groups, words, i, b)
      {
        ok := CheckWord(i, j, count, groups);
        if !ok {
          return false, ramp.words + j;
        }
      }
      ok := true;
    }

    /** Read the aligned secret out of the data blocks, up to the first group with a wrong hash. */
    method GatherSecret(count: nat, ghost aligned: nat, ghost size: nat) returns (ok: bool)
      requires Valid() && aligned == ramp.groupSize * count <= alignedSecretBuffer.Length
      requires size == ramp.Size(count) * k <= erasureCodingData.Length
      modifies hashInputBuffer, rHashes, alignedSecretBuffer
      ensures if ok then Spread(ramp, count, alignedSecretBuffer[..aligned], erasureCodingData[..size])
              else Unspread(ramp, count, erasureCodingData[..size])
    {
      ghost var data := erasureCodingData[..size];
      ghost var words := DataWords(ramp, data, count);
      WordsOfPrefix(ramp, erasureCodingData[..], count);
      assert erasureCodingData[..][..size] == data;
      for i := 0 to count
        invariant PlacedUpTo(ramp, Blocks(alignedSecretBuffer[..], count, ramp.groupSize), words, i, 0)
      {
        ghost var before := Blocks(alignedSecretBuffer[..], count, ramp.groupSize);
        ghost var group := FetchGroup(i, count);
        GroupCopied(ramp, before, words, i, group);
        ghost var bad;
        ok, bad := CheckGroup(i, count, before[i := group]);
        if !ok {
          NothingSpread(ramp, count, data, before[i := group], i, bad);
          return;
        }
        GroupChecked(ramp, before[i := group], words, i);
      }
      ok := true;
      BlocksOfPrefix(alignedSecretBuffer[..], count, ramp.groupSize);
      assert alignedSecretBuffer[..][..aligned] == alignedSecretBuffer[..aligned];
    }

    /** Multiply the shares by the inverse of their rows into erasureCodingData. */
    method RecoverData(shareBuffer: Bytes, ids: seq<nat>, shareSize: nat) returns (ok: bool)
      requires Valid() && ShareIDs(ids, k, n) && shareSize * k <= |shareBuffer|
      requires shareSize * k <= erasureCodingData.Length
      modifies squareMatrix, inverseMatrix, erasureCodingData
      ensures ok && SharesFrom(f, n, k, ids, erasureCodingData[..shareSize * k], shareSize,
                               Blocks(shareBuffer, k, shareSize))
    {
      AnyDispersedRowsInvertible(f, n, k, ids);
      ok := InvertRows(f, distributionMatrix, ids, squareMatrix, inverseMatrix);
      if !ok {
        return;
      }
      MultiplyBlocks(f, Rows(inverseMatrix), k, shareBuffer, shareSize, erasureCodingData);
      BlocksOfPrefix(erasureCodingData[..], k, shareSize);
      assert erasureCodingData[..][..shareSize * k] == erasureCodingData[..shareSize * k];
      RecoveredData(f, n, k, ids, erasureCodingData[..shareSize * k], shareSize, Blocks(shareBuffer, k, shareSize),
                    Rows(inverseMatrix));
    }

    /** The secret that k shares are shares of, into alignedSecretBuffer, if there is one. */
    method OpenShares(shareBuffer: Bytes, ids: seq<nat>, count: nat, ghost aligned: nat, shareSize: nat)
      returns (ok: bool)
      requires Valid() && ShareIDs(ids, k, n) && shareSize == ramp.Size(count) && shareSize * k <= |shareBuffer|
      requires shareSize * k <= erasureCodingData.Length
      requires aligned == ramp.groupSize * count <= alignedSecretBuffer.Length
      modifies Buffers()
      ensures var shares := Blocks(shareBuffer, k, shareSize);
              if ok then SharesOfSecret(f, n, ramp, ids, count, alignedSecretBuffer[..aligned], shares)
              else Unshared(f, n, ramp, ids, count, shares)
    {
      ghost var shares := Blocks(shareBuffer, k, shareSize);
      ok := RecoverData(shareBuffer, ids, shareSize);
      if !ok {
        return;
      }
      ghost var data := erasureCodingData[..shareSize * k];
      ok := GatherSecret(count, aligned, shareSize * k);
      if ok {
        SecretOfData(f, n, ramp, ids, count, data, shares, alignedSecretBuffer[..aligned]);
      } else {
        NoSecret(f, n, ramp, ids, count, data, shares);
      }
    }

    /** Decode the secret from k shares: exactly the shares of an aligned secret are accepted. */
    method CrsssDecoding(shareBuffer: Bytes, ids: seq<nat>, shareSize: nat, secretSize: nat, secretBuffer: array<bv8>)
      returns (ok: bool, ghost secret: Bytes)
      requires Valid() && ShareIDs(ids, k, n)
      requires shareSize * k <= |shareBuffer| && secretSize <= secretBuffer.Length && secretBuffer !in Buffers()
      modifies Buffers(), secretBuffer
      ensures Valid()
      ensures !ok ==> secretBuffer[..] == old(secretBuffer[..])
      ensures var count, shares := shareSize / ramp.wordSize, Blocks(shareBuffer, k, shareSize);
              if shareSize % ramp.wordSize == 0 && shareSize * k <= erasureCodingData.Length &&
                 secretSize <= ramp.groupSize * count <= alignedSecretBuffer.Length
              then if ok then && SharesOfSecret(f, n, ramp, ids, count, secret, shares)
                              && secretSize <= |secret| && secretBuffer[..secretSize] == secret[..secretSize]
                   else Unshared(f, n, ramp, ids, count, shares)
              else !ok
    {
      var w, g := ramp.wordSize, ramp.groupSize;
      secret := [];
      if shareSize % w != 0 || erasureCodingData.Length < shareSize * k {
        return false, secret;
      }
      var numOfGroups := shareSize / w;
      var aligned := g * numOfGroups;
      if alignedSecretBuffer.Length < aligned || secretSize > aligned {
        return false, secret;
      }
      ok := OpenShares(shareBuffer, ids, numOfGroups, aligned, shareSize);
      if !ok {
        return;
      }
      secret := alignedSecretBuffer[..aligned];
      CopyRegion(alignedSecretBuffer[..secretSize], secretBuffer, 0);
      assert secretBuffer[..secretSize] == secretBuffer[..][0..secretSize] == secret[..secretSize];
    }
  }

  /** Encode a secret with a codec in any earlier state, and keep the shares numbered ids. */
  method Disperse(codec: Codec, secret: Bytes, ids: seq<nat>) returns (received: Bytes, shareSize: nat)
    requires codec.Valid() && ShareIDs(ids, codec.k, codec.n) && |secret| <= MAX_SECRET_SIZE
    modifies codec.Buffers()
    ensures shareSize == codec.ramp.Size(GroupsOf(codec.ramp, |secret|)) && |received| == shareSize * codec.k
    ensures SharesOfSecret(codec.f, codec.n, codec.ramp, ids, GroupsOf(codec.ramp, |secret|),
                           AlignedSecretOf(codec.ramp, secret), Blocks(received, codec.k, shareSize))
  {
    var shareBuffer := new bv8[codec.ramp.Size(GroupsOf(codec.ramp, |secret|)) * codec.n];
    var ok; ghost var data;
    ok, shareSize, data := codec.CrsssEncoding(secret, shareBuffer);
    received := Received(shareBuffer[..], ids, codec.n, shareSize);
    SelectedFrom(codec.f, codec.n, codec.k, ids, data, shareSize);
  }

  /** Decode shares of a secret with a codec in any earlier state. */
  method Restore(codec: Codec, received: Bytes, ids: seq<nat>, shareSize: nat, secretSize: nat, ghost secret: Bytes)
    returns (ok: bool, restored: Bytes)
    requires codec.Valid() && ShareIDs(ids, codec.k, codec.n) && |secret| == secretSize <= MAX_SECRET_SIZE
    requires shareSize == codec.ramp.Size(GroupsOf(codec.ramp, secretSize)) && |received| == shareSize * codec.k
    requires SharesOfSecret(codec.f, codec.n, codec.ramp, ids, GroupsOf(codec.ramp, secretSize),
                            AlignedSecretOf(codec.ramp, secret), Blocks(received, codec.k, shareSize))
    modifies codec.Buffers()
    ensures ok && restored == secret
  {
    var p := codec.ramp;
    var count, out := GroupsOf(p, secretSize), new bv8[secretSize];
    RampBuffersSuffice(p, secretSize);
    GroupsCover(secretSize, p.groupSize);
    DivideExact(p.wordSize, count);
    assert secretSize <= p.groupSize * count <= codec.alignedSecretBuffer.Length;
    ghost var found;
    ok, found := codec.CrsssDecoding(received, ids, shareSize, secretSize, out);
    SharesDetermineSecret(codec.f, codec.n, p, ids, count, found, AlignedSecretOf(p, secret),
                          Blocks(received, codec.k, shareSize));
    restored := out[..];
    assert out[..secretSize] == out[..];
  }

  /** Dispersing a secret and restoring it from any k shares gives it back, whatever the
      codecs' buffers held before. */
  method DisperseAndRestore(encoder: Codec, decoder: Codec, secret: Bytes, ids: seq<nat>)
    returns (ok: bool, restored: Bytes)
    requires encoder.Valid() && decoder.Valid() && decoder.distributionMatrix !in encoder.Buffers()
    requires encoder.n == decoder.n && encoder.k == decoder.k && encoder.f == decoder.f && encoder.ramp == decoder.ramp
    requires ShareIDs(ids, encoder.k, encoder.n) && |secret| <= MAX_SECRET_SIZE
    modifies encoder.Buffers(), decoder.Buffers()
    ensures ok && restored == secret
  {
    var received, shareSize := Disperse(encoder, secret, ids);
    ok, restored := Restore(decoder, received, ids, shareSize, |secret|, secret);
  }
}
