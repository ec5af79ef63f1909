/** The CAONT-RS codec object of client/coding/CDCodec.cc, with the buffers it reuses
    from call to call. */
module CDCodec {
  import opened Arithmetic
  import opened GaloisField
  import opened Matrix
  import opened Inversion
  import opened Distribution
  import opened Regions
  import opened ConvergentDispersal
  import opened ShareBytes

  class Codec {
    const n: nat
    const m: nat
    const k: nat
    const f: Field<bv8>
    const crypto: Crypto
    const key: array<bv8>
    const alignedSecretBuffer: array<bv8>
    const alignedSizeConstant: array<bv8>
    const erasureCodingData: array<bv8>
    const distributionMatrix: array2<bv8>
    const squareMatrix: array2<bv8>
    const inverseMatrix: array2<bv8>

    ghost function Buffers(): set<object> {
      {key, alignedSecretBuffer, erasureCodingData, squareMatrix, inverseMatrix}
    }

    ghost predicate Valid()
      reads alignedSizeConstant, distributionMatrix
    {
      && f == GF256(f.multiply, f.divide) && IsField(f) && crypto.Valid()
      && n <= 256 && 0 < m < n && k == n - m && k > 1
      && key.Length == crypto.wordSize
      && alignedSecretBuffer.Length == AlignedSecretBufferSize(crypto.wordSize, k)
      && alignedSizeConstant.Length == AlignedSecretBufferSize(crypto.wordSize, k)
      && erasureCodingData.Length == ErasureCodingDataSize(crypto.wordSize, k)
      && key != alignedSecretBuffer && key != erasureCodingData && alignedSecretBuffer != erasureCodingData
      && alignedSizeConstant !in Buffers() && distributionMatrix !in Buffers()
      && squareMatrix.Length0 == squareMatrix.Length1 == inverseMatrix.Length0 == inverseMatrix.Length1 == k
      && squareMatrix != inverseMatrix
      && alignedSizeConstant[..] == SizeConstant(alignedSizeConstant.Length)
      && distributionMatrix.Length0 == n && distributionMatrix.Length1 == k
      && Rows(distributionMatrix) == Systematic(f, n, m)
    }

    /** Addition is exclusive or; multiplication and division are the library's. */
    constructor (n: nat, m: nat, multiply: (bv8, bv8) -> bv8, divide: (bv8, bv8) -> bv8, crypto: Crypto)
      requires 0 < m < n && n - m > 1 && n <= 256 && IsField(GF256(multiply, divide)) && crypto.Valid()
      ensures Valid() && this.n == n && this.m == m && f == GF256(multiply, divide) && this.crypto == crypto
      ensures fresh(Buffers()) && fresh(alignedSizeConstant) && fresh(distributionMatrix)
    {
      var k, field := n - m, GF256(multiply, divide);
      var size := AlignedSecretBufferSize(crypto.wordSize, k);
      this.n, this.m, this.k, this.f, this.crypto := n, m, k, field, crypto;
      key := new bv8[crypto.wordSize];
      alignedSecretBuffer := new bv8[size];
      alignedSizeConstant := new bv8[size](i requires 0 <= i < size => Element(i % 256));
      erasureCodingData := new bv8[ErasureCodingDataSize(crypto.wordSize, k)];
      var d := new bv8[n, k];
      FillDistributionMatrix(field, n, m, d);
      distributionMatrix := d;
      squareMatrix := new bv8[k, k];
      inverseMatrix := new bv8[k, k];
    }

    /** The ciphertext, or failure when the data is no whole number of cipher blocks. */
    method EncryptWithKey(data: Bytes, dst: array<bv8>) returns (ok: bool)
      requires Valid() && key != dst && |data| <= dst.Length
      modifies dst
      ensures ok <==> |data| % crypto.blockSize == 0
      ensures ok ==> dst[..] == Spliced(old(dst[..]), 0, crypto.encrypt(data, key[..]))
    {
      if |data| % crypto.blockSize != 0 {
        return false;
      }
      CopyRegion(crypto.encrypt(data, key[..]), dst, 0);
      ok := true;
    }

    /** The main part of the package: the aligned secret masked with the cipher stream of its hash. */
    method MakeMain(aligned: nat) returns (ok: bool)
      requires Valid() && aligned <= alignedSecretBuffer.Length && aligned % crypto.wordSize == 0
      requires aligned <= erasureCodingData.Length
      modifies key, erasureCodingData
      ensures ok
      ensures key[..] == crypto.hash(alignedSecretBuffer[..aligned])
      ensures erasureCodingData[..aligned] ==
              Xored(f, crypto.encrypt(SizeConstant(aligned), key[..]), alignedSecretBuffer[..aligned])
    {
      CopyRegion(crypto.hash(alignedSecretBuffer[..aligned]), key, 0);
      BlockMultiple(aligned, crypto.wordSize, crypto.blockSize);
      ConstantPrefix();
      ok := EncryptWithKey(alignedSizeConstant[..aligned], erasureCodingData);
      if !ok {
        return;
      }
      XorRegion(f, alignedSecretBuffer[..aligned], erasureCodingData, 0);
      assert erasureCodingData[..aligned] == erasureCodingData[..][0..aligned];
    }

    /** The tail of the package: the key masked with the hash of the main part. */
    method MakeTail(aligned: nat)
      requires Valid() && aligned + crypto.wordSize <= erasureCodingData.Length
      modifies erasureCodingData
      ensures var main := old(erasureCodingData[..aligned]);
              erasureCodingData[..aligned + crypto.wordSize] == main + Xored(f, crypto.hash(main), key[..])
    {
      ghost var e0, main := erasureCodingData[..], erasureCodingData[..aligned];
      CopyRegion(crypto.hash(erasureCodingData[..aligned]), erasureCodingData, aligned);
      XorRegion(f, key[..], erasureCodingData, aligned);
      TwoRegions(e0, aligned, crypto.hash(main), Xored(f, crypto.hash(main), key[..]));
      assert erasureCodingData[..][..aligned + crypto.wordSize] == erasureCodingData[..aligned + crypto.wordSize];
    }

    /** Turn the aligned secret into a package in erasureCodingData. */
    method MakePackage(aligned: nat) returns (ok: bool)
      requires Valid() && aligned <= alignedSecretBuffer.Length && aligned % crypto.wordSize == 0
      requires aligned + crypto.wordSize <= erasureCodingData.Length
      modifies key, erasureCodingData
      ensures ok
      ensures erasureCodingData[..aligned + crypto.wordSize] == Package(f, crypto, alignedSecretBuffer[..aligned])
      ensures Masks(crypto, alignedSecretBuffer[..aligned], erasureCodingData[..aligned + crypto.wordSize])
    {
      PackageMasks(f, crypto, alignedSecretBuffer[..aligned]);
      ok := MakeMain(aligned);
      if ok {
        MakeTail(aligned);
      }
    }

    /** The package of a secret. */
    method PackSecret(secret: Bytes, aligned: nat) returns (ok: bool)
      requires Valid() && aligned == AlignedSize(|secret|, crypto.wordSize, k) <= alignedSecretBuffer.Length
      requires aligned % crypto.wordSize == 0 && |secret| <= aligned
      requires aligned + crypto.wordSize <= erasureCodingData.Length
      modifies key, alignedSecretBuffer, erasureCodingData
      ensures ok
      ensures erasureCodingData[..aligned + crypto.wordSize] == Package(f, crypto, Padded(secret, aligned))
      ensures Masks(crypto, Padded(secret, aligned), erasureCodingData[..aligned + crypto.wordSize])
    {
      CopyPadded(secret, alignedSecretBuffer, aligned);
      ok := MakePackage(aligned);
    }

    lemma ConstantPrefix()
      requires Valid()
      ensures forall aligned :: 0 <= aligned <= alignedSizeConstant.Length ==>
                alignedSizeConstant[..aligned] == SizeConstant(aligned)
    {
      forall aligned | 0 <= aligned <= alignedSizeConstant.Length
        ensures alignedSizeConstant[..aligned] == SizeConstant(aligned)
      {
        assert alignedSizeConstant[..aligned] == alignedSizeConstant[..][..aligned];
      }
    }

    /** The first k shares are the package itself. */
    method CopyShares(shareSize: nat, shareBuffer: array<bv8>)
      requires Valid() && shareBuffer !in Buffers() && shareBuffer != alignedSizeConstant
      requires shareSize * k <= erasureCodingData.Length && shareSize * n <= shareBuffer.Length
      modifies shareBuffer
      ensures AgreeUpTo(Blocks(shareBuffer[..], n, shareSize),
                        SharesOf(f, n, m, erasureCodingData[..shareSize * k], shareSize), k)
    {
      var package := erasureCodingData[..shareSize * k];
      ScaleMonotone(shareSize, k, n);
      CopyRegion(package, shareBuffer, 0);
      assert shareBuffer[..][..shareSize * k] == shareBuffer[..][0..0 + |package|] == package;
      forall r | 0 <= r < k
        ensures Blocks(shareBuffer[..], n, shareSize)[r] == SharesOf(f, n, m, package, shareSize)[r]
      {
        DataShare(f, n, m, package, shareSize, r);
        BlockOfPrefix(shareBuffer[..], r, k, n, shareSize);
      }
    }

    /** The first k shares are the package itself; the last m are combinations of its blocks. */
    method EmitShares(shareSize: nat, shareBuffer: array<bv8>)
      requires Valid() && shareBuffer !in Buffers() && shareBuffer != alignedSizeConstant
      requires shareSize * k <= erasureCodingData.Length && shareSize * n <= shareBuffer.Length
      modifies shareBuffer
      ensures Blocks(shareBuffer[..], n, shareSize) == SharesOf(f, n, m, erasureCodingData[..shareSize * k], shareSize)
    {
      CopyShares(shareSize, shareBuffer);
      var package := erasureCodingData[..shareSize * k];
      ghost var shares := SharesOf(f, n, m, package, shareSize);
      for i := 0 to m
        invariant AgreeUpTo(Blocks(shareBuffer[..], n, shareSize), shares, k + i)
      {
        ghost var before := Blocks(shareBuffer[..], n, shareSize);
        CombineBlock(f, Rows(distributionMatrix)[k + i], package, shareSize, shareBuffer, k + i, n);
        NextAgrees(before, shares, k + i);
      }
    }

    /** Encode a secret into n shares. */
    method CaontRSEncoding(secret: Bytes, shareBuffer: array<bv8>)
      returns (ok: bool, shareSize: nat, ghost package: Bytes)
      requires Valid() && shareBuffer !in Buffers() && shareBuffer != alignedSizeConstant
      requires EncodedShareSize(crypto, k, |secret|) * n <= shareBuffer.Length
      modifies Buffers(), shareBuffer
      ensures Valid()
      ensures ok <==> AlignedSize(|secret|, crypto.wordSize, k) <= alignedSecretBuffer.Length
      ensures |secret| <= MAX_SECRET_SIZE ==> ok
      ensures ok ==> shareSize == EncodedShareSize(crypto, k, |secret|)
      ensures ok ==> Blocks(shareBuffer[..], n, shareSize) == EncodedShares(f, crypto, n, m, secret)
      ensures ok ==> Masks(crypto, AlignedSecret(crypto, k, secret), package)
      ensures ok ==> SharesByByte(f, n, m, package, shareSize, Blocks(shareBuffer[..], n, shareSize))
    {
      var w := crypto.wordSize;
      var aligned := AlignedSize(|secret|, w, k);
      BuffersSuffice(|secret|, w, k);
      if alignedSecretBuffer.Length < aligned {
        return false, 0, [];
      }
      package := [];
      shareSize := ShareSize(aligned, w, k);
      AlignedShareSize(|secret|, w, k);
      ok := PackSecret(secret, aligned);
      if !ok {
        return;
      }
      package := erasureCodingData[..shareSize * k];
      SharesAreBytes(f, n, m, package, shareSize);
      EmitShares(shareSize, shareBuffer);
    }

    /** Store the rows of the received shares in squareMatrix and invert it: this cannot fail. */
    method InvertSelected(ids: seq<nat>) returns (ok: bool)
      requires Valid() && ShareIDs(ids, k, n)
      modifies squareMatrix, inverseMatrix
      ensures ok && Inverses(f, Submatrix(f, n, m, ids), Rows(inverseMatrix), k)
    {
      AnyRowsInvertible(f, n, m, ids);
      ok := InvertRows(f, distributionMatrix, ids, squareMatrix, inverseMatrix);
    }

    /** Multiply the shares by the inverse into erasureCodingData. */
    method RecoverPackage(shareBuffer: Bytes, shareSize: nat)
      requires Valid() && shareSize * k <= |shareBuffer| && shareSize * k <= erasureCodingData.Length
      modifies erasureCodingData
      ensures Blocks(erasureCodingData[..shareSize * k], k, shareSize) ==
              Product(f, Rows(inverseMatrix), Blocks(shareBuffer, k, shareSize), k, shareSize)
    {
      MultiplyBlocks(f, Rows(inverseMatrix), k, shareBuffer, shareSize, erasureCodingData);
      BlocksOfPrefix(erasureCodingData[..], k, shareSize);
      assert erasureCodingData[..][..shareSize * k] == erasureCodingData[..shareSize * k];
    }

    /** Recover the key of the package in erasureCodingData. */
    method RecoverKey(aligned: nat)
      requires Valid() && aligned + crypto.wordSize <= erasureCodingData.Length
      modifies key
      ensures key[..] == Xored(f, crypto.hash(erasureCodingData[..aligned]),
                               erasureCodingData[aligned..aligned + crypto.wordSize])
    {
      CopyRegion(crypto.hash(erasureCodingData[..aligned]), key, 0);
      XorRegion(f, erasureCodingData[aligned..aligned + crypto.wordSize], key, 0);
    }

    /** Unmask the main part of the package into alignedSecretBuffer. */
    method Unmask(aligned: nat) returns (ok: bool)
      requires Valid() && aligned <= alignedSecretBuffer.Length && aligned % crypto.wordSize == 0
      requires aligned <= erasureCodingData.Length
      modifies alignedSecretBuffer
      ensures ok && alignedSecretBuffer[..aligned] ==
                    Xored(f, crypto.encrypt(SizeConstant(aligned), key[..]), erasureCodingData[..aligned])
    {
      ghost var before := alignedSecretBuffer[..];
      BlockMultiple(aligned, crypto.wordSize, crypto.blockSize);
      ConstantPrefix();
      ok := EncryptWithKey(alignedSizeConstant[..aligned], alignedSecretBuffer);
      if !ok {
        return;
      }
      XorRegion(f, erasureCodingData[..aligned], alignedSecretBuffer, 0);
      ghost var secret := Xored(f, crypto.encrypt(SizeConstant(aligned), key[..]), erasureCodingData[..aligned]);
      assert alignedSecretBuffer[..] == Spliced(before, 0, secret);
      assert alignedSecretBuffer[..aligned] == secret;
    }

    /** Compare the key with the hash of the secret, which goes to the front of erasureCodingData. */
    method CheckKey(aligned: nat) returns (ok: bool)
      requires Valid() && aligned <= alignedSecretBuffer.Length && crypto.wordSize <= erasureCodingData.Length
      modifies erasureCodingData
      ensures ok <==> crypto.hash(alignedSecretBuffer[..aligned]) == key[..]
    {
      CopyRegion(crypto.hash(alignedSecretBuffer[..aligned]), erasureCodingData, 0);
      ok := erasureCodingData[0..crypto.wordSize] == key[..];
    }

    /** Open the package in erasureCodingData into alignedSecretBuffer and check it. */
    method OpenPackage(aligned: nat) returns (ok: bool)
      requires Valid() && aligned <= alignedSecretBuffer.Length && aligned % crypto.wordSize == 0
      requires aligned + crypto.wordSize <= erasureCodingData.Length
      modifies key, alignedSecretBuffer, erasureCodingData
      ensures var secret := Unpackage(f, crypto, old(erasureCodingData[..aligned + crypto.wordSize]));
              ok == secret.Some? && (ok ==> alignedSecretBuffer[..aligned] == secret.value)
    {
      ghost var package := erasureCodingData[..aligned + crypto.wordSize];
      assert package[..aligned] == erasureCodingData[..aligned];
      assert package[aligned..] == erasureCodingData[aligned..aligned + crypto.wordSize];
      RecoverKey(aligned);
      ok := Unmask(aligned);
      ok := CheckKey(aligned);
    }

    /** Decode the secret from k shares.  The package is the one that explains the shares. */
    method CaontRSDecoding(shareBuffer: Bytes, ids: seq<nat>, shareSize: nat, secretSize: nat, secretBuffer: array<bv8>)
      returns (ok: bool, ghost package: Bytes)
      requires Valid() && ShareIDs(ids, k, n)
      requires shareSize * k <= |shareBuffer| && secretSize <= secretBuffer.Length
      requires secretBuffer !in Buffers() && secretBuffer != alignedSizeConstant
      modifies Buffers(), secretBuffer
      ensures Valid()
      ensures !ok ==> secretBuffer[..] == old(secretBuffer[..])
      ensures if shareSize % crypto.wordSize == 0 && shareSize * k <= erasureCodingData.Length &&
                 secretSize <= shareSize * k - crypto.wordSize <= alignedSecretBuffer.Length
              then && Explains(f, n, m, ids, package, Blocks(shareBuffer, k, shareSize), shareSize)
                   && ok == Unpackage(f, crypto, package).Some?
                   && (ok ==> secretBuffer[..secretSize] == Unpackage(f, crypto, package).value[..secretSize])
              else !ok
    {
      var w := crypto.wordSize;
      package := [];
      if shareSize % w != 0 {
        return false, package;
      }
      if erasureCodingData.Length < shareSize * k {
        return false, package;
      }
      var aligned := shareSize * k - w;
      if alignedSecretBuffer.Length < aligned {
        return false, package;
      }
      if secretSize > aligned {
        return false, package;
      }
      ok := InvertSelected(ids);
      if !ok {
        return;
      }
      RecoverPackage(shareBuffer, shareSize);
      package := erasureCodingData[..shareSize * k];
      RecoveredExplains(f, n, m, ids, package, Blocks(shareBuffer, k, shareSize), shareSize, Rows(inverseMatrix));
      RowMultiple(shareSize, k, w);
      ok := OpenPackage(aligned);
      if !ok {
        return;
      }
      CopyRegion(alignedSecretBuffer[..secretSize], secretBuffer, 0);
      assert secretBuffer[..secretSize] == secretBuffer[..][0..secretSize]
             == alignedSecretBuffer[..aligned][..secretSize];
    }
  }

  lemma RowMultiple(size: nat, k: nat, w: nat)
    requires w > 0 && size % w == 0 && size * k >= w
    ensures (size * k - w) % w == 0
  {
    var t := size / w;
    assert size == w * t;
    MultiplyAssociates(w, t, k);
    Distribute(w, t * k - 1, 1);
    assert t * k != 0;
    DivideExact(w, t * k - 1);
  }

  /** Encode a secret with a codec in any earlier state, and keep the shares numbered ids. */
  method Disperse(codec: Codec, secret: Bytes, ids: seq<nat>) returns (received: Bytes, shareSize: nat)
    requires codec.Valid() && ShareIDs(ids, codec.k, codec.n) && |secret| <= MAX_SECRET_SIZE
    modifies codec.Buffers()
    ensures codec.Valid()
    ensures shareSize == EncodedShareSize(codec.crypto, codec.k, |secret|) && |received| == shareSize * codec.k
    ensures Blocks(received, codec.k, shareSize) ==
            SelectRows(EncodedShares(codec.f, codec.crypto, codec.n, codec.m, secret), ids)
  {
    var shareBuffer := new bv8[EncodedShareSize(codec.crypto, codec.k, |secret|) * codec.n];
    var ok;
    ghost var package;
    ok, shareSize, package := codec.CaontRSEncoding(secret, shareBuffer);
    received := Received(shareBuffer[..], ids, codec.n, shareSize);
  }

  /** Decode shares of a secret with a codec in any earlier state. */
  method Restore(codec: Codec, received: Bytes, ids: seq<nat>, shareSize: nat, secretSize: nat, ghost secret: Bytes)
    returns (ok: bool, restored: Bytes)
    requires codec.Valid() && ShareIDs(ids, codec.k, codec.n)
    requires |secret| == secretSize <= MAX_SECRET_SIZE
    requires shareSize == EncodedShareSize(codec.crypto, codec.k, secretSize) && |received| == shareSize * codec.k
    requires Blocks(received, codec.k, shareSize) ==
             SelectRows(EncodedShares(codec.f, codec.crypto, codec.n, codec.m, secret), ids)
    modifies codec.Buffers()
    ensures ok && restored == secret
  {
    var c, k := codec.crypto, codec.k;
    var out := new bv8[secretSize];
    BuffersSuffice(secretSize, c.wordSize, k);
    AlignedShareSize(secretSize, c.wordSize, k);
    ShareSizeMultiple(AlignedSize(secretSize, c.wordSize, k), c.wordSize, k);
    assert secretSize <= shareSize * k - c.wordSize <= codec.alignedSecretBuffer.Length;
    ghost var package;
    ok, package := codec.CaontRSDecoding(received, ids, shareSize, secretSize, out);
    AnySharesRestore(codec.f, c, codec.n, codec.m, ids, secret, package);
    restored := out[..];
    assert out[..secretSize] == out[..];
  }

  /** Dispersing a secret and restoring it from any k shares gives it back, whatever the
      codecs' buffers held before. */
  method DisperseAndRestore(encoder: Codec, decoder: Codec, secret: Bytes, ids: seq<nat>)
    returns (ok: bool, restored: Bytes)
    requires encoder.Valid() && decoder.Valid()
    requires encoder.n == decoder.n && encoder.m == decoder.m && encoder.f == decoder.f
    requires encoder.crypto == decoder.crypto
    requires decoder.alignedSizeConstant !in encoder.Buffers() && decoder.distributionMatrix !in encoder.Buffers()
    requires ShareIDs(ids, encoder.k, encoder.n) && |secret| <= MAX_SECRET_SIZE
    modifies encoder.Buffers(), decoder.Buffers()
    ensures ok && restored == secret
  {
    var received, shareSize := Disperse(encoder, secret, ids);
    ok, restored := Restore(decoder, received, ids, shareSize, |secret|, secret);
  }

  lemma ShareSizeMultiple(aligned: nat, w: nat, k: nat)
    requires w > 0 && k > 0
    ensures ShareSize(aligned, w, k) % w == 0
  {
    var t := (aligned / w + 1) / k;
    DivideExact(w, t);
  }

  /** Writing a word and then another one over it. */
  lemma TwoRegions(e: Bytes, offset: nat, x: Bytes, y: Bytes)
    requires |x| == |y| && offset + |x| <= |e|
    ensures Spliced(Spliced(e, offset, x), offset, y)[..offset + |y|] == e[..offset] + y
    ensures Spliced(e, offset, x)[offset..offset + |x|] == x
  {
  }

  lemma BlockMultiple(x: nat, w: nat, b: nat)
    requires w > 0 && b > 0 && x % w == 0 && w % b == 0
    ensures x % b == 0
  {
    var t, u := x / w, w / b;
    assert x == w * t && w == b * u;
    MultiplyAssociates(b, u, t);
    DivideExact(b, u * t);
  }

  /** Store the identity in the first k rows and the Cauchy matrix in the last m. */
  method FillDistributionMatrix(f: Field<bv8>, n: nat, m: nat, d: array2<bv8>)
    requires m < n <= 256 && d.Length0 == n && d.Length1 == n - m
    modifies d
    ensures Rows(d) == Systematic(f, n, m)
  {
    var k := n - m;
    ghost var goal := Systematic(f, n, m);
    for i := 0 to k
      invariant forall r, c :: 0 <= r < i && 0 <= c < k ==> d[r, c] == goal[r][c]
    {
      for j := 0 to k
        invariant forall r, c :: 0 <= r < i && 0 <= c < k ==> d[r, c] == goal[r][c]
        invariant forall c :: 0 <= c < j ==> d[i, c] == goal[i][c]
      {
        d[i, j] := if i == j then f.one else f.zero;
      }
    }
    for i := 0 to m
      invariant forall r, c :: 0 <= r < k + i && 0 <= c < k ==> d[r, c] == goal[r][c]
    {
      var row := k + i;
      for j := 0 to k
        invariant forall r, c :: 0 <= r < row && 0 <= c < k ==> d[r, c] == goal[r][c]
        invariant forall c :: 0 <= c < j ==> d[row, c] == goal[row][c]
      {
        var sum := f.add(Element(i), Element(m + j));
        d[row, j] := f.divide(f.one, sum);
      }
    }
    EqualEntries(Rows(d), goal, n, k);
  }
}
