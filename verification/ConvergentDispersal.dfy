/** What CAONT-RS computes: the padded secret becomes an all-or-nothing package, the
    package is cut into k blocks, and the blocks are multiplied by the distribution
    matrix.  The theorems say that any k shares determine the secret, and that only
    shares made by the encoder are accepted. */
module ConvergentDispersal {
  import opened Arithmetic
  import opened Wrappers
  import opened GaloisField
  import opened Matrix
  import opened Distribution
  import opened Regions

  const MAX_SECRET_SIZE: nat := 65536

  /** The hash and the cipher are arbitrary functions of the right lengths. */
  datatype Crypto = Crypto(
    hash: Bytes -> Bytes,
    encrypt: (Bytes, Bytes) -> Bytes,
    wordSize: nat,
    blockSize: nat)
  {
    ghost predicate Valid() {
      && 0 < blockSize && 0 < wordSize && wordSize % blockSize == 0
      && (forall x :: |hash(x)| == wordSize)
      && (forall x, key :: |encrypt(x, key)| == |x|)
    }
  }

  // ---------------------------------------------------------------- sizes

  /** The secret is padded until it fills, with one more word, whole rows of k words. */
  function AlignedSize(size: nat, w: nat, k: nat): (r: nat)
    requires w * k > 0
    ensures size <= r
  {
    if (size + w) % (w * k) == 0 then size else
      assert (w * k) * ((size + w) / (w * k) + 1) > size + w;
      (w * k) * ((size + w) / (w * k) + 1) - w
  }

  function ShareSize(aligned: nat, w: nat, k: nat): nat
    requires w > 0 && k > 0
  {
    w * ((aligned / w + 1) / k)
  }

  function AlignedSecretBufferSize(w: nat, k: nat): nat {
    MAX_SECRET_SIZE + w * k
  }

  function ErasureCodingDataSize(w: nat, k: nat): nat
    requires w > 0 && k > 0
  {
    (w * ((AlignedSecretBufferSize(w, k) / w + 1) / k)) * k
  }

  /** The aligned secret and one word are t rows of k words, for the least t that covers the secret. */
  lemma AlignedRows(size: nat, w: nat, k: nat) returns (t: nat)
    requires w > 0 && k > 0 && w * k > 0
    ensures t > 0 && AlignedSize(size, w, k) + w == (w * k) * t
    ensures (w * k) * (t - 1) < size + w <= (w * k) * t
  {
    var q := w * k;
    t := if (size + w) % q == 0 then (size + w) / q else (size + w) / q + 1;
    assert size + w == q * ((size + w) / q) + (size + w) % q;
    Distribute(q, t - 1, 1);
  }

  /** A package of t rows of k words has shares of t words. */
  lemma SizeFromRows(aligned: nat, w: nat, k: nat, t: nat)
    requires w > 0 && k > 0 && t > 0 && aligned + w == (w * k) * t
    ensures ShareSize(aligned, w, k) == w * t
    ensures k * ShareSize(aligned, w, k) == ShareSize(aligned, w, k) * k == aligned + w
    ensures aligned % w == 0
  {
    var rows := k * t;
    assert (w * k) * t == w * rows by { MultiplyAssociates(w, k, t); }
    Distribute(w, rows - 1, 1);
    assert aligned == w * (rows - 1);
    DivideExact(w, rows - 1);
    DivideExact(k, t);
    MultiplyAssociates(k, w, t);
    assert k * w == w * k;
  }

  /** A secret of at most MAX_SECRET_SIZE bytes fits the aligned secret buffer, and
      the package of anything that fits there fits the erasure coding buffer. */
  lemma BuffersSuffice(size: nat, w: nat, k: nat)
    requires w > 0 && k > 0 && w * k > 0
    ensures size <= MAX_SECRET_SIZE ==> AlignedSize(size, w, k) <= AlignedSecretBufferSize(w, k)
    ensures AlignedSize(size, w, k) <= AlignedSecretBufferSize(w, k) ==>
              AlignedSize(size, w, k) + w <= ErasureCodingDataSize(w, k)
  {
    var q := w * k;
    var t := AlignedRows(size, w, k);
    Distribute(q, t - 1, 1);
    if AlignedSize(size, w, k) <= AlignedSecretBufferSize(w, k) {
      // t-1 rows of words are covered by the largest secret and one word
      MultiplyAssociates(w, k, t - 1);
      DivideBound(w, k * (t - 1), MAX_SECRET_SIZE + w);
      DivideShift(w, MAX_SECRET_SIZE, 1);
      DivideBound(k, t - 1, MAX_SECRET_SIZE / w + 1);
      // the constructor allows for one row more than that
      ConstructorRows(w, k);
      ScaleMonotone(q, t, (MAX_SECRET_SIZE / w + 1) / k + 1);
    }
  }

  lemma ConstructorRows(w: nat, k: nat)
    requires w > 0 && k > 0
    ensures ErasureCodingDataSize(w, k) == (w * k) * ((MAX_SECRET_SIZE / w + 1) / k + 1)
  {
    var big := MAX_SECRET_SIZE / w;
    DivideShift(w, MAX_SECRET_SIZE, k);
    assert AlignedSecretBufferSize(w, k) / w == big + k;
    DivideShift(k, big + 1, 1);
    var e := (big + 1) / k + 1;
    assert (big + k + 1) / k == e;
    MultiplyAssociates(w, k, e);
    MultiplyAssociates(w, e, k);
  }

  // ---------------------------------------------------------------- the package

  function Padded(secret: Bytes, size: nat): (r: Bytes)
    requires |secret| <= size
    ensures |r| == size && r[..|secret|] == secret && forall i :: |secret| <= i < size ==> r[i] == 0
  {
    secret + seq(size - |secret|, i => 0 as bv8)
  }

  /** Copy a secret into a buffer and fill up with zeros. */
  method CopyPadded(secret: Bytes, buffer: array<bv8>, size: nat)
    requires |secret| <= size <= buffer.Length
    modifies buffer
    ensures buffer[..size] == Padded(secret, size)
  {
    CopyRegion(secret, buffer, 0);
    if size != |secret| {
      CopyRegion(seq(size - |secret|, i => 0), buffer, |secret|);
    }
    assert buffer[..size] == buffer[..][..size] == Padded(secret, size);
  }

  /** The block that is encrypted: byte i holds i modulo 256. */
  function SizeConstant(size: nat): (r: Bytes)
    ensures |r| == size
  {
    seq(size, i requires 0 <= i < size => Element(i % 256))
  }

  function Xored(f: Field<bv8>, u: Bytes, v: Bytes): (r: Bytes)
    requires |u| == |v|
    ensures |r| == |u|
  {
    AddRows(f, u, v)
  }

  /** The all-or-nothing package of an aligned secret: the masked secret, then the masked key. */
  function Package(f: Field<bv8>, c: Crypto, aligned: Bytes): (r: Bytes)
    requires c.Valid()
    ensures |r| == |aligned| + c.wordSize
  {
    var key := c.hash(aligned);
    var main := Xored(f, c.encrypt(SizeConstant(|aligned|), key), aligned);
    main + Xored(f, c.hash(main), key)
  }

  /** Open a package; the hash of what comes out must be the key that opened it. */
  function Unpackage(f: Field<bv8>, c: Crypto, package: Bytes): (r: Option<Bytes>)
    requires c.Valid() && |package| >= c.wordSize
    ensures r.Some? ==> |r.value| == |package| - c.wordSize
  {
    var size := |package| - c.wordSize;
    var main, tail := package[..size], package[size..];
    var key := Xored(f, c.hash(main), tail);
    var aligned := Xored(f, c.encrypt(SizeConstant(size), key), main);
    if c.hash(aligned) == key then Some(aligned) else None
  }

  lemma XoredTwice(f: Field<bv8>, u: Bytes, v: Bytes)
    requires IsField(f) && |u| == |v|
    ensures Xored(f, u, Xored(f, u, v)) == v
  {
    forall i | 0 <= i < |u| ensures f.add(u[i], f.add(u[i], v[i])) == v[i] {
      AddTwice(f, v[i], u[i]);
    }
  }

  /** Opening a package gives back the secret it was made from. */
  lemma UnpackagePackage(f: Field<bv8>, c: Crypto, aligned: Bytes)
    requires IsField(f) && c.Valid()
    ensures Unpackage(f, c, Package(f, c, aligned)) == Some(aligned)
  {
    var key := c.hash(aligned);
    var mask := c.encrypt(SizeConstant(|aligned|), key);
    var main := Xored(f, mask, aligned);
    var package := Package(f, c, aligned);
    assert package[..|aligned|] == main && package[|aligned|..] == Xored(f, c.hash(main), key);
    XoredTwice(f, c.hash(main), key);
    XoredTwice(f, mask, aligned);
  }

  /** Whatever opens is the package of what comes out. */
  lemma PackageUnpackage(f: Field<bv8>, c: Crypto, package: Bytes)
    requires IsField(f) && c.Valid() && |package| >= c.wordSize
    requires Unpackage(f, c, package).Some?
    ensures Package(f, c, Unpackage(f, c, package).value) == package
  {
    var size := |package| - c.wordSize;
    var main, tail := package[..size], package[size..];
    var key := Xored(f, c.hash(main), tail);
    XoredTwice(f, c.encrypt(SizeConstant(size), key), main);
    XoredTwice(f, c.hash(main), tail);
    assert package == main + tail;
  }

  // ---------------------------------------------------------------- shares

  /** The shares of a package: one row of the distribution matrix each. */
  function SharesOf(f: Field<bv8>, n: nat, m: nat, package: Bytes, size: nat): (r: Mat<bv8>)
    requires m < n <= 256 && |package| == size * (n - m)
    ensures Shape(r, n, size)
  {
    Product(f, Systematic(f, n, m), Blocks(package, n - m, size), n - m, size)
  }

  /** Share r < k of a package is its block r. */
  lemma DataShare(f: Field<bv8>, n: nat, m: nat, package: Bytes, size: nat, r: nat)
    requires IsField(f) && m < n <= 256 && |package| == size * (n - m) && r < n - m
    ensures SharesOf(f, n, m, package, size)[r] == Block(package, r, n - m, size)
  {
    CombineUnitRow(f, r, Blocks(package, n - m, size), size);
  }

  /** The package whose shares numbered ids are the given ones. */
  ghost predicate Explains(f: Field<bv8>, n: nat, m: nat, ids: seq<nat>, package: Bytes, shares: Mat<bv8>, size: nat) {
    && m < n <= 256 && ShareIDs(ids, n - m, n) && |package| == size * (n - m)
    && Product(f, Submatrix(f, n, m, ids), Blocks(package, n - m, size), n - m, size) == shares
  }

  lemma SelectedShares(f: Field<bv8>, n: nat, m: nat, ids: seq<nat>, package: Bytes, size: nat)
    requires m < n <= 256 && ShareIDs(ids, n - m, n) && |package| == size * (n - m)
    ensures SelectRows(SharesOf(f, n, m, package, size), ids) ==
            Product(f, Submatrix(f, n, m, ids), Blocks(package, n - m, size), n - m, size)
  {
    var all, some := SharesOf(f, n, m, package, size), Submatrix(f, n, m, ids);
    forall t | 0 <= t < |ids|
      ensures all[ids[t]] == Combine(f, some[t], Blocks(package, n - m, size), size)
    {
      assert some[t] == Systematic(f, n, m)[ids[t]];
    }
  }

  /** Multiplying k shares by the inverse of their rows recovers the package. */
  lemma InverseRecovers(f: Field<bv8>, n: nat, m: nat, ids: seq<nat>, package: Bytes, shares: Mat<bv8>, size: nat,
                        inverse: Mat<bv8>)
    requires IsField(f) && Explains(f, n, m, ids, package, shares, size)
    requires Inverses(f, Submatrix(f, n, m, ids), inverse, n - m)
    ensures Product(f, inverse, shares, n - m, size) == Blocks(package, n - m, size)
  {
    var k, blocks := n - m, Blocks(package, n - m, size);
    ProductAssociates(f, inverse, Submatrix(f, n, m, ids), blocks, k, k, size);
    ProductIdentity(f, blocks, size);
  }

  /** Any k shares determine the package. */
  lemma SharesDeterminePackage(f: Field<bv8>, n: nat, m: nat, ids: seq<nat>, p: Bytes, q: Bytes, shares: Mat<bv8>,
                               size: nat)
    requires IsField(f) && Explains(f, n, m, ids, p, shares, size) && Explains(f, n, m, ids, q, shares, size)
    ensures p == q
  {
    AnyRowsInvertible(f, n, m, ids);
    var inverse :| Inverses(f, Submatrix(f, n, m, ids), inverse, n - m);
    InverseRecovers(f, n, m, ids, p, shares, size, inverse);
    InverseRecovers(f, n, m, ids, q, shares, size, inverse);
    BlocksInjective(p, q, n - m, size);
  }

  /** Conversely the product with the inverse is a package that explains the shares it came from. */
  lemma RecoveredExplains(f: Field<bv8>, n: nat, m: nat, ids: seq<nat>, package: Bytes, shares: Mat<bv8>, size: nat,
                          inverse: Mat<bv8>)
    requires IsField(f) && m < n <= 256 && ShareIDs(ids, n - m, n) && |package| == size * (n - m)
    requires Shape(shares, n - m, size)
    requires Inverses(f, Submatrix(f, n, m, ids), inverse, n - m)
    requires Blocks(package, n - m, size) == Product(f, inverse, shares, n - m, size)
    ensures Explains(f, n, m, ids, package, shares, size)
  {
    var k := n - m;
    ProductAssociates(f, Submatrix(f, n, m, ids), inverse, shares, k, k, size);
    ProductIdentity(f, shares, size);
  }

  /** The received shares one after the other. */
  function Received(all: Bytes, ids: seq<nat>, n: nat, size: nat): (r: Bytes)
    requires size * n <= |all| && forall t :: 0 <= t < |ids| ==> ids[t] < n
    ensures |r| == size * |ids|
    ensures Blocks(r, |ids|, size) == SelectRows(Blocks(all, n, size), ids)
  {
    if ids == [] then [] else
      var last := |ids| - 1;
      var front := Received(all, ids[..last], n, size);
      Distribute(size, last, 1);
      var r := front + Block(all, ids[last], n, size);
      assert Blocks(r, |ids|, size) == SelectRows(Blocks(all, n, size), ids) by {
        forall j | 0 <= j < |ids| ensures Block(r, j, |ids|, size) == Block(all, ids[j], n, size) {
          BlockFits(j, |ids|, size);
          if j < last {
            BlockFits(j, last, size);
            assert Block(front, j, last, size) == Blocks(front, last, size)[j] == Block(all, ids[j], n, size);
          }
        }
      }
      r
  }

  /** The aligned secret that encoding starts from. */
  function AlignedSecret(c: Crypto, k: nat, secret: Bytes): (r: Bytes)
    requires c.Valid() && k > 0
    ensures c.wordSize * k > 0 && |r| == AlignedSize(|secret|, c.wordSize, k)
    ensures r[..|secret|] == secret && forall i {:trigger r[i]} :: |secret| <= i < |r| ==> r[i] == 0
  {
    assert c.wordSize * k > 0;
    Padded(secret, AlignedSize(|secret|, c.wordSize, k))
  }

  lemma AlignedShareSize(size: nat, w: nat, k: nat)
    requires w > 0 && k > 0 && w * k > 0
    ensures var aligned := AlignedSize(size, w, k);
            ShareSize(aligned, w, k) * k == aligned + w && aligned % w == 0
  {
    var t := AlignedRows(size, w, k);
    SizeFromRows(AlignedSize(size, w, k), w, k, t);
  }

  /** All n shares of a secret. */
  function EncodedShares(f: Field<bv8>, c: Crypto, n: nat, m: nat, secret: Bytes): (r: Mat<bv8>)
    requires c.Valid() && m < n <= 256
    ensures Shape(r, n, EncodedShareSize(c, n - m, |secret|))
  {
    var k := n - m;
    var aligned := AlignedSecret(c, k, secret);
    AlignedShareSize(|secret|, c.wordSize, k);
    SharesOf(f, n, m, Package(f, c, aligned), ShareSize(|aligned|, c.wordSize, k))
  }

  function EncodedShareSize(c: Crypto, k: nat, secretSize: nat): nat
    requires c.Valid() && k > 0
  {
    assert c.wordSize * k > 0;
    ShareSize(AlignedSize(secretSize, c.wordSize, k), c.wordSize, k)
  }

  /** Whatever package explains k shares of a secret opens to that secret and its padding. */
  lemma AnySharesRestore(f: Field<bv8>, c: Crypto, n: nat, m: nat, ids: seq<nat>, secret: Bytes, package: Bytes)
    requires IsField(f) && c.Valid() && m < n <= 256 && ShareIDs(ids, n - m, n)
    requires Explains(f, n, m, ids, package, SelectRows(EncodedShares(f, c, n, m, secret), ids),
                      EncodedShareSize(c, n - m, |secret|))
    ensures |package| >= c.wordSize
    ensures Unpackage(f, c, package) == Some(AlignedSecret(c, n - m, secret))
    ensures AlignedSecret(c, n - m, secret)[..|secret|] == secret
  {
    var k := n - m;
    var aligned, size := AlignedSecret(c, k, secret), EncodedShareSize(c, k, |secret|);
    AlignedShareSize(|secret|, c.wordSize, k);
    var original := Package(f, c, aligned);
    SelectedShares(f, n, m, ids, original, size);
    SharesDeterminePackage(f, n, m, ids, package, original, SelectRows(EncodedShares(f, c, n, m, secret), ids), size);
    UnpackagePackage(f, c, aligned);
  }

  /** Shares whose package opens are the encoder's shares of what comes out. */
  lemma AcceptedSharesAreEncoded(f: Field<bv8>, c: Crypto, n: nat, m: nat, ids: seq<nat>, package: Bytes,
                                 shares: Mat<bv8>, size: nat)
    requires IsField(f) && c.Valid() && Explains(f, n, m, ids, package, shares, size)
    requires size % c.wordSize == 0 && |package| >= c.wordSize && Unpackage(f, c, package).Some?
    ensures var aligned := Unpackage(f, c, package).value;
            AlignedSecret(c, n - m, aligned) == aligned
            && SelectRows(EncodedShares(f, c, n, m, aligned), ids) == shares
  {
    var aligned := Unpackage(f, c, package).value;
    ExactRows(|aligned|, size, c.wordSize, n - m);
    assert Padded(aligned, |aligned|) == aligned;
    PackageUnpackage(f, c, package);
    SelectedShares(f, n, m, ids, package, size);
  }

  /** A secret that already fills whole rows of words is not padded. */
  lemma ExactRows(length: nat, size: nat, w: nat, k: nat)
    requires w > 0 && k > 0 && w * k > 0 && size % w == 0 && length + w == size * k
    ensures AlignedSize(length, w, k) == length && ShareSize(length, w, k) == size
  {
    var t := size / w;
    assert size == w * t;
    assert size * k == (w * k) * t by { MultiplyAssociates(w, t, k); MultiplyAssociates(w, k, t); }
    assert t != 0;
    DivideExact(w * k, t);
    SizeFromRows(length, w, k, t);
  }
}
