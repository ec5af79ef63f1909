/** What the package and the shares of CAONT-RS are, byte by byte. */
module ShareBytes {
  import opened GaloisField
  import opened Matrix
  import opened Cauchy
  import opened Distribution
  import opened Regions
  import opened ConvergentDispersal

  // ---------------------------------------------------------------- the package

  /** Byte i holds i modulo 256. */
  ghost predicate CountsUp(block: Bytes) {
    forall i {:trigger block[i]} :: 0 <= i < |block| ==> block[i] as int == i % 256
  }

  /** The main part of a package, byte by byte: the secret under the cipher stream of its hash. */
  ghost predicate MasksSecret(c: Crypto, aligned: Bytes, package: Bytes)
    requires c.Valid() && |package| == |aligned| + c.wordSize
  {
    exists block {:trigger CountsUp(block)} ::
      && |block| == |aligned| && CountsUp(block)
      && forall i {:trigger package[i]} :: 0 <= i < |aligned| ==>
           package[i] == c.encrypt(block, c.hash(aligned))[i] ^ aligned[i]
  }

  /** The tail of a package, byte by byte: the key under the hash of the main part. */
  ghost predicate MasksKey(c: Crypto, aligned: Bytes, package: Bytes)
    requires c.Valid() && |package| == |aligned| + c.wordSize
  {
    forall j :: 0 <= j < c.wordSize ==>
      package[|aligned| + j] == c.hash(package[..|aligned|])[j] ^ c.hash(aligned)[j]
  }

  ghost predicate Masks(c: Crypto, aligned: Bytes, package: Bytes)
    requires c.Valid()
  {
    |package| == |aligned| + c.wordSize && MasksSecret(c, aligned, package) && MasksKey(c, aligned, package)
  }

  lemma SizeConstantCounts(size: nat)
    ensures CountsUp(SizeConstant(size))
  {
    forall i | 0 <= i < size ensures SizeConstant(size)[i] as int == i % 256 {
      ElementValue(i % 256);
    }
  }

  /** The package is the masked secret and the masked key. */
  lemma PackageMasks(f: Field<bv8>, c: Crypto, aligned: Bytes)
    requires c.Valid() && f == GF256(f.multiply, f.divide)
    ensures Masks(c, aligned, Package(f, c, aligned))
  {
    SizeConstantCounts(|aligned|);
    var package := Package(f, c, aligned);
    var main := Xored(f, c.encrypt(SizeConstant(|aligned|), c.hash(aligned)), aligned);
    assert package[..|aligned|] == main;
  }

  // ---------------------------------------------------------------- the shares

  /** Byte p of block j of a package. */
  ghost function PackageByte(package: Bytes, k: nat, size: nat, j: nat, p: nat): bv8
    requires |package| == size * k && j < k && p < size
  {
    BlockFits(j, k, size);
    package[size * j + p]
  }

  ghost function XorAll(terms: Bytes): bv8 {
    if terms == [] then 0 else XorAll(terms[..|terms| - 1]) ^ terms[|terms| - 1]
  }

  /** Byte p of parity share i: the exclusive or of the products of byte p of each block with 1 / (i ^ (m + j)). */
  ghost function ParityByte(f: Field<bv8>, m: nat, k: nat, i: nat, package: Bytes, size: nat, p: nat): bv8
    requires i < m && m + k <= 256 && |package| == size * k && p < size
  {
    XorAll(seq(k, j requires 0 <= j < k =>
      f.multiply(f.divide(1, Element(i) ^ Element(m + j)), PackageByte(package, k, size, j, p))))
  }

  ghost predicate IsData(k: nat, i: nat, package: Bytes, size: nat, share: Bytes)
    requires |package| == size * k && i < k
  {
    |share| == size && forall p {:trigger share[p]} :: 0 <= p < size ==> share[p] == PackageByte(package, k, size, i, p)
  }

  ghost predicate IsParity(f: Field<bv8>, m: nat, k: nat, i: nat, package: Bytes, size: nat, share: Bytes)
    requires i < m && m + k <= 256 && |package| == size * k
  {
    && |share| == size
    && forall p {:trigger share[p]} :: 0 <= p < size ==> share[p] == ParityByte(f, m, k, i, package, size, p)
  }

  /** The shares of a package, byte by byte: its blocks, and their Cauchy sums. */
  ghost predicate SharesByByte(f: Field<bv8>, n: nat, m: nat, package: Bytes, size: nat, shares: Mat<bv8>) {
    && m < n <= 256 && |package| == size * (n - m) && |shares| == n
    && forall i {:trigger shares[i]} :: 0 <= i < n ==>
         if i < n - m then IsData(n - m, i, package, size, shares[i])
         else IsParity(f, m, n - m, i - (n - m), package, size, shares[i])
  }

  ghost function Terms(f: Field<bv8>, u: Bytes, y: Mat<bv8>, p: nat): Bytes
    requires |u| == |y| && forall j :: 0 <= j < |y| ==> p < |y[j]|
  {
    seq(|u|, j requires 0 <= j < |u| => f.multiply(u[j], y[j][p]))
  }

  lemma {:induction false} CombineByte(f: Field<bv8>, u: Bytes, y: Mat<bv8>, size: nat, p: nat)
    requires f == GF256(f.multiply, f.divide) && Shape(y, |u|, size) && p < size
    ensures Combine(f, u, y, size)[p] == XorAll(Terms(f, u, y, p))
  {
    if u != [] {
      var n := |u| - 1;
      CombineByte(f, u[..n], y[..n], size, p);
      assert Terms(f, u, y, p)[..n] == Terms(f, u[..n], y[..n], p);
    }
  }

  lemma ParityIs(f: Field<bv8>, m: nat, k: nat, i: nat, package: Bytes, size: nat, p: nat)
    requires f == GF256(f.multiply, f.divide) && i < m && m + k <= 256 && |package| == size * k && p < size
    ensures Combine(f, CauchyRow(f, Element(i), Elements(m, k)), Blocks(package, k, size), size)[p]
            == ParityByte(f, m, k, i, package, size, p)
  {
    var row, blocks := CauchyRow(f, Element(i), Elements(m, k)), Blocks(package, k, size);
    CombineByte(f, row, blocks, size, p);
    var terms := seq(k, j requires 0 <= j < k =>
      f.multiply(f.divide(1, Element(i) ^ Element(m + j)), PackageByte(package, k, size, j, p)));
    forall j | 0 <= j < k ensures Terms(f, row, blocks, p)[j] == terms[j] {
      BlockFits(j, k, size);
    }
    assert Terms(f, row, blocks, p) == terms;
  }

  lemma DataShareIs(f: Field<bv8>, n: nat, m: nat, package: Bytes, size: nat, i: nat)
    requires IsField(f) && m < n <= 256 && |package| == size * (n - m) && i < n - m
    ensures IsData(n - m, i, package, size, SharesOf(f, n, m, package, size)[i])
  {
    DataShare(f, n, m, package, size, i);
    BlockFits(i, n - m, size);
  }

  lemma ParityShareIs(f: Field<bv8>, n: nat, m: nat, package: Bytes, size: nat, i: nat)
    requires f == GF256(f.multiply, f.divide) && m < n <= 256 && |package| == size * (n - m) && i < m
    ensures IsParity(f, m, n - m, i, package, size, SharesOf(f, n, m, package, size)[n - m + i])
  {
    ParityShare(f, n, m, package, size, i);
    var k, share := n - m, SharesOf(f, n, m, package, size)[n - m + i];
    forall p | 0 <= p < size ensures share[p] == ParityByte(f, m, k, i, package, size, p) {
      ParityIs(f, m, k, i, package, size, p);
    }
  }

  lemma ParityShare(f: Field<bv8>, n: nat, m: nat, package: Bytes, size: nat, i: nat)
    requires m < n <= 256 && |package| == size * (n - m) && i < m
    ensures SharesOf(f, n, m, package, size)[n - m + i]
            == Combine(f, CauchyRow(f, Element(i), Elements(m, n - m)), Blocks(package, n - m, size), size)
  {
    var matrix, blocks := Systematic(f, n, m), Blocks(package, n - m, size);
    assert matrix[n - m + i] == CauchyRow(f, Element(i), Elements(m, n - m));
    assert Product(f, matrix, blocks, n - m, size)[n - m + i] == Combine(f, matrix[n - m + i], blocks, size);
  }

  lemma SharesAreBytes(f: Field<bv8>, n: nat, m: nat, package: Bytes, size: nat)
    requires IsField(f) && f == GF256(f.multiply, f.divide) && m < n <= 256 && |package| == size * (n - m)
    ensures SharesByByte(f, n, m, package, size, SharesOf(f, n, m, package, size))
  {
    forall i | 0 <= i < n
      ensures var share := SharesOf(f, n, m, package, size)[i];
              if i < n - m then IsData(n - m, i, package, size, share)
              else IsParity(f, m, n - m, i - (n - m), package, size, share)
    {
      if i < n - m {
        DataShareIs(f, n, m, package, size, i);
      } else {
        ParityShareIs(f, n, m, package, size, i - (n - m));
      }
    }
  }
}
