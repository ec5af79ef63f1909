/** Byte regions: buffers cut into equal blocks, and the region operations the codec
    is built from. */
module Regions {
  import opened Arithmetic
  import opened GaloisField
  import opened Matrix

  type Bytes = seq<bv8>

  lemma BlockFits(j: nat, count: nat, size: nat)
    requires j < count
    ensures 0 <= size * j <= size * (j + 1) <= size * count
    ensures size * (j + 1) == size * j + size
  {
    Distribute(size, j, 1);
    ScaleMonotone(size, j + 1, count);
  }

  /** Block j of a buffer cut into blocks of the given size. */
  function Block(s: Bytes, j: nat, count: nat, size: nat): (r: Bytes)
    requires j < count && size * count <= |s|
    ensures |r| == size
  {
    BlockFits(j, count, size);
    s[size * j..size * (j + 1)]
  }

  function Blocks(s: Bytes, count: nat, size: nat): (r: Mat<bv8>)
    requires size * count <= |s|
    ensures Shape(r, count, size) && forall j {:trigger r[j]} :: 0 <= j < count ==> r[j] == Block(s, j, count, size)
  {
    seq(count, j requires 0 <= j < count => Block(s, j, count, size))
  }

  /** The blocks determine the bytes they cover. */
  lemma BlocksInjective(s: Bytes, t: Bytes, count: nat, size: nat)
    requires |s| == |t| == size * count && Blocks(s, count, size) == Blocks(t, count, size)
    ensures s == t
  {
    forall p | 0 <= p < |s| ensures s[p] == t[p] {
      var j, r := LocateByte(p, count, size);
      BlockFits(j, count, size);
      assert Block(s, j, count, size)[r] == s[p] && Block(t, j, count, size)[r] == t[p];
      assert Blocks(s, count, size)[j] == Blocks(t, count, size)[j];
    }
  }

  lemma LocateByte(p: nat, count: nat, size: nat) returns (j: nat, r: nat)
    requires p < size * count
    ensures j < count && r < size && p == size * j + r
  {
    j, r := p / size, p % size;
    if j >= count {
      ScaleMonotone(size, count, j);
      assert false;
    }
  }

  /** The bytes s with those from offset on replaced by x. */
  function Spliced(s: Bytes, offset: nat, x: Bytes): (r: Bytes)
    requires offset + |x| <= |s|
    ensures |r| == |s|
    ensures r[offset..offset + |x|] == x && r[..offset] == s[..offset] && r[offset + |x|..] == s[offset + |x|..]
  {
    s[..offset] + x + s[offset + |x|..]
  }

  /** dst += coef * src, or dst = coef * src, over one region. */
  method MultiplyRegion(f: Field<bv8>, src: Bytes, dst: array<bv8>, offset: nat, coef: bv8, accumulate: bool)
    requires offset + |src| <= dst.Length
    modifies dst
    ensures dst[offset..offset + |src|] ==
            (if accumulate then AddRows(f, old(dst[offset..offset + |src|]), ScaleRow(f, coef, src))
             else ScaleRow(f, coef, src))
    ensures forall p :: 0 <= p < dst.Length && !(offset <= p < offset + |src|) ==> dst[p] == old(dst[p])
  {
    for i := 0 to |src|
      invariant forall p :: 0 <= p < i ==>
        dst[offset + p] == if accumulate then f.add(old(dst[offset + p]), f.multiply(coef, src[p]))
                           else f.multiply(coef, src[p])
      invariant forall p :: 0 <= p < dst.Length && !(offset <= p < offset + i) ==> dst[p] == old(dst[p])
    {
      var x := f.multiply(coef, src[i]);
      dst[offset + i] := if accumulate then f.add(dst[offset + i], x) else x;
    }
  }

  /** Exclusive or of a region into another: multiplication by one, accumulated. */
  method XorRegion(f: Field<bv8>, src: Bytes, dst: array<bv8>, offset: nat)
    requires IsField(f) && offset + |src| <= dst.Length
    modifies dst
    ensures dst[..] == Spliced(old(dst[..]), offset, AddRows(f, old(dst[..])[offset..offset + |src|], src))
  {
    ZeroRowLaws(f, src);
    ghost var before := dst[..];
    assert before[offset..offset + |src|] == dst[offset..offset + |src|];
    MultiplyRegion(f, src, dst, offset, f.one, true);
    assert dst[..] == dst[..offset] + dst[offset..offset + |src|] + dst[offset + |src|..];
  }

  method CopyRegion(src: Bytes, dst: array<bv8>, offset: nat)
    requires offset + |src| <= dst.Length
    modifies dst
    ensures dst[..] == Spliced(old(dst[..]), offset, src)
  {
    for i := 0 to |src|
      invariant forall p :: 0 <= p < i ==> dst[offset + p] == src[p]
      invariant forall p :: 0 <= p < dst.Length && !(offset <= p < offset + i) ==> dst[p] == old(dst[p])
    {
      dst[offset + i] := src[i];
    }
  }

  /** Region `offset` becomes the combination of the blocks of src; the first term overwrites, the others accumulate. */
  method CombineRegions(f: Field<bv8>, coefs: Bytes, src: Bytes, size: nat, dst: array<bv8>, offset: nat)
    requires IsField(f) && |coefs| > 0 && size * |coefs| <= |src| && offset + size <= dst.Length
    modifies dst
    ensures dst[offset..offset + size] == Combine(f, coefs, Blocks(src, |coefs|, size), size)
    ensures forall p :: 0 <= p < dst.Length && !(offset <= p < offset + size) ==> dst[p] == old(dst[p])
  {
    var k := |coefs|;
    ghost var blocks := Blocks(src, k, size);
    for j := 0 to k
      invariant j > 0 ==> dst[offset..offset + size] == Combine(f, coefs[..j], blocks[..j], size)
      invariant forall p :: 0 <= p < dst.Length && !(offset <= p < offset + size) ==> dst[p] == old(dst[p])
    {
      BlockFits(j, k, size);
      MultiplyRegion(f, src[size * j..size * (j + 1)], dst, offset, coefs[j], j != 0);
      CombineNext(f, coefs, blocks, size, j);
    }
    assert coefs[..k] == coefs && blocks[..k] == blocks;
  }

  lemma CombineNext(f: Field<bv8>, coefs: Bytes, blocks: Mat<bv8>, size: nat, j: nat)
    requires IsField(f) && Shape(blocks, |coefs|, size) && j < |coefs|
    ensures Combine(f, coefs[..j + 1], blocks[..j + 1], size) ==
            AddRows(f, Combine(f, coefs[..j], blocks[..j], size), ScaleRow(f, coefs[j], blocks[j]))
    ensures j == 0 ==> Combine(f, coefs[..1], blocks[..1], size) == ScaleRow(f, coefs[0], blocks[0])
  {
    assert coefs[..j + 1][..j] == coefs[..j] && blocks[..j + 1][..j] == blocks[..j];
    ZeroRowLaws(f, ScaleRow(f, coefs[j], blocks[j]));
  }

  /** Bytes outside block r leave it as it was. */
  lemma OtherBlock(before: Bytes, after: Bytes, row: nat, r: nat, count: nat, size: nat)
    requires |before| == |after| && size * count <= |before| && row < count && r < count && r != row
    requires forall p :: 0 <= p < |before| && !(size * row <= p < size * row + size) ==> after[p] == before[p]
    ensures Block(after, r, count, size) == Block(before, r, count, size)
  {
    BlockFits(r, count, size);
    BlockFits(row, count, size);
    if r < row { ScaleMonotone(size, r + 1, row); } else { ScaleMonotone(size, row + 1, r); }
  }

  /** Block `row` of dst becomes the combination of the blocks of src. */
  method CombineBlock(f: Field<bv8>, coefs: Bytes, src: Bytes, size: nat, dst: array<bv8>, row: nat, count: nat)
    requires IsField(f) && |coefs| > 0 && size * |coefs| <= |src|
    requires row < count && size * count <= dst.Length
    modifies dst
    ensures Blocks(dst[..], count, size) ==
            old(Blocks(dst[..], count, size))[row := Combine(f, coefs, Blocks(src, |coefs|, size), size)]
  {
    BlockFits(row, count, size);
    ghost var before := dst[..];
    CombineRegions(f, coefs, src, size, dst, size * row);
    forall r | 0 <= r < count && r != row ensures Block(dst[..], r, count, size) == Block(before, r, count, size) {
      OtherBlock(before, dst[..], row, r, count, size);
    }
    assert Block(dst[..], row, count, size) == dst[size * row..size * row + size];
  }

  lemma BlockOfPrefix(s: Bytes, j: nat, few: nat, count: nat, size: nat)
    requires j < few <= count && size * count <= |s|
    ensures 0 <= size * few <= size * count
    ensures Block(s[..size * few], j, few, size) == Block(s, j, count, size)
  {
    BlockFits(j, few, size);
    ScaleMonotone(size, few, count);
    assert s[..size * few][size * j..size * (j + 1)] == s[size * j..size * (j + 1)];
  }

  lemma BlocksOfPrefix(s: Bytes, count: nat, size: nat)
    requires size * count <= |s|
    ensures Blocks(s[..size * count], count, size) == Blocks(s, count, size)
  {
    forall j | 0 <= j < count ensures Block(s[..size * count], j, count, size) == Block(s, j, count, size) {
      BlockOfPrefix(s, j, count, count, size);
    }
  }

  /** Writing inside a region that was written before. */
  lemma SplicedInside(s: Bytes, offset: nat, x: Bytes, at: nat, y: Bytes)
    requires at + |y| <= |x| && offset + |x| <= |s|
    ensures Spliced(Spliced(s, offset, x), offset + at, y) == Spliced(s, offset, Spliced(x, at, y))
  {
  }

  /** Writing a block replaces it among the blocks. */
  lemma SplicedBlock(s: Bytes, row: nat, count: nat, size: nat, x: Bytes)
    requires row < count && |x| == size && size * count <= |s|
    ensures 0 <= size * row && size * row + size <= |s|
    ensures Blocks(Spliced(s, size * row, x), count, size) == Blocks(s, count, size)[row := x]
  {
    BlockFits(row, count, size);
    var after := Spliced(s, size * row, x);
    forall r | 0 <= r < count && r != row ensures Block(after, r, count, size) == Block(s, r, count, size) {
      OtherBlock(s, after, row, r, count, size);
    }
  }

  /** Write block j of a region that begins at the offset. */
  method CopyInside(x: Bytes, dst: array<bv8>, offset: nat, j: nat, count: nat, ghost before: Bytes,
                    ghost region: Bytes)
    returns (ghost region': Bytes)
    requires j < count && |region| == |x| * count && offset + |region| <= dst.Length == |before|
    requires dst[..] == Spliced(before, offset, region)
    modifies dst
    ensures |region'| == |region| && dst[..] == Spliced(before, offset, region')
    ensures Blocks(region', count, |x|) == Blocks(region, count, |x|)[j := x]
  {
    SplicedBlock(region, j, count, |x|, x);
    SplicedInside(before, offset, region, |x| * j, x);
    region' := Spliced(region, |x| * j, x);
    CopyRegion(x, dst, offset + |x| * j);
  }

  /** The first j rows are the same. */
  ghost predicate AgreeUpTo(a: Mat<bv8>, b: Mat<bv8>, j: nat) {
    j <= |a| == |b| && forall r {:trigger a[r]} {:trigger b[r]} :: 0 <= r < j ==> a[r] == b[r]
  }

  lemma NextAgrees(a: Mat<bv8>, b: Mat<bv8>, j: nat)
    requires AgreeUpTo(a, b, j) && j < |a|
    ensures AgreeUpTo(a[j := b[j]], b, j + 1)
    ensures j + 1 == |a| ==> a[j := b[j]] == b
  {
  }

  /** The blocks of dst become the product of a matrix and the blocks of src. */
  method MultiplyBlocks(f: Field<bv8>, coefs: Mat<bv8>, k: nat, src: Bytes, size: nat, dst: array<bv8>)
    requires IsField(f) && Shape(coefs, |coefs|, k) && k > 0 && size * k <= |src| && size * |coefs| <= dst.Length
    modifies dst
    ensures Blocks(dst[..], |coefs|, size) == Product(f, coefs, Blocks(src, k, size), k, size)
  {
    ghost var goal := Product(f, coefs, Blocks(src, k, size), k, size);
    for i := 0 to |coefs|
      invariant AgreeUpTo(Blocks(dst[..], |coefs|, size), goal, i)
    {
      ghost var before := Blocks(dst[..], |coefs|, size);
      CombineBlock(f, coefs[i], src, size, dst, i, |coefs|);
      NextAgrees(before, goal, i);
    }
  }
}
