/** What CRSSS computes: the padded secret is cut into groups of words, each group gets
    hashes of itself, the words of all groups are spread over k data blocks, and the
    blocks are multiplied by a Cauchy matrix.  Any k shares determine the secret. */
module RampSharing {
  import opened Arithmetic
  import opened Sequences
  import opened GaloisField
  import opened Matrix
  import opened Distribution
  import opened Regions
  import opened ConvergentDispersal
  import opened ShareBytes

  /** Groups of `words` secret words, filled up with hash words for one word to a data block; the hash is
      any function to words. */
  datatype Ramp = Ramp(hash: Bytes -> Bytes, wordSize: nat, words: nat, blocks: nat, groupSize: nat)
  {
    ghost predicate Valid() {
      && 0 < wordSize && 0 < words < blocks <= 256 && 0 < groupSize == wordSize * words
      && forall x :: |hash(x)| == wordSize
    }

    /** The share size for a number of groups. */
    function Size(groups: nat): nat {
      wordSize * groups
    }
  }

  // ---------------------------------------------------------------- sizes

  /** The secret is padded to whole groups. */
  function AlignedToGroups(size: nat, group: nat): (r: nat)
    requires group > 0
  {
    if size % group == 0 then size else group * (size / group + 1)
  }

  /** The aligned secret is the least number of groups that covers the secret. */
  lemma GroupsCover(size: nat, group: nat)
    requires group > 0
    ensures var aligned := AlignedToGroups(size, group);
            aligned == group * (aligned / group) && size <= aligned < size + group
  {
    Distribute(group, size / group, 1);
    if size % group != 0 { DivideExact(group, size / group + 1); }
  }

  function GroupsOf(p: Ramp, size: nat): nat
    requires p.groupSize > 0
  {
    AlignedToGroups(size, p.groupSize) / p.groupSize
  }

  /** The aligned secret that encoding starts from. */
  function AlignedSecretOf(p: Ramp, secret: Bytes): (r: Bytes)
    requires p.groupSize > 0
    ensures |r| == p.groupSize * GroupsOf(p, |secret|) && |secret| <= |r| < |secret| + p.groupSize
    ensures r[..|secret|] == secret && forall i {:trigger r[i]} :: |secret| <= i < |r| ==> r[i] == 0
  {
    GroupsCover(|secret|, p.groupSize);
    Padded(secret, AlignedToGroups(|secret|, p.groupSize))
  }

  function CodingSize(p: Ramp): nat
    requires p.groupSize > 0
  {
    p.wordSize * ((MAX_SECRET_SIZE + p.groupSize) / p.groupSize) * p.blocks
  }

  /** Secrets up to the maximum size fit the aligned buffer, and data blocks of what fits there fit theirs. */
  lemma RampBuffersSuffice(p: Ramp, size: nat)
    requires p.groupSize > 0
    ensures var g := p.groupSize; var aligned := AlignedToGroups(size, g);
            && (size <= MAX_SECRET_SIZE ==> aligned <= MAX_SECRET_SIZE + g)
            && (aligned <= MAX_SECRET_SIZE + g ==> p.Size(aligned / g) * p.blocks <= CodingSize(p))
  {
    var g := p.groupSize;
    var aligned := AlignedToGroups(size, g);
    GroupsCover(size, g);
    if aligned <= MAX_SECRET_SIZE + g {
      DivideBound(g, aligned / g, MAX_SECRET_SIZE + g);
      ScaleMonotone(p.wordSize, aligned / g, (MAX_SECRET_SIZE + g) / g);
      ScaleMonotone(p.blocks, p.Size(aligned / g), p.Size((MAX_SECRET_SIZE + g) / g));
    }
  }

  // ---------------------------------------------------------------- spreading a secret over the blocks

  /** Word j of a group: one of its own, or a hash with a seed. */
  function WordOf(p: Ramp, group: Bytes, j: nat): (r: Bytes)
    requires p.words <= p.blocks <= 256 && |group| == p.groupSize == p.wordSize * p.words && j < p.blocks
  {
    if j < p.words then Block(group, j, p.words, p.wordSize) else p.hash(group + [Element(j - p.words)])
  }

  /** Word j of the group at an offset of a buffer. */
  lemma OwnWord(p: Ramp, buffer: Bytes, offset: nat, j: nat)
    requires p.Valid() && j < p.words && offset + p.groupSize <= |buffer|
    ensures 0 <= p.wordSize * j && p.wordSize * j + p.wordSize <= p.groupSize
    ensures buffer[offset + p.wordSize * j..offset + p.wordSize * j + p.wordSize]
            == WordOf(p, buffer[offset..offset + p.groupSize], j)
  {
    BlockFits(j, p.words, p.wordSize);
    Subslice(buffer, offset, offset + p.groupSize, p.wordSize * j, p.wordSize * (j + 1));
  }

  function HashWords(p: Ramp, group: Bytes): (r: Mat<bv8>)
    requires p.Valid() && |group| == p.groupSize
    ensures |r| == p.blocks - p.words
    ensures forall j {:trigger r[j]} :: 0 <= j < |r| ==> r[j] == WordOf(p, group, p.words + j)
  {
    seq(p.blocks - p.words, j requires 0 <= j < p.blocks - p.words => p.hash(group + [Element(j)]))
  }

  /** Cells of a table of data words: block j holds its word of group i at place i. */
  function Cell(groups: nat, blocks: nat, i: nat, j: nat): (r: nat)
    requires i < groups && j < blocks
    ensures r < groups * blocks
  {
    BlockFits(j, blocks, groups);
    groups * j + i
  }

  lemma CellsDiffer(groups: nat, blocks: nat, i: nat, j: nat, i': nat, j': nat)
    requires i < groups && i' < groups && j < blocks && j' < blocks
    ensures Cell(groups, blocks, i, j) == Cell(groups, blocks, i', j') ==> i == i' && j == j'
  {
    if j < j' {
      BlockFits(j, j', groups);
    } else if j' < j {
      BlockFits(j', j, groups);
    }
  }

  /** A table of the data words of groups of the right size. */
  ghost predicate Table(p: Ramp, groups: Mat<bv8>, words: Mat<bv8>) {
    && p.Valid() && Shape(groups, |groups|, p.groupSize) && |words| == |groups| * p.blocks
  }

  ghost predicate Placed(p: Ramp, groups: Mat<bv8>, words: Mat<bv8>, i: nat, j: nat)
    requires Table(p, groups, words)
  {
    && i < |groups| && j < p.blocks
    && words[Cell(|groups|, p.blocks, i, j)] == WordOf(p, groups[i], j)
  }

  /** The words of the first i groups and the first j of the next one are in place. */
  ghost predicate PlacedUpTo(p: Ramp, groups: Mat<bv8>, words: Mat<bv8>, i: nat, j: nat) {
    && Table(p, groups, words)
    && forall a: nat, b: nat {:trigger Placed(p, groups, words, a, b)} ::
         a < |groups| && b < p.blocks && (a < i || (a == i && b < j)) ==> Placed(p, groups, words, a, b)
  }

  lemma PlaceNext(p: Ramp, groups: Mat<bv8>, words: Mat<bv8>, i: nat, j: nat)
    requires PlacedUpTo(p, groups, words, i, j) && i < |groups| && j < p.blocks
    ensures PlacedUpTo(p, groups, words[Cell(|groups|, p.blocks, i, j) := WordOf(p, groups[i], j)], i, j + 1)
  {
    var after := words[Cell(|groups|, p.blocks, i, j) := WordOf(p, groups[i], j)];
    forall a: nat, b: nat | a < |groups| && b < p.blocks && (a < i || (a == i && b < j + 1))
      ensures Placed(p, groups, after, a, b)
    {
      CellsDiffer(|groups|, p.blocks, a, b, i, j);
      assert a < i || b < j ==> Placed(p, groups, words, a, b);
    }
  }

  lemma GroupDone(p: Ramp, groups: Mat<bv8>, words: Mat<bv8>, i: nat)
    requires PlacedUpTo(p, groups, words, i, p.blocks)
    ensures PlacedUpTo(p, groups, words, i + 1, 0)
  {
  }

  /** The data blocks as words. */
  function DataWords(p: Ramp, data: Bytes, count: nat): (r: Mat<bv8>)
    requires p.Size(count) * p.blocks <= |data|
    ensures Shape(r, count * p.blocks, p.wordSize)
  {
    MultiplyAssociates(p.wordSize, count, p.blocks);
    Blocks(data, count * p.blocks, p.wordSize)
  }

  lemma WordsOfPrefix(p: Ramp, data: Bytes, count: nat)
    requires p.Size(count) * p.blocks <= |data|
    ensures DataWords(p, data[..p.Size(count) * p.blocks], count) == DataWords(p, data, count)
  {
    MultiplyAssociates(p.wordSize, count, p.blocks);
    BlocksOfPrefix(data, count * p.blocks, p.wordSize);
  }

  lemma DataFromWords(p: Ramp, d: Bytes, e: Bytes, count: nat)
    requires |d| == |e| == p.Size(count) * p.blocks && DataWords(p, d, count) == DataWords(p, e, count)
    ensures d == e
  {
    MultiplyAssociates(p.wordSize, count, p.blocks);
    BlocksInjective(d, e, count * p.blocks, p.wordSize);
  }

  /** Where word i of block j is. */
  lemma WordOffset(w: nat, count: nat, blocks: nat, i: nat, j: nat)
    requires i < count && j < blocks
    ensures w * count * j + w * i == w * Cell(count, blocks, i, j)
  {
    MultiplyAssociates(w, count, j);
    Distribute(w, count * j, i);
  }

  lemma WordRead(p: Ramp, data: Bytes, count: nat, i: nat, j: nat)
    requires p.Size(count) * p.blocks <= |data| && i < count && j < p.blocks
    ensures var at := p.Size(count) * j + p.wordSize * i;
            && 0 <= at && at + p.wordSize <= |data|
            && data[at..at + p.wordSize] == DataWords(p, data, count)[Cell(count, p.blocks, i, j)]
  {
    WordOffset(p.wordSize, count, p.blocks, i, j);
    MultiplyAssociates(p.wordSize, count, p.blocks);
    BlockFits(Cell(count, p.blocks, i, j), count * p.blocks, p.wordSize);
  }

  /** The data blocks hold the words of the groups of an aligned secret and their hashes. */
  ghost predicate Spread(p: Ramp, count: nat, secret: Bytes, data: Bytes) {
    && p.Valid() && |secret| == p.groupSize * count && |data| == p.Size(count) * p.blocks
    && PlacedUpTo(p, Blocks(secret, count, p.groupSize), DataWords(p, data, count), count, 0)
  }

  /** Word i of data block j, where it lies in the bytes. */
  ghost function WordAt(p: Ramp, data: Bytes, count: nat, i: nat, j: nat): Bytes
    requires p.Size(count) * p.blocks <= |data| && i < count && j < p.blocks
  {
    WordRead(p, data, count, i, j);
    data[p.wordSize * count * j + p.wordSize * i..p.wordSize * count * j + p.wordSize * i + p.wordSize]
  }

  /** The word that belongs there: word j of group i of the secret, or the hash of group i and a seed byte. */
  ghost predicate Belongs(p: Ramp, secret: Bytes, count: nat, i: nat, j: nat, word: Bytes)
    requires p.Valid() && |secret| == p.groupSize * count && i < count && j < p.blocks
  {
    BlockFits(i, count, p.groupSize);
    var group := secret[p.groupSize * i..p.groupSize * i + p.groupSize];
    if j < p.words then
      BlockFits(j, p.words, p.wordSize);
      word == group[p.wordSize * j..p.wordSize * j + p.wordSize]
    else exists seed: bv8 :: seed as int == j - p.words && word == p.hash(group + [seed])
  }

  /** Where every word of the secret and every hash is, in bytes. */
  lemma SpreadBytes(p: Ramp, count: nat, secret: Bytes, data: Bytes, i: nat, j: nat)
    requires Spread(p, count, secret, data) && i < count && j < p.blocks
    ensures Belongs(p, secret, count, i, j, WordAt(p, data, count, i, j))
  {
    var groups, words := Blocks(secret, count, p.groupSize), DataWords(p, data, count);
    assert Placed(p, groups, words, i, j);
    WordRead(p, data, count, i, j);
    BlockFits(i, count, p.groupSize);
    if j < p.words {
      BlockFits(j, p.words, p.wordSize);
    } else {
      ElementValue(j - p.words);
    }
  }

  ghost predicate SpreadByByte(p: Ramp, count: nat, secret: Bytes, data: Bytes) {
    && p.Valid() && |secret| == p.groupSize * count && |data| == p.Size(count) * p.blocks
    && forall i, j {:trigger WordAt(p, data, count, i, j)} :: 0 <= i < count && 0 <= j < p.blocks ==>
         Belongs(p, secret, count, i, j, WordAt(p, data, count, i, j))
  }

  lemma SpreadIsBytes(p: Ramp, count: nat, secret: Bytes, data: Bytes)
    requires Spread(p, count, secret, data)
    ensures SpreadByByte(p, count, secret, data)
  {
    forall i, j | 0 <= i < count && 0 <= j < p.blocks
      ensures Belongs(p, secret, count, i, j, WordAt(p, data, count, i, j))
    {
      SpreadBytes(p, count, secret, data, i, j);
    }
  }

  /** Group i has the words that the table has for it, whatever the hashes are. */
  ghost predicate Copied(p: Ramp, groups: Mat<bv8>, words: Mat<bv8>, i: nat) {
    && Table(p, groups, words) && i < |groups|
    && forall j: nat {:trigger Placed(p, groups, words, i, j)} :: j < p.words ==> Placed(p, groups, words, i, j)
  }

  /** The words of group i one after the other. */
  ghost predicate JoinsWords(p: Ramp, words: Mat<bv8>, count: nat, i: nat, group: Bytes) {
    && p.Valid() && |words| == count * p.blocks && i < count && |group| == p.groupSize
    && forall j {:trigger Block(group, j, p.words, p.wordSize)} :: 0 <= j < p.words ==>
         Block(group, j, p.words, p.wordSize) == words[Cell(count, p.blocks, i, j)]
  }

  lemma GroupCopied(p: Ramp, groups: Mat<bv8>, words: Mat<bv8>, i: nat, group: Bytes)
    requires PlacedUpTo(p, groups, words, i, 0) && JoinsWords(p, words, |groups|, i, group)
    ensures PlacedUpTo(p, groups[i := group], words, i, 0) && Copied(p, groups[i := group], words, i)
  {
    var after := groups[i := group];
    forall a: nat, b: nat | a < i && b < p.blocks ensures Placed(p, after, words, a, b) {
      assert Placed(p, groups, words, a, b);
    }
    forall j: nat | j < p.words ensures Placed(p, after, words, i, j) {
      assert Block(group, j, p.words, p.wordSize) == words[Cell(|groups|, p.blocks, i, j)];
    }
  }

  lemma GroupChecked(p: Ramp, groups: Mat<bv8>, words: Mat<bv8>, i: nat)
    requires PlacedUpTo(p, groups, words, i, 0) && Copied(p, groups, words, i)
    requires forall j: nat {:trigger Placed(p, groups, words, i, j)} ::
               p.words <= j < p.blocks ==> Placed(p, groups, words, i, j)
    ensures PlacedUpTo(p, groups, words, i + 1, 0)
  {
  }

  /** Groups with the same words of their own are the same. */
  lemma GroupFromWords(p: Ramp, a: Mat<bv8>, b: Mat<bv8>, words: Mat<bv8>, i: nat)
    requires Copied(p, a, words, i) && Copied(p, b, words, i) && |a| == |b|
    ensures a[i] == b[i]
  {
    forall j | 0 <= j < p.words
      ensures Block(a[i], j, p.words, p.wordSize) == Block(b[i], j, p.words, p.wordSize)
    {
      assert Placed(p, a, words, i, j) && Placed(p, b, words, i, j);
    }
    BlocksInjective(a[i], b[i], p.words, p.wordSize);
  }

  /** The data blocks determine the secret. */
  lemma SpreadFromOne(p: Ramp, count: nat, s: Bytes, t: Bytes, data: Bytes)
    requires Spread(p, count, s, data) && Spread(p, count, t, data)
    ensures s == t
  {
    var a, b := Blocks(s, count, p.groupSize), Blocks(t, count, p.groupSize);
    forall i | 0 <= i < count ensures a[i] == b[i] {
      GroupFromWords(p, a, b, DataWords(p, data, count), i);
    }
    BlocksInjective(s, t, count, p.groupSize);
  }

  /** The secret determines the data blocks. */
  lemma SpreadToOne(p: Ramp, count: nat, s: Bytes, d: Bytes, e: Bytes)
    requires Spread(p, count, s, d) && Spread(p, count, s, e)
    ensures d == e
  {
    var k, groups := p.blocks, Blocks(s, count, p.groupSize);
    var v, w := DataWords(p, d, count), DataWords(p, e, count);
    forall t | 0 <= t < count * k ensures v[t] == w[t] {
      var j, i := LocateByte(t, k, count);
      assert Placed(p, groups, v, i, j) && Placed(p, groups, w, i, j);
    }
    DataFromWords(p, d, e, count);
  }

  /** No secret has the data blocks. */
  ghost predicate Unspread(p: Ramp, count: nat, data: Bytes) {
    forall s :: !Spread(p, count, s, data)
  }

  /** A group that was copied out and does not have the hashes beside it: no secret has these data blocks. */
  lemma NothingSpread(p: Ramp, count: nat, data: Bytes, read: Mat<bv8>, i: nat, j: nat)
    requires |read| == count && |data| == p.Size(count) * p.blocks
    requires Copied(p, read, DataWords(p, data, count), i) && j < p.blocks
    requires !Placed(p, read, DataWords(p, data, count), i, j)
    ensures Unspread(p, count, data)
  {
    forall s ensures !Spread(p, count, s, data) {
      if Spread(p, count, s, data) {
        var words, groups := DataWords(p, data, count), Blocks(s, count, p.groupSize);
        assert Placed(p, groups, words, i, j);
        GroupFromWords(p, read, groups, words, i);
      }
    }
  }

  // ---------------------------------------------------------------- shares

  /** The shares numbered ids of the data blocks. */
  ghost predicate SharesFrom(f: Field<bv8>, n: nat, k: nat, ids: seq<nat>, data: Bytes, size: nat, shares: Mat<bv8>) {
    && n + k <= 256 && ShareIDs(ids, k, n) && |data| == size * k
    && Product(f, SelectRows(Dispersed(f, n, k), ids), Blocks(data, k, size), k, size) == shares
  }

  /** The shares numbered ids are those of an aligned secret. */
  ghost predicate SharesOfSecret(f: Field<bv8>, n: nat, p: Ramp, ids: seq<nat>, count: nat, secret: Bytes,
                                 shares: Mat<bv8>)
  {
    exists data {:trigger Spread(p, count, secret, data)} ::
      Spread(p, count, secret, data) && SharesFrom(f, n, p.blocks, ids, data, p.Size(count), shares)
  }

  /** The product with the inverse explains the shares it came from. */
  lemma RecoveredData(f: Field<bv8>, n: nat, k: nat, ids: seq<nat>, data: Bytes, size: nat, shares: Mat<bv8>,
                      inverse: Mat<bv8>)
    requires IsField(f) && n + k <= 256 && ShareIDs(ids, k, n) && |data| == size * k && Shape(shares, k, size)
    requires Inverses(f, SelectRows(Dispersed(f, n, k), ids), inverse, k)
    requires Blocks(data, k, size) == Product(f, inverse, shares, k, size)
    ensures SharesFrom(f, n, k, ids, data, size, shares)
  {
    ProductAssociates(f, SelectRows(Dispersed(f, n, k), ids), inverse, shares, k, k, size);
    ProductIdentity(f, shares, size);
  }

  lemma BlocksRecovered(f: Field<bv8>, n: nat, k: nat, ids: seq<nat>, data: Bytes, size: nat, shares: Mat<bv8>,
                        inverse: Mat<bv8>)
    requires IsField(f) && SharesFrom(f, n, k, ids, data, size, shares)
    requires Inverses(f, SelectRows(Dispersed(f, n, k), ids), inverse, k)
    ensures Product(f, inverse, shares, k, size) == Blocks(data, k, size)
  {
    var blocks := Blocks(data, k, size);
    ProductAssociates(f, inverse, SelectRows(Dispersed(f, n, k), ids), blocks, k, k, size);
    ProductIdentity(f, blocks, size);
  }

  /** The shares numbered ids among all n. */
  lemma SelectedFrom(f: Field<bv8>, n: nat, k: nat, ids: seq<nat>, data: Bytes, size: nat)
    requires n + k <= 256 && ShareIDs(ids, k, n) && |data| == size * k
    ensures SharesFrom(f, n, k, ids, data, size,
                       SelectRows(Product(f, Dispersed(f, n, k), Blocks(data, k, size), k, size), ids))
  {
    var blocks, some := Blocks(data, k, size), SelectRows(Dispersed(f, n, k), ids);
    forall t | 0 <= t < |ids|
      ensures Product(f, Dispersed(f, n, k), blocks, k, size)[ids[t]] == Product(f, some, blocks, k, size)[t]
    {
      assert some[t] == Dispersed(f, n, k)[ids[t]];
    }
  }

  /** The n shares of the data blocks, byte by byte: Cauchy sums of the blocks. */
  ghost predicate SumsByByte(f: Field<bv8>, n: nat, k: nat, data: Bytes, size: nat, shares: Mat<bv8>) {
    && n + k <= 256 && |data| == size * k && |shares| == n
    && forall i {:trigger shares[i]} :: 0 <= i < n ==> IsParity(f, n, k, i, data, size, shares[i])
  }

  lemma SumsAreBytes(f: Field<bv8>, n: nat, k: nat, data: Bytes, size: nat)
    requires f == GF256(f.multiply, f.divide) && n + k <= 256 && |data| == size * k
    ensures SumsByByte(f, n, k, data, size, Product(f, Dispersed(f, n, k), Blocks(data, k, size), k, size))
  {
    var shares := Product(f, Dispersed(f, n, k), Blocks(data, k, size), k, size);
    forall i | 0 <= i < n ensures IsParity(f, n, k, i, data, size, shares[i]) {
      SumIsBytes(f, n, k, data, size, i, shares[i]);
    }
  }

  lemma SumIsBytes(f: Field<bv8>, n: nat, k: nat, data: Bytes, size: nat, i: nat, share: Bytes)
    requires f == GF256(f.multiply, f.divide) && n + k <= 256 && |data| == size * k && i < n
    requires share == Combine(f, Dispersed(f, n, k)[i], Blocks(data, k, size), size)
    ensures IsParity(f, n, k, i, data, size, share)
  {
    forall p | 0 <= p < size ensures share[p] == ParityByte(f, n, k, i, data, size, p) {
      ParityIs(f, n, k, i, data, size, p);
    }
  }

  /** Any k shares determine the data blocks. */
  lemma SharesDetermineData(f: Field<bv8>, n: nat, k: nat, ids: seq<nat>, d: Bytes, e: Bytes, size: nat,
                            shares: Mat<bv8>)
    requires IsField(f) && SharesFrom(f, n, k, ids, d, size, shares) && SharesFrom(f, n, k, ids, e, size, shares)
    ensures d == e
  {
    AnyDispersedRowsInvertible(f, n, k, ids);
    var inverse :| Inverses(f, SelectRows(Dispersed(f, n, k), ids), inverse, k);
    BlocksRecovered(f, n, k, ids, d, size, shares, inverse);
    BlocksRecovered(f, n, k, ids, e, size, shares, inverse);
    BlocksInjective(d, e, k, size);
  }

  /** Any k shares determine the secret. */
  lemma SharesDetermineSecret(f: Field<bv8>, n: nat, p: Ramp, ids: seq<nat>, count: nat, s: Bytes, t: Bytes,
                              shares: Mat<bv8>)
    requires IsField(f) && SharesOfSecret(f, n, p, ids, count, s, shares)
    requires SharesOfSecret(f, n, p, ids, count, t, shares)
    ensures s == t
  {
    var d :| Spread(p, count, s, d) && SharesFrom(f, n, p.blocks, ids, d, p.Size(count), shares);
    var e :| Spread(p, count, t, e) && SharesFrom(f, n, p.blocks, ids, e, p.Size(count), shares);
    SharesDetermineData(f, n, p.blocks, ids, d, e, p.Size(count), shares);
    SpreadFromOne(p, count, s, t, d);
  }

  /** Shares of data blocks are shares of the secret that has them, and of no other. */
  lemma SecretOfData(f: Field<bv8>, n: nat, p: Ramp, ids: seq<nat>, count: nat, data: Bytes, shares: Mat<bv8>, s: Bytes)
    requires IsField(f) && SharesFrom(f, n, p.blocks, ids, data, p.Size(count), shares)
    ensures SharesOfSecret(f, n, p, ids, count, s, shares) <==> Spread(p, count, s, data)
  {
    if SharesOfSecret(f, n, p, ids, count, s, shares) {
      var d :| Spread(p, count, s, d) && SharesFrom(f, n, p.blocks, ids, d, p.Size(count), shares);
      SharesDetermineData(f, n, p.blocks, ids, d, data, p.Size(count), shares);
    }
  }

  /** No secret has the shares. */
  ghost predicate Unshared(f: Field<bv8>, n: nat, p: Ramp, ids: seq<nat>, count: nat, shares: Mat<bv8>) {
    forall s :: !SharesOfSecret(f, n, p, ids, count, s, shares)
  }

  lemma NoSecret(f: Field<bv8>, n: nat, p: Ramp, ids: seq<nat>, count: nat, data: Bytes, shares: Mat<bv8>)
    requires IsField(f) && SharesFrom(f, n, p.blocks, ids, data, p.Size(count), shares)
    requires Unspread(p, count, data)
    ensures Unshared(f, n, p, ids, count, shares)
  {
    forall s ensures !SharesOfSecret(f, n, p, ids, count, s, shares) {
      SecretOfData(f, n, p, ids, count, data, shares, s);
    }
  }
}
