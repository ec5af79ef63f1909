/** Uploading the shares of a file in packages, client/comm/uploader.cc: batching, the counters
    in the file head, and leaving out in place the shares the server already has. */
module Uploader {
  import opened ContainerNames
  import opened ShareIndex
  import opened Containers
  import opened ReferenceCounts
  import opened FirstStage
  import opened SecondStage
  import opened DedupServer

  const UPLOAD_BUFFER_SIZE: nat := 4194304

  datatype Share = Share(fp: Fingerprint, secretSize: nat, data: seq<byte>)

  function Metadata(shares: seq<Share>): (r: seq<ShareMD>)
    ensures |r| == |shares|
    ensures forall i {:trigger r[i]} :: 0 <= i < |r| ==> r[i] == ShareMD(shares[i].fp, |shares[i].data|)
  {
    seq(|shares|, i requires 0 <= i < |shares| => ShareMD(shares[i].fp, |shares[i].data|))
  }

  /** The bytes of the first n shares. */
  function DataOf(shares: seq<Share>, n: nat): seq<byte>
    requires n <= |shares|
  {
    if n == 0 then [] else DataOf(shares, n - 1) + shares[n - 1].data
  }

  /** The bytes of those of the first n shares that the server does not have. */
  function UniqueData(shares: seq<Share>, dups: seq<bool>, n: nat): seq<byte>
    requires n <= |shares| && n <= |dups|
  {
    if n == 0 then []
    else if dups[n - 1] then UniqueData(shares, dups, n - 1)
    else UniqueData(shares, dups, n - 1) + shares[n - 1].data
  }

  function SecretSizes(shares: seq<Share>, n: nat): nat
    requires n <= |shares|
  {
    if n == 0 then 0 else SecretSizes(shares, n - 1) + shares[n - 1].secretSize
  }

  // ---------------------------------------------------------------- alignment

  lemma {:induction false} UniqueLength(shares: seq<Share>, dups: seq<bool>, n: nat)
    requires n <= |shares| && n <= |dups|
    ensures |UniqueData(shares, dups, n)| == SentSize(Metadata(shares), dups, n) <= |DataOf(shares, n)|
  {
    if n > 0 { UniqueLength(shares, dups, n - 1); }
  }

  lemma SliceKept(before: seq<byte>, more: seq<byte>, lo: nat, hi: nat)
    requires lo <= hi <= |before|
    ensures (before + more)[lo..hi] == before[lo..hi]
  {
  }

  lemma SliceAppended(before: seq<byte>, more: seq<byte>)
    ensures (before + more)[|before|..|before| + |more|] == more
  {
  }

  /** Behind the bytes of the shares before it, the server finds exactly the bytes of a share. */
  lemma {:induction false} UniqueAligned(shares: seq<Share>, dups: seq<bool>, i: nat, n: nat)
    requires i < n <= |shares| && n <= |dups| && !dups[i]
    ensures var o := SentSize(Metadata(shares), dups, i);
            && o + |shares[i].data| <= |UniqueData(shares, dups, n)|
            && UniqueData(shares, dups, n)[o..o + |shares[i].data|] == shares[i].data
  {
    UniqueLength(shares, dups, i);
    var before, o, size := UniqueData(shares, dups, n - 1), SentSize(Metadata(shares), dups, i), |shares[i].data|;
    if i == n - 1 {
      SliceAppended(before, shares[i].data);
    } else {
      UniqueAligned(shares, dups, i, n - 1);
      SliceKept(before, if dups[n - 1] then [] else shares[n - 1].data, o, o + size);
    }
  }

  /** Fingerprints made from the bytes pass the server's check. */
  ghost predicate Honest(shares: seq<Share>, hash: seq<byte> -> Fingerprint) {
    forall i {:trigger shares[i]} :: 0 <= i < |shares| ==> shares[i].fp == hash(shares[i].data)
  }

  lemma HonestAccepted(shares: seq<Share>, dups: seq<bool>, hash: seq<byte> -> Fingerprint)
    requires Honest(shares, hash) && |dups| == |shares|
    ensures FirstRefused(Metadata(shares), dups, UniqueData(shares, dups, |shares|), hash, 0) == |shares|
  {
    var md, data := Metadata(shares), UniqueData(shares, dups, |shares|);
    forall k | 0 <= k < |shares| ensures Genuine(md, dups, data, hash, k) {
      if !dups[k] { UniqueAligned(shares, dups, k, |shares|); }
    }
    NoneRefused(md, dups, data, hash, 0);
  }

  // ---------------------------------------------------------------- compaction in place

  /** Move n bytes of the buffer down, through a temporary copy. */
  method MoveDown(a: array<byte>, from: nat, to: nat, n: nat)
    requires to <= from && from + n <= a.Length
    modifies a
    ensures a[to..to + n] == old(a[from..from + n]) && a[..to] == old(a[..to]) && a[from + n..] == old(a[from + n..])
  {
    var temp := a[from..from + n];
    for i := 0 to n
      invariant a[to..to + i] == temp[..i] && a[..to] == old(a[..to]) && a[from + n..] == old(a[from + n..])
    {
      a[to + i] := temp[i];
    }
  }

  /** The bytes of the shares from i on. */
  ghost function DataFrom(shares: seq<Share>, i: nat): seq<byte>
    requires i <= |shares|
    decreases |shares| - i
  {
    if i == |shares| then [] else shares[i].data + DataFrom(shares, i + 1)
  }

  lemma {:induction false} DataSplits(shares: seq<Share>, i: nat)
    requires i <= |shares|
    ensures DataOf(shares, i) + DataFrom(shares, i) == DataOf(shares, |shares|)
    decreases |shares| - i
  {
    if i < |shares| {
      DataSplits(shares, i + 1);
      assert DataOf(shares, i) + (shares[i].data + DataFrom(shares, i + 1))
             == DataOf(shares, i + 1) + DataFrom(shares, i + 1);
    }
  }

  /** The buffer when i shares have been dealt with: what is kept of them, and the others from index on. */
  ghost predicate Closing(shares: seq<Share>, dups: seq<bool>, i: nat, a: seq<byte>, wp: nat, index: nat, count: nat) {
    && i <= |shares| == |dups| && count <= index <= wp <= |a|
    && a[..count] == UniqueData(shares, dups, i) && a[index..wp] == DataFrom(shares, i)
  }

  lemma SplitTail(a: seq<byte>, wp: nat, index: nat, x: seq<byte>, y: seq<byte>)
    requires index <= wp <= |a| && a[index..wp] == x + y
    ensures index + |x| <= wp && a[index..index + |x|] == x && a[index + |x|..wp] == y
  {
    var tail := a[index..wp];
    assert |tail| == wp - index == |x| + |y|;
    assert tail[..|x|] == x && tail[|x|..] == y;
  }

  lemma JoinKept(a: seq<byte>, b: seq<byte>, wp: nat, index: nat, count: nat, n: nat)
    requires count <= index && index + n <= wp <= |a| == |b| && b[..count] == a[..count]
    requires b[index + n..] == a[index + n..]
    ensures b[..count + n] == a[..count] + b[count..count + n] && b[index + n..wp] == a[index + n..wp]
  {
    assert b[index + n..wp] == b[index + n..][..wp - (index + n)];
    assert a[index + n..wp] == a[index + n..][..wp - (index + n)];
  }

  lemma NextClosing(shares: seq<Share>, dups: seq<bool>, i: nat, a: seq<byte>, wp: nat, index: nat, count: nat)
    requires Closing(shares, dups, i, a, wp, index, count) && i < |shares|
    ensures var n := |shares[i].data|;
            && index + n <= wp && a[index..index + n] == shares[i].data && a[index + n..wp] == DataFrom(shares, i + 1)
            && (dups[i] ==> Closing(shares, dups, i + 1, a, wp, index + n, count))
  {
    SplitTail(a, wp, index, shares[i].data, DataFrom(shares, i + 1));
  }

  lemma MovedClosing(shares: seq<Share>, dups: seq<bool>, i: nat, a: seq<byte>, b: seq<byte>, wp: nat, index: nat,
                     count: nat)
    requires Closing(shares, dups, i, a, wp, index, count) && i < |shares| && !dups[i] && |b| == |a|
    requires index + |shares[i].data| <= wp && b[..count] == a[..count]
    requires b[count..count + |shares[i].data|] == shares[i].data
    requires b[index + |shares[i].data|..] == a[index + |shares[i].data|..]
    ensures Closing(shares, dups, i + 1, b, wp, index + |shares[i].data|, count + |shares[i].data|)
  {
    var n := |shares[i].data|;
    NextClosing(shares, dups, i, a, wp, index, count);
    JoinKept(a, b, wp, index, count, n);
  }

  lemma StartClosing(shares: seq<Share>, dups: seq<bool>, a: seq<byte>, wp: nat)
    requires wp <= |a| && |dups| == |shares| && a[..wp] == DataOf(shares, |shares|)
    ensures Closing(shares, dups, 0, a, wp, 0, 0)
  {
    DataSplits(shares, 0);
  }

  lemma EndClosing(shares: seq<Share>, dups: seq<bool>, a: seq<byte>, wp: nat, index: nat, count: nat)
    requires Closing(shares, dups, |shares|, a, wp, index, count)
    ensures count <= wp && a[..count] == UniqueData(shares, dups, |shares|)
  {
  }

  /** Keep one share of the buffer, or pass over it. */
  method KeepShare(a: array<byte>, ghost wp: nat, index: nat, count: nat, current: nat, keep: bool,
                   ghost shares: seq<Share>, ghost dups: seq<bool>, ghost i: nat)
    returns (count': nat)
    requires Closing(shares, dups, i, a[..], wp, index, count)
    requires i < |shares| && current == |shares[i].data| && (keep <==> !dups[i])
    modifies a
    ensures Closing(shares, dups, i + 1, a[..], wp, index + current, count')
  {
    count' := count;
    ghost var was := a[..];
    NextClosing(shares, dups, i, was, wp, index, count);
    if keep {
      MoveDown(a, index, count, current);
      count' := count + current;
      MovedClosing(shares, dups, i, was, a[..], wp, index, count);
    }
  }

  /** Close up the buffer over the shares that the server has. */
  method CloseUp(a: array<byte>, ghost wp: nat, sizes: seq<nat>, dups: seq<bool>, ghost shares: seq<Share>)
    returns (count: nat)
    requires |sizes| == |dups| == |shares| && wp <= a.Length && a[..wp] == DataOf(shares, |shares|)
    requires forall i {:trigger sizes[i]} :: 0 <= i < |sizes| ==> sizes[i] == |shares[i].data|
    modifies a
    ensures count <= wp && a[..count] == UniqueData(shares, dups, |shares|)
  {
    count := 0;
    var index := 0;
    StartClosing(shares, dups, a[..], wp);
    for i := 0 to |sizes|
      invariant Closing(shares, dups, i, a[..], wp, index, count)
    {
      count := KeepShare(a, wp, index, count, sizes[i], !dups[i], shares, dups, i);
      index := index + sizes[i];
    }
    EndClosing(shares, dups, a[..], wp, index, count);
  }

  // ---------------------------------------------------------------- one package

  /** How often a share is among the first n. */
  ghost function Copies(shares: seq<Share>, fp: Fingerprint, n: nat): nat
    requires n <= |shares|
  {
    if n == 0 then 0 else Copies(shares, fp, n - 1) + if shares[n - 1].fp == fp then 1 else 0
  }

  /** The user's references have grown by those to the shares, and no others. */
  ghost predicate Grew(index: Index, index': Index, user: int, shares: seq<Share>) {
    forall fp, w {:trigger RefCount(index', fp, w)} ::
      RefCount(index', fp, w) == RefCount(index, fp, w) + if w == user then Copies(shares, fp, |shares|) else 0
  }

  lemma {:induction false} CopiesOccur(shares: seq<Share>, fp: Fingerprint, n: nat)
    requires n <= |shares|
    ensures Occurrences(Metadata(shares), fp, n) == Copies(shares, fp, n)
  {
    if n > 0 { CopiesOccur(shares, fp, n - 1); }
  }

  lemma StagesGrow(index: Index, index': Index, pending: Uses, uploads: Uses, shares: seq<Share>, dups: seq<bool>,
                   user: int)
    requires |dups| == |shares| && Counts(index, pending, uploads)
    requires var md, n := Metadata(shares), |shares|;
             Counts(index', WithoutMissing(WithMissing(pending, md, dups, user, n), md, dups, user, n),
                    WithAll(uploads, md, user, n))
    ensures Grew(index, index', user, shares)
  {
    var md, n := Metadata(shares), |shares|;
    var asked := WithMissing(pending, md, dups, user, n);
    forall fp, w
      ensures RefCount(index', fp, w) == RefCount(index, fp, w) + if w == user then Copies(shares, fp, n) else 0
    {
      AllCounted(uploads, md, user, n, fp, w);
      StagesCancel(pending, asked, md, dups, user, n, fp, w);
      CopiesOccur(shares, fp, n);
      assert RefCount(index, fp, w) + Count(pending, fp, w) == Count(uploads, fp, w);
    }
  }

  ghost predicate FitShares(shares: seq<Share>) {
    forall i {:trigger shares[i]} :: 0 <= i < |shares| ==> |shares[i].data| <= UPLOAD_BUFFER_SIZE
  }

  /** Send the metadata of the shares in the buffer, then the bytes the server asks for. */
  method SendPackage(server: Server, user: int, now: real, container: array<byte>, wp: nat, sizes: seq<nat>,
                     entries: seq<ShareMD>, ghost shares: seq<Share>)
    returns (ok: bool, dups: seq<bool>, data: seq<byte>)
    requires server.Valid() && Honest(shares, server.hash) && FitShares(shares) && entries == Metadata(shares)
    requires |sizes| == |shares| && forall i {:trigger sizes[i]} :: 0 <= i < |sizes| ==> sizes[i] == |shares[i].data|
    requires wp <= container.Length && container[..wp] == DataOf(shares, |shares|)
    requires Rank(server.nextName) + |shares| + 2 < ALL_NAMES
    modifies server, container
    ensures server.Valid() && ok && |dups| == |shares| && data == UniqueData(shares, dups, |shares|)
    ensures Answers(old(server.index), user, entries, dups)
    ensures Grew(old(server.index), server.index, user, shares)
    ensures Rank(server.nextName) <= old(Rank(server.nextName)) + |shares| + 1
  {
    var size, count;
    ghost var n, chain;
    dups, size := server.FirstStageDedup(user, entries);
    count := CloseUp(container, wp, sizes, dups, shares);
    data := container[..count];
    UniqueLength(shares, dups, |shares|);
    HonestAccepted(shares, dups, server.hash);
    ok, n, chain := server.SecondStageDedup(user, entries, dups, data, now);
    StagesGrow(old(server.index), server.index, old(server.pending), old(server.uploads), shares, dups, user);
  }

  // ---------------------------------------------------------------- all packages of a file

  /** The counters in the head of a file's metadata. */
  datatype FileHead = FileHead(pastNum: nat, pastSize: nat, comingNum: nat, comingSize: nat)

  /** A package on its way: head and metadata of the shares, the server's answer, and the bytes. */
  datatype Package = Package(head: FileHead, shares: seq<Share>, dups: seq<bool>, data: seq<byte>)

  function SharesOf(sent: seq<Package>): seq<Share> {
    if sent == [] then [] else SharesOf(sent[..|sent| - 1]) + sent[|sent| - 1].shares
  }

  function SizeOf(shares: seq<Share>): nat { SecretSizes(shares, |shares|) }

  /** The head tells what has come before and what comes now. */
  function HeadOf(past: seq<Share>, coming: seq<Share>): FileHead {
    FileHead(|past|, SizeOf(past), |coming|, SizeOf(coming))
  }

  ghost predicate WellSent(p: Package, past: seq<Share>) {
    && p.head.pastNum == |past| && p.head.pastSize == SizeOf(past)
    && p.head.comingNum == |p.shares| && p.head.comingSize == SizeOf(p.shares)
    && p.shares != [] && |p.dups| == |p.shares| && p.data == UniqueData(p.shares, p.dups, |p.shares|)
    && |p.data| <= |DataOf(p.shares, |p.shares|)| <= UPLOAD_BUFFER_SIZE
  }

  ghost predicate AllWellSent(sent: seq<Package>) {
    sent == [] || (AllWellSent(sent[..|sent| - 1]) && WellSent(sent[|sent| - 1], SharesOf(sent[..|sent| - 1])))
  }

  lemma {:induction false} PrefixesAgree(a: seq<Share>, b: seq<Share>, fp: Fingerprint, n: nat)
    requires n <= |a|
    ensures SecretSizes(a + b, n) == SecretSizes(a, n) && DataOf(a + b, n) == DataOf(a, n)
    ensures Copies(a + b, fp, n) == Copies(a, fp, n)
  {
    if n > 0 { PrefixesAgree(a, b, fp, n - 1); }
  }

  lemma {:induction false} SumsAppend(a: seq<Share>, b: seq<Share>, fp: Fingerprint, n: nat)
    requires n <= |b|
    ensures SecretSizes(a + b, |a| + n) == SizeOf(a) + SecretSizes(b, n)
    ensures Copies(a + b, fp, |a| + n) == Copies(a, fp, |a|) + Copies(b, fp, n)
  {
    if n == 0 { PrefixesAgree(a, b, fp, |a|); } else { SumsAppend(a, b, fp, n - 1); }
  }

  /** The counters of the last package account for the whole file. */
  lemma HeadAddsUp(sent: seq<Package>)
    requires AllWellSent(sent) && sent != []
    ensures var h, file := sent[|sent| - 1].head, SharesOf(sent);
            h.pastNum + h.comingNum == |file| && h.pastSize + h.comingSize == SizeOf(file)
  {
    var last := sent[|sent| - 1];
    SumsAppend(SharesOf(sent[..|sent| - 1]), last.shares, 0, |last.shares|);
  }

  lemma SentOneMore(sent: seq<Package>, p: Package)
    requires AllWellSent(sent) && WellSent(p, SharesOf(sent))
    ensures AllWellSent(sent + [p]) && SharesOf(sent + [p]) == SharesOf(sent) + p.shares
  {
    assert (sent + [p])[..|sent|] == sent;
  }

  lemma GrewTwice(index0: Index, index1: Index, index2: Index, user: int, a: seq<Share>, b: seq<Share>)
    requires Grew(index0, index1, user, a) && Grew(index1, index2, user, b)
    ensures Grew(index0, index2, user, a + b)
  {
    forall fp, w
      ensures RefCount(index2, fp, w) == RefCount(index0, fp, w) + if w == user then Copies(a + b, fp, |a + b|) else 0
    {
      SumsAppend(a, b, fp, |b|);
      assert RefCount(index1, fp, w) == RefCount(index0, fp, w) + if w == user then Copies(a, fp, |a|) else 0;
    }
  }

  lemma BatchAppend(batch: seq<Share>, share: Share)
    ensures DataOf(batch + [share], |batch| + 1) == DataOf(batch, |batch|) + share.data
    ensures SizeOf(batch + [share]) == SizeOf(batch) + share.secretSize
    ensures Metadata(batch + [share]) == Metadata(batch) + [ShareMD(share.fp, |share.data|)]
  {
    PrefixesAgree(batch, [share], 0, |batch|);
  }

  lemma StillFit(batch: seq<Share>, share: Share, hash: seq<byte> -> Fingerprint)
    requires FitShares(batch) && Honest(batch, hash) && |share.data| <= UPLOAD_BUFFER_SIZE
    requires share.fp == hash(share.data)
    ensures FitShares(batch + [share]) && Honest(batch + [share], hash)
  {
  }

  /** Copy bytes into the buffer. */
  method CopyIn(a: array<byte>, at: nat, data: seq<byte>)
    requires at + |data| <= a.Length
    modifies a
    ensures a[..at + |data|] == old(a[..at]) + data
  {
    for i := 0 to |data|
      invariant a[..at + i] == old(a[..at]) + data[..i]
    {
      a[at + i] := data[i];
      assert a[..at + i + 1] == a[..at + i] + [data[i]];
      assert data[..i + 1] == data[..i] + [data[i]];
    }
    assert data[..|data|] == data;
  }

  /** The share does not fit behind the shares of the package. */
  ghost predicate NoRoomFor(p: Package, share: Share) {
    |DataOf(p.shares, |p.shares|)| + |share.data| > UPLOAD_BUFFER_SIZE
  }

  /** No package could have taken the first share of the next one. */
  ghost predicate AllPacked(sent: seq<Package>) {
    forall k {:trigger PackedBefore(sent, k)} :: 0 <= k < |sent| - 1 ==> PackedBefore(sent, k)
  }

  ghost predicate PackedBefore(sent: seq<Package>, k: nat)
    requires k + 1 < |sent|
  {
    sent[k + 1].shares != [] && NoRoomFor(sent[k], sent[k + 1].shares[0])
  }

  lemma PackedOneMore(sent: seq<Package>, p: Package)
    requires AllPacked(sent) && p.shares != [] && (sent != [] ==> NoRoomFor(sent[|sent| - 1], p.shares[0]))
    ensures AllPacked(sent + [p])
  {
    var after := sent + [p];
    forall k | 0 <= k < |after| - 1 ensures PackedBefore(after, k) {
      if k < |sent| - 1 { assert PackedBefore(sent, k); }
    }
  }

  ghost predicate PackedSoFar(sent: seq<Package>, batch: seq<Share>) {
    AllPacked(sent) && (sent != [] && batch != [] ==> NoRoomFor(sent[|sent| - 1], batch[0]))
  }

  lemma PackedAppend(sent: seq<Package>, batch: seq<Share>, share: Share)
    requires PackedSoFar(sent, batch) && (sent != [] && batch == [] ==> NoRoomFor(sent[|sent| - 1], share))
    ensures PackedSoFar(sent, batch + [share])
  {
  }

  /** What the uploader keeps for one cloud. */
  class Uploader {
    const server: Server
    const user: int
    const container: array<byte>
    var containerWP: nat
    var entries: seq<ShareMD>
    var sizes: seq<nat>
    var head: FileHead
    ghost var batch: seq<Share>
    ghost var sent: seq<Package>

    ghost predicate Filled()
      reads this, container
    {
      && container.Length == UPLOAD_BUFFER_SIZE && containerWP <= container.Length
      && container[..containerWP] == DataOf(batch, |batch|)
    }

    ghost predicate Valid()
      reads this
    {
      && entries == Metadata(batch) && FitShares(batch) && Honest(batch, server.hash)
      && |sizes| == |batch| && (forall i {:trigger sizes[i]} :: 0 <= i < |sizes| ==> sizes[i] == |batch[i].data|)
      && head == HeadOf(SharesOf(sent), batch) && AllWellSent(sent)
    }

    /** Packages are sent only when the next share does not fit. */
    ghost predicate Packed()
      reads `sent, `batch
    {
      PackedSoFar(sent, batch)
    }

    constructor (server: Server, user: int)
      ensures Valid() && Packed() && Filled() && batch == [] && sent == [] && this.server == server && this.user == user
      ensures fresh(container)
    {
      this.server, this.user := server, user;
      container := new byte[UPLOAD_BUFFER_SIZE];
      containerWP, entries, sizes, head := 0, [], [], FileHead(0, 0, 0, 0);
      batch, sent := [], [];
    }

    /** Send what the buffers hold. */
    method PerformUpload(now: real)
      requires Valid() && Packed() && Filled() && server.Valid() && batch != []
      requires Rank(server.nextName) + |batch| + 2 < ALL_NAMES
      modifies server, container, `sent
      ensures server.Valid() && AllWellSent(sent) && SharesOf(sent) == old(SharesOf(sent)) + batch
      ensures |sent| == |old(sent)| + 1 && sent[|sent| - 1].head == head
      ensures AllPacked(sent) && sent[|sent| - 1].shares == batch
      ensures Grew(old(server.index), server.index, user, batch)
      ensures Rank(server.nextName) <= old(Rank(server.nextName)) + |batch| + 1
    {
      var ok, dups, data := SendPackage(server, user, now, container, containerWP, sizes, entries, batch);
      UniqueLength(batch, dups, |batch|);
      SentOneMore(sent, Package(head, batch, dups, data));
      PackedOneMore(sent, Package(head, batch, dups, data));
      sent := sent + [Package(head, batch, dups, data)];
    }

    /** After a package: what came now has come before, and the buffers are empty. */
    method UpdateHeader()
      requires container.Length == UPLOAD_BUFFER_SIZE && AllWellSent(sent) && sent != []
      requires head == sent[|sent| - 1].head && AllPacked(sent)
      modifies `head, `containerWP, `entries, `sizes, `batch
      ensures Valid() && Packed() && Filled() && batch == []
    {
      HeadAddsUp(sent);
      head := FileHead(head.pastNum + head.comingNum, head.pastSize + head.comingSize, 0, 0);
      containerWP, entries, sizes, batch := 0, [], [], [];
    }

    /** Everything that has been sent has been counted by the server, and names have not run out. */
    ghost predicate Served(index0: Index, rank0: int)
      reads this, server
    {
      && server.Valid() && Grew(index0, server.index, user, SharesOf(sent))
      && Rank(server.nextName) <= rank0 + 2 * |SharesOf(sent)|
    }

    /** The shares taken so far. */
    ghost function All(): seq<Share>
      reads this
    {
      SharesOf(sent) + batch
    }

    /** Put a share that fits into the buffers. */
    method Append(share: Share)
      requires Valid() && Filled() && |share.data| <= UPLOAD_BUFFER_SIZE - containerWP
      requires share.fp == server.hash(share.data) && Packed()
      requires sent != [] && batch == [] ==> NoRoomFor(sent[|sent| - 1], share)
      modifies container, `head, `containerWP, `entries, `sizes, `batch
      ensures Valid() && Packed() && Filled() && batch == old(batch) + [share]
    {
      CopyIn(container, containerWP, share.data);
      BatchAppend(batch, share);
      StillFit(batch, share, server.hash);
      PackedAppend(sent, batch, share);
      entries, sizes := entries + [ShareMD(share.fp, |share.data|)], sizes + [|share.data|];
      head := head.(comingNum := head.comingNum + 1, comingSize := head.comingSize + share.secretSize);
      containerWP, batch := containerWP + |share.data|, batch + [share];
    }

    /** Send what the buffers hold; the server has counted it then. */
    method Flush(now: real, ghost index0: Index, ghost rank0: int)
      requires Valid() && Packed() && Filled() && Served(index0, rank0) && batch != []
      requires rank0 + 2 * |All()| + 2 < ALL_NAMES
      modifies server, container, `sent
      ensures Served(index0, rank0) && AllWellSent(sent) && SharesOf(sent) == old(SharesOf(sent)) + batch
      ensures sent != [] && sent[|sent| - 1].head == head && AllPacked(sent) && sent[|sent| - 1].shares == batch
    {
      ghost var past, index := SharesOf(sent), server.index;
      PerformUpload(now);
      GrewTwice(index0, index, server.index, user, past, batch);
    }

    /** Send what the buffers hold if there is no room for the next share. */
    method MakeRoom(share: Share, now: real, ghost index0: Index, ghost rank0: int)
      requires Valid() && Packed() && Filled() && Served(index0, rank0) && |share.data| <= UPLOAD_BUFFER_SIZE
      requires rank0 + 2 * |All()| + 2 < ALL_NAMES && (sent != [] ==> batch != [])
      modifies this, server, container
      ensures Valid() && Packed() && Filled() && Served(index0, rank0) && All() == old(All())
      ensures containerWP + |share.data| <= UPLOAD_BUFFER_SIZE
      ensures sent != [] && batch == [] ==> NoRoomFor(sent[|sent| - 1], share)
    {
      if |share.data| + containerWP > UPLOAD_BUFFER_SIZE {
        ghost var full := DataOf(batch, |batch|);
        Flush(now, index0, rank0);
        assert |DataOf(sent[|sent| - 1].shares, |sent[|sent| - 1].shares|)| == |full|;
        UpdateHeader();
      }
    }

    ghost predicate Ready(index0: Index, rank0: int, taken: seq<Share>)
      reads this, container, server
    {
      && Valid() && Packed() && Filled() && Served(index0, rank0) && All() == taken && (taken != [] ==> batch != [])
      && (taken == [] ==> sent == [])
    }

    /** Take the next share. */
    method AddShare(file: seq<Share>, i: nat, now: real, ghost index0: Index, ghost rank0: int)
      requires i < |file| && Ready(index0, rank0, file[..i])
      requires FitShares(file) && Honest(file, server.hash) && rank0 + 2 * |file| + 2 < ALL_NAMES
      modifies this, server, container
      ensures Ready(index0, rank0, file[..i + 1])
    {
      assert file[..i + 1] == file[..i] + [file[i]];
      MakeRoom(file[i], now, index0, rank0);
      Append(file[i]);
    }

    /** Take the shares of a file one after the other. */
    method AddAll(file: seq<Share>, now: real, ghost index0: Index, ghost rank0: int)
      requires Ready(index0, rank0, [])
      requires FitShares(file) && Honest(file, server.hash) && rank0 + 2 * |file| + 2 < ALL_NAMES
      modifies this, server, container
      ensures Ready(index0, rank0, file)
    {
      assert file[..0] == [] && file[..|file|] == file;
      for i := 0 to |file|
        invariant Ready(index0, rank0, file[..i])
      {
        AddShare(file, i, now, index0, rank0);
      }
    }
  }

  lemma GrewNothing(index: Index, user: int)
    ensures Grew(index, index, user, [])
  {
    forall fp ensures Copies([], fp, 0) == 0 {}
  }

  /** Upload a file, share by share.  The server has all of it then, and counts all of it once more
      for the user; the packages carry the shares of the file in order, each share once. */
  method Upload(server: Server, user: int, file: seq<Share>, now: real) returns (u: Uploader)
    requires server.Valid() && file != [] && FitShares(file) && Honest(file, server.hash)
    requires Rank(server.nextName) + 2 * |file| + 2 < ALL_NAMES
    modifies server
    ensures server.Valid() && SharesOf(u.sent) == file && AllWellSent(u.sent) && AllPacked(u.sent)
    ensures Grew(old(server.index), server.index, user, file)
  {
    u := new Uploader(server, user);
    GrewNothing(server.index, user);
    ghost var index0, rank0 := server.index, Rank(server.nextName);
    u.AddAll(file, now, index0, rank0);
    u.Flush(now, index0, rank0);
  }

  lemma {:induction false} CopiesPositive(shares: seq<Share>, i: nat, n: nat)
    requires i < n <= |shares|
    ensures Copies(shares, shares[i].fp, n) > 0
  {
    if i < n - 1 { CopiesPositive(shares, i, n - 1); }
  }

  /** After its upload every share of a file is indexed, counted for the user, and stored; its bytes
      are the uploaded ones if no others have their fingerprint. */
  lemma UploadedIsStored(index: Index, index': Index, all: Files, hash: seq<byte> -> Fingerprint, user: int,
                         file: seq<Share>, i: nat)
    requires Grew(index, index', user, file) && Readable(index', all, hash) && Honest(file, hash) && i < |file|
    ensures var fp := file[i].fp;
            && fp in index' && RefCount(index', fp, user) > 0 && StoredAt(index'[fp], all, hash, fp)
            && ((forall d :: hash(d) == hash(file[i].data) ==> d == file[i].data) ==>
                BytesAt(index'[fp], all) == file[i].data)
  {
    CopiesPositive(file, i, |file|);
    assert RefCount(index', file[i].fp, user) > 0;
  }
}
