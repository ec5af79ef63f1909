/** The two-stage deduplication of the server, server/dedup/minDedupCore.cc. */
module DedupServer {
  import opened ContainerNames
  import opened ShareIndex
  import opened Containers
  import opened ReferenceCounts
  import opened FirstStage
  import opened BufferNodes
  import opened SecondStage

  /** The first node of the first user. */
  method FirstNode(user: int, hash: seq<byte> -> Fingerprint)
    returns (nodes: seq<Node>, next: Name, ghost all: Files)
    ensures Tied(nodes, map[], all) && Fresh(all, next) && Sound(map[], all, hash) && Rank(next) <= 1
    ensures exists c :: nodes == [Node(user, c, [], 0.0)]
  {
    ZeroRank(FirstName());
    var disk, t;
    nodes, disk, next, all, t := FindOrCreateBufferNode([], map[], FirstName(), map[], user, 0.0, map[], hash);
    assert Remaining([], user, 0.0, 0) == [];
  }

  /** Two uploads that lose a share: one user stores the empty share, another one comes back so much
      later that the first one's buffer is evicted.  The index still has the share; its container is
      nowhere. */
  method EmptyShareLost(hash: seq<byte> -> Fingerprint)
    returns (index: Index, nodes: seq<Node>, disk: Files, ghost all: Files)
    ensures Tied(nodes, disk, all) && Sound(index, all, hash)
    ensures hash([]) in index && index[hash([])].container !in all && !AllReachable(index, all)
  {
    ghost var used := More(NoUses, hash([]), 1);
    var next, t;
    nodes, next, all := FirstNode(1, hash);
    index, nodes, disk, next, all := InterUserIndexUpdate(map[], nodes, 0, map[], next, all, [], 1, hash, used, used);
    ghost var c := index[hash([])].container;
    assert nodes == [Node(1, c, [], 0.0)] && NodeTied(nodes[0], disk, all) && c != next;
    assert Remaining(nodes, 2, 100.0, 0) == Remaining(nodes, 2, 100.0, 1) == [];
    nodes, disk, next, all, t := FindOrCreateBufferNode(nodes, disk, next, all, 2, 100.0, index, hash);
    assert |nodes| <= 1 && !InNodes(nodes, c);
  }

  // ---------------------------------------------------------------- the server

  class Server {
    const hash: seq<byte> -> Fingerprint
    var index: Index
    var nodes: seq<Node>
    var disk: Files
    var nextName: Name
    ghost var all: Files
    ghost var pending: Uses
    ghost var uploads: Uses

    ghost predicate Valid()
      reads this
    {
      && Tied(nodes, disk, all) && Fresh(all, nextName)
      && Sound(index, all, hash) && ValidCounts(index, pending, uploads)
    }

    constructor (hash: seq<byte> -> Fingerprint)
      ensures Valid() && index == map[] && this.hash == hash && pending == uploads == NoUses
    {
      this.hash := hash;
      index, nodes, disk, all := map[], [], map[], map[];
      nextName := FirstName();
      pending, uploads := NoUses, NoUses;
    }

    /** First stage: which shares of a package does the user already own? */
    method FirstStageDedup(user: int, entries: seq<ShareMD>) returns (dups: seq<bool>, sentSize: nat)
      requires Valid()
      modifies `index, `pending, `uploads
      ensures Valid() && |dups| == |entries| && sentSize == SentSize(entries, dups, |entries|)
      ensures uploads == WithAll(old(uploads), entries, user, |entries|)
      ensures pending == WithMissing(old(pending), entries, dups, user, |entries|)
      ensures Answers(old(index), user, entries, dups)
      ensures Stays(old(index), index) && index.Keys == old(index).Keys
    {
      dups, sentSize, index := CheckPackage(index, user, entries, pending, uploads, all, hash);
      pending, uploads :=
        WithMissing(pending, entries, dups, user, |entries|), WithAll(uploads, entries, user, |entries|);
    }

    /** Second stage: take the bytes of the shares that were asked for. */
    method SecondStageDedup(user: int, entries: seq<ShareMD>, dups: seq<bool>, data: seq<byte>, now: real)
      returns (ok: bool, ghost n: nat, ghost chain: seq<Name>)
      requires Valid() && |dups| == |entries| && FitSizes(entries, dups) && |data| == SentSize(entries, dups, |entries|)
      requires Rank(nextName) + |entries| + 2 < ALL_NAMES
      modifies `index, `nodes, `disk, `nextName, `all, `pending
      ensures Valid() && n == FirstRefused(entries, dups, data, hash, 0) && (ok <==> n == |entries|)
      ensures pending == WithoutMissing(old(pending), entries, dups, user, n)
      ensures index.Keys == old(index).Keys + Asked(entries, dups, n)
      ensures Rank(nextName) <= old(Rank(nextName)) + |entries| + 1
      ensures Stays(old(index), index) && Grows(old(all), all)
      ensures Continues(old(nodes), old(nextName), user, nodes, chain)
      ensures Chained(chain, chain[0], chain[|chain| - 1],
                      FlushedIdle(old(disk), old(nodes), user, now, |old(nodes)|), index, disk)
    {
      ok, n, index, nodes, disk, nextName, all, chain :=
        StoreForUser(index, nodes, disk, nextName, all, user, entries, dups, data, now, hash, pending, uploads);
      pending := WithoutMissing(pending, entries, dups, user, n);
    }
  }
}
