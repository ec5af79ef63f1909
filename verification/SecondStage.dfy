/** The second stage of an upload, server/dedup/minDedupCore.cc: counting shares and storing the new ones. */
module SecondStage {
  import opened ContainerNames
  import opened ShareIndex
  import opened Containers
  import opened ReferenceCounts
  import opened BufferNodes

  /** Put a share that fits at the end of a buffer. */
  method AppendShare(index: Index, nodes: seq<Node>, t: nat, ghost disk: Files, ghost all: Files, share: seq<byte>,
                     user: int, hash: seq<byte> -> Fingerprint)
    returns (index': Index, nodes': seq<Node>, ghost all': Files)
    requires Tied(nodes, disk, all) && Sound(index, all, hash) && t < |nodes| && hash(share) !in index
    requires |nodes[t].data| + |share| <= CONTAINER_BUFFER_SIZE
    ensures Tied(nodes', disk, all') && Sound(index', all', hash) && Stays(index, index') && Grows(all, all')
    ensures nodes' == nodes[t := nodes[t].(data := nodes[t].data + share)]
    ensures index' == index[hash(share) := IndexValue(nodes[t].name, |nodes[t].data|, |share|, [UserRef(user, 1)])]
    ensures all' == all[nodes[t].name := nodes[t].data + share]
    ensures Reachable(index'[hash(share)], all') && BytesAt(index'[hash(share)], all') == share
  {
    var n := nodes[t];
    assert NodeTied(n, disk, all);
    GrownTied(nodes, t, share, disk, all);
    NewShareReadable(index, all, hash, n.name, share, [UserRef(user, 1)]);
    NewShareOnce(index, all, hash, n.name, share, [UserRef(user, 1)]);
    index' := index[hash(share) := IndexValue(n.name, |n.data|, |share|, [UserRef(user, 1)])];
    nodes', all' := nodes[t := n.(data := n.data + share)], all[n.name := n.data + share];
  }

  lemma FreshStays(all: Files, next: Name, nodes: seq<Node>, t: nat, disk: Files, share: seq<byte>)
    requires Fresh(all, next) && Tied(nodes, disk, all) && t < |nodes|
    ensures Fresh(all[nodes[t].name := nodes[t].data + share], next)
  {
    assert NodeTied(nodes[t], disk, all);
  }

  /** Put a share that the index does not have at the end of the user's buffer. */
  method StoreShare(index: Index, nodes: seq<Node>, t: nat, disk: Files, next: Name, ghost all: Files,
                    share: seq<byte>, user: int, hash: seq<byte> -> Fingerprint)
    returns (index': Index, nodes': seq<Node>, disk': Files, next': Name, ghost all': Files)
    requires Tied(nodes, disk, all) && Fresh(all, next) && Sound(index, all, hash) && Rank(next) + 1 < ALL_NAMES
    requires t < |nodes| && hash(share) !in index && |share| <= CONTAINER_BUFFER_SIZE
    ensures Tied(nodes', disk', all') && Fresh(all', next') && Sound(index', all', hash)
    ensures Rank(next) <= Rank(next') <= Rank(next) + 1
    ensures |nodes[t].data| + |share| <= CONTAINER_BUFFER_SIZE ==>
              && index' == index[hash(share) := IndexValue(nodes[t].name, |nodes[t].data|, |share|, [UserRef(user, 1)])]
              && nodes' == nodes[t := nodes[t].(data := nodes[t].data + share)] && disk' == disk && next' == next
    ensures |nodes[t].data| + |share| > CONTAINER_BUFFER_SIZE ==>
              && index' == index[hash(share) := IndexValue(next, 0, |share|, [UserRef(user, 1)])]
              && nodes' == nodes[t := nodes[t].(name := next, data := share)]
              && disk' == disk[nodes[t].name := nodes[t].data] && Rank(next') == Rank(next) + 1
    ensures Stays(index, index') && Grows(all, all')
    ensures Reachable(index'[hash(share)], all') && BytesAt(index'[hash(share)], all') == share
  {
    if |nodes[t].data| + |share| > CONTAINER_BUFFER_SIZE {
      ghost var all1;
      nodes', disk', next', all1 := StoreShareContainer(nodes, t, disk, next, all, index, hash);
      assert nodes'[t].data + share == share;
      FreshStays(all1, next', nodes', t, disk', share);
      index', nodes', all' := AppendShare(index, nodes', t, disk', all1, share, user, hash);
      GrowsOn(all, all1, all');
    } else {
      disk', next' := disk, next;
      FreshStays(all, next, nodes, t, disk, share);
      index', nodes', all' := AppendShare(index, nodes, t, disk, all, share, user, hash);
    }
  }

  /** Container a was written to disk because the share that container b begins with did not fit into it. */
  ghost predicate Rolls(index: Index, disk: Files, a: Name, b: Name) {
    && a in disk
    && exists fp :: && fp in index && index[fp].container == b && index[fp].offset == 0
                    && |disk[a]| + index[fp].size > CONTAINER_BUFFER_SIZE
  }

  /** The user's node is where it was, or has gone on to the next container because a share did not fit. */
  ghost predicate GoesOn(nodes: seq<Node>, t: nat, disk: Files, next: Name, index': Index, nodes': seq<Node>,
                         disk': Files, next': Name)
  {
    && t < |nodes| && t < |nodes'| && nodes'[t].user == nodes[t].user
    && if next' == next then disk' == disk && nodes'[t].name == nodes[t].name
       else && nodes'[t].name == next && Rank(next') == Rank(next) + 1
            && disk' == disk[nodes[t].name := nodes[t].data] && Rolls(index', disk', nodes[t].name, next)
  }

  lemma WentOn(nodes: seq<Node>, t: nat, disk: Files, next: Name, share: seq<byte>, index': Index, fp: Fingerprint,
               nodes': seq<Node>, disk': Files, next': Name)
    requires t < |nodes| && fp in index' && Rank(next') == Rank(next) + 1
    requires |nodes[t].data| + |share| > CONTAINER_BUFFER_SIZE
    requires index'[fp].container == next && index'[fp].offset == 0 && index'[fp].size == |share|
    requires nodes' == nodes[t := nodes[t].(name := next, data := share)]
    requires disk' == disk[nodes[t].name := nodes[t].data]
    ensures GoesOn(nodes, t, disk, next, index', nodes', disk', next')
  {
  }

  /** One more reference to a share by the user.  Its bytes are stored if they are new, and only then. */
  method InterUserIndexUpdate(index: Index, nodes: seq<Node>, t: nat, disk: Files, next: Name, ghost all: Files,
                              share: seq<byte>, user: int, hash: seq<byte> -> Fingerprint,
                              ghost pending: Uses, ghost uploads: Uses)
    returns (index': Index, nodes': seq<Node>, disk': Files, next': Name, ghost all': Files)
    requires Tied(nodes, disk, all) && Fresh(all, next) && Sound(index, all, hash) && Rank(next) + 1 < ALL_NAMES
    requires ValidCounts(index, pending, uploads)
    requires t < |nodes| && |share| <= CONTAINER_BUFFER_SIZE
    ensures Tied(nodes', disk', all') && Fresh(all', next') && Sound(index', all', hash)
    ensures Rank(next) <= Rank(next') <= Rank(next) + 1
    ensures ValidCounts(index', Less(pending, hash(share), user), uploads)
    ensures |nodes'| == |nodes| && index'.Keys == index.Keys + {hash(share)}
    ensures Stays(index, index') && Grows(all, all')
    ensures hash(share) in index ==> nodes' == nodes && disk' == disk && next' == next && all' == all
    ensures hash(share) !in index && |nodes[t].data| + |share| <= CONTAINER_BUFFER_SIZE ==>
              && index'[hash(share)] == IndexValue(nodes[t].name, |nodes[t].data|, |share|, [UserRef(user, 1)])
              && nodes' == nodes[t := nodes[t].(data := nodes[t].data + share)] && disk' == disk && next' == next
    ensures hash(share) !in index && |nodes[t].data| + |share| > CONTAINER_BUFFER_SIZE ==>
              && index'[hash(share)] == IndexValue(next, 0, |share|, [UserRef(user, 1)])
              && nodes' == nodes[t := nodes[t].(name := next, data := share)]
              && disk' == disk[nodes[t].name := nodes[t].data] && Rank(next') == Rank(next) + 1
    ensures hash(share) !in index ==>
              Reachable(index'[hash(share)], all') && BytesAt(index'[hash(share)], all') == share
    ensures GoesOn(nodes, t, disk, next, index', nodes', disk', next')
  {
    var fp := hash(share);
    nodes', disk', next', all' := nodes, disk, next, all;
    if fp in index {
      var found, i := FindUser(index[fp].users, user);
      OldShareCounts(index, fp, user, found, i);
      SamePlace(index, all, hash, fp, Referred(index[fp].users, found, i, user));
      index' := index[fp := index[fp].(users := Referred(index[fp].users, found, i, user))];
    } else {
      index', nodes', disk', next', all' := StoreShare(index, nodes, t, disk, next, all, share, user, hash);
      NewShareCounts(index, fp, user, index'[fp]);
      if |nodes[t].data| + |share| > CONTAINER_BUFFER_SIZE {
        WentOn(nodes, t, disk, next, share, index', fp, nodes', disk', next');
      }
    }
    CountsMove(index, index', fp, user, pending, uploads);
  }

  predicate FitSizes(entries: seq<ShareMD>, dups: seq<bool>)
    requires |dups| == |entries|
  {
    forall i {:trigger entries[i]} :: 0 <= i < |entries| && !dups[i] ==> entries[i].size <= CONTAINER_BUFFER_SIZE
  }

  /** The bytes that arrived for share i, behind those of the shares before it, have its fingerprint. */
  ghost predicate Genuine(entries: seq<ShareMD>, dups: seq<bool>, data: seq<byte>, hash: seq<byte> -> Fingerprint,
                          i: nat)
    requires i < |entries| && |dups| == |entries|
  {
    var o := SentSize(entries, dups, i);
    dups[i] || (o + entries[i].size <= |data| && hash(data[o..o + entries[i].size]) == entries[i].fp)
  }

  lemma KeysStep(keys: set<Fingerprint>, entries: seq<ShareMD>, dups: seq<bool>, i: nat)
    requires i < |entries| == |dups|
    ensures keys + Asked(entries, dups, i + 1) == (keys + Asked(entries, dups, i))
            + if dups[i] then {} else {entries[i].fp}
  {
  }

  /** The first share from i on whose bytes are refused, or the number of shares. */
  ghost function FirstRefused(entries: seq<ShareMD>, dups: seq<bool>, data: seq<byte>, hash: seq<byte> -> Fingerprint,
                              i: nat): (n: nat)
    requires i <= |entries| == |dups|
    ensures i <= n <= |entries|
    decreases |entries| - i
  {
    if i < |entries| && Genuine(entries, dups, data, hash, i) then FirstRefused(entries, dups, data, hash, i + 1) else i
  }

  lemma {:induction false} NoneRefused(entries: seq<ShareMD>, dups: seq<bool>, data: seq<byte>,
                                       hash: seq<byte> -> Fingerprint, i: nat)
    requires i <= |entries| == |dups|
    ensures FirstRefused(entries, dups, data, hash, i) == |entries| <==>
            forall k {:trigger Genuine(entries, dups, data, hash, k)} :: i <= k < |entries| ==>
              Genuine(entries, dups, data, hash, k)
    decreases |entries| - i
  {
    if i < |entries| { NoneRefused(entries, dups, data, hash, i + 1); }
  }

  /** The containers that the user's node has gone through, one after the other; nothing else went to disk. */
  ghost predicate Chained(chain: seq<Name>, first: Name, last: Name, disk: Files, index': Index, disk': Files)
  {
    && |chain| > 0 && chain[0] == first && chain[|chain| - 1] == last
    && (forall i, j {:trigger chain[i], chain[j]} :: 0 <= i < j < |chain| ==> chain[i] != chain[j])
    && (forall i {:trigger Rolls(index', disk', chain[i], chain[i + 1])} :: 0 <= i < |chain| - 1 ==>
          Rolls(index', disk', chain[i], chain[i + 1]))
    && (forall c {:trigger c in disk'} :: c !in chain[..|chain| - 1] ==>
          (c in disk' <==> c in disk) && (c in disk ==> disk'[c] == disk[c]))
  }

  lemma ChainKept(chain: seq<Name>, first: Name, last: Name, disk: Files, index: Index, disk': Files, index': Index)
    requires Chained(chain, first, last, disk, index, disk') && Stays(index, index')
    ensures Chained(chain, first, last, disk, index', disk')
  {
    forall i | 0 <= i < |chain| - 1 ensures Rolls(index', disk', chain[i], chain[i + 1]) {
      RollsOn(index, disk', index', disk', chain[i], chain[i + 1]);
    }
  }

  lemma RollsOn(index: Index, disk: Files, index': Index, disk': Files, a: Name, b: Name)
    requires Rolls(index, disk, a, b) && Stays(index, index') && a in disk' && disk'[a] == disk[a]
    ensures Rolls(index', disk', a, b)
  {
    var fp :| && fp in index && index[fp].container == b && index[fp].offset == 0
              && |disk[a]| + index[fp].size > CONTAINER_BUFFER_SIZE;
    assert SameSpot(fp, index, index');
  }

  /** One container more. */
  lemma ChainGrows(chain: seq<Name>, first: Name, last: Name, disk: Files, index: Index, disk1: Files, index': Index,
                   data: seq<byte>, next: Name)
    requires Chained(chain, first, last, disk, index, disk1) && Stays(index, index') && next !in chain
    requires Rolls(index', disk1[last := data], last, next)
    ensures Chained(chain + [next], first, next, disk, index', disk1[last := data])
  {
    var n, disk', chain' := |chain|, disk1[last := data], chain + [next];
    assert chain'[..n] == chain && chain == chain[..n - 1] + [last];
    forall i | 0 <= i < n ensures Rolls(index', disk', chain'[i], chain'[i + 1]) {
      if i < n - 1 {
        assert Rolls(index, disk1, chain[i], chain[i + 1]) && chain[i] != chain[n - 1];
        RollsOn(index, disk1, index', disk', chain[i], chain[i + 1]);
      }
    }
    forall c | c !in chain'[..n] ensures (c in disk' <==> c in disk) && (c in disk ==> disk'[c] == disk[c]) {
      assert c !in chain[..n - 1] && c != last;
      assert c in disk' <==> c in disk1;
    }
  }

  /** The bytes of a share, if they have its fingerprint. */
  method ReadShare(entries: seq<ShareMD>, dups: seq<bool>, i: nat, data: seq<byte>, offset: nat,
                   hash: seq<byte> -> Fingerprint)
    returns (ok: bool, share: seq<byte>)
    requires i < |entries| == |dups| && !dups[i] && |data| == SentSize(entries, dups, |entries|)
    requires offset == SentSize(entries, dups, i)
    ensures ok <==> Genuine(entries, dups, data, hash, i)
    ensures |share| == entries[i].size && (ok ==> hash(share) == entries[i].fp)
  {
    SentSizeGrows(entries, dups, i + 1, |entries|);
    share := data[offset..offset + entries[i].size];
    ok := hash(share) == entries[i].fp;
  }

  /** What share i adds. */
  lemma OneMoreShare(entries: seq<ShareMD>, dups: seq<bool>, i: nat, pending: Uses, user: int)
    requires i < |entries| == |dups|
    ensures SentSize(entries, dups, i + 1) == SentSize(entries, dups, i) + if dups[i] then 0 else entries[i].size
    ensures WithoutMissing(pending, entries, dups, user, i + 1) ==
            if dups[i] then WithoutMissing(pending, entries, dups, user, i)
            else Less(WithoutMissing(pending, entries, dups, user, i), entries[i].fp, user)
  {
  }

  /** Count share i of a package if its bytes were asked for; they are next in the data.  Bytes
      that do not have the fingerprint are refused. */
  method StoreEntry(index: Index, nodes: seq<Node>, t: nat, disk: Files, next: Name, ghost all: Files, user: int,
                    entries: seq<ShareMD>, dups: seq<bool>, i: nat, data: seq<byte>, offset: nat,
                    hash: seq<byte> -> Fingerprint, ghost pending: Uses, ghost uploads: Uses)
    returns (ok: bool, offset': nat, index': Index, nodes': seq<Node>, disk': Files, next': Name, ghost all': Files)
    requires Tied(nodes, disk, all) && Fresh(all, next) && Sound(index, all, hash)
    requires i < |entries| == |dups| && FitSizes(entries, dups) && |data| == SentSize(entries, dups, |entries|)
    requires ValidCounts(index, WithoutMissing(pending, entries, dups, user, i), uploads)
    requires t < |nodes| && Rank(next) + 1 < ALL_NAMES && offset == SentSize(entries, dups, i)
    ensures Tied(nodes', disk', all') && Fresh(all', next') && Sound(index', all', hash)
    ensures |nodes'| == |nodes| && Rank(next') <= Rank(next) + 1
    ensures ok <==> Genuine(entries, dups, data, hash, i)
    ensures ValidCounts(index', WithoutMissing(pending, entries, dups, user, if ok then i + 1 else i), uploads)
    ensures ok ==> offset' == SentSize(entries, dups, i + 1)
    ensures index'.Keys == index.Keys + if dups[i] || !ok then {} else {entries[i].fp}
    ensures Stays(index, index') && Grows(all, all') && GoesOn(nodes, t, disk, next, index', nodes', disk', next')
  {
    ok, offset', index', nodes', disk', next', all' := true, offset, index, nodes, disk, next, all;
    OneMoreShare(entries, dups, i, pending, user);
    if !dups[i] {
      var share;
      ok, share := ReadShare(entries, dups, i, data, offset, hash);
      if ok {
        index', nodes', disk', next', all' :=
          InterUserIndexUpdate(index, nodes, t, disk, next, all, share, user, hash,
                               WithoutMissing(pending, entries, dups, user, i), uploads);
        offset' := offset + entries[i].size;
      }
    }
  }

  /** The chain goes on from the user's node, or from a new one, to one of the nodes. */
  ghost predicate Continues(nodes: seq<Node>, next: Name, user: int, nodes': seq<Node>, chain: seq<Name>) {
    && chain != [] && (chain[0] == next || OwnName(nodes, user, chain[0])) && OwnName(nodes', user, chain[|chain| - 1])
  }

  lemma {:induction false} RemainingFrom(nodes: seq<Node>, user: int, now: real, n: nat, k: nat)
    requires n <= |nodes| && k < |Remaining(nodes, user, now, n)|
    ensures var m := Remaining(nodes, user, now, n)[k];
            exists i :: 0 <= i < n && nodes[i].user == m.user && nodes[i].name == m.name
  {
    if k < |Remaining(nodes, user, now, n - 1)| { RemainingFrom(nodes, user, now, n - 1, k); }
  }

  ghost predicate OwnName(nodes: seq<Node>, user: int, name: Name) {
    exists k :: 0 <= k < |nodes| && nodes[k].user == user && nodes[k].name == name
  }

  /** What the server keeps, in one place. */
  datatype State = State(index: Index, nodes: seq<Node>, disk: Files, next: Name, all: Files)

  /** The state is valid, and nothing was lost since another one; the user's node has gone through the chain. */
  ghost predicate Storing(a: State, t: nat, b: State, chain: seq<Name>, hash: seq<byte> -> Fingerprint) {
    && Tied(b.nodes, b.disk, b.all) && Fresh(b.all, b.next) && Sound(b.index, b.all, hash)
    && Stays(a.index, b.index) && Grows(a.all, b.all)
    && t < |a.nodes| && t < |b.nodes| && b.nodes[t].user == a.nodes[t].user
    && Chained(chain, a.nodes[t].name, b.nodes[t].name, a.disk, b.index, b.disk)
    && Rank(b.next) + 1 == Rank(a.next) + |chain|
  }

  lemma StoringOne(s: State, t: nat, hash: seq<byte> -> Fingerprint)
    requires Tied(s.nodes, s.disk, s.all) && Fresh(s.all, s.next) && Sound(s.index, s.all, hash) && t < |s.nodes|
    ensures Storing(s, t, s, [s.nodes[t].name], hash)
  {
    assert NodeTied(s.nodes[t], s.disk, s.all);
  }

  lemma ChainInUse(a: State, t: nat, b: State, chain: seq<Name>, hash: seq<byte> -> Fingerprint)
    requires Storing(a, t, b, chain, hash)
    ensures b.next !in chain
  {
    forall i | 0 <= i < |chain| ensures chain[i] in b.all {
      if i == |chain| - 1 {
        assert NodeTied(b.nodes[t], b.disk, b.all);
      } else {
        assert Rolls(b.index, b.disk, chain[i], chain[i + 1]);
      }
    }
  }

  ghost function GoneOn(chain: seq<Name>, b: State, c: State): seq<Name> {
    if c.next == b.next then chain else chain + [b.next]
  }

  lemma StoringOn(a: State, t: nat, b: State, chain: seq<Name>, c: State, hash: seq<byte> -> Fingerprint)
    requires Storing(a, t, b, chain, hash)
    requires Tied(c.nodes, c.disk, c.all) && Fresh(c.all, c.next) && Sound(c.index, c.all, hash)
    requires Stays(b.index, c.index) && Grows(b.all, c.all)
    requires GoesOn(b.nodes, t, b.disk, b.next, c.index, c.nodes, c.disk, c.next)
    ensures Storing(a, t, c, GoneOn(chain, b, c), hash)
  {
    StaysOn(a.index, b.index, c.index);
    GrowsOn(a.all, b.all, c.all);
    ChainInUse(a, t, b, chain, hash);
    if c.next == b.next {
      ChainKept(chain, a.nodes[t].name, b.nodes[t].name, a.disk, b.index, b.disk, c.index);
    } else {
      ChainGrows(chain, a.nodes[t].name, b.nodes[t].name, a.disk, b.index, b.disk, c.index, b.nodes[t].data, b.next);
    }
  }

  /** The first i shares of a package have been dealt with. */
  ghost predicate Taken(a: State, t: nat, b: State, chain: seq<Name>, user: int, entries: seq<ShareMD>, dups: seq<bool>,
                        data: seq<byte>, hash: seq<byte> -> Fingerprint, pending: Uses, uploads: Uses, i: nat)
  {
    && Storing(a, t, b, chain, hash) && i <= |entries| == |dups| && |chain| <= 1 + |entries|
    && ValidCounts(b.index, WithoutMissing(pending, entries, dups, user, i), uploads)
    && FirstRefused(entries, dups, data, hash, 0) == FirstRefused(entries, dups, data, hash, i)
    && b.index.Keys == a.index.Keys + Asked(entries, dups, i)
  }

  /** Take the next share of a package. */
  method TakeEntry(index: Index, nodes: seq<Node>, t: nat, disk: Files, next: Name, ghost all: Files, user: int,
                   entries: seq<ShareMD>, dups: seq<bool>, i: nat, data: seq<byte>, offset: nat,
                   hash: seq<byte> -> Fingerprint, ghost pending: Uses, ghost uploads: Uses, ghost before: State,
                   ghost chain: seq<Name>)
    returns (ok: bool, offset': nat, index': Index, nodes': seq<Node>, disk': Files, next': Name, ghost all': Files,
             ghost chain': seq<Name>)
    requires Taken(before, t, State(index, nodes, disk, next, all), chain, user, entries, dups, data, hash, pending,
                   uploads, i)
    requires i < |entries| && FitSizes(entries, dups) && |data| == SentSize(entries, dups, |entries|)
    requires Rank(before.next) + |entries| + 1 < ALL_NAMES && offset == SentSize(entries, dups, i) && |chain| <= 1 + i
    ensures Taken(before, t, State(index', nodes', disk', next', all'), chain', user, entries, dups, data, hash,
                  pending, uploads, if ok then i + 1 else i)
    ensures ok ==> offset' == SentSize(entries, dups, i + 1) && |chain'| <= 2 + i
    ensures !ok ==> FirstRefused(entries, dups, data, hash, i) == i
  {
    ghost var last := State(index, nodes, disk, next, all);
    ok, offset', index', nodes', disk', next', all' :=
      StoreEntry(index, nodes, t, disk, next, all, user, entries, dups, i, data, offset, hash, pending, uploads);
    ghost var now := State(index', nodes', disk', next', all');
    StoringOn(before, t, last, chain, now, hash);
    chain' := GoneOn(chain, last, now);
    KeysStep(before.index.Keys, entries, dups, i);
  }

  /** Count the shares of a package whose bytes were asked for, and store the new ones. */
  method StorePackage(index: Index, nodes: seq<Node>, t: nat, disk: Files, next: Name, ghost all: Files, user: int,
                      entries: seq<ShareMD>, dups: seq<bool>, data: seq<byte>, hash: seq<byte> -> Fingerprint,
                      ghost pending: Uses, ghost uploads: Uses)
    returns (ok: bool, ghost n: nat, index': Index, nodes': seq<Node>, disk': Files, next': Name, ghost all': Files,
             ghost chain: seq<Name>)
    requires Tied(nodes, disk, all) && Fresh(all, next) && Sound(index, all, hash)
    requires ValidCounts(index, pending, uploads)
    requires t < |nodes| && Rank(next) + |entries| + 1 < ALL_NAMES
    requires |dups| == |entries| && FitSizes(entries, dups) && |data| == SentSize(entries, dups, |entries|)
    ensures n == FirstRefused(entries, dups, data, hash, 0) && (ok <==> n == |entries|)
    ensures Taken(State(index, nodes, disk, next, all), t, State(index', nodes', disk', next', all'), chain, user,
                  entries, dups, data, hash, pending, uploads, n)
  {
    index', nodes', disk', next', all', n := index, nodes, disk, next, all, 0;
    ghost var before := State(index, nodes, disk, next, all);
    StoringOne(before, t, hash);
    chain := [nodes[t].name];
    var offset := 0;
    for i := 0 to |entries|
      invariant n == i && offset == SentSize(entries, dups, i) && |chain| <= 1 + i
      invariant Taken(before, t, State(index', nodes', disk', next', all'), chain, user, entries, dups, data, hash,
                      pending, uploads, i)
    {
      ok, offset, index', nodes', disk', next', all', chain :=
        TakeEntry(index', nodes', t, disk', next', all', user, entries, dups, i, data, offset, hash, pending, uploads,
                  before, chain);
      if !ok {
        return;
      }
      n := i + 1;
    }
    ok := true;
  }

  lemma FoundContinues(nodes: seq<Node>, next: Name, user: int, now: real, nodes1: seq<Node>, t: nat)
    requires t < |nodes1| && nodes1[t].user == user
    requires var stay := Remaining(nodes, user, now, |nodes|);
             nodes1 == stay || (nodes1 == stay + [Node(user, next, [], now)] && t == |stay|)
    ensures nodes1[t].name == next || OwnName(nodes, user, nodes1[t].name)
  {
    if t < |Remaining(nodes, user, now, |nodes|)| { RemainingFrom(nodes, user, now, |nodes|, t); }
  }

  lemma ChainContinues(nodes: seq<Node>, next: Name, user: int, a: State, t: nat, b: State, chain: seq<Name>,
                       hash: seq<byte> -> Fingerprint)
    requires Storing(a, t, b, chain, hash) && a.nodes[t].user == user
    requires a.nodes[t].name == next || OwnName(nodes, user, a.nodes[t].name)
    ensures Continues(nodes, next, user, b.nodes, chain)
  {
    assert b.nodes[t].user == user && b.nodes[t].name == chain[|chain| - 1];
  }

  /** Find the user's node, or make one, and store a package there. */
  method StoreForUser(index: Index, nodes: seq<Node>, disk: Files, next: Name, ghost all: Files, user: int,
                      entries: seq<ShareMD>, dups: seq<bool>, data: seq<byte>, now: real,
                      hash: seq<byte> -> Fingerprint, ghost pending: Uses, ghost uploads: Uses)
    returns (ok: bool, ghost n: nat, index': Index, nodes': seq<Node>, disk': Files, next': Name, ghost all': Files,
             ghost chain: seq<Name>)
    requires Tied(nodes, disk, all) && Fresh(all, next) && Sound(index, all, hash)
    requires ValidCounts(index, pending, uploads) && Rank(next) + |entries| + 2 < ALL_NAMES
    requires |dups| == |entries| && FitSizes(entries, dups) && |data| == SentSize(entries, dups, |entries|)
    ensures Tied(nodes', disk', all') && Fresh(all', next') && Sound(index', all', hash)
    ensures n == FirstRefused(entries, dups, data, hash, 0) && (ok <==> n == |entries|)
    ensures ValidCounts(index', WithoutMissing(pending, entries, dups, user, n), uploads)
    ensures index'.Keys == index.Keys + Asked(entries, dups, n) && Rank(next') <= Rank(next) + |entries| + 1
    ensures Stays(index, index') && Grows(all, all')
    ensures Continues(nodes, next, user, nodes', chain)
    ensures Chained(chain, chain[0], chain[|chain| - 1], FlushedIdle(disk, nodes, user, now, |nodes|), index', disk')
  {
    var nodes1, disk1, next1, t; ghost var all1;
    nodes1, disk1, next1, all1, t := FindOrCreateBufferNode(nodes, disk, next, all, user, now, index, hash);
    FoundContinues(nodes, next, user, now, nodes1, t);
    ok, n, index', nodes', disk', next', all', chain :=
      StorePackage(index, nodes1, t, disk1, next1, all1, user, entries, dups, data, hash, pending, uploads);
    GrowsOn(all, all1, all');
    ChainContinues(nodes, next, user, State(index, nodes1, disk1, next1, all1), t,
                   State(index', nodes', disk', next', all'), chain, hash);
  }
}
