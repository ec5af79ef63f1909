/** The buffer nodes of the users, server/dedup/minDedupCore.cc: found, made, evicted, written to disk. */
module BufferNodes {
  import opened ContainerNames
  import opened ShareIndex
  import opened Containers

  lemma EvictionKept(nodes: seq<Node>, k: nat, disk: Files, before: Files, all: Files)
    requires Tied(nodes, disk, all) && k < |nodes| && Grows(before, all)
    ensures Grows(before, AfterEviction(all, nodes[k]))
  {
    assert NodeTied(nodes[k], disk, all);
    EvictionGrows(all, nodes[k]);
    GrowsOn(before, all, AfterEviction(all, nodes[k]));
  }

  predicate Idle(n: Node, user: int, now: real) {
    n.user != user && now - n.lastUse > MAX_BUFFER_WAIT_SECS
  }

  /** Of the first n nodes those that stay: the user's own, used just now, and those not idle. */
  function Remaining(nodes: seq<Node>, user: int, now: real, n: nat): seq<Node>
    requires n <= |nodes|
  {
    if n == 0 then [] else
      var m := nodes[n - 1];
      Remaining(nodes, user, now, n - 1)
      + if Idle(m, user, now) then [] else [if m.user == user then m.(lastUse := now) else m]
  }

  /** The disk after the idle ones of the first n nodes have been flushed. */
  function FlushedIdle(disk: Files, nodes: seq<Node>, user: int, now: real, n: nat): Files
    requires n <= |nodes|
  {
    if n == 0 then disk else
      var before := FlushedIdle(disk, nodes, user, now, n - 1);
      if Idle(nodes[n - 1], user, now) then Flushed(before, nodes[n - 1]) else before
  }

  /** What eviction does to a node: the user's own is touched, one idle for more than 18 seconds goes to disk with its
      data, if it has any, and any other stays. */
  ghost predicate NodeAfter(n: Node, user: int, now: real, nodes': seq<Node>, disk': Files) {
    if n.user == user then n.(lastUse := now) in nodes'
    else if now - n.lastUse > 18.0
    then !InNodes(nodes', n.name) && (n.data != [] ==> n.name in disk' && disk'[n.name] == n.data)
    else n in nodes'
  }

  /** Nodes and files come from somewhere. */
  ghost predicate NothingElse(nodes: seq<Node>, disk: Files, nodes': seq<Node>, disk': Files) {
    && (forall m :: m in nodes' ==> InNodes(nodes, m.name)) && |nodes'| <= |nodes|
    && (forall c {:trigger c in disk} :: c in disk ==> c in disk' && disk'[c] == disk[c])
    && (forall c {:trigger c in disk'} :: c in disk' && c !in disk ==>
          exists k :: 0 <= k < |nodes| && nodes[k].name == c && disk'[c] == nodes[k].data != [])
  }

  ghost predicate Evicted(nodes: seq<Node>, disk: Files, user: int, now: real, nodes': seq<Node>, disk': Files) {
    && NothingElse(nodes, disk, nodes', disk')
    && forall k {:trigger NodeAfter(nodes[k], user, now, nodes', disk')} :: 0 <= k < |nodes| ==>
         NodeAfter(nodes[k], user, now, nodes', disk')
  }

  ghost predicate OwnNames(nodes: seq<Node>, disk: Files) {
    && (forall i, j {:trigger nodes[i], nodes[j]} :: 0 <= i < j < |nodes| ==> nodes[i].name != nodes[j].name)
    && (forall i {:trigger nodes[i]} :: 0 <= i < |nodes| ==> nodes[i].name !in disk)
  }

  lemma {:induction false} EvictedExactly(nodes: seq<Node>, disk: Files, user: int, now: real, n: nat)
    requires OwnNames(nodes, disk) && n <= |nodes|
    ensures Evicted(nodes[..n], disk, user, now, Remaining(nodes, user, now, n), FlushedIdle(disk, nodes, user, now, n))
  {
    if n > 0 {
      EvictedExactly(nodes, disk, user, now, n - 1);
      EvictedOneMore(nodes, disk, user, now, n);
    }
  }

  lemma TiedNames(nodes: seq<Node>, disk: Files, all: Files)
    requires Tied(nodes, disk, all)
    ensures OwnNames(nodes, disk)
  {
    forall i, j | 0 <= i < j < |nodes| ensures nodes[i].name != nodes[j].name {
      assert ApartNodes(nodes[i], nodes[j]);
    }
    forall i | 0 <= i < |nodes| ensures nodes[i].name !in disk {
      assert NodeTied(nodes[i], disk, all);
    }
  }

  lemma NotNamed(nodes: seq<Node>, disk: Files, n: nat, stay: seq<Node>, files: Files)
    requires OwnNames(nodes, disk) && 0 < n <= |nodes| && NothingElse(nodes[..n - 1], disk, stay, files)
    ensures !InNodes(stay, nodes[n - 1].name)
  {
    forall k | 0 <= k < |stay| ensures stay[k].name != nodes[n - 1].name {
      assert stay[k] in stay;
      var i :| 0 <= i < n - 1 && nodes[..n - 1][i].name == stay[k].name;
    }
  }

  lemma NothingElseMore(nodes: seq<Node>, disk: Files, user: int, now: real, n: nat)
    requires OwnNames(nodes, disk) && 0 < n <= |nodes|
    requires NothingElse(nodes[..n - 1], disk, Remaining(nodes, user, now, n - 1),
                         FlushedIdle(disk, nodes, user, now, n - 1))
    ensures NothingElse(nodes[..n], disk, Remaining(nodes, user, now, n), FlushedIdle(disk, nodes, user, now, n))
  {
    var stay, files := Remaining(nodes, user, now, n - 1), FlushedIdle(disk, nodes, user, now, n - 1);
    var stay', files', m := Remaining(nodes, user, now, n), FlushedIdle(disk, nodes, user, now, n), nodes[n - 1];
    forall x | x in stay' ensures InNodes(nodes[..n], x.name) {
      if x in stay {
        var i :| 0 <= i < n - 1 && nodes[..n - 1][i].name == x.name;
        assert nodes[..n][i].name == x.name;
      } else {
        assert nodes[..n][n - 1].name == x.name;
      }
    }
    forall c | c in files' && c !in disk
      ensures exists k :: 0 <= k < n && nodes[..n][k].name == c && files'[c] == nodes[..n][k].data != []
    {
      if c in files && files'[c] == files[c] {
        var k :| 0 <= k < n - 1 && nodes[..n - 1][k].name == c && files[c] == nodes[..n - 1][k].data != [];
        assert nodes[..n][k].name == c;
      } else {
        assert nodes[..n][n - 1].name == c;
      }
    }
  }

  lemma EvictedOneMore(nodes: seq<Node>, disk: Files, user: int, now: real, n: nat)
    requires OwnNames(nodes, disk) && 0 < n <= |nodes|
    requires Evicted(nodes[..n - 1], disk, user, now, Remaining(nodes, user, now, n - 1),
                     FlushedIdle(disk, nodes, user, now, n - 1))
    ensures Evicted(nodes[..n], disk, user, now, Remaining(nodes, user, now, n), FlushedIdle(disk, nodes, user, now, n))
  {
    var stay, files := Remaining(nodes, user, now, n - 1), FlushedIdle(disk, nodes, user, now, n - 1);
    var stay', files', m := Remaining(nodes, user, now, n), FlushedIdle(disk, nodes, user, now, n), nodes[n - 1];
    NothingElseMore(nodes, disk, user, now, n);
    NotNamed(nodes, disk, n, stay, files);
    forall k | 0 <= k < n ensures NodeAfter(nodes[..n][k], user, now, stay', files') {
      if k < n - 1 {
        assert NodeAfter(nodes[..n - 1][k], user, now, stay, files) && nodes[k].name != m.name;
        StillAfter(nodes[k], user, now, stay, files, stay', files', m);
      }
    }
  }

  lemma StillAfter(n: Node, user: int, now: real, stay: seq<Node>, files: Files, stay': seq<Node>, files': Files,
                   m: Node)
    requires NodeAfter(n, user, now, stay, files) && n.name != m.name && stay <= stay' && |stay'| <= |stay| + 1
    requires |stay'| > |stay| ==> stay'[|stay|].name == m.name
    requires files' == files || files' == files[m.name := m.data]
    ensures NodeAfter(n, user, now, stay', files')
  {
    forall x | x in stay ensures x in stay' {
      var i :| 0 <= i < |stay| && stay[i] == x;
      assert stay'[i] == x;
    }
    if InNodes(stay', n.name) {
      var i :| 0 <= i < |stay'| && stay'[i].name == n.name;
      assert i < |stay| && stay[i] == stay'[i];
    }
  }

  /** The first i nodes have been dealt with: k of them stay, before the others. */
  ghost predicate Scanned(nodes: seq<Node>, disk: Files, user: int, now: real, i: nat, current: seq<Node>, d: Files,
                          k: nat)
  {
    && i <= |nodes| && k == |Remaining(nodes, user, now, i)|
    && current == Remaining(nodes, user, now, i) + nodes[i..] && d == FlushedIdle(disk, nodes, user, now, i)
  }

  lemma ScannedAll(nodes: seq<Node>, disk: Files, all: Files, user: int, now: real, nodes': seq<Node>, d: Files)
    requires Tied(nodes, disk, all) && Scanned(nodes, disk, user, now, |nodes|, nodes', d, |nodes'|)
    ensures Evicted(nodes, disk, user, now, nodes', d)
  {
    TiedNames(nodes, disk, all);
    EvictedExactly(nodes, disk, user, now, |nodes|);
    assert nodes[..|nodes|] == nodes && nodes' == Remaining(nodes, user, now, |nodes|);
  }

  lemma NextScanned(nodes: seq<Node>, disk: Files, user: int, now: real, i: nat, current: seq<Node>, d: Files, k: nat)
    requires Scanned(nodes, disk, user, now, i, current, d, k) && k < |current|
    ensures i < |nodes| && current[k] == nodes[i]
    ensures var n := current[k];
            if n.user == user then Scanned(nodes, disk, user, now, i + 1, current[k := n.(lastUse := now)], d, k + 1)
            else if Idle(n, user, now)
                 then Scanned(nodes, disk, user, now, i + 1, Without(current, k), Flushed(d, n), k)
            else Scanned(nodes, disk, user, now, i + 1, current, d, k + 1)
  {
    var done, n := Remaining(nodes, user, now, i), current[k];
    assert nodes[i..] == [n] + nodes[i + 1..];
    assert Without(current, k) == done + nodes[i + 1..];
    assert forall m :: current[k := m] == (done + [m]) + nodes[i + 1..];
    assert current[k := n] == current;
  }

  /** Buffers and disk hold what they should, and lost nothing. */
  ghost predicate Keeps(nodes: seq<Node>, disk: Files, before: Files, all: Files, next: Name, index: Index,
                        hash: seq<byte> -> Fingerprint)
  {
    Tied(nodes, disk, all) && Fresh(all, next) && Sound(index, all, hash) && Grows(before, all)
  }

  lemma EvictionKeeps(nodes: seq<Node>, k: nat, disk: Files, before: Files, all: Files, next: Name, index: Index,
                      hash: seq<byte> -> Fingerprint)
    requires Keeps(nodes, disk, before, all, next, index, hash) && k < |nodes|
    ensures Keeps(Without(nodes, k), Flushed(disk, nodes[k]), before, AfterEviction(all, nodes[k]), next, index, hash)
  {
    EvictionSafe(index, nodes, k, disk, all, hash);
    EvictedTied(nodes, k, disk, all);
    EvictionKept(nodes, k, disk, before, all);
  }

  ghost predicate NotOwn(n: Node, user: int) { n.user != user }

  /** The user's own node among the first k. */
  ghost predicate OwnAmong(nodes: seq<Node>, user: int, k: nat, found: bool, t: nat) {
    k <= |nodes| && if found then t < k && nodes[t].user == user
                    else forall j {:trigger NotOwn(nodes[j], user)} :: 0 <= j < k ==> NotOwn(nodes[j], user)
  }

  lemma OwnEvicted(nodes: seq<Node>, user: int, k: nat, found: bool, t: nat)
    requires OwnAmong(nodes, user, k, found, t) && k < |nodes|
    ensures OwnAmong(Without(nodes, k), user, k, found, t)
  {
    if !found {
      forall j | 0 <= j < k ensures NotOwn(Without(nodes, k)[j], user) { assert NotOwn(nodes[j], user); }
    }
  }

  lemma OwnTouched(nodes: seq<Node>, user: int, now: real, k: nat, disk: Files, before: Files, all: Files,
                   next: Name, index: Index, hash: seq<byte> -> Fingerprint)
    requires Keeps(nodes, disk, before, all, next, index, hash) && k < |nodes| && nodes[k].user == user
    ensures var after := nodes[k := nodes[k].(lastUse := now)];
            Keeps(after, disk, before, all, next, index, hash) && OwnAmong(after, user, k + 1, true, k)
  {
    TouchedTied(nodes, k, nodes[k].(lastUse := now), disk, all);
  }

  lemma OtherPassed(nodes: seq<Node>, user: int, k: nat, found: bool, t: nat)
    requires OwnAmong(nodes, user, k, found, t) && k < |nodes| && nodes[k].user != user
    ensures OwnAmong(nodes, user, k + 1, found, t)
  {
  }

  /** The first i nodes have been scanned. */
  ghost predicate Scanning(nodes: seq<Node>, disk: Files, all: Files, user: int, now: real, i: nat,
                           nodes': seq<Node>, disk': Files, all': Files, k: nat, found: bool, t: nat,
                           next: Name, index: Index, hash: seq<byte> -> Fingerprint)
  {
    && Keeps(nodes', disk', all, all', next, index, hash) && OwnAmong(nodes', user, k, found, t)
    && Scanned(nodes, disk, user, now, i, nodes', disk', k) && |nodes'| - k == |nodes| - i
  }

  /** Flush and drop a node of another user that has been idle too long, or note the user's own. */
  method ScanNode(nodes: seq<Node>, disk: Files, ghost all: Files, user: int, now: real, k: nat, found: bool, t: nat,
                  ghost next: Name, ghost index: Index, ghost hash: seq<byte> -> Fingerprint,
                  ghost nodes0: seq<Node>, ghost disk0: Files, ghost all0: Files, ghost i: nat)
    returns (nodes': seq<Node>, disk': Files, ghost all': Files, k': nat, found': bool, t': nat)
    requires Scanning(nodes0, disk0, all0, user, now, i, nodes, disk, all, k, found, t, next, index, hash)
    requires k < |nodes|
    ensures Scanning(nodes0, disk0, all0, user, now, i + 1, nodes', disk', all', k', found', t', next, index, hash)
  {
    nodes', disk', all', k', found', t' := nodes, disk, all, k, found, t;
    NextScanned(nodes0, disk0, user, now, i, nodes, disk, k);
    var n := nodes[k];
    if n.user == user {
      OwnTouched(nodes, user, now, k, disk, all0, all, next, index, hash);
      nodes', k', found', t' := nodes[k := n.(lastUse := now)], k + 1, true, k;
    } else if now - n.lastUse > MAX_BUFFER_WAIT_SECS {
      EvictionKeeps(nodes, k, disk, all0, all, next, index, hash);
      OwnEvicted(nodes, user, k, found, t);
      nodes', disk', all' := Without(nodes, k), Flushed(disk, n), AfterEviction(all, n);
    } else {
      OtherPassed(nodes, user, k, found, t);
      k' := k + 1;
    }
  }

  /** Flush and drop the nodes of other users that have been idle too long, and find the user's own. */
  method EvictIdle(nodes: seq<Node>, disk: Files, ghost all: Files, user: int, now: real,
                   ghost next: Name, ghost index: Index, ghost hash: seq<byte> -> Fingerprint)
    returns (nodes': seq<Node>, disk': Files, ghost all': Files, found: bool, t: nat)
    requires Keeps(nodes, disk, all, all, next, index, hash)
    ensures Keeps(nodes', disk', all, all', next, index, hash) && OwnAmong(nodes', user, |nodes'|, found, t)
    ensures Scanned(nodes, disk, user, now, |nodes|, nodes', disk', |nodes'|)
    ensures Evicted(nodes, disk, user, now, nodes', disk')
  {
    nodes', disk', all', found, t := nodes, disk, all, false, 0;
    var k: nat := 0;
    ghost var i: nat := 0;
    while k < |nodes'|
      invariant Scanning(nodes, disk, all, user, now, i, nodes', disk', all', k, found, t, next, index, hash)
      decreases |nodes'| - k
    {
      nodes', disk', all', k, found, t :=
        ScanNode(nodes', disk', all', user, now, k, found, t, next, index, hash, nodes, disk, all, i);
      i := i + 1;
    }
    ScannedAll(nodes, disk, all, user, now, nodes', disk');
  }

  /** A new name is no container's yet, and counting up leaves it behind. */
  lemma NewContainer(all: Files, name: Name, next: Name, index: Index, hash: seq<byte> -> Fingerprint)
    requires Fresh(all, name) && IsName(next) && Rank(next) == Rank(name) + 1 && Sound(index, all, hash)
    ensures name !in all && Fresh(all[name := []], next) && Sound(index, all[name := []], hash)
    ensures Grows(all, all[name := []])
  {
    forall fp | fp in index ensures StoredAt(index[fp], all[name := []], hash, fp) {
      assert StoredAt(index[fp], all, hash, fp);
    }
    forall c, p | c in all[name := []] && 0 <= p < |all[name := []][c]| ensures Owned(index, c, p) {
      assert c in all && Owned(index, c, p);
    }
  }

  ghost predicate HasNode(nodes: seq<Node>, user: int) {
    exists k :: 0 <= k < |nodes| && nodes[k].user == user
  }

  /** Users keep their own node. */
  lemma {:induction false} StillHasNode(nodes: seq<Node>, user: int, now: real, n: nat)
    requires n <= |nodes|
    ensures HasNode(Remaining(nodes, user, now, n), user) <==> HasNode(nodes[..n], user)
  {
    if n > 0 {
      StillHasNode(nodes, user, now, n - 1);
      HasNodeOneMore(nodes[..n - 1], nodes[n - 1], user);
      assert nodes[..n] == nodes[..n - 1] + [nodes[n - 1]];
      var m := nodes[n - 1];
      HasNodeOneMore(Remaining(nodes, user, now, n - 1), if m.user == user then m.(lastUse := now) else m, user);
      assert Remaining(nodes, user, now, n - 1) + [] == Remaining(nodes, user, now, n - 1);
    }
  }

  lemma HasNodeOneMore(nodes: seq<Node>, n: Node, user: int)
    ensures HasNode(nodes + [n], user) <==> HasNode(nodes, user) || n.user == user
  {
    if HasNode(nodes, user) {
      var k :| 0 <= k < |nodes| && nodes[k].user == user;
      assert (nodes + [n])[k].user == user;
    } else if n.user == user {
      assert (nodes + [n])[|nodes|].user == user;
    }
  }

  lemma FoundOwn(nodes: seq<Node>, user: int, now: real, nodes': seq<Node>, found: bool, t: nat)
    requires nodes' == Remaining(nodes, user, now, |nodes|) && OwnAmong(nodes', user, |nodes'|, found, t)
    ensures found <==> HasNode(nodes, user)
  {
    StillHasNode(nodes, user, now, |nodes|);
    assert nodes[..|nodes|] == nodes;
    if !found {
      forall k | 0 <= k < |nodes'| ensures nodes'[k].user != user { assert NotOwn(nodes'[k], user); }
    }
  }

  /** Find the user's buffer node, or make one with a new container. */
  method FindOrCreateBufferNode(nodes: seq<Node>, disk: Files, next: Name, ghost all: Files, user: int, now: real,
                                ghost index: Index, ghost hash: seq<byte> -> Fingerprint)
    returns (nodes': seq<Node>, disk': Files, next': Name, ghost all': Files, t: nat)
    requires Tied(nodes, disk, all) && Fresh(all, next) && Sound(index, all, hash) && Rank(next) + 1 < ALL_NAMES
    ensures Tied(nodes', disk', all') && Fresh(all', next') && Sound(index, all', hash)
    ensures t < |nodes'| && nodes'[t].user == user && Rank(next') <= Rank(next) + 1 && Grows(all, all')
    ensures disk' == FlushedIdle(disk, nodes, user, now, |nodes|)
    ensures var stay := Remaining(nodes, user, now, |nodes|);
            if HasNode(nodes, user) then nodes' == stay && next' == next
            else nodes' == stay + [Node(user, next, [], now)] && t == |stay|
  {
    var found;
    nodes', disk', all', found, t := EvictIdle(nodes, disk, all, user, now, next, index, hash);
    next' := next;
    FoundOwn(nodes, user, now, nodes', found, t);
    if !found {
      NotExhausted(next);
      var _, counted := IncrGlobalFileName(next);
      var n := Node(user, next, [], now);
      forall k | 0 <= k < |nodes'| ensures nodes'[k].user != user { assert NotOwn(nodes'[k], user); }
      CreatedTied(nodes', n, disk', all');
      NewContainer(all', next, counted, index, hash);
      GrowsOn(all, all', all'[next := []]);
      nodes', next', all', t := nodes' + [n], counted, all'[next := []], |nodes'|;
    }
  }

  /** Write the buffer of a node to disk and begin a new container. */
  method StoreShareContainer(nodes: seq<Node>, t: nat, disk: Files, next: Name, ghost all: Files,
                             ghost index: Index, ghost hash: seq<byte> -> Fingerprint)
    returns (nodes': seq<Node>, disk': Files, next': Name, ghost all': Files)
    requires Tied(nodes, disk, all) && Fresh(all, next) && Sound(index, all, hash) && Rank(next) + 1 < ALL_NAMES
    requires t < |nodes|
    ensures Tied(nodes', disk', all') && Fresh(all', next') && Sound(index, all', hash) && Rank(next') == Rank(next) + 1
    ensures Grows(all, all')
    ensures nodes' == nodes[t := nodes[t].(name := next, data := [])] && disk' == disk[nodes[t].name := nodes[t].data]
  {
    NotExhausted(next);
    var _, counted := IncrGlobalFileName(next);
    RenewedTied(nodes, t, next, disk, all);
    NewContainer(all, next, counted, index, hash);
    disk' := disk[nodes[t].name := nodes[t].data];
    nodes', next', all' := nodes[t := nodes[t].(name := next, data := [])], counted, all[next := []];
  }
}
