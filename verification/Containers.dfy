/** Where share bytes are, server/dedup/minDedupCore.cc: in the buffer node of a user who is
    uploading, or in a container file on disk. */
module Containers {
  import opened ContainerNames
  import opened ShareIndex

  const CONTAINER_BUFFER_SIZE: nat := 4194304
  const MAX_BUFFER_WAIT_SECS: real := 18.0

  datatype Node = Node(user: int, name: Name, data: seq<byte>, lastUse: real)

  type Files = map<Name, seq<byte>>

  /** The bytes of all containers, wherever they are, are `all`. */
  ghost predicate Tied(nodes: seq<Node>, disk: Files, all: Files) {
    && (forall k {:trigger NodeTied(nodes[k], disk, all)} :: 0 <= k < |nodes| ==> NodeTied(nodes[k], disk, all))
    && (forall i, j {:trigger ApartNodes(nodes[i], nodes[j])} :: 0 <= i < j < |nodes| ==>
        ApartNodes(nodes[i], nodes[j]))
    && (forall n {:trigger n in disk} :: n in disk ==> n in all && all[n] == disk[n])
    && (forall n {:trigger n in all} :: n in all ==> n in disk || InNodes(nodes, n))
  }

  ghost predicate NodeTied(n: Node, disk: Files, all: Files) {
    n.name in all && all[n.name] == n.data && |n.data| <= CONTAINER_BUFFER_SIZE && n.name !in disk
  }

  /** One node to a user, one container to a node. */
  ghost predicate ApartNodes(a: Node, b: Node) {
    a.user != b.user && a.name != b.name
  }

  ghost predicate InNodes(nodes: seq<Node>, n: Name) {
    exists k :: 0 <= k < |nodes| && nodes[k].name == n
  }

  /** The next name is greater than every name in use. */
  ghost predicate Fresh(all: Files, next: Name) {
    IsName(next) && forall n {:trigger n in all} :: n in all ==> IsName(n) && Rank(n) < Rank(next)
  }

  // ---------------------------------------------------------------- what the index promises

  /** The container of a share exists and is long enough: what a restore needs. */
  ghost predicate Reachable(v: IndexValue, all: Files) {
    v.container in all && v.offset + v.size <= |all[v.container]|
  }

  /** The bytes of a share.  An empty share has none, wherever it is. */
  ghost function BytesAt(v: IndexValue, all: Files): seq<byte>
    requires v.size > 0 ==> Reachable(v, all)
  {
    if v.size == 0 then [] else all[v.container][v.offset..v.offset + v.size]
  }

  ghost predicate StoredAt(v: IndexValue, all: Files, hash: seq<byte> -> Fingerprint, fp: Fingerprint) {
    (v.size > 0 ==> Reachable(v, all)) && hash(BytesAt(v, all)) == fp
  }

  /** Every indexed fingerprint names a range of a container whose bytes hash to it. */
  ghost predicate Readable(index: Index, all: Files, hash: seq<byte> -> Fingerprint) {
    forall fp {:trigger fp in index} :: fp in index ==> StoredAt(index[fp], all, hash, fp)
  }

  ghost predicate AllReachable(index: Index, all: Files) {
    forall fp {:trigger fp in index} :: fp in index ==> Reachable(index[fp], all)
  }

  /** The two ranges have no byte in common. */
  ghost predicate Separate(a: IndexValue, b: IndexValue) {
    a.container == b.container && a.size > 0 && b.size > 0 ==>
      a.offset + a.size <= b.offset || b.offset + b.size <= a.offset
  }

  /** No two shares overlap: every share has its own bytes. */
  ghost predicate Apart(index: Index) {
    forall f, g {:trigger Separate(index[f], index[g])} ::
      f in index && g in index && f != g ==> Separate(index[f], index[g])
  }

  ghost predicate Holds(v: IndexValue, c: Name, p: nat) {
    v.container == c && v.offset <= p < v.offset + v.size
  }

  /** Some indexed share has the byte at p of container c. */
  ghost predicate Owned(index: Index, c: Name, p: nat) {
    exists fp {:trigger Holds(index[fp], c, p)} :: fp in index && Holds(index[fp], c, p)
  }

  /** No byte is stored that no indexed share has. */
  ghost predicate Tiled(index: Index, all: Files) {
    forall c, p {:trigger Owned(index, c, p)} :: c in all && 0 <= p < |all[c]| ==> Owned(index, c, p)
  }

  /** The indexed shares tile the containers: each share is stored, once, and nothing else is. */
  ghost predicate StoredOnce(index: Index, all: Files) {
    Apart(index) && Tiled(index, all)
  }

  ghost predicate Sound(index: Index, all: Files, hash: seq<byte> -> Fingerprint) {
    Readable(index, all, hash) && StoredOnce(index, all)
  }

  /** Every byte in every container belongs to exactly one indexed share. */
  lemma OneOwner(index: Index, all: Files, c: Name, p: nat)
    requires StoredOnce(index, all) && c in all && p < |all[c]|
    ensures exists fp :: fp in index && Holds(index[fp], c, p)
    ensures forall f, g :: f in index && g in index && Holds(index[f], c, p) && Holds(index[g], c, p) ==> f == g
  {
    assert Owned(index, c, p);
    forall f, g | f in index && g in index && Holds(index[f], c, p) && Holds(index[g], c, p) ensures f == g {
      assert f != g ==> Separate(index[f], index[g]);
    }
  }

  // ---------------------------------------------------------------- what happens to nodes

  lemma TouchedTied(nodes: seq<Node>, k: nat, n: Node, disk: Files, all: Files)
    requires Tied(nodes, disk, all) && k < |nodes| && n == nodes[k].(lastUse := n.lastUse)
    ensures Tied(nodes[k := n], disk, all)
  {
    var after := nodes[k := n];
    forall i | 0 <= i < |after| ensures NodeTied(after[i], disk, all) {
      assert NodeTied(nodes[i], disk, all);
    }
    forall i, j | 0 <= i < j < |after| ensures ApartNodes(after[i], after[j]) {
      assert ApartNodes(nodes[i], nodes[j]);
    }
    forall m | InNodes(nodes, m) ensures InNodes(after, m) {
      var i :| 0 <= i < |nodes| && nodes[i].name == m;
      assert after[i].name == m;
    }
  }

  function Without(nodes: seq<Node>, k: nat): seq<Node>
    requires k < |nodes|
  {
    nodes[..k] + nodes[k + 1..]
  }

  lemma WithoutNodes(nodes: seq<Node>, k: nat, m: Name)
    requires k < |nodes| && InNodes(nodes, m) && m != nodes[k].name
    ensures InNodes(Without(nodes, k), m)
  {
    var i :| 0 <= i < |nodes| && nodes[i].name == m;
    assert Without(nodes, k)[if i < k then i else i - 1].name == m;
  }

  lemma WithoutApart(nodes: seq<Node>, disk: Files, all: Files, k: nat)
    requires Tied(nodes, disk, all) && k < |nodes|
    ensures var after := Without(nodes, k);
            && (forall i, j {:trigger ApartNodes(after[i], after[j])} :: 0 <= i < j < |after| ==>
                ApartNodes(after[i], after[j]))
            && forall i {:trigger after[i]} :: 0 <= i < |after| ==>
              NodeTied(after[i], disk, all) && ApartNodes(after[i], nodes[k])
  {
    var after := Without(nodes, k);
    forall i, j | 0 <= i < j < |after| ensures ApartNodes(after[i], after[j]) {
      assert ApartNodes(nodes[if i < k then i else i + 1], nodes[if j < k then j else j + 1]);
    }
    forall i | 0 <= i < |after| ensures NodeTied(after[i], disk, all) && ApartNodes(after[i], nodes[k]) {
      var o := if i < k then i else i + 1;
      assert NodeTied(nodes[o], disk, all);
      if i < k { assert ApartNodes(nodes[i], nodes[k]); } else { assert ApartNodes(nodes[k], nodes[i + 1]); }
    }
  }

  /** What flushing a node leaves on disk: an empty buffer leaves nothing. */
  function Flushed(disk: Files, n: Node): Files {
    if |n.data| > 0 then disk[n.name := n.data] else disk
  }

  ghost function AfterEviction(all: Files, n: Node): Files {
    if |n.data| > 0 then all else all - {n.name}
  }

  lemma EvictedTied(nodes: seq<Node>, k: nat, disk: Files, all: Files)
    requires Tied(nodes, disk, all) && k < |nodes|
    ensures Tied(Without(nodes, k), Flushed(disk, nodes[k]), AfterEviction(all, nodes[k]))
  {
    var after, n := Without(nodes, k), nodes[k];
    var disk', all' := Flushed(disk, n), AfterEviction(all, n);
    assert NodeTied(n, disk, all);
    WithoutApart(nodes, disk, all, k);
    forall i | 0 <= i < |after| ensures NodeTied(after[i], disk', all') {
      assert NodeTied(after[i], disk, all) && ApartNodes(after[i], n);
    }
    forall m | m in all' ensures m in disk' || InNodes(after, m) {
      if m !in disk && m != n.name { WithoutNodes(nodes, k, m); }
    }
  }

  /** Evicting a node leaves every share reachable exactly when the node has data, or no share is
      indexed in its container. */
  lemma EvictionExact(index: Index, all: Files, n: Node)
    requires AllReachable(index, all)
    ensures AllReachable(index, AfterEviction(all, n)) <==>
            |n.data| > 0 || forall fp :: fp in index ==> index[fp].container != n.name
  {
    if |n.data| == 0 && exists fp :: fp in index && index[fp].container == n.name {
      var fp :| fp in index && index[fp].container == n.name;
      assert !Reachable(index[fp], AfterEviction(all, n));
    }
  }

  /** Shares that are not empty survive every eviction. */
  lemma EvictionSafe(index: Index, nodes: seq<Node>, k: nat, disk: Files, all: Files, hash: seq<byte> -> Fingerprint)
    requires Tied(nodes, disk, all) && k < |nodes| && Readable(index, all, hash) && StoredOnce(index, all)
    ensures var all' := AfterEviction(all, nodes[k]); Readable(index, all', hash) && StoredOnce(index, all')
  {
    var n, all' := nodes[k], AfterEviction(all, nodes[k]);
    assert NodeTied(n, disk, all);
    forall fp | fp in index ensures StoredAt(index[fp], all', hash, fp) {
      assert StoredAt(index[fp], all, hash, fp);
    }
    forall c, p | c in all' && 0 <= p < |all'[c]| ensures Owned(index, c, p) {
      assert all'[c] == all[c];
    }
  }

  /** A new node with a new, empty container. */
  lemma CreatedTied(nodes: seq<Node>, n: Node, disk: Files, all: Files)
    requires Tied(nodes, disk, all) && Fresh(all, n.name) && n.data == []
    requires forall k :: 0 <= k < |nodes| ==> nodes[k].user != n.user
    ensures Tied(nodes + [n], disk, all[n.name := []])
  {
    var after, all' := nodes + [n], all[n.name := []];
    assert n.name !in all;
    forall k | 0 <= k < |after| ensures NodeTied(after[k], disk, all') {
      if k < |nodes| { assert NodeTied(nodes[k], disk, all); }
    }
    forall i, j | 0 <= i < j < |after| ensures ApartNodes(after[i], after[j]) {
      if j < |nodes| { assert ApartNodes(nodes[i], nodes[j]); } else { assert NodeTied(nodes[i], disk, all); }
    }
    forall m | m in all' ensures m in disk || InNodes(after, m) {
      if m == n.name {
        assert after[|nodes|].name == m;
      } else if m !in disk {
        var k :| 0 <= k < |nodes| && nodes[k].name == m;
        assert after[k].name == m;
      }
    }
  }

  /** The buffer of a node written out, and a new container begun. */
  lemma RenewedTied(nodes: seq<Node>, k: nat, next: Name, disk: Files, all: Files)
    requires Tied(nodes, disk, all) && k < |nodes| && Fresh(all, next)
    ensures Tied(nodes[k := nodes[k].(name := next, data := [])], disk[nodes[k].name := nodes[k].data], all[next := []])
  {
    var n := nodes[k];
    var after := nodes[k := n.(name := next, data := [])];
    var disk', all' := disk[n.name := n.data], all[next := []];
    assert NodeTied(n, disk, all) && next !in all;
    forall i | 0 <= i < |after| ensures NodeTied(after[i], disk', all') {
      assert NodeTied(nodes[i], disk, all);
      if i < k { assert ApartNodes(nodes[i], nodes[k]); } else if k < i { assert ApartNodes(nodes[k], nodes[i]); }
    }
    forall i, j | 0 <= i < j < |after| ensures ApartNodes(after[i], after[j]) {
      assert ApartNodes(nodes[i], nodes[j]) && NodeTied(nodes[i], disk, all) && NodeTied(nodes[j], disk, all);
    }
    forall m | m in all' ensures m in disk' || InNodes(after, m) {
      if m == next {
        assert after[k].name == next;
      } else if m !in disk' {
        var i :| 0 <= i < |nodes| && nodes[i].name == m;
        assert after[i].name == m;
      }
    }
  }

  /** Bytes appended to the buffer of a node. */
  lemma GrownTied(nodes: seq<Node>, k: nat, share: seq<byte>, disk: Files, all: Files)
    requires Tied(nodes, disk, all) && k < |nodes| && |nodes[k].data| + |share| <= CONTAINER_BUFFER_SIZE
    ensures nodes[k].name in all && all[nodes[k].name] == nodes[k].data
    ensures Tied(nodes[k := nodes[k].(data := nodes[k].data + share)], disk,
                 all[nodes[k].name := nodes[k].data + share])
  {
    var n := nodes[k];
    var after := nodes[k := n.(data := n.data + share)];
    var all' := all[n.name := n.data + share];
    assert NodeTied(n, disk, all);
    forall i | 0 <= i < |after| ensures NodeTied(after[i], disk, all') {
      assert NodeTied(nodes[i], disk, all);
      if i < k { assert ApartNodes(nodes[i], nodes[k]); } else if k < i { assert ApartNodes(nodes[k], nodes[i]); }
    }
    forall i, j | 0 <= i < j < |after| ensures ApartNodes(after[i], after[j]) {
      assert ApartNodes(nodes[i], nodes[j]);
    }
    forall m | m in all' ensures m in disk || InNodes(after, m) {
      if m !in disk {
        var i :| 0 <= i < |nodes| && nodes[i].name == m;
        assert after[i].name == m;
      }
    }
  }

  /** Containers only grow, so what was readable stays readable. */
  lemma GrownReadable(index: Index, all: Files, hash: seq<byte> -> Fingerprint, name: Name, share: seq<byte>)
    requires Readable(index, all, hash) && name in all
    ensures Readable(index, all[name := all[name] + share], hash)
  {
    var all' := all[name := all[name] + share];
    forall fp | fp in index ensures StoredAt(index[fp], all', hash, fp) {
      var v := index[fp];
      assert StoredAt(v, all, hash, fp);
      assert (all[name] + share)[..|all[name]|] == all[name];
      if v.size > 0 && v.container == name {
        assert (all[name] + share)[v.offset..v.offset + v.size] == all[name][v.offset..v.offset + v.size];
      }
    }
  }

  /** A share stored at the end of a container. */
  lemma NewShareReadable(index: Index, all: Files, hash: seq<byte> -> Fingerprint, name: Name, share: seq<byte>,
                         users: seq<UserRef>)
    requires Readable(index, all, hash) && name in all
    ensures var v := IndexValue(name, |all[name]|, |share|, users); var all' := all[name := all[name] + share];
            Reachable(v, all') && BytesAt(v, all') == share && Readable(index[hash(share) := v], all', hash)
  {
    var v, all' := IndexValue(name, |all[name]|, |share|, users), all[name := all[name] + share];
    GrownReadable(index, all, hash, name, share);
    assert all'[name][v.offset..v.offset + v.size] == share;
  }

  /** A new share at the end of a container has its own bytes, and the container has no others. */
  lemma NewShareOnce(index: Index, all: Files, hash: seq<byte> -> Fingerprint, name: Name, share: seq<byte>,
                     users: seq<UserRef>)
    requires Readable(index, all, hash) && StoredOnce(index, all) && name in all && hash(share) !in index
    ensures var v := IndexValue(name, |all[name]|, |share|, users);
            StoredOnce(index[hash(share) := v], all[name := all[name] + share])
  {
    var fp, v := hash(share), IndexValue(name, |all[name]|, |share|, users);
    var index', all' := index[fp := v], all[name := all[name] + share];
    forall f, g | f in index' && g in index' && f != g ensures Separate(index'[f], index'[g]) {
      if f != fp && g != fp {
        assert Separate(index[f], index[g]);
      } else if f != fp {
        assert f in index && StoredAt(index[f], all, hash, f);
      } else {
        assert g in index && StoredAt(index[g], all, hash, g);
      }
    }
    forall c, p | c in all' && 0 <= p < |all'[c]| ensures Owned(index', c, p) {
      if c == name && p >= |all[name]| {
        assert fp in index' && Holds(index'[fp], c, p);
      } else {
        assert Owned(index, c, p);
        var g :| g in index && Holds(index[g], c, p);
        assert g in index' && Holds(index'[g], c, p);
      }
    }
  }

  /** New references to a share leave it where it is. */
  lemma SamePlace(index: Index, all: Files, hash: seq<byte> -> Fingerprint, fp: Fingerprint, users: seq<UserRef>)
    requires Readable(index, all, hash) && StoredOnce(index, all) && fp in index
    ensures var index' := index[fp := index[fp].(users := users)];
            Readable(index', all, hash) && StoredOnce(index', all)
  {
    var index' := index[fp := index[fp].(users := users)];
    forall f | f in index' ensures StoredAt(index'[f], all, hash, f) {
      assert StoredAt(index[f], all, hash, f);
    }
    forall f, g | f in index' && g in index' && f != g ensures Separate(index'[f], index'[g]) {
      assert Separate(index[f], index[g]);
    }
    forall c, p | c in all && 0 <= p < |all[c]| ensures Owned(index', c, p) {
      assert Owned(index, c, p);
      var g :| g in index && Holds(index[g], c, p);
      assert g in index' && Holds(index'[g], c, p);
    }
  }

  // ---------------------------------------------------------------- what is stored stays

  ghost predicate GrowsAt(n: Name, all: Files, all': Files) {
    n in all && all[n] != [] ==> n in all' && all[n] <= all'[n]
  }

  /** Containers that hold something only grow. */
  ghost predicate Grows(all: Files, all': Files) {
    forall n {:trigger GrowsAt(n, all, all')} :: GrowsAt(n, all, all')
  }

  ghost predicate SameSpot(fp: Fingerprint, index: Index, index': Index) {
    fp in index ==> fp in index' && index'[fp] == index[fp].(users := index'[fp].users)
  }

  /** No share moves. */
  ghost predicate Stays(index: Index, index': Index) {
    forall fp {:trigger SameSpot(fp, index, index')} :: SameSpot(fp, index, index')
  }

  lemma GrowsOn(all: Files, all1: Files, all2: Files)
    requires Grows(all, all1) && Grows(all1, all2)
    ensures Grows(all, all2)
  {
    forall n ensures GrowsAt(n, all, all2) {
      assert GrowsAt(n, all, all1) && GrowsAt(n, all1, all2);
    }
  }

  lemma StaysOn(index: Index, index1: Index, index2: Index)
    requires Stays(index, index1) && Stays(index1, index2)
    ensures Stays(index, index2)
  {
    forall fp ensures SameSpot(fp, index, index2) {
      assert SameSpot(fp, index, index1) && SameSpot(fp, index1, index2);
    }
  }

  lemma EvictionGrows(all: Files, n: Node)
    requires n.name in all && all[n.name] == n.data
    ensures Grows(all, AfterEviction(all, n))
  {
  }

  /** What has been stored keeps its place and its bytes. */
  lemma StoredForGood(index: Index, all: Files, index': Index, all': Files, hash: seq<byte> -> Fingerprint,
                      fp: Fingerprint)
    requires Readable(index, all, hash) && Stays(index, index') && Grows(all, all') && fp in index
    ensures fp in index' && StoredAt(index[fp], all, hash, fp) && StoredAt(index'[fp], all', hash, fp)
    ensures BytesAt(index'[fp], all') == BytesAt(index[fp], all)
  {
    assert SameSpot(fp, index, index');
    var v := index[fp];
    assert StoredAt(v, all, hash, fp);
    if v.size > 0 {
      assert GrowsAt(v.container, all, all');
      assert all'[v.container][..|all[v.container]|] == all[v.container];
      assert all'[v.container][v.offset..v.offset + v.size] == all[v.container][v.offset..v.offset + v.size];
    }
  }
}
