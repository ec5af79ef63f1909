/** The containers kept at hand while a file is restored, server/dedup/minDedupCore.cc: four
    slots, and an array that lists the slots in use from the one used last to the one used least
    recently. */
module ContainerCache {
  import opened Wrappers
  import opened ContainerNames
  import opened ShareIndex
  import opened Containers

  const CACHED: nat := 4

  datatype Slot = Slot(name: Name, data: seq<byte>)

  // ---------------------------------------------------------------- which containers are at hand

  function IndexFrom(names: seq<Name>, n: Name, i: nat): (r: nat)
    requires i <= |names|
    ensures i <= r <= |names| && (r < |names| ==> names[r] == n)
    decreases |names| - i
  {
    if i == |names| || names[i] == n then i else IndexFrom(names, n, i + 1)
  }

  /** Where a name is, or the number of names. */
  function IndexOf(names: seq<Name>, n: Name): nat {
    IndexFrom(names, n, 0)
  }

  lemma {:induction false} IndexIs(names: seq<Name>, n: Name, i: nat, r: nat)
    requires i <= r <= |names| && (r < |names| ==> names[r] == n)
    requires forall k {:trigger names[k]} :: i <= k < r ==> names[k] != n
    ensures IndexFrom(names, n, i) == r
    decreases r - i
  {
    if i < r { IndexIs(names, n, i + 1, r); }
  }

  lemma {:induction false} IndexIsFirst(names: seq<Name>, n: Name, i: nat, k: nat)
    requires i <= |names| && i <= k < IndexFrom(names, n, i)
    ensures names[k] != n
    decreases |names| - i
  {
    if i < k { IndexIsFirst(names, n, i + 1, k); }
  }

  function Removed(names: seq<Name>, n: Name): seq<Name> {
    var i := IndexOf(names, n);
    if i < |names| then names[..i] + names[i + 1..] else names
  }

  function Top(names: seq<Name>): seq<Name> {
    if |names| <= CACHED then names else names[..CACHED]
  }

  /** The names at hand after the next container has been used. */
  function Touch(names: seq<Name>, n: Name): seq<Name> {
    Top([n] + Removed(names, n))
  }

  /** The containers used by the first k uses, without repetition, the last one first. */
  function ByLastUse(uses: seq<Name>, k: nat): seq<Name>
    requires k <= |uses|
  {
    if k == 0 then [] else [uses[k - 1]] + Removed(ByLastUse(uses, k - 1), uses[k - 1])
  }

  /** The last one of the first k uses of a name. */
  ghost predicate LastUsedAt(uses: seq<Name>, k: nat, n: Name, p: nat) {
    p < k <= |uses| && uses[p] == n && forall q {:trigger uses[q]} :: p < q < k ==> uses[q] != n
  }

  /** The first of two names was used last after the second one was. */
  ghost predicate UsedLater(uses: seq<Name>, k: nat, m: Name, n: Name) {
    exists p, q :: LastUsedAt(uses, k, m, p) && LastUsedAt(uses, k, n, q) && q < p
  }

  ghost predicate WasUsed(uses: seq<Name>, k: nat, n: Name) {
    exists p :: LastUsedAt(uses, k, n, p)
  }

  ghost predicate Among(names: seq<Name>, n: Name) {
    n in names
  }

  /** The names are in order of their last use, without repetition, and every name used is among them. */
  ghost predicate OrderedByUse(uses: seq<Name>, k: nat, names: seq<Name>) {
    && k <= |uses|
    && (forall i {:trigger WasUsed(uses, k, names[i])} :: 0 <= i < |names| ==> WasUsed(uses, k, names[i]))
    && (forall i, j {:trigger UsedLater(uses, k, names[i], names[j])} :: 0 <= i < j < |names| ==>
          UsedLater(uses, k, names[i], names[j]))
    && (forall p {:trigger Among(names, uses[p])} :: 0 <= p < k ==> Among(names, uses[p]))
  }

  /** Where an element was before one was removed. */
  lemma RemovedFrom(names: seq<Name>, n: Name, a: nat) returns (b: nat)
    requires a < |Removed(names, n)|
    ensures b < |names| && names[b] == Removed(names, n)[a] && b == if a < IndexOf(names, n) then a else a + 1
  {
    b := if a < IndexOf(names, n) then a else a + 1;
  }

  lemma RemovedKeeps(names: seq<Name>, n: Name, m: Name)
    requires m in names && m != n
    ensures m in Removed(names, n)
  {
    var i := IndexOf(names, n);
    var b :| 0 <= b < |names| && names[b] == m;
    assert b < i ==> Removed(names, n)[b] == m;
    assert b > i ==> Removed(names, n)[b - 1] == m;
  }

  /** One use more leaves the last uses of other names where they are. */
  lemma StillLater(uses: seq<Name>, k: nat, m: Name, n: Name)
    requires k < |uses| && UsedLater(uses, k, m, n) && m != uses[k] && n != uses[k]
    ensures UsedLater(uses, k + 1, m, n)
  {
    var p, q :| LastUsedAt(uses, k, m, p) && LastUsedAt(uses, k, n, q) && q < p;
    assert LastUsedAt(uses, k + 1, m, p) && LastUsedAt(uses, k + 1, n, q);
  }

  /** The name used now was used after every other one. */
  lemma NowLast(uses: seq<Name>, k: nat, n: Name)
    requires k < |uses| && WasUsed(uses, k, n) && n != uses[k]
    ensures WasUsed(uses, k + 1, n) && UsedLater(uses, k + 1, uses[k], n)
  {
    var p :| LastUsedAt(uses, k, n, p);
    assert LastUsedAt(uses, k + 1, uses[k], k) && LastUsedAt(uses, k + 1, n, p);
  }

  /** What is left after a removal was used, and is not what was removed. */
  lemma OthersStay(uses: seq<Name>, k: nat, names: seq<Name>, a: nat)
    requires k < |uses| && OrderedByUse(uses, k, names) && a < |Removed(names, uses[k])|
    ensures WasUsed(uses, k, Removed(names, uses[k])[a]) && Removed(names, uses[k])[a] != uses[k]
  {
    var n := uses[k];
    var i := IndexOf(names, n);
    var b := RemovedFrom(names, n, a);
    assert WasUsed(uses, k, names[b]);
    if b < i {
      IndexIsFirst(names, n, 0, b);
    } else {
      assert UsedLater(uses, k, names[i], names[b]);
    }
  }

  lemma OneMoreUse(uses: seq<Name>, k: nat, names: seq<Name>)
    requires k < |uses| && OrderedByUse(uses, k, names)
    ensures OrderedByUse(uses, k + 1, [uses[k]] + Removed(names, uses[k]))
  {
    var n, rest := uses[k], Removed(names, uses[k]);
    var names' := [n] + rest;
    assert LastUsedAt(uses, k + 1, n, k);
    forall a | 0 <= a < |rest|
      ensures WasUsed(uses, k + 1, rest[a]) && UsedLater(uses, k + 1, n, rest[a]) && rest[a] != n
    {
      OthersStay(uses, k, names, a);
      NowLast(uses, k, rest[a]);
    }
    forall i, j | 0 < i < j < |names'| ensures UsedLater(uses, k + 1, names'[i], names'[j]) {
      var a := RemovedFrom(names, n, i - 1);
      var b := RemovedFrom(names, n, j - 1);
      assert UsedLater(uses, k, names[a], names[b]);
      StillLater(uses, k, names[a], names[b]);
    }
    forall p | 0 <= p < k + 1 ensures Among(names', uses[p]) {
      if uses[p] != n {
        assert Among(names, uses[p]);
        RemovedKeeps(names, n, uses[p]);
      }
    }
  }

  lemma {:induction false} LastUseOrder(uses: seq<Name>, k: nat)
    requires k <= |uses|
    ensures OrderedByUse(uses, k, ByLastUse(uses, k))
  {
    if k > 0 {
      LastUseOrder(uses, k - 1);
      OneMoreUse(uses, k - 1, ByLastUse(uses, k - 1));
    }
  }

  function AtHand(uses: seq<Name>, k: nat): seq<Name>
    requires k <= |uses|
  {
    if k == 0 then [] else Touch(AtHand(uses, k - 1), uses[k - 1])
  }

  lemma IndexInTop(names: seq<Name>, n: Name)
    ensures IndexOf(Top(names), n) == if IndexOf(names, n) < |Top(names)| then IndexOf(names, n) else |Top(names)|
  {
    var r := if IndexOf(names, n) < |Top(names)| then IndexOf(names, n) else |Top(names)|;
    forall k | 0 <= k < r ensures Top(names)[k] != n {
      IndexIsFirst(names, n, 0, k);
    }
    IndexIs(Top(names), n, 0, r);
  }

  lemma RemovedFromTop(names: seq<Name>, n: Name)
    requires |names| > CACHED
    ensures |Removed(Top(names), n)| >= CACHED - 1 && |Removed(names, n)| >= CACHED
    ensures Removed(Top(names), n)[..CACHED - 1] == Removed(names, n)[..CACHED - 1]
  {
    IndexInTop(names, n);
    var i, top := IndexOf(names, n), names[..CACHED];
    if i < CACHED {
      assert Removed(top, n) == top[..i] + top[i + 1..] && Removed(names, n) == names[..i] + names[i + 1..];
    } else {
      assert Removed(top, n) == top && Removed(names, n)[..CACHED - 1] == names[..CACHED - 1];
    }
  }

  lemma TouchTop(names: seq<Name>, n: Name)
    ensures Touch(Top(names), n) == Top([n] + Removed(names, n))
  {
    if |names| <= CACHED {
      assert Top(names) == names;
    } else {
      RemovedFromTop(names, n);
      var a, b := Removed(Top(names), n), Removed(names, n);
      assert Top([n] + a) == [n] + a[..CACHED - 1];
      assert Top([n] + b) == [n] + b[..CACHED - 1];
    }
  }

  /** At hand are always the four containers used most recently. */
  lemma {:induction false} MostRecentAtHand(uses: seq<Name>, k: nat)
    requires k <= |uses|
    ensures AtHand(uses, k) == Top(ByLastUse(uses, k))
  {
    if k > 0 {
      MostRecentAtHand(uses, k - 1);
      TouchTop(ByLastUse(uses, k - 1), uses[k - 1]);
    }
  }

  // ---------------------------------------------------------------- copies in order of use

  function Names(list: seq<Slot>): (r: seq<Name>)
    ensures |r| == |list| && forall i {:trigger r[i]} :: 0 <= i < |r| ==> r[i] == list[i].name
  {
    seq(|list|, i requires 0 <= i < |list| => list[i].name)
  }

  /** Where the copy of a container is in the list, or the length of the list. */
  function Position(list: seq<Slot>, n: Name): (i: nat)
    ensures i <= |list| && (i < |list| ==> list[i].name == n)
  {
    IndexOf(Names(list), n)
  }

  /** The copies at hand after a container has been used: one at hand is used as it is, another one is
      copied, and takes the place of the one used least recently if there is no other. */
  function Used(list: seq<Slot>, s: Slot): (r: seq<Slot>)
    ensures |r| > 0 && r[0] == if Position(list, s.name) < |list| then list[Position(list, s.name)] else s
  {
    var i := Position(list, s.name);
    if i < |list| then [list[i]] + (list[..i] + list[i + 1..])
    else if |list| < CACHED then [s] + list
    else [s] + list[..CACHED - 1]
  }

  /** What is at hand was at hand before, or is new. */
  lemma UsedAt(list: seq<Slot>, s: Slot, k: nat)
    requires k < |Used(list, s)|
    ensures var i := Position(list, s.name);
            if i < |list| then
              var o := if k == 0 then i else if k <= i then k - 1 else k; o < |list| && Used(list, s)[k] == list[o]
            else if k == 0 then Used(list, s)[k] == s
            else k - 1 < |list| && Used(list, s)[k] == list[k - 1]
  {
  }

  /** Whatever is used, the names at hand go by last use. */
  lemma UsedNames(list: seq<Slot>, s: Slot)
    requires |list| <= CACHED
    ensures |Used(list, s)| <= CACHED && Names(Used(list, s)) == Touch(Names(list), s.name)
  {
    var i, names := Position(list, s.name), Names(list);
    if i < |list| {
      assert Names(Used(list, s)) == [names[i]] + (names[..i] + names[i + 1..]);
    } else if |list| < CACHED {
      assert Names(Used(list, s)) == [s.name] + names;
    } else {
      assert Names(Used(list, s)) == [s.name] + names[..CACHED - 1];
      assert Top([s.name] + names) == [s.name] + names[..CACHED - 1];
    }
  }

  // ---------------------------------------------------------------- slots in order

  ghost predicate Other(a: nat, b: nat) { a != b }

  ghost predicate InUse(order: seq<nat>, slots: nat) {
    && |order| <= slots
    && (forall i {:trigger order[i]} :: 0 <= i < |order| ==> order[i] < slots)
    && (forall i, j {:trigger Other(order[i], order[j])} :: 0 <= i < j < |order| ==> Other(order[i], order[j]))
  }

  ghost function ListOf(slots: seq<Slot>, order: seq<nat>): (r: seq<Slot>)
    requires InUse(order, |slots|)
    ensures |r| == |order| && forall i {:trigger r[i]} :: 0 <= i < |r| ==> r[i] == slots[order[i]]
  {
    seq(|order|, i requires 0 <= i < |order| => slots[order[i]])
  }

  lemma FrontInUse(order: seq<nat>, slots: nat, j: nat)
    requires InUse(order, slots) && j < |order|
    ensures InUse([order[j]] + (order[..j] + order[j + 1..]), slots)
  {
    var o := [order[j]] + (order[..j] + order[j + 1..]);
    forall a, b | 0 <= a < b < |o| ensures Other(o[a], o[b]) {
      var a', b' := if a == 0 then j else if a <= j then a - 1 else a, if b <= j then b - 1 else b;
      assert o[a] == order[a'] && o[b] == order[b'];
      assert Other(order[if a' < b' then a' else b'], order[if a' < b' then b' else a']);
    }
  }

  lemma MovedToFront(slots: seq<Slot>, order: seq<nat>, j: nat)
    requires InUse(order, |slots|) && j < |order|
    ensures var o, list := [order[j]] + (order[..j] + order[j + 1..]), ListOf(slots, order);
            InUse(o, |slots|) && ListOf(slots, o) == [list[j]] + (list[..j] + list[j + 1..])
  {
    FrontInUse(order, |slots|, j);
    var o, list := [order[j]] + (order[..j] + order[j + 1..]), ListOf(slots, order);
    assert ListOf(slots, o) == [list[j]] + (list[..j] + list[j + 1..]);
  }

  lemma PutInFront(slots: seq<Slot>, order: seq<nat>, v: nat, s: Slot)
    requires InUse(order, |slots|) && v < |slots| && |order| < |slots| && v !in order
    ensures InUse([v] + order, |slots|)
    ensures ListOf(slots[v := s], [v] + order) == [s] + ListOf(slots, order)
  {
    var o := [v] + order;
    forall a, b | 0 <= a < b < |o| ensures Other(o[a], o[b]) {
      if a > 0 { assert Other(order[a - 1], order[b - 1]); }
    }
    assert ListOf(slots[v := s], o) == [s] + ListOf(slots, order);
  }

  /** A slot that was free takes the new container. */
  lemma Filled(slots: seq<Slot>, order: seq<nat>, s: Slot)
    requires InUse(order, |slots|) && |order| == |slots|
    ensures InUse([|slots|] + order, |slots| + 1)
    ensures ListOf(slots + [s], [|slots|] + order) == [s] + ListOf(slots, order)
  {
    var more := slots + [s];
    assert ListOf(more, order) == ListOf(slots, order);
    assert more[|slots| := s] == more;
    PutInFront(more, order, |slots|, s);
  }

  /** The slot used least recently takes the new container. */
  lemma Replaced(slots: seq<Slot>, order: seq<nat>, s: Slot)
    requires InUse(order, |slots|) && |order| == |slots| == CACHED
    ensures var v := order[CACHED - 1]; var o := [v] + order[..CACHED - 1];
            InUse(o, |slots|) && ListOf(slots[v := s], o) == [s] + ListOf(slots, order)[..CACHED - 1]
  {
    var v, rest := order[CACHED - 1], order[..CACHED - 1];
    forall i, j | 0 <= i < j < |rest| ensures Other(rest[i], rest[j]) {
      assert Other(order[i], order[j]);
    }
    assert v !in rest by {
      forall i | 0 <= i < |rest| ensures rest[i] != v { assert Other(order[i], order[CACHED - 1]); }
    }
    PutInFront(slots, rest, v, s);
    assert ListOf(slots, rest) == ListOf(slots, order)[..CACHED - 1];
  }

  // ---------------------------------------------------------------- reading a container

  /** What the server's state is when a share is looked up. */
  datatype View = View(index: Index, nodes: seq<Node>, disk: Files)

  /** The first node from k on that fills the container, or the number of nodes. */
  function NodeOf(nodes: seq<Node>, name: Name, k: nat): (r: nat)
    requires k <= |nodes|
    ensures k <= r <= |nodes| && (r < |nodes| ==> nodes[r].name == name)
    decreases |nodes| - k
  {
    if k == |nodes| || nodes[k].name == name then k else NodeOf(nodes, name, k + 1)
  }

  /** A container as the buffer of the user who fills it has it, or else the disk, or neither. */
  function LookUp(view: View, name: Name): Option<seq<byte>> {
    var k := NodeOf(view.nodes, name, 0);
    if k < |view.nodes| then Some(view.nodes[k].data)
    else if name in view.disk then Some(view.disk[name]) else None
  }

  lemma {:induction false} NoNode(nodes: seq<Node>, name: Name, k: nat, i: nat)
    requires k <= i < |nodes| && NodeOf(nodes, name, k) == |nodes|
    ensures nodes[i].name != name
    decreases |nodes| - k
  {
    if k < i { NoNode(nodes, name, k + 1, i); }
  }

  /** Wherever a container is, its bytes are found, and only then. */
  lemma LookUpFinds(view: View, name: Name, all: Files)
    requires Tied(view.nodes, view.disk, all)
    ensures LookUp(view, name) == if name in all then Some(all[name]) else None
  {
    var k := NodeOf(view.nodes, name, 0);
    if k < |view.nodes| {
      assert NodeTied(view.nodes[k], view.disk, all);
    } else {
      assert !InNodes(view.nodes, name) by {
        forall i | 0 <= i < |view.nodes| ensures view.nodes[i].name != name { NoNode(view.nodes, name, 0, i); }
      }
    }
  }

  /** Read a container from a buffer node, or else from disk. */
  method ReadContainer(view: View, name: Name) returns (r: Option<seq<byte>>)
    ensures r == LookUp(view, name)
  {
    var k := 0;
    while k < |view.nodes| && view.nodes[k].name != name
      invariant k <= |view.nodes| && NodeOf(view.nodes, name, k) == NodeOf(view.nodes, name, 0)
    {
      k := k + 1;
    }
    if k < |view.nodes| {
      return Some(view.nodes[k].data);
    }
    r := if name in view.disk then Some(view.disk[name]) else None;
  }

  /** Put v before the first j slots, in place of slot j. */
  method PushFront(order: array<nat>, j: nat, v: nat)
    requires j < order.Length
    modifies order
    ensures order[..] == [v] + old(order[..j]) + old(order[j + 1..])
  {
    ghost var was := order[..];
    var k := j;
    while k > 0
      invariant 0 <= k <= j
      invariant forall i {:trigger order[i]} :: 0 <= i < order.Length && (i <= k || j < i) ==> order[i] == was[i]
      invariant forall i {:trigger order[i]} :: k < i <= j ==> order[i] == was[i - 1]
    {
      order[k] := order[k - 1];
      k := k - 1;
    }
    order[0] := v;
  }

  /** The first slots are rotated alike. */
  lemma RotatedPrefix(was: seq<nat>, order: seq<nat>, count: nat, j: nat)
    requires j < count <= |was| == |order|
    requires if j > 0 then order == [was[j]] + was[..j] + was[j + 1..] else order == was
    ensures order[..count] == [was[..count][j]] + (was[..count][..j] + was[..count][j + 1..])
  {
    forall i | 0 <= i < count
      ensures order[i] == ([was[..count][j]] + (was[..count][..j] + was[..count][j + 1..]))[i]
    {
    }
  }

  class Cache {
    const slots: array<Slot>
    const order: array<nat>
    var count: nat

    ghost predicate Valid()
      reads this, slots, order
    {
      && slots.Length == order.Length == CACHED && count <= CACHED
      && InUse(order[..count], count)
    }

    /** The copies at hand, the one used last first. */
    ghost function List(): (r: seq<Slot>)
      requires Valid()
      reads this, slots, order
      ensures |r| == count
    {
      ListOf(slots[..count], order[..count])
    }

    constructor ()
      ensures Valid() && fresh(slots) && fresh(order) && List() == []
    {
      slots := new Slot[CACHED](_ => Slot([], []));
      order := new nat[CACHED](_ => 0);
      count := 0;
    }

    method Search(name: Name) returns (j: nat)
      requires Valid()
      ensures j == Position(List(), name) <= count
    {
      j := 0;
      ghost var names := Names(List());
      while j < count && slots[order[j]].name != name
        invariant j <= count && forall k {:trigger names[k]} :: 0 <= k < j ==> names[k] != name
      {
        assert List()[j] == slots[order[j]];
        j := j + 1;
      }
      assert j < count ==> List()[j] == slots[order[j]];
      IndexIs(names, name, 0, j);
    }

    /** The container is at hand: it has been used last now. */
    method Hit(j: nat, ghost s: Slot)
      requires Valid() && j == Position(List(), s.name) < count
      modifies order
      ensures Valid() && List() == Used(old(List()), s)
    {
      ghost var o, all := order[..count], order[..];
      MovedToFront(slots[..count], o, j);
      if j > 0 {
        PushFront(order, j, order[j]);
      }
      RotatedPrefix(all, order[..], count, j);
    }

    /** The container is not at hand: it takes a free slot, or else the one used least recently. */
    method Miss(s: Slot)
      requires Valid() && Position(List(), s.name) == count
      modifies this, order, slots
      ensures Valid() && List() == Used(old(List()), s)
    {
      ghost var o, was := order[..count], slots[..count];
      if count < CACHED {
        Filled(was, o, s);
        PushFront(order, count, count);
        count := count + 1;
        slots[order[0]] := s;
        assert slots[..count] == was + [s] && order[..count] == [|was|] + o;
      } else {
        Replaced(was, o, s);
        PushFront(order, CACHED - 1, order[CACHED - 1]);
        slots[order[0]] := s;
        assert slots[..count] == was[o[CACHED - 1] := s] && order[..count] == [o[CACHED - 1]] + o[..CACHED - 1];
      }
    }

    /** The copy of a container: the one at hand, or else one taken now, if the container is anywhere. */
    method Use(name: Name, view: View) returns (r: Option<seq<byte>>)
      requires Valid()
      modifies this, order, slots
      ensures Valid() && r == CopyOf(old(List()), view, name)
      ensures List() == if r.Some? then Used(old(List()), Slot(name, r.value)) else old(List())
    {
      var j := Search(name);
      if j < count {
        assert List()[j] == slots[order[j]];
        r := Some(slots[order[j]].data);
        Hit(j, Slot(name, r.value));
      } else {
        r := ReadContainer(view, name);
        if r.Some? {
          Miss(Slot(name, r.value));
        }
      }
    }
  }

  /** The copy of a container that a restore reads from: one at hand is not taken again. */
  ghost function CopyOf(list: seq<Slot>, view: View, name: Name): Option<seq<byte>> {
    var i := Position(list, name);
    if i < |list| then Some(list[i].data) else LookUp(view, name)
  }
}
