/** When a restore beside other sessions reads a share as it is stored: exactly when the share had
    been stored before its container was copied. */
module RestoreExact {
  import opened Wrappers
  import opened ContainerNames
  import opened ShareIndex
  import opened Containers
  import opened ReferenceCounts
  import opened SecondStage
  import opened DedupServer
  import opened ContainerCache
  import opened Restore

  // ---------------------------------------------------------------- the server meanwhile

  ghost predicate StateAt(view: View, all: Files, hash: seq<byte> -> Fingerprint) {
    Tied(view.nodes, view.disk, all) && Sound(view.index, all, hash)
  }

  ghost predicate NotBefore(index: Index, all: Files, index': Index, all': Files) {
    Stays(index, index') && Grows(all, all')
  }

  /** The views are states of the server, one after the other. */
  ghost predicate History(views: seq<View>, alls: seq<Files>, hash: seq<byte> -> Fingerprint) {
    && |alls| == |views|
    && (forall i {:trigger StateAt(views[i], alls[i], hash)} :: 0 <= i < |views| ==> StateAt(views[i], alls[i], hash))
    && (forall i, j {:trigger NotBefore(views[i].index, alls[i], views[j].index, alls[j])} ::
          0 <= i < j < |views| ==> NotBefore(views[i].index, alls[i], views[j].index, alls[j]))
  }

  // ---------------------------------------------------------------- where copies come from

  /** A copy at hand was taken when an earlier share was looked up. */
  lemma {:induction false} SlotTaken(course: Course, n: nat, k: nat) returns (j: nat)
    requires course.Valid() && n <= |course.recipe| && k < |course.AtHand(n)|
    ensures j < n && LookUp(course.views[j], course.AtHand(n)[k].name) == Some(course.AtHand(n)[k].data)
  {
    var m := n - 1;
    var list := course.AtHand(m);
    if !course.Indexed(m) || CopyOf(list, course.views[m], course.Place(m).container).None? {
      j := SlotTaken(course, m, k);
    } else {
      var c := course.Place(m).container;
      var s := Slot(c, CopyOf(list, course.views[m], c).value);
      var i := Position(list, c);
      UsedAt(list, s, k);
      if i < |list| {
        j := SlotTaken(course, m, if k == 0 then i else if k <= i then k - 1 else k);
      } else if k > 0 {
        j := SlotTaken(course, m, k - 1);
      } else {
        j := m;
      }
    }
  }

  lemma CopyTaken(course: Course, i: nat) returns (j: nat)
    requires course.Valid() && i < |course.recipe| && course.Available(i)
    ensures j <= i && LookUp(course.views[j], course.Place(i).container) == course.Copy(i)
  {
    var k := Position(course.AtHand(i), course.Place(i).container);
    if k < |course.AtHand(i)| {
      j := SlotTaken(course, i, k);
    } else {
      j := i;
    }
  }

  // ---------------------------------------------------------------- the exact condition

  /** Bytes read from the beginning of a container are right, whatever memory holds behind them,
      exactly when the copy reaches far enough. */
  lemma CopySuffices(copy: seq<byte>, content: seq<byte>, o: nat, s: nat, i: nat)
    requires copy <= content && o + s <= |content|
    ensures (forall memory :: Fetched(copy, o, s, memory, i) == content[o..o + s]) <==> s == 0 || o + s <= |copy|
  {
    if s > 0 && |copy| < o + s {
      var other := (a: nat, p: nat) => if p < |content| then content[p] + 1 else 0;
      assert Fetched(copy, o, s, other, i)[s - 1] == content[o + s - 1] + 1;
    }
    if s == 0 || o + s <= |copy| {
      forall memory ensures Fetched(copy, o, s, memory, i) == content[o..o + s] {
        assert forall k {:trigger content[k]} :: 0 <= k < |copy| ==> copy[k] == content[k];
      }
    }
  }

  /** Share i reaches the client as it is stored, whatever the memory behind the copies holds. */
  ghost predicate AsStored(course: Course, all: Files, i: nat)
    requires course.Valid() && i < |course.recipe| && course.Available(i)
    requires course.Place(i).size > 0 ==> Reachable(course.Place(i), all)
  {
    forall memory :: course.Delivered(memory, i).data == BytesAt(course.Place(i), all)
  }

  lemma SentAsFetched(course: Course, all: Files, i: nat)
    requires course.Valid() && i < |course.recipe| && course.Available(i) && course.Place(i).size > 0
    requires Reachable(course.Place(i), all)
    ensures var v := course.Place(i);
            AsStored(course, all, i) <==>
            forall memory :: Fetched(course.Copy(i).value, v.offset, v.size, memory, i)
                             == all[v.container][v.offset..v.offset + v.size]
  {
    var v, copy := course.Place(i), course.Copy(i).value;
    forall memory ensures course.Delivered(memory, i).data == Fetched(copy, v.offset, v.size, memory, i) {}
    if AsStored(course, all, i) {
      forall memory ensures Fetched(copy, v.offset, v.size, memory, i) == BytesAt(v, all) {
        assert course.Delivered(memory, i).data == BytesAt(v, all);
      }
    }
  }

  /** A share lies within an earlier copy of its container exactly when it was stored by then. */
  lemma StoredByThen(index: Index, all: Files, index': Index, all': Files, hash: seq<byte> -> Fingerprint,
                     fp: Fingerprint)
    requires Sound(index, all, hash) && Sound(index', all', hash) && NotBefore(index, all, index', all') && fp in index'
    requires index'[fp].size > 0 && index'[fp].container in all
    ensures index'[fp].offset + index'[fp].size <= |all[index'[fp].container]| <==> fp in index
  {
    var v := index'[fp];
    if fp in index {
      assert SameSpot(fp, index, index') && StoredAt(index[fp], all, hash, fp);
    }
    if v.offset + v.size <= |all[v.container]| {
      assert Owned(index, v.container, v.offset);
      var g :| g in index && Holds(index[g], v.container, v.offset);
      assert SameSpot(g, index, index');
      if g != fp { assert Separate(index'[g], index'[fp]); }
    }
  }

  /** Share i is restored as stored if and only if it is empty or was stored when the copy of its
      container was taken, which was when share j was looked up. */
  lemma ReadAsStored(course: Course, alls: seq<Files>, hash: seq<byte> -> Fingerprint, i: nat) returns (j: nat)
    requires course.Valid() && i < |course.recipe| && course.Available(i) && History(course.views, alls, hash)
    ensures j <= i && LookUp(course.views[j], course.Place(i).container) == course.Copy(i)
    ensures StoredAt(course.Place(i), alls[i], hash, course.recipe[i].fp)
    ensures AsStored(course, alls[i], i) <==> course.Place(i).size == 0 || course.recipe[i].fp in course.views[j].index
  {
    j := CopyTaken(course, i);
    var v, fp, vi, vj := course.Place(i), course.recipe[i].fp, course.views[i], course.views[j];
    assert StateAt(vi, alls[i], hash) && StateAt(vj, alls[j], hash);
    assert StoredAt(v, alls[i], hash, fp);
    LookUpFinds(vj, v.container, alls[j]);
    if v.size > 0 {
      Unchanged(vi.index, alls[i]);
      assert NotBefore(vj.index, alls[j], vi.index, alls[i]);
      assert GrowsAt(v.container, alls[j], alls[i]);
      SentAsFetched(course, alls[i], i);
      CopySuffices(alls[j][v.container], alls[i][v.container], v.offset, v.size, i);
      StoredByThen(vj.index, alls[j], vi.index, alls[i], hash, fp);
    }
  }

  lemma Unchanged(index: Index, all: Files)
    ensures NotBefore(index, all, index, all)
  {
  }

  // ---------------------------------------------------------------- recipes stored before

  /** All views come after the start. */
  ghost predicate AllAfter(index0: Index, all0: Files, views: seq<View>, alls: seq<Files>) {
    |alls| == |views|
    && forall i {:trigger views[i]} :: 0 <= i < |views| ==> NotBefore(index0, all0, views[i].index, alls[i])
  }

  /** A share that was stored when the restore began is available, and is restored as it was stored then. */
  lemma StoredBefore(course: Course, alls: seq<Files>, hash: seq<byte> -> Fingerprint, index0: Index, all0: Files,
                     i: nat)
    requires course.Valid() && i < |course.recipe| && History(course.views, alls, hash)
    requires Sound(index0, all0, hash) && AllAfter(index0, all0, course.views, alls)
    requires course.recipe[i].fp in index0 && index0[course.recipe[i].fp].size > 0
    ensures StoredAt(index0[course.recipe[i].fp], all0, hash, course.recipe[i].fp)
    ensures course.Available(i)
    ensures forall memory :: course.Delivered(memory, i).data == BytesAt(index0[course.recipe[i].fp], all0)
  {
    var fp, vi := course.recipe[i].fp, course.views[i];
    assert StateAt(vi, alls[i], hash);
    StoredForGood(index0, all0, vi.index, alls[i], hash, fp);
    assert SameSpot(fp, index0, vi.index);
    LookUpFinds(vi, course.Place(i).container, alls[i]);
    assert course.Available(i);
    var j := ReadAsStored(course, alls, hash, i);
    assert NotBefore(index0, all0, course.views[j].index, alls[j]);
    assert SameSpot(fp, index0, course.views[j].index);
    assert AsStored(course, alls[i], i);
  }

  // ---------------------------------------------------------------- a share that is not

  /** A user stores [a], and then [b] behind it. */
  method TwoUploads(hash: seq<byte> -> Fingerprint, a: byte, b: byte)
    returns (view1: View, view2: View, ghost all1: Files, ghost all2: Files, ghost c: Name)
    requires hash([a]) != hash([b])
    ensures StateAt(view1, all1, hash) && StateAt(view2, all2, hash) && NotBefore(view1.index, all1, view2.index, all2)
    ensures view1.nodes == [Node(1, c, [a], 0.0)] && hash([a]) in view1.index && view1.index[hash([a])].container == c
    ensures hash([b]) in view2.index && view2.index[hash([b])] == IndexValue(c, 1, 1, [UserRef(1, 1)])
    ensures Reachable(view2.index[hash([b])], all2) && BytesAt(view2.index[hash([b])], all2) == [b]
  {
    ghost var used := More(More(NoUses, hash([a]), 1), hash([b]), 1);
    var index, nodes, disk, next; ghost var all;
    nodes, next, all := FirstNode(1, hash);
    c := nodes[0].name;
    index, nodes, disk, next, all := InterUserIndexUpdate(map[], nodes, 0, map[], next, all, [a], 1, hash, used, used);
    view1, all1 := View(index, nodes, disk), all;
    var none: seq<byte> := [];
    assert none + [a] == [a];
    index, nodes, disk, next, all :=
      InterUserIndexUpdate(index, nodes, 0, disk, next, all, [b], 1, hash, Less(used, hash([a]), 1), used);
    view2, all2 := View(index, nodes, disk), all;
  }

  /** A restore that succeeds and delivers the wrong bytes.  Share [a] is in the buffer of a user when
      the restore copies the container; then the user stores [b] behind it; then the restore looks up
      [b], finds its container at hand, and sends what memory holds behind the copy. */
  method StaleCopyServed(hash: seq<byte> -> Fingerprint, a: byte, b: byte, junk: byte)
    returns (course: Course, ghost alls: seq<Files>)
    requires hash([a]) != hash([b]) && junk != b
    ensures course.Valid() && |course.recipe| == 2 && History(course.views, alls, hash) && course.AllAvailable(2)
    ensures course.Available(1) && StoredAt(course.Place(1), alls[1], hash, course.recipe[1].fp)
    ensures BytesAt(course.Place(1), alls[1]) == [b]
    ensures course.Delivered((_, _) => junk, 1).data == [junk] && !AsStored(course, alls[1], 1)
  {
    var view1, view2; ghost var all1, all2, c;
    view1, view2, all1, all2, c := TwoUploads(hash, a, b);
    course := Course([RecipeEntry(hash([a]), 0, 1), RecipeEntry(hash([b]), 1, 1)], [view1, view2]);
    alls := [all1, all2];
    TwoStates(view1, all1, view2, all2, hash);
    assert NodeOf(view1.nodes, c, 0) == 0;
    StaleCopy(course, c, a, junk);
    assert StateAt(view2, all2, hash);
    assert course.Delivered((_, _) => junk, 1).data != BytesAt(course.Place(1), alls[1]);
  }

  lemma TwoStates(view1: View, all1: Files, view2: View, all2: Files, hash: seq<byte> -> Fingerprint)
    requires StateAt(view1, all1, hash) && StateAt(view2, all2, hash)
    requires NotBefore(view1.index, all1, view2.index, all2)
    ensures History([view1, view2], [all1, all2], hash)
  {
  }

  lemma StaleCopy(course: Course, c: Name, a: byte, junk: byte)
    requires course.Valid() && |course.recipe| == 2 && course.Indexed(0) && course.Indexed(1)
    requires course.Place(0).container == course.Place(1).container == c && LookUp(course.views[0], c) == Some([a])
    requires course.Place(1).offset == course.Place(1).size == 1
    ensures course.AllAvailable(2) && course.Available(1) && course.Delivered((_, _) => junk, 1).data == [junk]
  {
    assert course.AtHand(0) == [];
    assert course.Available(0) && course.Copy(0) == Some([a]);
    assert course.AtHand(1) == Used([], Slot(c, [a])) == [Slot(c, [a])];
    assert Names(course.AtHand(1))[0] == c;
    assert course.Copy(1) == Some([a]);
  }
}
