/** A file's way from one client to another: uploaded, kept by the server whatever others upload,
    restored and received. */
module EndToEnd {
  import opened Wrappers
  import opened ContainerNames
  import opened ShareIndex
  import opened Containers
  import opened DedupServer
  import opened DedupSessions
  import opened Uploader
  import opened ContainerCache
  import opened ShareStream
  import opened Restore
  import opened RestoreExact

  // ---------------------------------------------------------------- the server meanwhile

  /** The state comes after all views. */
  ghost predicate Latest(views: seq<View>, alls: seq<Files>, index: Index, all: Files) {
    |alls| == |views|
    && forall i {:trigger NotBefore(views[i].index, alls[i], index, all)} ::
         0 <= i < |views| ==> NotBefore(views[i].index, alls[i], index, all)
  }

  lemma LatestOn(views: seq<View>, alls: seq<Files>, index: Index, all: Files, index': Index, all': Files)
    requires Latest(views, alls, index, all) && NotBefore(index, all, index', all')
    ensures Latest(views, alls, index', all')
  {
    forall i | 0 <= i < |views| ensures NotBefore(views[i].index, alls[i], index', all') {
      NotBeforeOn(views[i].index, alls[i], index, all, index', all');
    }
  }

  lemma NotBeforeOn(index: Index, all: Files, index1: Index, all1: Files, index2: Index, all2: Files)
    requires NotBefore(index, all, index1, all1) && NotBefore(index1, all1, index2, all2)
    ensures NotBefore(index, all, index2, all2)
  {
    StaysOn(index, index1, index2);
    GrowsOn(all, all1, all2);
  }

  lemma HistoryGoesOn(views: seq<View>, alls: seq<Files>, view: View, all: Files, hash: seq<byte> -> Fingerprint)
    requires History(views, alls, hash) && StateAt(view, all, hash) && Latest(views, alls, view.index, all)
    ensures History(views + [view], alls + [all], hash) && Latest(views + [view], alls + [all], view.index, all)
  {
    var vs, as' := views + [view], alls + [all];
    forall i | 0 <= i < |vs| ensures StateAt(vs[i], as'[i], hash) {
      if i < |views| { assert StateAt(views[i], alls[i], hash); }
    }
    forall i, j | 0 <= i < j < |vs| ensures NotBefore(vs[i].index, as'[i], vs[j].index, as'[j]) {
      assert j < |views| ==> NotBefore(views[i].index, alls[i], views[j].index, alls[j]);
      assert j == |views| ==> NotBefore(views[i].index, alls[i], view.index, all);
    }
    Unchanged(view.index, all);
  }

  /** Serve a batch of requests before each share is looked up. */
  method ServeMeanwhile(server: Server, batches: seq<seq<Request>>) returns (views: seq<View>, ghost alls: seq<Files>)
    requires server.Valid()
    modifies server
    ensures server.Valid() && |views| == |batches| && History(views, alls, server.hash)
    ensures AllAfter(old(server.index), old(server.all), views, alls)
  {
    views, alls := [], [];
    Unchanged(server.index, server.all);
    for i := 0 to |batches|
      invariant server.Valid() && |views| == i && History(views, alls, server.hash)
      invariant Latest(views, alls, server.index, server.all)
      invariant NotBefore(old(server.index), old(server.all), server.index, server.all)
      invariant AllAfter(old(server.index), old(server.all), views, alls)
    {
      ghost var index, all := server.index, server.all;
      var _, _ := Serve(server, batches[i]);
      LatestOn(views, alls, index, all, server.index, server.all);
      NotBeforeOn(old(server.index), old(server.all), index, all, server.index, server.all);
      HistoryGoesOn(views, alls, View(server.index, server.nodes, server.disk), server.all, server.hash);
      views, alls := views + [View(server.index, server.nodes, server.disk)], alls + [server.all];
    }
  }

  // ---------------------------------------------------------------- the file

  /** The recipe of a file whose shares belong to secrets 0, 1, ... */
  function RecipeOf(file: seq<Share>): (r: seq<RecipeEntry>)
    ensures |r| == |file|
    ensures forall i {:trigger r[i]} :: 0 <= i < |r| ==> r[i] == RecipeEntry(file[i].fp, i, file[i].secretSize)
  {
    seq(|file|, i requires 0 <= i < |file| => RecipeEntry(file[i].fp, i, file[i].secretSize))
  }

  /** Different bytes with the same fingerprint. */
  ghost predicate Collision(hash: seq<byte> -> Fingerprint, x: seq<byte>, y: seq<byte>) {
    x != y && hash(x) == hash(y)
  }

  /** The stored bytes of share i are the uploaded ones, or collide with them. */
  ghost predicate Same(hash: seq<byte> -> Fingerprint, index: Index, all: Files, share: Share) {
    && share.fp in index && StoredAt(index[share.fp], all, hash, share.fp)
    && (BytesAt(index[share.fp], all) == share.data || Collision(hash, BytesAt(index[share.fp], all), share.data))
  }

  lemma AllSame(index: Index, index': Index, all: Files, hash: seq<byte> -> Fingerprint, user: int, file: seq<Share>)
    requires Grew(index, index', user, file) && Readable(index', all, hash) && Honest(file, hash)
    ensures forall i {:trigger file[i]} :: 0 <= i < |file| ==> Same(hash, index', all, file[i])
  {
    forall i | 0 <= i < |file| ensures Same(hash, index', all, file[i]) {
      UploadedIsStored(index, index', all, hash, user, file, i);
    }
  }

  /** The uploaded bytes are the stored ones. */
  ghost predicate Kept(hash: seq<byte> -> Fingerprint, index: Index, all: Files, share: Share) {
    Same(hash, index, all, share) && BytesAt(index[share.fp], all) == share.data
  }

  /** What the client should receive for share i. */
  function Expected(file: seq<Share>, i: nat): Received
    requires i < |file|
  {
    Received(Entry(i, file[i].secretSize, |file[i].data|), file[i].data)
  }

  /** Share i is delivered as it was uploaded, whatever memory holds behind the copies. */
  ghost predicate Right(course: Course, file: seq<Share>, i: nat)
    requires course.Valid() && |course.recipe| == |file| && i < |file|
  {
    && course.Available(i) && course.Place(i).size == |file[i].data|
    && forall memory :: course.Delivered(memory, i) == Expected(file, i)
  }

  ghost predicate AllRight(course: Course, file: seq<Share>)
    requires course.Valid() && |course.recipe| == |file|
  {
    forall i {:trigger Right(course, file, i)} :: 0 <= i < |file| ==> Right(course, file, i)
  }

  /** A share that is kept is delivered. */
  lemma ShareDelivered(course: Course, alls: seq<Files>, hash: seq<byte> -> Fingerprint, index0: Index, all0: Files,
                       file: seq<Share>, i: nat)
    requires course.Valid() && course.recipe == RecipeOf(file) && History(course.views, alls, hash)
    requires Sound(index0, all0, hash) && AllAfter(index0, all0, course.views, alls)
    requires i < |file| && file[i].data != [] && Kept(hash, index0, all0, file[i])
    ensures Right(course, file, i)
  {
    var fp := file[i].fp;
    StoredBefore(course, alls, hash, index0, all0, i);
    assert NotBefore(index0, all0, course.views[i].index, alls[i]) && SameSpot(fp, index0, course.views[i].index);
    forall memory ensures course.Delivered(memory, i) == Expected(file, i) {
      assert course.Delivered(memory, i).data == BytesAt(index0[fp], all0);
    }
  }

  /** The sizes that the index has for the shares are those of the file. */
  predicate SizesAgree(course: Course, file: seq<Share>)
    requires course.Valid() && |course.recipe| == |file|
  {
    forall i {:trigger file[i]} :: 0 <= i < |file| ==> course.Indexed(i) && course.Place(i).size == |file[i].data|
  }

  /** Shares are kept, or a collision is found; where all are kept, all are delivered. */
  lemma KeptOrCollision(course: Course, alls: seq<Files>, hash: seq<byte> -> Fingerprint, index0: Index, all0: Files,
                        file: seq<Share>)
    returns (collision: Option<(seq<byte>, seq<byte>)>)
    requires course.Valid() && course.recipe == RecipeOf(file) && History(course.views, alls, hash)
    requires Sound(index0, all0, hash) && AllAfter(index0, all0, course.views, alls)
    requires forall i {:trigger file[i]} :: 0 <= i < |file| ==> file[i].data != [] && Same(hash, index0, all0, file[i])
    ensures collision.Some? ==> Collision(hash, collision.value.0, collision.value.1)
    ensures collision.None? ==> AllRight(course, file)
  {
    collision := None;
    if i :| 0 <= i < |file| && !Kept(hash, index0, all0, file[i]) {
      assert Same(hash, index0, all0, file[i]);
      collision := Some((BytesAt(index0[file[i].fp], all0), file[i].data));
    } else {
      forall i | 0 <= i < |file| ensures Right(course, file, i) {
        ShareDelivered(course, alls, hash, index0, all0, file, i);
      }
    }
  }

  lemma RightAgrees(course: Course, file: seq<Share>)
    requires course.Valid() && |course.recipe| == |file| && AllRight(course, file)
    ensures SizesAgree(course, file) && course.AllAvailable(|file|)
  {
    forall i | 0 <= i < |file| ensures course.Indexed(i) && course.Place(i).size == |file[i].data| {
      assert Right(course, file, i);
    }
    forall i | 0 <= i < |file| ensures course.Available(i) {
      assert Right(course, file, i);
    }
  }

  /** Restore and receive a file if the sizes in the index are as expected. */
  method Fetch(l: Layout, fileSize: int, course: Course, file: seq<Share>, memory: (nat, nat) -> byte)
    returns (ok: bool, got: seq<Received>)
    requires Faithful(l) && course.Valid() && |course.recipe| == |file|
    requires forall i {:trigger file[i]} :: 0 <= i < |file| ==> |file[i].data| <= SHARE_FILE_BUFFER_SIZE - ENTRY_SIZE
    ensures AllRight(course, file) && file != [] ==>
              ok && |got| == |file| && forall i {:trigger got[i]} :: 0 <= i < |file| ==> got[i] == Expected(file, i)
  {
    ok, got := false, [];
    var agree := SizesAgree(course, file);
    if AllRight(course, file) { RightAgrees(course, file); }
    if agree {
      var all, h;
      forall i | 0 <= i < |file| && course.Indexed(i)
        ensures ENTRY_SIZE + course.Place(i).size <= SHARE_FILE_BUFFER_SIZE
      {
        assert course.Place(i).size == |file[i].data|;
      }
      all, ok, h, got := Download(l, fileSize, course, memory);
      if AllRight(course, file) {
        forall i | 0 <= i < |file| ensures got[i] == Expected(file, i) {
          assert Right(course, file, i);
        }
      }
    }
  }

  /** Upload a file and take batches of requests.  Every share of the file is stored then, and stays. */
  method UploadAndServe(server: Server, user: int, file: seq<Share>, now: real, batches: seq<seq<Request>>)
    returns (views: seq<View>, ghost alls: seq<Files>, ghost index0: Index, ghost all0: Files)
    requires server.Valid() && file != [] && FitShares(file) && Honest(file, server.hash)
    requires Rank(server.nextName) + 2 * |file| + 2 < ALL_NAMES
    modifies server
    ensures server.Valid() && |views| == |batches| && History(views, alls, server.hash)
    ensures Sound(index0, all0, server.hash) && AllAfter(index0, all0, views, alls)
    ensures forall i {:trigger file[i]} :: 0 <= i < |file| ==> Same(server.hash, index0, all0, file[i])
  {
    var _ := Upload(server, user, file, now);
    index0, all0 := server.index, server.all;
    AllSame(old(server.index), index0, all0, server.hash, user, file);
    views, alls := ServeMeanwhile(server, batches);
  }

  /** Upload a file, let the server take any requests before each share is looked up, and receive the
      file: the client has the uploaded shares in order, unless the hash has a collision. */
  method UploadAndDownload(server: Server, user: int, file: seq<Share>, now: real, batches: seq<seq<Request>>,
                           l: Layout, fileSize: int, memory: (nat, nat) -> byte)
    returns (ok: bool, got: seq<Received>, ghost collision: Option<(seq<byte>, seq<byte>)>)
    requires server.Valid() && file != [] && Honest(file, server.hash) && Faithful(l) && |batches| == |file|
    requires forall i {:trigger file[i]} :: 0 <= i < |file| ==>
               0 < |file[i].data| <= SHARE_FILE_BUFFER_SIZE - ENTRY_SIZE
    requires Rank(server.nextName) + 2 * |file| + 2 < ALL_NAMES
    modifies server
    ensures server.Valid()
    ensures collision.Some? ==> Collision(server.hash, collision.value.0, collision.value.1)
    ensures collision.None? ==>
              && ok && |got| == |file|
              && forall i {:trigger got[i]} :: 0 <= i < |file| ==>
                   got[i].data == file[i].data && got[i].entry == Entry(i, file[i].secretSize, |file[i].data|)
  {
    var views; ghost var alls, index0, all0;
    views, alls, index0, all0 := UploadAndServe(server, user, file, now, batches);
    var course := Course(RecipeOf(file), views);
    collision := KeptOrCollision(course, alls, server.hash, index0, all0, file);
    ok, got := Fetch(l, fileSize, course, file, memory);
  }
}
