/** Restoring a file: the server reads the shares of its recipe and streams them,
    server/dedup/minDedupCore.cc, and the client takes the stream apart, client/comm/downloader.cc.
    Other sessions may store shares meanwhile: share i is looked up in the state views[i]. */
module Restore {
  import opened Wrappers
  import opened ShareIndex
  import opened ContainerCache
  import opened ShareStream

  datatype RecipeEntry = RecipeEntry(fp: Fingerprint, secretID: int, secretSize: int)

  /** What is restored, and the server's state when each share is looked up. */
  datatype Course = Course(recipe: seq<RecipeEntry>, views: seq<View>) {
    predicate Valid() { |views| == |recipe| }

    predicate Indexed(i: nat)
      requires Valid() && i < |recipe|
    {
      recipe[i].fp in views[i].index
    }

    /** Where the index has share i. */
    function Place(i: nat): IndexValue
      requires Valid() && i < |recipe| && Indexed(i)
    {
      views[i].index[recipe[i].fp]
    }

    /** The copies of containers at hand when share i is looked up. */
    ghost function AtHand(i: nat): seq<Slot>
      requires Valid() && i <= |recipe|
    {
      if i == 0 then [] else
        var list := AtHand(i - 1);
        if !Indexed(i - 1) then list else
          match CopyOf(list, views[i - 1], Place(i - 1).container)
          case None => list
          case Some(data) => Used(list, Slot(Place(i - 1).container, data))
    }

    /** The copy that share i is read from. */
    ghost function Copy(i: nat): Option<seq<byte>>
      requires Valid() && i < |recipe| && Indexed(i)
    {
      CopyOf(AtHand(i), views[i], Place(i).container)
    }

    /** Share i is indexed, and its container is at hand or can be read. */
    ghost predicate Available(i: nat)
      requires Valid() && i < |recipe|
    {
      Indexed(i) && Copy(i).Some?
    }

    ghost predicate AllAvailable(n: nat)
      requires Valid() && n <= |recipe|
    {
      forall i {:trigger Available(i)} :: 0 <= i < n ==> Available(i)
    }

    /** What the server sends as share i. */
    ghost function Delivered(memory: (nat, nat) -> byte, i: nat): Received
      requires Valid() && i < |recipe| && Available(i)
    {
      var v := Place(i);
      Received(Entry(recipe[i].secretID, recipe[i].secretSize, v.size),
               Fetched(Copy(i).value, v.offset, v.size, memory, i))
    }

    ghost function DeliveredAll(memory: (nat, nat) -> byte, n: nat): (r: seq<Received>)
      requires Valid() && n <= |recipe| && AllAvailable(n)
      ensures |r| == n && forall i {:trigger r[i]} :: 0 <= i < n ==> Available(i) && r[i] == Delivered(memory, i)
    {
      seq(n, i requires 0 <= i < n => assert Available(i); Delivered(memory, i))
    }

    /** Every indexed share of the recipe fits into a message. */
    ghost predicate Fits()
      requires Valid()
    {
      forall i {:trigger recipe[i]} :: 0 <= i < |recipe| && Indexed(i) ==>
        ENTRY_SIZE + Place(i).size <= SHARE_FILE_BUFFER_SIZE
    }
  }

  /** The bytes from an offset on of the buffer that a container was copied into.  Behind the copy
      the buffer holds whatever was in memory; for share i that is memory(i, ...). */
  function Fetched(copy: seq<byte>, offset: nat, size: nat, memory: (nat, nat) -> byte, i: nat): (r: seq<byte>)
    ensures |r| == size
    ensures forall k {:trigger r[k]} :: 0 <= k < size ==>
              r[k] == if offset + k < |copy| then copy[offset + k] else memory(i, offset + k)
  {
    seq(size, k requires 0 <= k < size => if offset + k < |copy| then copy[offset + k] else memory(i, offset + k))
  }

  // ---------------------------------------------------------------- the server

  /** Read one share, through the containers at hand. */
  method ReadShareData(cache: Cache, course: Course, i: nat, memory: (nat, nat) -> byte) returns (got: Option<Received>)
    requires course.Valid() && i < |course.recipe| && cache.Valid() && cache.List() == course.AtHand(i)
    modifies cache, cache.order, cache.slots
    ensures cache.Valid() && cache.List() == course.AtHand(i + 1)
    ensures got == if course.Available(i) then Some(course.Delivered(memory, i)) else None
  {
    var e := course.recipe[i];
    if e.fp !in course.views[i].index {
      return None;
    }
    var v := course.views[i].index[e.fp];
    var copy := cache.Use(v.container, course.views[i]);
    if copy.None? {
      return None;
    }
    got := Some(Received(Entry(e.secretID, e.secretSize, v.size), Fetched(copy.value, v.offset, v.size, memory, i)));
  }

  /** What has been put for the file head and some shares. */
  ghost function FilePieces(l: Layout, head: FileHead, shares: seq<Received>): seq<seq<byte>> {
    [l.head(head)] + Pieces(l, shares)
  }

  lemma OneMorePiece(l: Layout, head: FileHead, course: Course, memory: (nat, nat) -> byte, n: nat)
    requires course.Valid() && n < |course.recipe| && course.AllAvailable(n) && course.Available(n) && Faithful(l)
    ensures course.AllAvailable(n + 1)
    ensures |Piece(l, course.Delivered(memory, n))| == ENTRY_SIZE + course.Place(n).size
    ensures FilePieces(l, head, course.DeliveredAll(memory, n + 1)) ==
            FilePieces(l, head, course.DeliveredAll(memory, n)) + [Piece(l, course.Delivered(memory, n))]
  {
    PieceParts(l, course.Delivered(memory, n));
    assert course.DeliveredAll(memory, n + 1) == course.DeliveredAll(memory, n) + [course.Delivered(memory, n)];
  }

  /** Everything put so far is the file head and the first n shares. */
  ghost predicate Streamed(sender: Sender, l: Layout, head: FileHead, course: Course, memory: (nat, nat) -> byte,
                           n: nat)
    requires course.Valid()
    reads sender, sender.buffer
  {
    && sender.Valid() && sender.current != [] && n <= |course.recipe| && course.AllAvailable(n)
    && sender.All() == FilePieces(l, head, course.DeliveredAll(memory, n))
  }

  /** Stream the shares of a recipe up to the first one that is not available. */
  method StreamShares(cache: Cache, sender: Sender, l: Layout, ghost head: FileHead, course: Course,
                      memory: (nat, nat) -> byte)
    returns (n: nat)
    requires Faithful(l) && course.Valid() && course.Fits()
    requires cache.Valid() && cache.List() == [] && Streamed(sender, l, head, course, memory, 0)
    modifies cache, cache.order, cache.slots, sender, sender.buffer
    ensures Streamed(sender, l, head, course, memory, n) && (n < |course.recipe| ==> !course.Available(n))
  {
    n := 0;
    while n < |course.recipe|
      invariant n <= |course.recipe| && cache.Valid() && cache.List() == course.AtHand(n)
      invariant Streamed(sender, l, head, course, memory, n)
    {
      var got := ReadShareData(cache, course, n, memory);
      if got.None? {
        return;
      }
      OneMorePiece(l, head, course, memory, n);
      sender.Put(Piece(l, got.value));
      n := n + 1;
    }
  }

  /** Begin the stream with the file head. */
  method StartStream(l: Layout, head: FileHead, ghost course: Course, ghost memory: (nat, nat) -> byte)
    returns (sender: Sender)
    requires Faithful(l) && course.Valid()
    ensures fresh(sender) && fresh(sender.buffer) && Streamed(sender, l, head, course, memory, 0)
  {
    sender := new Sender();
    assert |l.head(head)| == FILE_HEAD_SIZE;
    sender.Put(l.head(head));
  }

  /** Send what is left if the stream has all shares. */
  method EndStream(sender: Sender, l: Layout, ghost head: FileHead, course: Course, ghost memory: (nat, nat) -> byte,
                   n: nat)
    returns (ok: bool, messages: seq<seq<byte>>, ghost groups: seq<seq<seq<byte>>>)
    requires course.Valid() && Streamed(sender, l, head, course, memory, n)
    modifies sender
    ensures (ok <==> n == |course.recipe|) && Grouped(messages, groups)
    ensures var pieces := FilePieces(l, head, course.DeliveredAll(memory, n));
            if ok then Sent(groups, |groups|) == pieces && AllFull(groups) else Sent(groups, |groups|) <= pieces
  {
    ok := n == |course.recipe|;
    if ok {
      sender.Send();
    }
    messages, groups := sender.messages, sender.groups;
  }

  /** Restore a file.  The restore succeeds if and only if all shares are available. */
  method RestoreShareFile(l: Layout, fileSize: int, course: Course, memory: (nat, nat) -> byte)
    returns (ok: bool, messages: seq<seq<byte>>, ghost groups: seq<seq<seq<byte>>>, ghost n: nat)
    requires Faithful(l) && course.Valid() && course.Fits()
    ensures Grouped(messages, groups) && n <= |course.recipe| && course.AllAvailable(n)
    ensures (ok <==> n == |course.recipe|) && (ok <==> course.AllAvailable(|course.recipe|))
    ensures var pieces := FilePieces(l, FileHead(fileSize, |course.recipe|), course.DeliveredAll(memory, n));
            if ok
            then && Sent(groups, |groups|) == pieces && Joined(messages, |messages|) == Flat(pieces, |pieces|)
                 && AllFull(groups)
            else Sent(groups, |groups|) <= pieces
  {
    var cache := new Cache();
    var head := FileHead(fileSize, |course.recipe|);
    var sender := StartStream(l, head, course, memory);
    var count := StreamShares(cache, sender, l, head, course, memory);
    n := count;
    ok, messages, groups := EndStream(sender, l, head, course, memory, count);
    PayloadsArePieces(messages, groups, |messages|);
  }

  // ---------------------------------------------------------------- the client

  /** Restore at the server and receive at the client: the client has the shares of the recipe in
      order, as the server read them.  It ends unless there are none. */
  method Download(l: Layout, fileSize: int, course: Course, memory: (nat, nat) -> byte)
    returns (ok: bool, ended: bool, h: FileHead, got: seq<Received>)
    requires Faithful(l) && course.Valid() && course.Fits()
    ensures (ok <==> course.AllAvailable(|course.recipe|)) && (ended <==> ok && course.recipe != [])
    ensures ok ==> h == FileHead(fileSize, |course.recipe|) && got == course.DeliveredAll(memory, |course.recipe|)
  {
    ghost var n, groups;
    var messages;
    ok, messages, groups, n := RestoreShareFile(l, fileSize, course, memory);
    ended, h, got := false, FileHead(0, 0), [];
    if ok {
      ghost var shares := course.DeliveredAll(memory, |course.recipe|);
      assert Sizes(shares);
      ended, h, got := Receive(l, messages, groups, FileHead(fileSize, |course.recipe|), shares);
    }
  }
}
