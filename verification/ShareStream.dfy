/** The stream of a restored share file: sent by the server in messages of whole shares, as many as
    fit (server/dedup/minDedupCore.cc), and taken apart by the client (client/comm/downloader.cc). */
module ShareStream {
  import opened Sequences
  import opened ShareIndex
  import Uploader

  const SHARE_FILE_BUFFER_SIZE: nat := 4194304
  const MSG_HEAD_SIZE: nat := 8
  const ENTRY_SIZE: nat := 12
  const FILE_HEAD_SIZE: nat := 16

  datatype FileHead = FileHead(fileSize: int, numOfShares: int)
  datatype Entry = Entry(secretID: int, secretSize: int, shareSize: int)

  /** A share as the client hands it on. */
  datatype Received = Received(entry: Entry, data: seq<byte>)

  /** How the two records lie in memory. */
  datatype Layout = Layout(head: FileHead -> seq<byte>, readHead: seq<byte> -> FileHead,
                           entry: Entry -> seq<byte>, readEntry: seq<byte> -> Entry)

  ghost predicate Faithful(l: Layout) {
    && (forall h {:trigger l.head(h)} :: |l.head(h)| == FILE_HEAD_SIZE && l.readHead(l.head(h)) == h)
    && (forall e {:trigger l.entry(e)} :: |l.entry(e)| == ENTRY_SIZE && l.readEntry(l.entry(e)) == e)
  }

  /** What is sent of one share, and never split. */
  function Piece(l: Layout, r: Received): seq<byte> {
    l.entry(r.entry) + r.data
  }

  function Pieces(l: Layout, shares: seq<Received>): (r: seq<seq<byte>>)
    ensures |r| == |shares| && forall i {:trigger r[i]} :: 0 <= i < |r| ==> r[i] == Piece(l, shares[i])
  {
    seq(|shares|, i requires 0 <= i < |shares| => Piece(l, shares[i]))
  }

  /** The first n pieces, one after the other. */
  function Flat(pieces: seq<seq<byte>>, n: nat): seq<byte>
    requires n <= |pieces|
  {
    if n == 0 then [] else Flat(pieces, n - 1) + pieces[n - 1]
  }

  /** The pieces of the first k messages. */
  function Sent(groups: seq<seq<seq<byte>>>, k: nat): seq<seq<byte>>
    requires k <= |groups|
  {
    if k == 0 then [] else Sent(groups, k - 1) + groups[k - 1]
  }

  ghost predicate NonEmpty(pieces: seq<seq<byte>>) {
    forall i {:trigger pieces[i]} :: 0 <= i < |pieces| ==> pieces[i] != []
  }

  /** A message is a whole number of pieces, at least one, and not too long. */
  ghost predicate IsMessage(m: seq<byte>, group: seq<seq<byte>>) {
    m == Flat(group, |group|) && group != [] && NonEmpty(group) && |m| <= SHARE_FILE_BUFFER_SIZE
  }

  ghost predicate Grouped(messages: seq<seq<byte>>, groups: seq<seq<seq<byte>>>) {
    && |messages| == |groups|
    && forall k {:trigger messages[k]} {:trigger groups[k]} :: 0 <= k < |messages| ==> IsMessage(messages[k], groups[k])
  }

  /** The first piece of a message did not fit into the one before. */
  ghost predicate FullAt(groups: seq<seq<seq<byte>>>, k: nat) {
    0 < k < |groups| && groups[k] != [] ==>
      |Flat(groups[k - 1], |groups[k - 1]|)| + |groups[k][0]| > SHARE_FILE_BUFFER_SIZE
  }

  ghost predicate AllFull(groups: seq<seq<seq<byte>>>) {
    forall k {:trigger FullAt(groups, k)} :: FullAt(groups, k)
  }

  lemma FullOneMore(groups: seq<seq<seq<byte>>>, current: seq<seq<byte>>, current': seq<seq<byte>>)
    requires AllFull(groups + [current]) && (current != [] ==> current' != [] && current'[0] == current[0])
    requires current == [] && current' != [] && groups != [] ==>
               |Flat(groups[|groups| - 1], |groups[|groups| - 1]|)| + |current'[0]| > SHARE_FILE_BUFFER_SIZE
    ensures AllFull(groups + [current'])
  {
    forall k ensures FullAt(groups + [current'], k) {
      assert FullAt(groups + [current], k);
    }
  }

  lemma FullAndEmpty(groups: seq<seq<seq<byte>>>)
    requires AllFull(groups)
    ensures AllFull(groups + [[]])
  {
    forall k ensures FullAt(groups + [[]], k) {
      assert FullAt(groups, k);
    }
  }

  lemma {:induction false} FlatPrefix(a: seq<seq<byte>>, b: seq<seq<byte>>, n: nat)
    requires n <= |a|
    ensures Flat(a + b, n) == Flat(a, n)
  {
    if n > 0 { FlatPrefix(a, b, n - 1); }
  }

  lemma {:induction false} SentPrefix(a: seq<seq<seq<byte>>>, b: seq<seq<seq<byte>>>, k: nat)
    requires k <= |a|
    ensures Sent(a + b, k) == Sent(a, k)
  {
    if k > 0 { SentPrefix(a, b, k - 1); }
  }

  /** The payloads of the first n messages, one after the other. */
  function Joined(messages: seq<seq<byte>>, n: nat): seq<byte>
    requires n <= |messages|
  {
    if n == 0 then [] else Joined(messages, n - 1) + messages[n - 1]
  }

  lemma {:induction false} FlatJoin(a: seq<seq<byte>>, b: seq<seq<byte>>, n: nat)
    requires n <= |b|
    ensures Flat(a + b, |a| + n) == Flat(a, |a|) + Flat(b, n)
  {
    if n == 0 {
      FlatPrefix(a, b, |a|);
    } else {
      FlatJoin(a, b, n - 1);
      Regrouped(Flat(a, |a|), Flat(b, n - 1), b[n - 1]);
    }
  }

  /** However pieces are grouped into messages, the payloads concatenate to the pieces. */
  lemma {:induction false} PayloadsArePieces(messages: seq<seq<byte>>, groups: seq<seq<seq<byte>>>, k: nat)
    requires Grouped(messages, groups) && k <= |messages|
    ensures Joined(messages, k) == Flat(Sent(groups, k), |Sent(groups, k)|)
  {
    if k > 0 {
      PayloadsArePieces(messages, groups, k - 1);
      assert IsMessage(messages[k - 1], groups[k - 1]);
      FlatJoin(Sent(groups, k - 1), groups[k - 1], |groups[k - 1]|);
    }
  }

  // ---------------------------------------------------------------- the server's buffer

  class Sender {
    const buffer: array<byte>
    var offset: nat
    var messages: seq<seq<byte>>
    ghost var groups: seq<seq<seq<byte>>>
    ghost var current: seq<seq<byte>>

    ghost predicate Valid()
      reads this, buffer
    {
      && buffer.Length == MSG_HEAD_SIZE + SHARE_FILE_BUFFER_SIZE && MSG_HEAD_SIZE <= offset <= buffer.Length
      && buffer[MSG_HEAD_SIZE..offset] == Flat(current, |current|) && NonEmpty(current)
      && (current == [] ==> offset == MSG_HEAD_SIZE)
      && Grouped(messages, groups) && AllFull(groups + [current])
    }

    /** Everything put so far. */
    ghost function All(): seq<seq<byte>>
      reads this
    {
      Sent(groups, |groups|) + current
    }

    constructor ()
      ensures Valid() && All() == [] && fresh(buffer)
    {
      buffer := new byte[MSG_HEAD_SIZE + SHARE_FILE_BUFFER_SIZE];
      offset, messages, groups, current := MSG_HEAD_SIZE, [], [], [];
    }

    /** Send what the buffer holds. */
    method Send()
      requires Valid() && current != []
      modifies this
      ensures Valid() && All() == old(All()) && current == [] && offset == MSG_HEAD_SIZE
      ensures groups == old(groups + [current])
    {
      FullAndEmpty(groups + [current]);
      SentPrefix(groups, [current], |groups|);
      messages, groups := messages + [buffer[MSG_HEAD_SIZE..offset]], groups + [current];
      current, offset := [], MSG_HEAD_SIZE;
    }

    /** Put a piece into the buffer, where there is room for it. */
    method Append(piece: seq<byte>)
      requires Valid() && piece != [] && offset + |piece| <= buffer.Length
      requires current == [] && groups != [] ==>
                 |Flat(groups[|groups| - 1], |groups[|groups| - 1]|)| + |piece| > SHARE_FILE_BUFFER_SIZE
      modifies this, buffer
      ensures Valid() && All() == old(All()) + [piece] && current != []
    {
      ghost var was := buffer[..offset];
      Uploader.CopyIn(buffer, offset, piece);
      FlatPrefix(current, [piece], |current|);
      FullOneMore(groups, current, current + [piece]);
      current, offset := current + [piece], offset + |piece|;
      assert buffer[MSG_HEAD_SIZE..offset] == was[MSG_HEAD_SIZE..] + piece;
    }

    /** Put a piece, after sending what the buffer holds if there is no room for it. */
    method Put(piece: seq<byte>)
      requires Valid() && 0 < |piece| <= SHARE_FILE_BUFFER_SIZE && (current == [] ==> groups == [])
      modifies this, buffer
      ensures Valid() && All() == old(All()) + [piece] && current != []
    {
      if offset + |piece| > buffer.Length {
        Send();
      }
      Append(piece);
    }
  }

  // ---------------------------------------------------------------- the client's loop

  lemma {:induction false} FlatGrows(pieces: seq<seq<byte>>, p: nat, n: nat)
    requires p <= n <= |pieces| && NonEmpty(pieces)
    ensures if p < n then |Flat(pieces, p)| < |Flat(pieces, n)| else |Flat(pieces, p)| == |Flat(pieces, n)|
  {
    if p < n { FlatGrows(pieces, p, n - 1); }
  }

  lemma {:induction false} FlatSlice(pieces: seq<seq<byte>>, p: nat, n: nat)
    requires p < n <= |pieces|
    ensures |Flat(pieces, p + 1)| == |Flat(pieces, p)| + |pieces[p]| <= |Flat(pieces, n)|
    ensures Flat(pieces, n)[|Flat(pieces, p)|..|Flat(pieces, p + 1)|] == pieces[p]
  {
    if p < n - 1 {
      FlatSlice(pieces, p, n - 1);
      Uploader.SliceKept(Flat(pieces, n - 1), pieces[n - 1], |Flat(pieces, p)|, |Flat(pieces, p + 1)|);
    } else {
      Uploader.SliceAppended(Flat(pieces, p), pieces[p]);
    }
  }

  lemma {:induction false} SentAt(groups: seq<seq<seq<byte>>>, k: nat, p: nat, n: nat)
    requires k < n <= |groups| && p < |groups[k]|
    ensures |Sent(groups, k)| + p < |Sent(groups, n)| && Sent(groups, n)[|Sent(groups, k)| + p] == groups[k][p]
  {
    if k < n - 1 { SentAt(groups, k, p, n - 1); }
  }

  ghost predicate Sizes(shares: seq<Received>) {
    forall i {:trigger shares[i]} :: 0 <= i < |shares| ==> shares[i].entry.shareSize == |shares[i].data|
  }

  lemma PieceParts(l: Layout, r: Received)
    requires Faithful(l)
    ensures var piece := Piece(l, r);
            |piece| == ENTRY_SIZE + |r.data| && piece[..ENTRY_SIZE] == l.entry(r.entry) && piece[ENTRY_SIZE..] == r.data
  {
    assert |l.entry(r.entry)| == ENTRY_SIZE;
  }

  lemma SliceOfSlice(m: seq<byte>, piece: seq<byte>, lo: nat, mid: nat)
    requires lo + |piece| <= |m| && mid <= |piece| && m[lo..lo + |piece|] == piece
    ensures m[lo..lo + mid] == piece[..mid] && m[lo + mid..lo + |piece|] == piece[mid..]
  {
  }

  /** Take a share out of a message. */
  method ReadShare(l: Layout, m: seq<byte>, index: nat, ghost r: Received) returns (got: Received, index': nat)
    requires Faithful(l) && r.entry.shareSize == |r.data|
    requires index + |Piece(l, r)| <= |m| && m[index..index + |Piece(l, r)|] == Piece(l, r)
    ensures got == r && index' == index + |Piece(l, r)|
  {
    PieceParts(l, r);
    SliceOfSlice(m, Piece(l, r), index, ENTRY_SIZE);
    assert l.readEntry(l.entry(r.entry)) == r.entry;
    var entry := l.readEntry(m[index..index + ENTRY_SIZE]);
    index' := index + ENTRY_SIZE;
    got := Received(entry, m[index'..index' + entry.shareSize]);
    index' := index' + entry.shareSize;
  }

  lemma FirstMessage(l: Layout, messages: seq<seq<byte>>, groups: seq<seq<seq<byte>>>, head: FileHead,
                     shares: seq<Received>)
    requires Faithful(l) && Grouped(messages, groups)
    requires Sent(groups, |groups|) == [l.head(head)] + Pieces(l, shares)
    ensures At(groups, 0, 1, 0) && |Flat(groups[0], 1)| == FILE_HEAD_SIZE <= |messages[0]|
    ensures l.readHead(messages[0][..FILE_HEAD_SIZE]) == head
  {
    assert IsMessage(messages[0], groups[0]);
    SentAt(groups, 0, 0, |groups|);
    FlatSlice(groups[0], 0, |groups[0]|);
    assert |l.head(head)| == FILE_HEAD_SIZE;
  }

  /** Piece p of message k is the next one. */
  ghost predicate At(groups: seq<seq<seq<byte>>>, k: nat, p: nat, count: nat) {
    k < |groups| && p <= |groups[k]| && |Sent(groups, k)| + p == 1 + count
  }

  /** A message that is used up is followed by another while pieces are missing. */
  lemma NextMessage(messages: seq<seq<byte>>, groups: seq<seq<seq<byte>>>, k: nat, p: nat, count: nat)
    requires Grouped(messages, groups) && At(groups, k, p, count) && 1 + count < |Sent(groups, |groups|)|
    ensures |Flat(groups[k], p)| == |messages[k]| <==> p == |groups[k]|
    ensures p == |groups[k]| ==> At(groups, k + 1, 0, count)
  {
    assert IsMessage(messages[k], groups[k]);
    FlatGrows(groups[k], p, |groups[k]|);
    assert Sent(groups, k + 1) == Sent(groups, k) + groups[k];
  }

  lemma NextPiece(l: Layout, messages: seq<seq<byte>>, groups: seq<seq<seq<byte>>>, head: FileHead,
                  shares: seq<Received>, k: nat, p: nat, count: nat)
    requires Grouped(messages, groups) && At(groups, k, p, count) && p < |groups[k]| && count < |shares|
    requires Sent(groups, |groups|) == [l.head(head)] + Pieces(l, shares)
    ensures var piece, index := Piece(l, shares[count]), |Flat(groups[k], p)|;
            && index + |piece| <= |messages[k]| && messages[k][index..index + |piece|] == piece
            && |Flat(groups[k], p + 1)| == index + |piece| && At(groups, k, p + 1, count + 1)
  {
    assert IsMessage(messages[k], groups[k]);
    SentAt(groups, k, p, |groups|);
    FlatSlice(groups[k], p, |groups[k]|);
  }

  /** Take the next share from the message at hand, or from the next one if that is used up. */
  method NextShare(l: Layout, messages: seq<seq<byte>>, ghost groups: seq<seq<seq<byte>>>, ghost head: FileHead,
                   ghost shares: seq<Received>, k: nat, m: seq<byte>, index: nat, ghost p: nat, ghost count: nat)
    returns (r: Received, k': nat, m': seq<byte>, index': nat, ghost p': nat)
    requires Faithful(l) && Grouped(messages, groups) && Sizes(shares) && count < |shares|
    requires Sent(groups, |groups|) == [l.head(head)] + Pieces(l, shares)
    requires At(groups, k, p, count) && m == messages[k] && index == |Flat(groups[k], p)|
    ensures At(groups, k', p', count + 1) && m' == messages[k'] && index' == |Flat(groups[k'], p')|
    ensures r == shares[count]
  {
    k', m', index', p' := k, m, index, p;
    NextMessage(messages, groups, k, p, count);
    if index == |m| {
      k', p', index' := k + 1, 0, 0;
      m' := messages[k'];
      NextMessage(messages, groups, k', p', count);
    }
    NextPiece(l, messages, groups, head, shares, k', p', count);
    r, index' := ReadShare(l, m', index', shares[count]);
    p' := p' + 1;
  }

  /** When all pieces have been taken, the last message is used up. */
  lemma NothingLeft(messages: seq<seq<byte>>, groups: seq<seq<seq<byte>>>, k: nat, p: nat, count: nat)
    requires Grouped(messages, groups) && At(groups, k, p, count) && 1 + count == |Sent(groups, |groups|)|
    ensures |Flat(groups[k], p)| == |messages[k]| && k + 1 == |messages|
  {
    assert IsMessage(messages[k], groups[k]);
    if p < |groups[k]| { SentAt(groups, k, p, |groups|); }
    if k + 1 < |groups| {
      assert IsMessage(messages[k + 1], groups[k + 1]);
      SentAt(groups, k + 1, 0, |groups|);
      assert Sent(groups, k + 1) == Sent(groups, k) + groups[k];
    }
  }

  /** Read the messages of a file and take them apart.  The client asks for the next message when it
      has used up the last one.  It looks for a share before it compares counts, so it waits for a
      message that never comes if the file has no shares. */
  method Receive(l: Layout, messages: seq<seq<byte>>, ghost groups: seq<seq<seq<byte>>>, ghost head: FileHead,
                 ghost shares: seq<Received>)
    returns (ended: bool, h: FileHead, got: seq<Received>)
    requires Faithful(l) && Grouped(messages, groups) && Sizes(shares) && head.numOfShares == |shares|
    requires Sent(groups, |groups|) == [l.head(head)] + Pieces(l, shares)
    ensures h == head && got == shares && (ended <==> shares != [])
  {
    FirstMessage(l, messages, groups, head, shares);
    var k: nat, m := 0, messages[0];
    h := l.readHead(m[..FILE_HEAD_SIZE]);
    ended, got := false, [];
    var index, count: nat := FILE_HEAD_SIZE, 0;
    ghost var p: nat := 1;
    while !ended
      invariant At(groups, k, p, count) && m == messages[k] && index == |Flat(groups[k], p)| && h == head
      invariant count <= |shares| && got == shares[..count] && (ended <==> 0 < count == |shares|)
      decreases !ended, |shares| - count
    {
      if count == |shares| {
        NothingLeft(messages, groups, k, p, count);
      } else {
        NextMessage(messages, groups, k, p, count);
      }
      if index == |m| && k + 1 == |messages| {
        return;
      }
      var r;
      r, k, m, index, p := NextShare(l, messages, groups, head, shares, k, m, index, p, count);
      assert shares[..count + 1] == shares[..count] + [r];
      got, count := got + [r], count + 1;
      ended := count == h.numOfShares;
    }
  }
}
