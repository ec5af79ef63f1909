/** Any number of upload sessions of any users, their stages interleaved in any order. */
module DedupSessions {
  import opened ContainerNames
  import opened ShareIndex
  import opened Containers
  import opened ReferenceCounts
  import opened SecondStage
  import opened DedupServer

  /** A package between its stages. */
  datatype Session = Session(user: int, entries: seq<ShareMD>, dups: seq<bool>)

  datatype Request = First(user: int, entries: seq<ShareMD>) | Second(session: nat, data: seq<byte>, now: real)

  /** How often the user's package still has to count the share. */
  ghost function MissingOf(s: Session, fp: Fingerprint, user: int): int
    requires |s.dups| == |s.entries|
  {
    Count(WithMissing(NoUses, s.entries, s.dups, s.user, |s.entries|), fp, user)
  }

  ghost predicate ValidSessions(sessions: seq<Session>) {
    forall k {:trigger sessions[k]} :: 0 <= k < |sessions| ==> |sessions[k].dups| == |sessions[k].entries|
  }

  /** The same for the first n sessions. */
  ghost function MissingOfFirst(sessions: seq<Session>, n: nat, fp: Fingerprint, user: int): int
    requires ValidSessions(sessions) && n <= |sessions|
  {
    if n == 0 then 0 else MissingOfFirst(sessions, n - 1, fp, user) + MissingOf(sessions[n - 1], fp, user)
  }

  ghost function MissingOfAll(sessions: seq<Session>, fp: Fingerprint, user: int): int
    requires ValidSessions(sessions)
  {
    MissingOfFirst(sessions, |sessions|, fp, user)
  }

  function Closed(sessions: seq<Session>, k: nat): (r: seq<Session>)
    requires k < |sessions|
    ensures |r| == |sessions| - 1
    ensures forall i {:trigger r[i]} :: 0 <= i < |r| ==> r[i] == sessions[if i < k then i else i + 1]
  {
    sessions[..k] + sessions[k + 1..]
  }

  lemma {:induction false} ClosedMissing(sessions: seq<Session>, k: nat, n: nat, fp: Fingerprint, user: int)
    requires ValidSessions(sessions) && k < |sessions| && n < |sessions|
    ensures ValidSessions(Closed(sessions, k))
    ensures MissingOfFirst(Closed(sessions, k), n, fp, user) ==
            if n <= k then MissingOfFirst(sessions, n, fp, user)
            else MissingOfFirst(sessions, n + 1, fp, user) - MissingOf(sessions[k], fp, user)
  {
    if n > 0 { ClosedMissing(sessions, k, n - 1, fp, user); }
  }

  lemma {:induction false} AddedMissing(sessions: seq<Session>, s: Session, n: nat, fp: Fingerprint, user: int)
    requires ValidSessions(sessions) && |s.dups| == |s.entries| && n <= |sessions|
    ensures ValidSessions(sessions + [s])
    ensures MissingOfFirst(sessions + [s], n, fp, user) == MissingOfFirst(sessions, n, fp, user)
  {
    if n > 0 { AddedMissing(sessions, s, n - 1, fp, user); }
  }

  /** How often the user has uploaded the share in the first n requests. */
  ghost function UploadsIn(requests: seq<Request>, n: nat, fp: Fingerprint, user: int): nat
    requires n <= |requests|
  {
    if n == 0 then 0
    else
      var r := requests[n - 1];
      UploadsIn(requests, n - 1, fp, user)
      + if r.First? && r.user == user then Occurrences(r.entries, fp, |r.entries|) else 0
  }

  /** Pending uses have grown by those of the open sessions. */
  ghost predicate PendingIs(pending: Uses, before: Uses, sessions: seq<Session>)
    requires ValidSessions(sessions)
  {
    forall fp, user {:trigger Count(pending, fp, user)} ::
      Count(pending, fp, user) == Count(before, fp, user) + MissingOfAll(sessions, fp, user)
  }

  ghost predicate UploadsAre(uploads: Uses, before: Uses, requests: seq<Request>, n: nat)
    requires n <= |requests|
  {
    forall fp, user {:trigger Count(uploads, fp, user)} ::
      Count(uploads, fp, user) == Count(before, fp, user) + UploadsIn(requests, n, fp, user)
  }

  lemma FirstCounted(pending: Uses, before: Uses, sessions: seq<Session>, s: Session)
    requires ValidSessions(sessions) && |s.dups| == |s.entries| && PendingIs(pending, before, sessions)
    ensures ValidSessions(sessions + [s])
    ensures PendingIs(WithMissing(pending, s.entries, s.dups, s.user, |s.entries|), before, sessions + [s])
  {
    var after := WithMissing(pending, s.entries, s.dups, s.user, |s.entries|);
    forall fp, user ensures Count(after, fp, user) == Count(before, fp, user) + MissingOfAll(sessions + [s], fp, user) {
      StagesCancel(pending, NoUses, s.entries, s.dups, s.user, |s.entries|, fp, user);
      StagesCancel(NoUses, NoUses, s.entries, s.dups, s.user, |s.entries|, fp, user);
      AddedMissing(sessions, s, |sessions|, fp, user);
    }
  }

  lemma SecondCounted(pending: Uses, before: Uses, sessions: seq<Session>, k: nat)
    requires ValidSessions(sessions) && k < |sessions| && PendingIs(pending, before, sessions)
    ensures ValidSessions(Closed(sessions, k))
    ensures var s := sessions[k];
            PendingIs(WithoutMissing(pending, s.entries, s.dups, s.user, |s.entries|), before, Closed(sessions, k))
  {
    var s := sessions[k];
    var after := WithoutMissing(pending, s.entries, s.dups, s.user, |s.entries|);
    forall fp, user
      ensures ValidSessions(Closed(sessions, k))
      ensures Count(after, fp, user) == Count(before, fp, user) + MissingOfAll(Closed(sessions, k), fp, user)
    {
      StagesCancel(NoUses, pending, s.entries, s.dups, s.user, |s.entries|, fp, user);
      ClosedMissing(sessions, k, |sessions| - 1, fp, user);
    }
  }

  lemma UploadsCounted(uploads: Uses, before: Uses, requests: seq<Request>, n: nat)
    requires n < |requests| && UploadsAre(uploads, before, requests, n)
    ensures var r := requests[n];
            UploadsAre(if r.First? then WithAll(uploads, r.entries, r.user, |r.entries|) else uploads,
                       before, requests, n + 1)
  {
    var r := requests[n];
    if r.First? {
      forall fp, user
        ensures Count(WithAll(uploads, r.entries, r.user, |r.entries|), fp, user)
                == Count(before, fp, user) + UploadsIn(requests, n + 1, fp, user)
      {
        AllCounted(uploads, r.entries, r.user, |r.entries|, fp, user);
      }
    }
  }

  /** The reference counts have grown by the number of times each user has uploaded each share. */
  ghost predicate AllCountedIn(index: Index, index': Index, requests: seq<Request>) {
    forall fp, user {:trigger RefCount(index', fp, user)} ::
      RefCount(index', fp, user) == RefCount(index, fp, user) + UploadsIn(requests, |requests|, fp, user)
  }

  lemma CompletedCounts(index: Index, pending: Uses, uploads: Uses, index': Index, pending': Uses, uploads': Uses,
                        requests: seq<Request>)
    requires Counts(index, pending, uploads) && Counts(index', pending', uploads')
    requires UploadsAre(uploads', uploads, requests, |requests|) && PendingIs(pending', pending, [])
    ensures AllCountedIn(index, index', requests)
  {
    forall fp, user
      ensures RefCount(index', fp, user) == RefCount(index, fp, user) + UploadsIn(requests, |requests|, fp, user)
    {
      assert RefCount(index, fp, user) + Count(pending, fp, user) == Count(uploads, fp, user);
    }
  }

  lemma NothingServed(pending: Uses, uploads: Uses, requests: seq<Request>)
    ensures PendingIs(pending, pending, []) && UploadsAre(uploads, uploads, requests, 0)
  {
    forall fp, user ensures MissingOfAll([], fp, user) == UploadsIn(requests, 0, fp, user) == 0 {}
  }

  /** The first n requests have been served since a server with the given state. */
  ghost predicate Served(server: Server, index: Index, all: Files, pending: Uses, uploads: Uses,
                         requests: seq<Request>, n: nat, sessions: seq<Session>, allOk: bool)
    reads server
  {
    && server.Valid() && ValidSessions(sessions) && n <= |requests| && UploadsAre(server.uploads, uploads, requests, n)
    && Stays(index, server.index) && Grows(all, server.all)
    && (allOk ==> PendingIs(server.pending, pending, sessions))
  }

  /** A first stage opens a session. */
  method Open(server: Server, user: int, entries: seq<ShareMD>, sessions: seq<Session>, allOk: bool,
              ghost index: Index, ghost all: Files, ghost pending: Uses, ghost uploads: Uses,
              ghost requests: seq<Request>, ghost n: nat)
    returns (sessions': seq<Session>)
    requires n < |requests| && requests[n] == First(user, entries)
    requires Served(server, index, all, pending, uploads, requests, n, sessions, allOk)
    modifies server
    ensures Served(server, index, all, pending, uploads, requests, n + 1, sessions', allOk)
  {
    ghost var index1, all1, pending1 := server.index, server.all, server.pending;
    UploadsCounted(server.uploads, uploads, requests, n);
    var dups, _ := server.FirstStageDedup(user, entries);
    if allOk { FirstCounted(pending1, pending, sessions, Session(user, entries, dups)); }
    sessions' := sessions + [Session(user, entries, dups)];
    StaysOn(index, index1, server.index);
    GrowsOn(all, all1, server.all);
  }

  /** A second stage closes its session. */
  method Close(server: Server, k: nat, data: seq<byte>, now: real, sessions: seq<Session>, allOk: bool,
               ghost index: Index, ghost all: Files, ghost pending: Uses, ghost uploads: Uses,
               ghost requests: seq<Request>, ghost n: nat)
    returns (sessions': seq<Session>, allOk': bool)
    requires n < |requests| && requests[n].Second? && k < |sessions|
    requires Served(server, index, all, pending, uploads, requests, n, sessions, allOk)
    requires |data| == SentSize(sessions[k].entries, sessions[k].dups, |sessions[k].entries|)
    requires FitSizes(sessions[k].entries, sessions[k].dups)
    requires Rank(server.nextName) + |sessions[k].entries| + 2 < ALL_NAMES
    modifies server
    ensures Served(server, index, all, pending, uploads, requests, n + 1, sessions', allOk')
  {
    ghost var index1, all1, pending1 := server.index, server.all, server.pending;
    UploadsCounted(server.uploads, uploads, requests, n);
    var s := sessions[k];
    var ok, _, _ := server.SecondStageDedup(s.user, s.entries, s.dups, data, now);
    if allOk && ok { SecondCounted(pending1, pending, sessions, k); }
    allOk' := allOk && ok;
    sessions' := Closed(sessions, k);
    StaysOn(index, index1, server.index);
    GrowsOn(all, all1, server.all);
  }

  /** Serve the requests in the given order.  Second stages of unknown sessions or with the wrong
      amount of data are refused, and so are those with shares above the container size and those
      for which names would run out. */
  method Serve(server: Server, requests: seq<Request>) returns (sessions: seq<Session>, allOk: bool)
    requires server.Valid()
    modifies server
    ensures server.Valid() && ValidSessions(sessions)
    ensures UploadsAre(server.uploads, old(server.uploads), requests, |requests|)
    ensures Stays(old(server.index), server.index) && Grows(old(server.all), server.all)
    ensures allOk ==> PendingIs(server.pending, old(server.pending), sessions)
    ensures allOk && sessions == [] ==> AllCountedIn(old(server.index), server.index, requests)
  {
    sessions, allOk := [], true;
    ghost var index, all, pending, uploads := server.index, server.all, server.pending, server.uploads;
    NothingServed(pending, uploads, requests);
    for i := 0 to |requests|
      invariant Served(server, index, all, pending, uploads, requests, i, sessions, allOk)
    {
      match requests[i] {
        case First(user, entries) =>
          sessions := Open(server, user, entries, sessions, allOk, index, all, pending, uploads, requests, i);
        case Second(k, data, now) =>
          if k < |sessions| && |data| == SentSize(sessions[k].entries, sessions[k].dups, |sessions[k].entries|)
             && FitSizes(sessions[k].entries, sessions[k].dups)
             && Rank(server.nextName) + |sessions[k].entries| + 2 < ALL_NAMES {
            sessions, allOk := Close(server, k, data, now, sessions, allOk, index, all, pending, uploads, requests, i);
          } else {
            UploadsCounted(server.uploads, uploads, requests, i);
          }
      }
    }
    if allOk && sessions == [] {
      CompletedCounts(index, pending, uploads, server.index, server.pending, server.uploads, requests);
    }
  }
}
