/** The first stage of an upload, server/dedup/minDedupCore.cc: which shares does the user already own? */
module FirstStage {
  import opened ShareIndex
  import opened Containers
  import opened ReferenceCounts

  /** The user has a reference to the share. */
  predicate OwnsShare(index: Index, fp: Fingerprint, user: int) {
    fp in index && Owns(index[fp].users, user)
  }

  ghost predicate SameOwner(index: Index, index': Index, fp: Fingerprint, user: int) {
    OwnsShare(index', fp, user) <==> OwnsShare(index, fp, user)
  }

  ghost predicate SameOwners(index: Index, index': Index) {
    forall fp, user {:trigger SameOwner(index, index', fp, user)} :: SameOwner(index, index', fp, user)
  }

  lemma CountedOwners(index: Index, fp: Fingerprint, i: nat)
    requires fp in index && i < |index[fp].users|
    ensures SameOwners(index, index[fp := index[fp].(users := Counted(index[fp].users, i))])
  {
    var users, after := index[fp].users, Counted(index[fp].users, i);
    forall user ensures Owns(after, user) <==> Owns(users, user) {
      if Owns(users, user) {
        var k :| 0 <= k < |users| && users[k].user == user;
        assert after[k].user == user;
      }
    }
  }

  /** Is the share one of the user's already?  If so, that is one more reference. */
  method IntraUserIndexUpdate(index: Index, fp: Fingerprint, user: int, ghost pending: Uses, ghost uploads: Uses,
                              ghost all: Files, ghost hash: seq<byte> -> Fingerprint)
    returns (dup: bool, index': Index, ghost pending': Uses)
    requires Sound(index, all, hash) && ValidCounts(index, pending, uploads)
    ensures Sound(index', all, hash) && ValidCounts(index', pending', More(uploads, fp, user))
    ensures index'.Keys == index.Keys && (dup <==> OwnsShare(index, fp, user)) && SameOwners(index, index')
    ensures pending' == if dup then pending else More(pending, fp, user)
    ensures Stays(index, index')
  {
    dup, index', pending' := false, index, pending;
    var i := 0;
    if fp in index {
      dup, i := FindUser(index[fp].users, user);
    }
    if dup {
      OldShareCounts(index, fp, user, true, i);
      SamePlace(index, all, hash, fp, Counted(index[fp].users, i));
      CountedOwners(index, fp, i);
      index' := index[fp := index[fp].(users := Counted(index[fp].users, i))];
      CountsMove(index, index', fp, user, pending, uploads);
    } else {
      CountsPend(index, fp, user, pending, uploads);
      pending' := More(pending, fp, user);
    }
  }

  lemma OwnersOn(index: Index, index1: Index, index2: Index, fp: Fingerprint, user: int)
    requires SameOwners(index, index1) && SameOwners(index1, index2)
    ensures SameOwners(index, index2) && SameOwner(index, index1, fp, user)
  {
    forall f, w ensures SameOwner(index, index2, f, w) {
      assert SameOwner(index, index1, f, w) && SameOwner(index1, index2, f, w);
    }
    assert SameOwner(index, index1, fp, user);
  }

  /** A share is answered as a duplicate exactly when the user owned it before the package came. */
  ghost predicate Answers(index: Index, user: int, entries: seq<ShareMD>, dups: seq<bool>) {
    |dups| <= |entries|
    && forall k {:trigger dups[k]} :: 0 <= k < |dups| ==> (dups[k] <==> OwnsShare(index, entries[k].fp, user))
  }

  /** Which shares of a package does the user already own? */
  method CheckPackage(index: Index, user: int, entries: seq<ShareMD>, ghost pending: Uses, ghost uploads: Uses,
                      ghost all: Files, ghost hash: seq<byte> -> Fingerprint)
    returns (dups: seq<bool>, sentSize: nat, index': Index)
    requires Sound(index, all, hash) && ValidCounts(index, pending, uploads)
    ensures |dups| == |entries| && sentSize == SentSize(entries, dups, |entries|)
    ensures Sound(index', all, hash) && index'.Keys == index.Keys && Stays(index, index')
    ensures ValidCounts(index', WithMissing(pending, entries, dups, user, |entries|),
                        WithAll(uploads, entries, user, |entries|))
    ensures Answers(index, user, entries, dups)
  {
    dups, sentSize, index' := [], 0, index;
    ghost var p, u := pending, uploads;
    for i := 0 to |entries|
      invariant |dups| == i && sentSize == SentSize(entries, dups, i)
      invariant Sound(index', all, hash) && index'.Keys == index.Keys && ValidCounts(index', p, u)
      invariant Stays(index, index')
      invariant u == WithAll(uploads, entries, user, i) && p == WithMissing(pending, entries, dups, user, i)
      invariant Answers(index, user, entries, dups) && SameOwners(index, index')
    {
      var dup;
      ghost var before := index';
      dup, index', p := IntraUserIndexUpdate(index', entries[i].fp, user, p, u, all, hash);
      StaysOn(index, before, index');
      OwnersOn(index, before, index', entries[i].fp, user);
      u := More(u, entries[i].fp, user);
      MoreAnswers(pending, entries, dups, [dup], user, i);
      dups := dups + [dup];
      if !dup {
        sentSize := sentSize + entries[i].size;
      }
    }
  }
}
