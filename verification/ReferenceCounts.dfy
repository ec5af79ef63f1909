/** What packages of shares do to reference counts, server/dedup/minDedupCore.cc. */
module ReferenceCounts {
  import opened ShareIndex

  /** What a client sends of a share before its bytes. */
  datatype ShareMD = ShareMD(fp: Fingerprint, size: nat)

  /** A record of uses of shares by users, as they come and go. */
  datatype Uses =
    | NoUses
    | More(before: Uses, fp: Fingerprint, user: int)
    | Less(before: Uses, fp: Fingerprint, user: int)

  function Count(u: Uses, fp: Fingerprint, user: int): int {
    match u
    case NoUses => 0
    case More(b, f, w) => Count(b, fp, user) + if f == fp && w == user then 1 else 0
    case Less(b, f, w) => Count(b, fp, user) - if f == fp && w == user then 1 else 0
  }

  /** Uses with those of the first n shares of a package by the user. */
  ghost function WithAll(u: Uses, entries: seq<ShareMD>, user: int, n: nat): Uses
    requires n <= |entries|
  {
    if n == 0 then u else More(WithAll(u, entries, user, n - 1), entries[n - 1].fp, user)
  }

  /** Uses with those of the first n shares, as far as the server asked for their bytes. */
  ghost function WithMissing(u: Uses, entries: seq<ShareMD>, dups: seq<bool>, user: int, n: nat): Uses
    requires n <= |entries| && n <= |dups|
  {
    if n == 0 then u else
      var before := WithMissing(u, entries, dups, user, n - 1);
      if dups[n - 1] then before else More(before, entries[n - 1].fp, user)
  }

  /** Uses without those of the first n shares, as far as their bytes were asked for. */
  ghost function WithoutMissing(u: Uses, entries: seq<ShareMD>, dups: seq<bool>, user: int, n: nat): Uses
    requires n <= |entries| && n <= |dups|
  {
    if n == 0 then u else
      var before := WithoutMissing(u, entries, dups, user, n - 1);
      if dups[n - 1] then before else Less(before, entries[n - 1].fp, user)
  }

  /** How often a share is among the first n of a package. */
  function Occurrences(entries: seq<ShareMD>, fp: Fingerprint, n: nat): nat
    requires n <= |entries|
  {
    if n == 0 then 0 else Occurrences(entries, fp, n - 1) + if entries[n - 1].fp == fp then 1 else 0
  }

  function Fingerprints(entries: seq<ShareMD>): (r: seq<Fingerprint>)
    ensures |r| == |entries| && forall i {:trigger r[i]} :: 0 <= i < |r| ==> r[i] == entries[i].fp
  {
    seq(|entries|, i requires 0 <= i < |entries| => entries[i].fp)
  }

  /** That is its multiplicity among the fingerprints. */
  lemma {:induction false} OccurrencesAre(entries: seq<ShareMD>, fp: Fingerprint, n: nat)
    requires n <= |entries|
    ensures Occurrences(entries, fp, n) == multiset(Fingerprints(entries)[..n])[fp]
  {
    if n > 0 {
      OccurrencesAre(entries, fp, n - 1);
      assert Fingerprints(entries)[..n] == Fingerprints(entries)[..n - 1] + [entries[n - 1].fp];
    }
  }

  /** The bytes to send of the first n shares. */
  function SentSize(entries: seq<ShareMD>, dups: seq<bool>, n: nat): nat
    requires n <= |entries| && n <= |dups|
  {
    if n == 0 then 0 else SentSize(entries, dups, n - 1) + if dups[n - 1] then 0 else entries[n - 1].size
  }

  lemma {:induction false} AllCounted(u: Uses, entries: seq<ShareMD>, user: int, n: nat, fp: Fingerprint, w: int)
    requires n <= |entries|
    ensures Count(WithAll(u, entries, user, n), fp, w) == Count(u, fp, w)
            + if w == user then Occurrences(entries, fp, n) else 0
  {
    if n > 0 { AllCounted(u, entries, user, n - 1, fp, w); }
  }

  /** What the first stage of a package leaves pending, its second stage takes away. */
  lemma {:induction false} StagesCancel(u: Uses, v: Uses, entries: seq<ShareMD>, dups: seq<bool>, user: int, n: nat,
                                        fp: Fingerprint, w: int)
    requires n <= |entries| && n <= |dups|
    ensures Count(WithMissing(u, entries, dups, user, n), fp, w) - Count(u, fp, w) ==
            Count(v, fp, w) - Count(WithoutMissing(v, entries, dups, user, n), fp, w)
  {
    if n > 0 { StagesCancel(u, v, entries, dups, user, n - 1, fp, w); }
  }

  /** The fingerprints of the first n shares whose bytes were asked for. */
  ghost function Asked(entries: seq<ShareMD>, dups: seq<bool>, n: nat): set<Fingerprint>
    requires n <= |entries| && n <= |dups|
  {
    if n == 0 then {} else Asked(entries, dups, n - 1) + if dups[n - 1] then {} else {entries[n - 1].fp}
  }

  lemma {:induction false} SentSizeGrows(entries: seq<ShareMD>, dups: seq<bool>, m: nat, n: nat)
    requires m <= n <= |entries| && n <= |dups|
    ensures SentSize(entries, dups, m) <= SentSize(entries, dups, n)
  {
    if m < n { SentSizeGrows(entries, dups, m, n - 1); }
  }

  /** Only the first n answers matter for the first n shares. */
  lemma {:induction false} MoreAnswers(u: Uses, entries: seq<ShareMD>, dups: seq<bool>, more: seq<bool>, user: int,
                                       n: nat)
    requires n <= |entries| && n <= |dups|
    ensures WithMissing(u, entries, dups + more, user, n) == WithMissing(u, entries, dups, user, n)
    ensures SentSize(entries, dups + more, n) == SentSize(entries, dups, n)
  {
    if n > 0 { MoreAnswers(u, entries, dups, more, user, n - 1); }
  }

  // ---------------------------------------------------------------- reference counts

  ghost predicate DistinctAll(index: Index) {
    forall fp {:trigger fp in index} :: fp in index ==> DistinctUsers(index[fp].users)
  }

  /** A reference count is the number of uploads, less those whose package is between its stages. */
  ghost predicate Counts(index: Index, pending: Uses, uploads: Uses) {
    forall fp, user {:trigger RefCount(index, fp, user)} ::
      RefCount(index, fp, user) + Count(pending, fp, user) == Count(uploads, fp, user)
  }

  ghost predicate ValidCounts(index: Index, pending: Uses, uploads: Uses) {
    DistinctAll(index) && Counts(index, pending, uploads)
  }

  /** References of a share that change by one for one user. */
  lemma CountedOnce(index: Index, index': Index, fp: Fingerprint, user: int)
    requires fp in index' && DistinctAll(index) && DistinctUsers(index'[fp].users)
    requires forall f :: f != fp ==> (f in index' <==> f in index) && (f in index ==> index'[f] == index[f])
    requires forall w :: RefIn(index'[fp].users, w) == RefCount(index, fp, w) + if w == user then 1 else 0
    ensures DistinctAll(index')
    ensures forall f, w {:trigger RefCount(index', f, w)} ::
              RefCount(index', f, w) == RefCount(index, f, w) + if f == fp && w == user then 1 else 0
  {
  }

  lemma NewShareCounts(index: Index, fp: Fingerprint, user: int, v: IndexValue)
    requires fp !in index && DistinctAll(index) && v.users == [UserRef(user, 1)]
    ensures DistinctAll(index[fp := v])
    ensures forall f, w {:trigger RefCount(index[fp := v], f, w)} ::
              RefCount(index[fp := v], f, w) == RefCount(index, f, w) + if f == fp && w == user then 1 else 0
  {
    forall w ensures RefIn(v.users, w) == if w == user then 1 else 0 {
      assert v.users[..0] == [];
    }
    CountedOnce(index, index[fp := v], fp, user);
  }

  lemma OldShareCounts(index: Index, fp: Fingerprint, user: int, found: bool, i: nat)
    requires fp in index && DistinctAll(index)
    requires var users := index[fp].users;
             (found <==> Owns(users, user)) && (found ==> i < |users| && users[i].user == user)
    ensures var index' := index[fp := index[fp].(users := Referred(index[fp].users, found, i, user))];
            && DistinctAll(index')
            && forall f, w {:trigger RefCount(index', f, w)} ::
                 RefCount(index', f, w) == RefCount(index, f, w) + if f == fp && w == user then 1 else 0
  {
    ReferredRefs(index[fp].users, found, i, user);
    CountedOnce(index, index[fp := index[fp].(users := Referred(index[fp].users, found, i, user))], fp, user);
  }

  /** A counted upload moves from pending to the reference count, or is new in both. */
  lemma CountsMove(index: Index, index': Index, fp: Fingerprint, user: int, pending: Uses, uploads: Uses)
    requires Counts(index, pending, uploads)
    requires forall f, w {:trigger RefCount(index', f, w)} ::
               RefCount(index', f, w) == RefCount(index, f, w) + if f == fp && w == user then 1 else 0
    ensures Counts(index', pending, More(uploads, fp, user)) && Counts(index', Less(pending, fp, user), uploads)
  {
    forall f, w
      ensures RefCount(index', f, w) + Count(pending, f, w) == Count(More(uploads, fp, user), f, w)
      ensures RefCount(index', f, w) + Count(Less(pending, fp, user), f, w) == Count(uploads, f, w)
    {
      assert RefCount(index, f, w) + Count(pending, f, w) == Count(uploads, f, w);
    }
  }

  lemma CountsPend(index: Index, fp: Fingerprint, user: int, pending: Uses, uploads: Uses)
    requires Counts(index, pending, uploads)
    ensures Counts(index, More(pending, fp, user), More(uploads, fp, user))
  {
  }
}
