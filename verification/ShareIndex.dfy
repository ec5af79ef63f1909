/** The share index, server/dedup/minDedupCore.cc: where a share is stored, and how often each
    user refers to it. */
module ShareIndex {
  import opened ContainerNames

  type byte = bv8

  /** A fingerprint, read as a number. */
  type Fingerprint = int

  datatype UserRef = UserRef(user: int, refCnt: nat)

  datatype IndexValue = IndexValue(container: Name, offset: nat, size: nat, users: seq<UserRef>)

  type Index = map<Fingerprint, IndexValue>

  ghost predicate OtherUser(a: UserRef, b: UserRef) {
    a.user != b.user
  }

  ghost predicate DistinctUsers(users: seq<UserRef>) {
    forall i, j {:trigger OtherUser(users[i], users[j])} :: 0 <= i < j < |users| ==> OtherUser(users[i], users[j])
  }

  /** How often the user refers to the share. */
  function RefIn(users: seq<UserRef>, user: int): nat {
    if users == [] then 0
    else if users[|users| - 1].user == user then users[|users| - 1].refCnt
    else RefIn(users[..|users| - 1], user)
  }

  function RefCount(index: Index, fp: Fingerprint, user: int): nat {
    if fp in index then RefIn(index[fp].users, user) else 0
  }

  predicate Owns(users: seq<UserRef>, user: int) {
    exists i :: 0 <= i < |users| && users[i].user == user
  }

  /** Find the user's reference entry. */
  method FindUser(users: seq<UserRef>, user: int) returns (found: bool, i: nat)
    ensures found <==> Owns(users, user)
    ensures found ==> i < |users| && users[i].user == user
  {
    found, i := false, 0;
    while i < |users| && !found
      invariant i <= |users| && (found ==> i < |users| && users[i].user == user)
      invariant !found ==> forall k :: 0 <= k < i ==> users[k].user != user
      decreases |users| - i, if found then 0 else 1
    {
      if users[i].user == user {
        found := true;
      } else {
        i := i + 1;
      }
    }
  }

  /** One more reference by an owner. */
  function Counted(users: seq<UserRef>, i: nat): seq<UserRef>
    requires i < |users|
  {
    users[i := UserRef(users[i].user, users[i].refCnt + 1)]
  }

  lemma {:induction false} CountedRefs(users: seq<UserRef>, i: nat, w: int)
    requires i < |users| && DistinctUsers(users)
    ensures RefIn(Counted(users, i), w) == RefIn(users, w) + if w == users[i].user then 1 else 0
  {
    var n := |users| - 1;
    if i == n {
      assert Counted(users, i)[..n] == users[..n];
      if w == users[i].user { assert RefIn(users, w) == users[i].refCnt; }
    } else {
      assert OtherUser(users[i], users[n]);
      assert Counted(users, i)[..n] == Counted(users[..n], i);
      PrefixDistinct(users, n);
      CountedRefs(users[..n], i, w);
    }
  }

  lemma PrefixDistinct(users: seq<UserRef>, n: nat)
    requires DistinctUsers(users) && n <= |users|
    ensures DistinctUsers(users[..n])
  {
    forall i, j | 0 <= i < j < n ensures OtherUser(users[..n][i], users[..n][j]) {
      assert OtherUser(users[i], users[j]);
    }
  }

  lemma CountedDistinct(users: seq<UserRef>, i: nat)
    requires i < |users| && DistinctUsers(users)
    ensures DistinctUsers(Counted(users, i))
  {
    var after := Counted(users, i);
    forall j, k | 0 <= j < k < |after| ensures OtherUser(after[j], after[k]) {
      assert OtherUser(users[j], users[k]);
    }
  }

  lemma AppendedDistinct(users: seq<UserRef>, user: int)
    requires DistinctUsers(users) && !Owns(users, user)
    ensures DistinctUsers(users + [UserRef(user, 1)])
    ensures RefIn(users, user) == 0
    ensures forall w :: RefIn(users + [UserRef(user, 1)], w) == if w == user then 1 else RefIn(users, w)
  {
    var after := users + [UserRef(user, 1)];
    forall i, j | 0 <= i < j < |after| ensures OtherUser(after[i], after[j]) {
      if j < |users| { assert OtherUser(users[i], users[j]); }
    }
    NotOwned(users, user);
    assert after[..|users|] == users;
  }

  lemma {:induction false} NotOwned(users: seq<UserRef>, user: int)
    requires !Owns(users, user)
    ensures RefIn(users, user) == 0
  {
    if users != [] {
      NotOwned(users[..|users| - 1], user);
    }
  }

  /** What a further upload by the user makes of the reference entries. */
  function Referred(users: seq<UserRef>, found: bool, i: nat, user: int): seq<UserRef>
    requires found ==> i < |users|
  {
    if found then Counted(users, i) else users + [UserRef(user, 1)]
  }

  /** Entries stay one to a user, and exactly the user's count goes up by one. */
  lemma ReferredRefs(users: seq<UserRef>, found: bool, i: nat, user: int)
    requires DistinctUsers(users) && (found <==> Owns(users, user)) && (found ==> i < |users| && users[i].user == user)
    ensures DistinctUsers(Referred(users, found, i, user))
    ensures forall w :: RefIn(Referred(users, found, i, user), w) == RefIn(users, w) + if w == user then 1 else 0
  {
    if found {
      CountedDistinct(users, i);
      forall w ensures RefIn(Counted(users, i), w) == RefIn(users, w) + if w == user then 1 else 0 {
        CountedRefs(users, i, w);
      }
    } else {
      AppendedDistinct(users, user);
    }
  }
}
