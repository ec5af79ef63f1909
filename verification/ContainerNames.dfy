/** Names of share containers, server/dedup/minDedupCore.cc: twelve letters counted up in
    base 26; the letter 'a' is 0 and 'z' is 25. */
module ContainerNames {
  const NAME_LENGTH: nat := 12
  const LETTERS: nat := 26

  type Name = seq<int>

  ghost predicate IsName(n: Name) {
    |n| == NAME_LENGTH && AllLetters(n)
  }

  ghost predicate AllLetters(n: Name) {
    forall i :: 0 <= i < |n| ==> 0 <= n[i] < LETTERS
  }

  /** The place of a name in the order of names. */
  function Rank(n: Name): int {
    if n == [] then 0 else LETTERS * Rank(n[..|n| - 1]) + n[|n| - 1]
  }

  lemma {:induction false} RankInjective(a: Name, b: Name)
    requires |a| == |b| && AllLetters(a) && AllLetters(b) && Rank(a) == Rank(b)
    ensures a == b
  {
    if a != [] {
      var n := |a| - 1;
      assert (LETTERS * Rank(a[..n]) + a[n]) / LETTERS == Rank(a[..n]);
      assert (LETTERS * Rank(b[..n]) + b[n]) / LETTERS == Rank(b[..n]);
      RankInjective(a[..n], b[..n]);
      assert a == a[..n] + [a[n]] && b == b[..n] + [b[n]];
    }
  }

  /** The name the server starts with. */
  function FirstName(): (n: Name)
    ensures IsName(n)
  {
    seq(NAME_LENGTH, _ => 0)
  }

  lemma {:induction false} ZeroRank(n: Name)
    requires forall i :: 0 <= i < |n| ==> n[i] == 0
    ensures Rank(n) == 0
  {
    if n != [] { ZeroRank(n[..|n| - 1]); }
  }

  ghost predicate Exhausted(n: Name) {
    forall i :: 0 <= i < |n| ==> n[i] == LETTERS - 1
  }

  /** b is a with the letter at i counted up and those after it set back. */
  ghost predicate Carried(a: Name, b: Name, i: nat, n: nat)
    requires i < n <= |a| == |b|
  {
    && b[..i] == a[..i] && b[i] == a[i] + 1
    && forall k :: i < k < n ==> a[k] == LETTERS - 1 && b[k] == 0
  }

  lemma {:induction false} CarriedRank(a: Name, b: Name, i: nat, n: nat)
    requires i < n <= |a| == |b| && Carried(a, b, i, n)
    ensures Rank(b[..n]) == Rank(a[..n]) + 1
  {
    assert a[..n][..n - 1] == a[..n - 1] && b[..n][..n - 1] == b[..n - 1];
    if i < n - 1 { CarriedRank(a, b, i, n - 1); }
  }

  /** Count a name up.  When all letters are 'z' there is no next name. */
  method IncrGlobalFileName(name: Name) returns (ok: bool, next: Name)
    requires IsName(name)
    ensures ok <==> !Exhausted(name)
    ensures IsName(next) && (ok ==> Rank(next) == Rank(name) + 1) && (!ok ==> next == name)
    ensures ok ==> exists i :: 0 <= i < NAME_LENGTH && Carried(name, next, i, NAME_LENGTH)
  {
    var i := NAME_LENGTH - 1;
    while i >= 0 && name[i] == LETTERS - 1
      invariant -1 <= i < NAME_LENGTH && forall k :: i < k < NAME_LENGTH ==> name[k] == LETTERS - 1
    {
      i := i - 1;
    }
    next := name;
    if i == -1 {
      return false, next;
    }
    ghost var carry := i;
    next := next[i := next[i] + 1];
    i := i + 1;
    while i < NAME_LENGTH
      invariant carry < i <= NAME_LENGTH == |next| && AllLetters(next)
      invariant Carried(name, next, carry, i)
      invariant forall k :: i <= k < NAME_LENGTH ==> next[k] == name[k]
    {
      next := next[i := 0];
      i := i + 1;
    }
    CarriedRank(name, next, carry, NAME_LENGTH);
    assert name[..NAME_LENGTH] == name && next[..NAME_LENGTH] == next;
    ok := true;
  }

  function NamesOf(length: nat): nat {
    if length == 0 then 1 else LETTERS * NamesOf(length - 1)
  }

  lemma {:induction false} ExhaustedRank(n: Name)
    requires Exhausted(n)
    ensures Rank(n) == NamesOf(|n|) - 1
  {
    if n != [] { ExhaustedRank(n[..|n| - 1]); }
  }

  /** The number of names: 26 to the power of 12. */
  const ALL_NAMES: int := 95428956661682176

  /** Names are left as long as the rank has not reached the last one. */
  lemma NotExhausted(n: Name)
    requires IsName(n) && Rank(n) + 1 < ALL_NAMES
    ensures !Exhausted(n)
  {
    assert NamesOf(NAME_LENGTH) == ALL_NAMES;
    if Exhausted(n) { ExhaustedRank(n); }
  }
}
