/** Internal keys, server/lib/leveldb/db/dbformat.h: a user key, a sequence number and a
    kind, ordered by increasing user key and then by decreasing sequence number.

    User keys are reals.  The store only ever compares user keys, through a comparator
    that is a total order on byte strings; `Rank` embeds that order in the reals, so
    nothing is lost by speaking about ranks. */
module InternalKeys {
  import opened Wrappers

  datatype Kind = Deletion | Value

  datatype Entry = Entry(user: real, seqno: nat, kind: Kind, value: string)

  const MAX_SEQUENCE: nat := 0xff_ffff_ffff_ffff

  /** Sequence number and kind packed into one number. */
  function Tag(e: Entry): nat {
    256 * e.seqno + if e.kind.Value? then 1 else 0
  }

  /** Strictly before in internal key order. */
  predicate Less(a: Entry, b: Entry) {
    a.user < b.user || (a.user == b.user && Tag(a) > Tag(b))
  }

  /** By increasing user key, then by decreasing sequence number, then values before deletions. */
  lemma KeyOrder(a: Entry, b: Entry)
    ensures Less(a, b) <==>
            || a.user < b.user
            || (a.user == b.user && a.seqno > b.seqno)
            || (a.user == b.user && a.seqno == b.seqno && a.kind == Value && b.kind == Deletion)
  {
  }

  /** The key to seek for the newest entry of a user key visible at a snapshot. */
  function SeekKey(user: real, snapshot: nat): Entry {
    Entry(user, snapshot, Value, "")
  }

  ghost predicate Sorted(s: seq<Entry>) {
    forall i, j {:trigger Less(s[i], s[j])} :: 0 <= i < j < |s| ==> Less(s[i], s[j])
  }

  // ---------------------------------------------------------------- what a read must return

  ghost predicate Visible(s: set<Entry>, user: real, snapshot: nat, e: Entry) {
    e in s && e.user == user && e.seqno <= snapshot
  }

  /** e is the entry that a read of the user key at the snapshot must find. */
  ghost predicate Newest(s: set<Entry>, user: real, snapshot: nat, e: Entry) {
    Visible(s, user, snapshot, e) && forall x :: Visible(s, user, snapshot, x) ==> x == e || Less(e, x)
  }

  ghost predicate NoneVisible(s: set<Entry>, user: real, snapshot: nat) {
    forall x :: !Visible(s, user, snapshot, x)
  }

  /** What a read has to answer: the value of the newest visible entry, if it is one. */
  ghost predicate Answer(s: set<Entry>, user: real, snapshot: nat, r: Option<string>) {
    match r
    case Some(v) => exists e :: Newest(s, user, snapshot, e) && e.kind.Value? && e.value == v
    case None => NoneVisible(s, user, snapshot) || exists e :: Newest(s, user, snapshot, e) && e.kind.Deletion?
  }

  lemma NewestUnique(s: set<Entry>, user: real, snapshot: nat, a: Entry, b: Entry)
    requires Newest(s, user, snapshot, a) && Newest(s, user, snapshot, b)
    ensures a == b
  {
  }

  lemma AnswerUnique(s: set<Entry>, user: real, snapshot: nat, a: Option<string>, b: Option<string>)
    requires Answer(s, user, snapshot, a) && Answer(s, user, snapshot, b)
    ensures a == b
  {
    forall x, y | Newest(s, user, snapshot, x) && Newest(s, user, snapshot, y) ensures x == y {
      NewestUnique(s, user, snapshot, x, y);
    }
  }

  // ---------------------------------------------------------------- ranks

  /** Byte-wise order of strings: the first difference decides, and a prefix comes first. */
  predicate LexLess(s: seq<nat>, t: seq<nat>)
  {
    t != [] && (s == [] || s[0] < t[0] || (s[0] == t[0] && LexLess(s[1..], t[1..])))
  }

  ghost predicate IsBytes(s: seq<nat>) {
    forall i :: 0 <= i < |s| ==> s[i] < 256
  }

  function Rank(s: seq<nat>): real
  {
    if s == [] then 0.0 else ((s[0] + 1) as real + Rank(s[1..])) / 257.0
  }

  lemma {:induction false} RankRange(s: seq<nat>)
    requires IsBytes(s)
    ensures 0.0 <= Rank(s) < 1.0 && (s != [] ==> Rank(s) > 0.0)
  {
    if s != [] {
      RankRange(s[1..]);
    }
  }

  /** The rank of a user key orders it as the byte-wise comparator does. */
  lemma {:induction false} RankOrders(s: seq<nat>, t: seq<nat>)
    requires IsBytes(s) && IsBytes(t)
    ensures LexLess(s, t) <==> Rank(s) < Rank(t)
    ensures s == t <==> Rank(s) == Rank(t)
  {
    RankRange(s);
    RankRange(t);
    if s != [] && t != [] {
      RankRange(s[1..]);
      RankRange(t[1..]);
      RankOrders(s[1..], t[1..]);
      assert s == [s[0]] + s[1..] && t == [t[0]] + t[1..];
    }
  }
}
