/** Gauss-Jordan inversion in place, client/coding/CDCodec.cc. */
module Inversion {
  import opened GaloisField
  import opened Matrix

  // ---------------------------------------------------------------- shapes reached by the elimination

  /** The first `i` columns are those of an upper triangular matrix with ones on the diagonal. */
  ghost predicate Triangular<F>(f: Field<F>, s: Mat<F>, i: nat) {
    && i <= |s| && Shape(s, |s|, |s|)
    && (forall c :: 0 <= c < i ==> s[c][c] == f.one)
    && (forall r, c :: 0 <= c < i && c < r < |s| ==> s[r][c] == f.zero)
  }

  /** Column `i` has a one at row `i` and zeros at the rows between `i` and `j`. */
  ghost predicate ClearedBelow<F>(f: Field<F>, s: Mat<F>, i: nat, j: nat) {
    && i < j <= |s| && Triangular(f, s, i)
    && s[i][i] == f.one
    && forall r :: i < r < j ==> s[r][i] == f.zero
  }

  /** The columns after `i` are those of the identity. */
  ghost predicate ClearedRight<F>(f: Field<F>, s: Mat<F>, i: int) {
    && Triangular(f, s, |s|)
    && forall r, c :: 0 <= r < c < |s| && i < c ==> s[r][c] == f.zero
  }

  /** ... and column `i` itself has zeros in its first `j` rows. */
  ghost predicate ClearedAbove<F>(f: Field<F>, s: Mat<F>, i: nat, j: nat) {
    && j <= i < |s| && ClearedRight(f, s, i)
    && forall r :: 0 <= r < j ==> s[r][i] == f.zero
  }

  /** Row operations that turn a into s. */
  ghost predicate ReachedBy<F>(f: Field<F>, ops: seq<RowOp<F>>, a: Mat<F>, s: Mat<F>) {
    Shape(a, |a|, |a|) && ValidOps(f, ops, |a|) && s == ApplyOps(f, ops, a, |a|)
  }

  lemma SwapStep<F(!new)>(f: Field<F>, s: Mat<F>, i: nat, j: nat)
    requires Triangular(f, s, i) && i < j < |s|
    ensures Triangular(f, ApplyOp(f, Swap(i, j), s, |s|), i)
  {
  }

  lemma NormaliseStep<F(!new)>(f: Field<F>, s: Mat<F>, i: nat)
    requires IsField(f) && Triangular(f, s, i) && i < |s| && s[i][i] != f.zero
    ensures ValidOp(f, Scale(i, f.divide(f.one, s[i][i])), |s|)
    ensures ClearedBelow(f, ApplyOp(f, Scale(i, f.divide(f.one, s[i][i])), s, |s|), i, i + 1)
  {
    var c := f.divide(f.one, s[i][i]);
    assert f.Divides(f.one, s[i][i]);
    MultiplyZero(f, s[i][i]);
    MultiplyZero(f, c);
  }

  lemma EliminateStep<F(!new)>(f: Field<F>, s: Mat<F>, i: nat, j: nat)
    requires IsField(f) && ClearedBelow(f, s, i, j) && j < |s|
    ensures ClearedBelow(f, ApplyOp(f, AddMultiple(j, i, s[j][i]), s, |s|), i, j + 1)
  {
    var c := s[j][i];
    MultiplyZero(f, c);
    assert f.AddZero(f.zero) && f.Commutes(c, f.one) && f.MultiplyOne(c) && f.AddSelf(c);
  }

  /** Subtracting a multiple of row `i`, by now a row of the identity, changes one entry only. */
  lemma BackSubstituteStep<F(!new)>(f: Field<F>, s: Mat<F>, i: nat, j: nat)
    requires IsField(f) && ClearedAbove(f, s, i, j) && j < i
    ensures ApplyOp(f, AddMultiple(j, i, s[j][i]), s, |s|) == s[j := s[j][i := f.zero]]
    ensures ClearedAbove(f, s[j := s[j][i := f.zero]], i, j + 1)
  {
    var c := s[j][i];
    var t := ApplyOp(f, AddMultiple(j, i, c), s, |s|);
    forall l | 0 <= l < |s| ensures t[j][l] == s[j][i := f.zero][l] {
      MultiplyZero(f, c);
      assert f.AddZero(s[j][l]) && f.AddCommutes(s[j][l], f.zero);
      assert f.Commutes(c, f.one) && f.MultiplyOne(c) && f.AddSelf(c);
    }
    assert t[j] == s[j][i := f.zero];
  }

  lemma ClearedIsIdentity<F(!new)>(f: Field<F>, s: Mat<F>)
    requires ClearedRight(f, s, -1)
    ensures s == Identity(f, |s|)
  {
    forall r | 0 <= r < |s| ensures s[r] == UnitRow(f, |s|, r) {
    }
  }

  // ---------------------------------------------------------------- a stuck elimination

  /** Components r.. of the solution with component i equal to one and later ones zero. */
  ghost function BackSubstituted<F>(f: Field<F>, s: Mat<F>, i: nat, r: nat): (v: seq<F>)
    requires r <= i < |s| && Shape(s, |s|, |s|)
    ensures |v| == |s| - r && v[i - r] == f.one && forall c :: i - r < c < |v| ==> v[c] == f.zero
    decreases i - r
  {
    if r == i then [f.one] + ZeroRow(f, |s| - i - 1) else
      var t := BackSubstituted(f, s, i, r + 1);
      [Dot(f, s[r][r + 1..], t)] + t
  }

  lemma {:induction false} BackSubstitutedSuffix<F(!new)>(f: Field<F>, s: Mat<F>, i: nat, r: nat)
    requires r <= i < |s| && Shape(s, |s|, |s|)
    ensures BackSubstituted(f, s, i, 0)[r..] == BackSubstituted(f, s, i, r)
  {
    if r > 0 {
      BackSubstitutedSuffix(f, s, i, r - 1);
      var v, t := BackSubstituted(f, s, i, 0), BackSubstituted(f, s, i, r - 1);
      assert v[r..] == v[r - 1..][1..] == t[1..];
    }
  }

  lemma BackSubstitutedAt<F(!new)>(f: Field<F>, s: Mat<F>, i: nat, r: nat)
    requires r < i < |s| && Shape(s, |s|, |s|)
    ensures var v := BackSubstituted(f, s, i, 0); v[r] == Dot(f, s[r][r + 1..], v[r + 1..])
  {
    BackSubstitutedSuffix(f, s, i, r);
    BackSubstitutedSuffix(f, s, i, r + 1);
    assert BackSubstituted(f, s, i, 0)[r] == BackSubstituted(f, s, i, 0)[r..][0];
  }

  /** With no pivot left in column `i`, the matrix has a nonzero vector in its kernel. */
  lemma StuckMeansKernel<F(!new)>(f: Field<F>, s: Mat<F>, i: nat) returns (v: seq<F>)
    requires IsField(f) && Triangular(f, s, i) && i < |s|
    requires forall r :: i <= r < |s| ==> s[r][i] == f.zero
    ensures |v| == |s| && v != ZeroRow(f, |v|) && InKernel(f, s, v)
  {
    v := BackSubstituted(f, s, i, 0);
    assert v[i] == f.one != ZeroRow(f, |v|)[i];
    forall r | 0 <= r < |s| ensures Dot(f, s[r], v) == f.zero {
      if r < i {
        BackSubstitutedAt(f, s, i, r);
        SolvedRow(f, s[r], v, r);
      } else {
        DotZero(f, s[r], v);
      }
    }
    KernelByDots(f, s, v);
  }

  /** An elimination that is stuck shows a nonzero vector in the kernel of the matrix it started from. */
  lemma StuckElimination<F(!new)>(f: Field<F>, ops: seq<RowOp<F>>, a: Mat<F>, s: Mat<F>, i: nat) returns (v: seq<F>)
    requires IsField(f) && ReachedBy(f, ops, a, s) && Triangular(f, s, i) && i < |s|
    requires forall r :: i <= r < |s| ==> s[r][i] == f.zero
    ensures |v| == |a| && v != ZeroRow(f, |v|) && InKernel(f, a, v)
  {
    v := StuckMeansKernel(f, s, i);
    OpsKeepKernel(f, ops, a, v);
  }

  lemma SolvedRow<F(!new)>(f: Field<F>, row: seq<F>, v: seq<F>, r: nat)
    requires IsField(f) && |row| == |v| && r < |row|
    requires (forall c :: 0 <= c < r ==> row[c] == f.zero) && row[r] == f.one
    requires v[r] == Dot(f, row[r + 1..], v[r + 1..])
    ensures Dot(f, row, v) == f.zero
  {
    var x := v[r];
    assert row == row[..r] + ([f.one] + row[r + 1..]) && v == v[..r] + ([x] + v[r + 1..]);
    DotZero(f, row[..r], v[..r]);
    DotConcat(f, row[..r], v[..r], [f.one] + row[r + 1..], [x] + v[r + 1..]);
    DotConcat(f, [f.one], [x], row[r + 1..], v[r + 1..]);
    DotStep(f, [f.one], [x]);
    assert f.MultiplyOne(x) && f.AddZero(x) && f.AddSelf(x) && f.AddZero(f.zero);
  }

  // ---------------------------------------------------------------- the in-place algorithm

  function Rows<F>(a: array2<F>): (r: Mat<F>)
    reads a
    ensures Shape(r, a.Length0, a.Length1)
    ensures forall i, j :: 0 <= i < a.Length0 && 0 <= j < a.Length1 ==> r[i][j] == a[i, j]
  {
    seq(a.Length0, i requires 0 <= i < a.Length0 reads a =>
      seq(a.Length1, j requires 0 <= j < a.Length1 reads a => a[i, j]))
  }

  lemma AppendOp<F(!new)>(f: Field<F>, ops: seq<RowOp<F>>, op: RowOp<F>, x: Mat<F>, cols: nat)
    requires Shape(x, |x|, cols) && ValidOps(f, ops, |x|) && ValidOp(f, op, |x|)
    ensures ValidOps(f, ops + [op], |x|)
    ensures ApplyOps(f, ops + [op], x, cols) == ApplyOp(f, op, ApplyOps(f, ops, x, cols), cols)
  {
    assert (ops + [op])[..|ops + [op]| - 1] == ops;
  }

  /** Exchange rows i and j of both matrices. */
  method SwapRows<F>(f: Field<F>, a: array2<F>, b: array2<F>, i: nat, j: nat)
    requires a != b && a.Length0 == a.Length1 == b.Length0 == b.Length1
    requires i < j < a.Length0
    modifies a, b
    ensures Rows(a) == ApplyOp(f, Swap(i, j), old(Rows(a)), a.Length0)
    ensures Rows(b) == ApplyOp(f, Swap(i, j), old(Rows(b)), a.Length0)
  {
    var k := a.Length0;
    for h := 0 to k
      invariant forall r, c :: 0 <= r < k && 0 <= c < k ==>
        a[r, c] == old(a[if c < h && r == i then j else if c < h && r == j then i else r, c])
      invariant forall r, c :: 0 <= r < k && 0 <= c < k ==>
        b[r, c] == old(b[if c < h && r == i then j else if c < h && r == j then i else r, c])
    {
      a[i, h], a[j, h] := a[j, h], a[i, h];
      b[i, h], b[j, h] := b[j, h], b[i, h];
    }
    EqualEntries(Rows(a), ApplyOp(f, Swap(i, j), old(Rows(a)), k), k, k);
    EqualEntries(Rows(b), ApplyOp(f, Swap(i, j), old(Rows(b)), k), k, k);
  }

  /** Multiply row i of both matrices by c. */
  method ScaleRows<F(!new)>(f: Field<F>, a: array2<F>, b: array2<F>, i: nat, c: F)
    requires IsField(f) && a != b && a.Length0 == a.Length1 == b.Length0 == b.Length1
    requires i < a.Length0 && c != f.zero
    modifies a, b
    ensures Rows(a) == ApplyOp(f, Scale(i, c), old(Rows(a)), a.Length0)
    ensures Rows(b) == ApplyOp(f, Scale(i, c), old(Rows(b)), a.Length0)
  {
    var k := a.Length0;
    for h := 0 to k
      invariant forall r, l :: 0 <= r < k && 0 <= l < k ==>
        a[r, l] == if r == i && l < h then f.multiply(c, old(a[r, l])) else old(a[r, l])
      invariant forall r, l :: 0 <= r < k && 0 <= l < k ==>
        b[r, l] == if r == i && l < h then f.multiply(c, old(b[r, l])) else old(b[r, l])
    {
      assert f.Commutes(a[i, h], c) && f.Commutes(b[i, h], c);
      a[i, h] := f.multiply(a[i, h], c);
      b[i, h] := f.multiply(b[i, h], c);
    }
    EqualEntries(Rows(a), ApplyOp(f, Scale(i, c), old(Rows(a)), k), k, k);
    EqualEntries(Rows(b), ApplyOp(f, Scale(i, c), old(Rows(b)), k), k, k);
  }

  /** Add c times row i of a matrix to its row j; a factor of one needs no multiplication. */
  method AddToRow<F(==,!new)>(f: Field<F>, a: array2<F>, j: nat, i: nat, c: F)
    requires IsField(f) && a.Length0 == a.Length1
    requires i < a.Length0 && j < a.Length0 && i != j
    modifies a
    ensures Rows(a) == ApplyOp(f, AddMultiple(j, i, c), old(Rows(a)), a.Length0)
  {
    var k := a.Length0;
    for h := 0 to k
      invariant forall r, l :: 0 <= r < k && 0 <= l < k ==>
        a[r, l] == if r == j && l < h then f.add(old(a[j, l]), f.multiply(c, old(a[i, l]))) else old(a[r, l])
    {
      assert f.Commutes(a[i, h], c) && f.MultiplyOne(a[i, h]);
      a[j, h] := f.add(a[j, h], if c == f.one then a[i, h] else f.multiply(a[i, h], c));
    }
    EqualEntries(Rows(a), ApplyOp(f, AddMultiple(j, i, c), old(Rows(a)), k), k, k);
  }

  /** What the two matrices hold after a list of row operations on (a, identity). */
  ghost predicate Reached<F>(f: Field<F>, ops: seq<RowOp<F>>, a: Mat<F>, s: Mat<F>, inv: Mat<F>, k: nat) {
    |a| == k && ReachedBy(f, ops, a, s) && ReachedBy(f, ops, Identity(f, k), inv)
  }

  lemma ReachedNext<F(!new)>(f: Field<F>, ops: seq<RowOp<F>>, op: RowOp<F>, a: Mat<F>, s: Mat<F>, inv: Mat<F>, k: nat)
    requires Reached(f, ops, a, s, inv, k) && ValidOp(f, op, k)
    ensures Reached(f, ops + [op], a, ApplyOp(f, op, s, k), ApplyOp(f, op, inv, k), k)
  {
    AppendOp(f, ops, op, a, k);
    AppendOp(f, ops, op, Identity(f, k), k);
  }

  method StoreIdentity<F>(f: Field<F>, inv: array2<F>)
    requires inv.Length0 == inv.Length1
    modifies inv
    ensures Rows(inv) == Identity(f, inv.Length0)
  {
    var k := inv.Length0;
    for i := 0 to k
      invariant forall r, c :: 0 <= r < i && 0 <= c < k ==> inv[r, c] == if r == c then f.one else f.zero
    {
      for j := 0 to k
        invariant forall r, c :: 0 <= r < i && 0 <= c < k ==> inv[r, c] == if r == c then f.one else f.zero
        invariant forall c :: 0 <= c < j ==> inv[i, c] == if i == c then f.one else f.zero
      {
        inv[i, j] := if i == j then f.one else f.zero;
      }
    }
    EqualEntries(Rows(inv), Identity(f, k), k, k);
  }

  /** Put a nonzero pivot on the diagonal of column i, or report that there is none. */
  method FindPivot<F(==,!new)>(f: Field<F>, sq: array2<F>, inv: array2<F>, i: nat,
                               ghost a: Mat<F>, ghost ops: seq<RowOp<F>>)
    returns (ok: bool, ghost ops': seq<RowOp<F>>)
    requires IsField(f) && sq != inv && sq.Length0 == sq.Length1 == inv.Length0 == inv.Length1 && i < sq.Length0
    requires Reached(f, ops, a, Rows(sq), Rows(inv), sq.Length0)
    requires Triangular(f, Rows(sq), i)
    modifies sq, inv
    ensures Reached(f, ops', a, Rows(sq), Rows(inv), sq.Length0)
    ensures Triangular(f, Rows(sq), i)
    ensures ok ==> sq[i, i] != f.zero
    ensures !ok ==> forall r :: i <= r < sq.Length0 ==> sq[r, i] == f.zero
  {
    ops' := ops;
    var k := sq.Length0;
    if sq[i, i] == f.zero {
      var j := i + 1;
      while j < k && sq[j, i] == f.zero
        invariant i < j <= k
        invariant forall r :: i <= r < j ==> sq[r, i] == f.zero
      {
        j := j + 1;
      }
      if j == k {
        return false, ops;
      }
      SwapStep(f, Rows(sq), i, j);
      ReachedNext(f, ops, Swap(i, j), a, Rows(sq), Rows(inv), k);
      SwapRows(f, sq, inv, i, j);
      ops' := ops + [Swap(i, j)];
      assert sq[i, i] == Rows(sq)[i][i];
    }
    ok := true;
  }

  /** Divide row i by its pivot. */
  method NormalisePivot<F(==,!new)>(f: Field<F>, sq: array2<F>, inv: array2<F>, i: nat,
                                    ghost a: Mat<F>, ghost ops: seq<RowOp<F>>)
    returns (ghost ops': seq<RowOp<F>>)
    requires IsField(f) && sq != inv && sq.Length0 == sq.Length1 == inv.Length0 == inv.Length1 && i < sq.Length0
    requires Reached(f, ops, a, Rows(sq), Rows(inv), sq.Length0)
    requires Triangular(f, Rows(sq), i) && sq[i, i] != f.zero
    modifies sq, inv
    ensures Reached(f, ops', a, Rows(sq), Rows(inv), sq.Length0)
    ensures ClearedBelow(f, Rows(sq), i, i + 1)
  {
    ops' := ops;
    var tmp := sq[i, i];
    if tmp != f.one {
      var factor := f.divide(f.one, tmp);
      NormaliseStep(f, Rows(sq), i);
      ReachedNext(f, ops, Scale(i, factor), a, Rows(sq), Rows(inv), sq.Length0);
      ScaleRows(f, sq, inv, i, factor);
      ops' := ops + [Scale(i, factor)];
    }
  }

  /** Clear the column below the pivot. */
  method ClearBelow<F(==,!new)>(f: Field<F>, sq: array2<F>, inv: array2<F>, i: nat,
                                ghost a: Mat<F>, ghost ops: seq<RowOp<F>>)
    returns (ghost ops': seq<RowOp<F>>)
    requires IsField(f) && sq != inv && sq.Length0 == sq.Length1 == inv.Length0 == inv.Length1 && i < sq.Length0
    requires Reached(f, ops, a, Rows(sq), Rows(inv), sq.Length0)
    requires ClearedBelow(f, Rows(sq), i, i + 1)
    modifies sq, inv
    ensures Reached(f, ops', a, Rows(sq), Rows(inv), sq.Length0)
    ensures ClearedBelow(f, Rows(sq), i, sq.Length0)
  {
    ops' := ops;
    for j := i + 1 to sq.Length0
      invariant Reached(f, ops', a, Rows(sq), Rows(inv), sq.Length0)
      invariant ClearedBelow(f, Rows(sq), i, j)
    {
      var c := sq[j, i];
      if c != f.zero {
        EliminateStep(f, Rows(sq), i, j);
        ReachedNext(f, ops', AddMultiple(j, i, c), a, Rows(sq), Rows(inv), sq.Length0);
        AddToRow(f, sq, j, i, c);
        AddToRow(f, inv, j, i, c);
        ops' := ops' + [AddMultiple(j, i, c)];
      }
    }
  }

  /** Clear column i above the diagonal: the inverse gets the whole row operation,
      the square matrix only has its one affected entry zeroed. */
  method ClearAbove<F(==,!new)>(f: Field<F>, sq: array2<F>, inv: array2<F>, i: nat,
                                ghost a: Mat<F>, ghost ops: seq<RowOp<F>>)
    returns (ghost ops': seq<RowOp<F>>)
    requires IsField(f) && sq != inv && sq.Length0 == sq.Length1 == inv.Length0 == inv.Length1 && i < sq.Length0
    requires Reached(f, ops, a, Rows(sq), Rows(inv), sq.Length0)
    requires ClearedRight(f, Rows(sq), i)
    modifies sq, inv
    ensures Reached(f, ops', a, Rows(sq), Rows(inv), sq.Length0)
    ensures ClearedRight(f, Rows(sq), i - 1)
  {
    ops' := ops;
    var k := sq.Length0;
    for j := 0 to i
      invariant Reached(f, ops', a, Rows(sq), Rows(inv), k)
      invariant ClearedAbove(f, Rows(sq), i, j)
    {
      var c := sq[j, i];
      if c != f.zero {
        ghost var s := Rows(sq);
        BackSubstituteStep(f, s, i, j);
        ReachedNext(f, ops', AddMultiple(j, i, c), a, s, Rows(inv), k);
        AddToRow(f, inv, j, i, c);
        sq[j, i] := f.zero;
        EqualEntries(Rows(sq), s[j := s[j][i := f.zero]], k, k);
        ops' := ops' + [AddMultiple(j, i, c)];
      }
    }
  }

  /** Divide row i by its pivot and clear the column below it. */
  method ClearColumn<F(==,!new)>(f: Field<F>, sq: array2<F>, inv: array2<F>, i: nat, ghost a: Mat<F>,
                                 ghost ops: seq<RowOp<F>>)
    returns (ghost ops': seq<RowOp<F>>)
    requires IsField(f) && sq != inv && sq.Length0 == sq.Length1 == inv.Length0 == inv.Length1 && i < sq.Length0
    requires Reached(f, ops, a, Rows(sq), Rows(inv), sq.Length0) && Triangular(f, Rows(sq), i) && sq[i, i] != f.zero
    modifies sq, inv
    ensures Reached(f, ops', a, Rows(sq), Rows(inv), sq.Length0) && Triangular(f, Rows(sq), i + 1)
  {
    ops' := NormalisePivot(f, sq, inv, i, a, ops);
    ops' := ClearBelow(f, sq, inv, i, a, ops');
  }

  /** Make sq upper triangular; fails exactly when a pivot is missing, and then a is singular. */
  method Triangulate<F(==,!new)>(f: Field<F>, sq: array2<F>, inv: array2<F>, ghost a: Mat<F>)
    returns (ok: bool, ghost ops: seq<RowOp<F>>)
    requires IsField(f) && sq != inv && sq.Length0 == sq.Length1 == inv.Length0 == inv.Length1
    requires Rows(sq) == a && Rows(inv) == Identity(f, sq.Length0)
    modifies sq, inv
    ensures ok ==> Reached(f, ops, a, Rows(sq), Rows(inv), sq.Length0) && Triangular(f, Rows(sq), sq.Length0)
    ensures !ok ==> !Invertible(f, a, sq.Length0)
  {
    ops := [];
    for i := 0 to sq.Length0
      invariant Reached(f, ops, a, Rows(sq), Rows(inv), sq.Length0)
      invariant Triangular(f, Rows(sq), i)
    {
      ok, ops := FindPivot(f, sq, inv, i, a, ops);
      if !ok {
        SingularWhenStuck(f, ops, a, Rows(sq), i);
        return;
      }
      ops := ClearColumn(f, sq, inv, i, a, ops);
    }
    ok := true;
  }

  lemma SingularWhenStuck<F(!new)>(f: Field<F>, ops: seq<RowOp<F>>, a: Mat<F>, s: Mat<F>, i: nat)
    requires IsField(f) && ReachedBy(f, ops, a, s) && Triangular(f, s, i) && i < |s|
    requires forall r :: i <= r < |s| ==> s[r][i] == f.zero
    ensures !Invertible(f, a, |a|)
  {
    var v := StuckElimination(f, ops, a, s, i);
    KernelMeansSingular(f, a, v);
  }

  /** Invert sq into inv: succeeds exactly when sq is invertible, and then inv is its two-sided inverse. */
  method SquareMatrixInverting<F(==,!new)>(f: Field<F>, sq: array2<F>, inv: array2<F>) returns (ok: bool)
    requires IsField(f) && sq != inv && sq.Length0 == sq.Length1 == inv.Length0 == inv.Length1
    modifies sq, inv
    ensures ok <==> Invertible(f, old(Rows(sq)), sq.Length0)
    ensures ok ==> Inverses(f, old(Rows(sq)), Rows(inv), sq.Length0)
  {
    var k := sq.Length0;
    ghost var a := Rows(sq);
    StoreIdentity(f, inv);
    ghost var ops;
    ok, ops := Triangulate(f, sq, inv, a);
    if ok {
      for i := k downto 0
        invariant Reached(f, ops, a, Rows(sq), Rows(inv), k)
        invariant ClearedRight(f, Rows(sq), i - 1)
      {
        ops := ClearAbove(f, sq, inv, i, a, ops);
      }
      ClearedIsIdentity(f, Rows(sq));
      OpsGiveInverse(f, ops, a, k);
    }
  }

  // ---------------------------------------------------------------- elimination as an argument

  ghost predicate TrivialKernel<F(!new)>(f: Field<F>, a: Mat<F>)
    requires Shape(a, |a|, |a|)
  {
    forall v :: |v| == |a| && InKernel(f, a, v) ==> v == ZeroRow(f, |a|)
  }

  lemma PivotExists<F(!new)>(f: Field<F>, a: Mat<F>, s: Mat<F>, ops: seq<RowOp<F>>, i: nat) returns (j: nat)
    requires IsField(f) && ReachedBy(f, ops, a, s) && Triangular(f, s, i) && i < |a| && TrivialKernel(f, a)
    ensures i <= j < |a| && s[j][i] != f.zero
  {
    if forall r :: i <= r < |s| ==> s[r][i] == f.zero {
      var v := StuckElimination(f, ops, a, s, i);
      assert false;
    } else {
      j :| i <= j < |a| && s[j][i] != f.zero;
    }
  }

  lemma PivotFound<F(!new)>(f: Field<F>, a: Mat<F>, s: Mat<F>, ops: seq<RowOp<F>>, i: nat, j: nat)
    returns (s': Mat<F>, ops': seq<RowOp<F>>)
    requires ReachedBy(f, ops, a, s) && Triangular(f, s, i) && i <= j < |a| && s[j][i] != f.zero
    ensures ReachedBy(f, ops', a, s') && Triangular(f, s', i) && s'[i][i] != f.zero
  {
    s', ops' := s, ops;
    if i < j {
      SwapStep(f, s, i, j);
      AppendOp(f, ops, Swap(i, j), a, |a|);
      s', ops' := ApplyOp(f, Swap(i, j), s, |a|), ops + [Swap(i, j)];
    }
  }

  lemma ColumnCleared<F(!new)>(f: Field<F>, a: Mat<F>, s: Mat<F>, ops: seq<RowOp<F>>, i: nat)
    returns (s': Mat<F>, ops': seq<RowOp<F>>)
    requires IsField(f) && ReachedBy(f, ops, a, s) && Triangular(f, s, i) && i < |a| && s[i][i] != f.zero
    ensures ReachedBy(f, ops', a, s') && Triangular(f, s', i + 1)
  {
    var op := Scale(i, f.divide(f.one, s[i][i]));
    NormaliseStep(f, s, i);
    AppendOp(f, ops, op, a, |a|);
    s', ops' := ApplyOp(f, op, s, |a|), ops + [op];
    for j := i + 1 to |a|
      invariant ReachedBy(f, ops', a, s') && ClearedBelow(f, s', i, j)
    {
      op := AddMultiple(j, i, s'[j][i]);
      EliminateStep(f, s', i, j);
      AppendOp(f, ops', op, a, |a|);
      s', ops' := ApplyOp(f, op, s', |a|), ops' + [op];
    }
  }

  lemma ColumnSubstituted<F(!new)>(f: Field<F>, a: Mat<F>, s: Mat<F>, ops: seq<RowOp<F>>, i: nat)
    returns (s': Mat<F>, ops': seq<RowOp<F>>)
    requires IsField(f) && ReachedBy(f, ops, a, s) && ClearedRight(f, s, i) && i < |a|
    ensures ReachedBy(f, ops', a, s') && ClearedRight(f, s', i - 1)
  {
    s', ops' := s, ops;
    for j := 0 to i
      invariant ReachedBy(f, ops', a, s') && ClearedAbove(f, s', i, j)
    {
      var op := AddMultiple(j, i, s'[j][i]);
      BackSubstituteStep(f, s', i, j);
      AppendOp(f, ops', op, a, |a|);
      s', ops' := ApplyOp(f, op, s', |a|), ops' + [op];
    }
  }

  /** A square matrix whose kernel holds only the zero vector is invertible. */
  lemma TrivialKernelInvertible<F(!new)>(f: Field<F>, a: Mat<F>)
    requires IsField(f) && Shape(a, |a|, |a|)
    requires TrivialKernel(f, a)
    ensures Invertible(f, a, |a|)
  {
    var s, ops: seq<RowOp<F>> := a, [];
    for i := 0 to |a|
      invariant ReachedBy(f, ops, a, s) && Triangular(f, s, i)
    {
      var j := PivotExists(f, a, s, ops, i);
      s, ops := PivotFound(f, a, s, ops, i, j);
      s, ops := ColumnCleared(f, a, s, ops, i);
    }
    for i := |a| downto 0
      invariant ReachedBy(f, ops, a, s) && ClearedRight(f, s, i - 1)
    {
      s, ops := ColumnSubstituted(f, a, s, ops, i);
    }
    ClearedIsIdentity(f, s);
    OpsGiveInverse(f, ops, a, |a|);
  }
}
