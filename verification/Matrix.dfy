/** Matrices over a field as sequences of rows, and the elementary row operations of
    Gauss-Jordan elimination. */
module Matrix {
  import opened GaloisField

  type Mat<F> = seq<seq<F>>

  ghost predicate Shape<F>(a: Mat<F>, rows: nat, cols: nat) {
    |a| == rows && forall i :: 0 <= i < rows ==> |a[i]| == cols
  }

  lemma EqualEntries<F>(a: Mat<F>, b: Mat<F>, rows: nat, cols: nat)
    requires Shape(a, rows, cols) && Shape(b, rows, cols)
    requires forall i, j :: 0 <= i < rows && 0 <= j < cols ==> a[i][j] == b[i][j]
    ensures a == b
  {
    forall i | 0 <= i < rows ensures a[i] == b[i] {
    }
  }

  function ZeroRow<F>(f: Field<F>, n: nat): (r: seq<F>)
    ensures |r| == n && forall i {:trigger r[i]} :: 0 <= i < n ==> r[i] == f.zero
  {
    seq(n, i => f.zero)
  }

  function AddRows<F>(f: Field<F>, u: seq<F>, v: seq<F>): (r: seq<F>)
    requires |u| == |v|
    ensures |r| == |u| && forall i {:trigger r[i]} :: 0 <= i < |u| ==> r[i] == f.add(u[i], v[i])
  {
    seq(|u|, i requires 0 <= i < |u| => f.add(u[i], v[i]))
  }

  function ScaleRow<F>(f: Field<F>, c: F, u: seq<F>): (r: seq<F>)
    ensures |r| == |u| && forall i {:trigger r[i]} :: 0 <= i < |u| ==> r[i] == f.multiply(c, u[i])
  {
    seq(|u|, i requires 0 <= i < |u| => f.multiply(c, u[i]))
  }

  /** The linear combination u[0]*y[0] + u[1]*y[1] + ... of the rows of y. */
  function Combine<F>(f: Field<F>, u: seq<F>, y: Mat<F>, cols: nat): (r: seq<F>)
    requires Shape(y, |u|, cols)
    ensures |r| == cols
  {
    if u == [] then ZeroRow(f, cols) else
      var n := |u| - 1;
      AddRows(f, Combine(f, u[..n], y[..n], cols), ScaleRow(f, u[n], y[n]))
  }

  function Product<F>(f: Field<F>, a: Mat<F>, b: Mat<F>, inner: nat, cols: nat): (r: Mat<F>)
    requires Shape(a, |a|, inner) && Shape(b, inner, cols)
    ensures Shape(r, |a|, cols)
    ensures forall i {:trigger r[i]} :: 0 <= i < |a| ==> r[i] == Combine(f, a[i], b, cols)
  {
    seq(|a|, i requires 0 <= i < |a| => Combine(f, a[i], b, cols))
  }

  function UnitRow<F>(f: Field<F>, n: nat, i: int): (r: seq<F>)
    ensures |r| == n && forall j {:trigger r[j]} :: 0 <= j < n ==> r[j] == if i == j then f.one else f.zero
  {
    seq(n, j => if i == j then f.one else f.zero)
  }

  function Identity<F>(f: Field<F>, n: nat): (r: Mat<F>)
    ensures Shape(r, n, n) && forall i {:trigger r[i]} :: 0 <= i < n ==> r[i] == UnitRow(f, n, i)
  {
    seq(n, i => UnitRow(f, n, i))
  }

  ghost predicate Inverses<F>(f: Field<F>, a: Mat<F>, b: Mat<F>, n: nat) {
    && Shape(a, n, n) && Shape(b, n, n)
    && Product(f, a, b, n, n) == Identity(f, n)
    && Product(f, b, a, n, n) == Identity(f, n)
  }

  ghost predicate Invertible<F(!new)>(f: Field<F>, a: Mat<F>, n: nat) {
    exists b :: Inverses(f, a, b, n)
  }

  // ---------------------------------------------------------------- vector laws

  lemma ZeroRowLaws<F(!new)>(f: Field<F>, u: seq<F>)
    requires IsField(f)
    ensures AddRows(f, ZeroRow(f, |u|), u) == u == AddRows(f, u, ZeroRow(f, |u|))
    ensures ScaleRow(f, f.zero, u) == ZeroRow(f, |u|)
    ensures ScaleRow(f, f.one, u) == u
  {
    forall i | 0 <= i < |u|
      ensures f.add(f.zero, u[i]) == u[i] == f.add(u[i], f.zero)
      ensures f.multiply(f.zero, u[i]) == f.zero && f.multiply(f.one, u[i]) == u[i]
    {
      assert f.AddZero(u[i]) && f.AddCommutes(f.zero, u[i]) && f.MultiplyOne(u[i]);
      MultiplyZero(f, u[i]);
    }
  }

  lemma ScaleZeroRow<F(!new)>(f: Field<F>, c: F, n: nat)
    requires IsField(f)
    ensures ScaleRow(f, c, ZeroRow(f, n)) == ZeroRow(f, n)
  {
    MultiplyZero(f, c);
  }

  lemma ScaleScale<F(!new)>(f: Field<F>, c: F, d: F, u: seq<F>)
    requires IsField(f)
    ensures ScaleRow(f, c, ScaleRow(f, d, u)) == ScaleRow(f, f.multiply(c, d), u)
  {
    forall i | 0 <= i < |u|
      ensures f.multiply(c, f.multiply(d, u[i])) == f.multiply(f.multiply(c, d), u[i])
    {
      assert f.Associates(c, d, u[i]);
    }
  }

  lemma ScaleDistributes<F(!new)>(f: Field<F>, c: F, u: seq<F>, v: seq<F>)
    requires IsField(f) && |u| == |v|
    ensures ScaleRow(f, c, AddRows(f, u, v)) == AddRows(f, ScaleRow(f, c, u), ScaleRow(f, c, v))
  {
    forall i | 0 <= i < |u|
      ensures f.multiply(c, f.add(u[i], v[i])) == f.add(f.multiply(c, u[i]), f.multiply(c, v[i]))
    {
      assert f.Distributes(c, u[i], v[i]);
    }
  }

  lemma ScaleSum<F(!new)>(f: Field<F>, c: F, d: F, u: seq<F>)
    requires IsField(f)
    ensures ScaleRow(f, f.add(c, d), u) == AddRows(f, ScaleRow(f, c, u), ScaleRow(f, d, u))
  {
    forall i | 0 <= i < |u|
      ensures f.multiply(f.add(c, d), u[i]) == f.add(f.multiply(c, u[i]), f.multiply(d, u[i]))
    {
      assert f.Commutes(f.add(c, d), u[i]) && f.Distributes(u[i], c, d) && f.Commutes(c, u[i]) && f.Commutes(d, u[i]);
    }
  }

  lemma AddRowsExchange<F(!new)>(f: Field<F>, a: seq<F>, b: seq<F>, c: seq<F>, d: seq<F>)
    requires IsField(f) && |a| == |b| == |c| == |d|
    ensures AddRows(f, AddRows(f, a, b), AddRows(f, c, d)) == AddRows(f, AddRows(f, a, c), AddRows(f, b, d))
  {
    forall i | 0 <= i < |a|
      ensures f.add(f.add(a[i], b[i]), f.add(c[i], d[i])) == f.add(f.add(a[i], c[i]), f.add(b[i], d[i]))
    {
      AddExchange(f, a[i], b[i], c[i], d[i]);
    }
  }

  lemma AddRowsTwice<F(!new)>(f: Field<F>, u: seq<F>, v: seq<F>)
    requires IsField(f) && |u| == |v|
    ensures AddRows(f, AddRows(f, u, v), v) == u
  {
    forall i | 0 <= i < |u| ensures f.add(f.add(u[i], v[i]), v[i]) == u[i] {
      AddTwice(f, u[i], v[i]);
    }
  }

  // ---------------------------------------------------------------- combinations are linear

  lemma {:induction false} CombineAdd<F(!new)>(f: Field<F>, u: seq<F>, v: seq<F>, y: Mat<F>, cols: nat)
    requires IsField(f) && |u| == |v| && Shape(y, |u|, cols)
    ensures Combine(f, AddRows(f, u, v), y, cols) == AddRows(f, Combine(f, u, y, cols), Combine(f, v, y, cols))
  {
    if u == [] {
      ZeroRowLaws(f, ZeroRow(f, cols));
    } else {
      var n := |u| - 1;
      var u', v', y' := u[..n], v[..n], y[..n];
      assert AddRows(f, u, v)[..n] == AddRows(f, u', v');
      CombineAdd(f, u', v', y', cols);
      ScaleSum(f, u[n], v[n], y[n]);
      AddRowsExchange(f, Combine(f, u', y', cols), Combine(f, v', y', cols),
                      ScaleRow(f, u[n], y[n]), ScaleRow(f, v[n], y[n]));
    }
  }

  lemma {:induction false} CombineScale<F(!new)>(f: Field<F>, c: F, u: seq<F>, y: Mat<F>, cols: nat)
    requires IsField(f) && Shape(y, |u|, cols)
    ensures Combine(f, ScaleRow(f, c, u), y, cols) == ScaleRow(f, c, Combine(f, u, y, cols))
  {
    if u == [] {
      ScaleZeroRow(f, c, cols);
    } else {
      var n := |u| - 1;
      var u', y' := u[..n], y[..n];
      assert ScaleRow(f, c, u)[..n] == ScaleRow(f, c, u');
      CombineScale(f, c, u', y', cols);
      ScaleScale(f, c, u[n], y[n]);
      ScaleDistributes(f, c, Combine(f, u', y', cols), ScaleRow(f, u[n], y[n]));
    }
  }

  lemma {:induction false} CombineZeroRow<F(!new)>(f: Field<F>, y: Mat<F>, cols: nat)
    requires IsField(f) && Shape(y, |y|, cols)
    ensures Combine(f, ZeroRow(f, |y|), y, cols) == ZeroRow(f, cols)
  {
    if y != [] {
      var n := |y| - 1;
      assert ZeroRow(f, |y|)[..n] == ZeroRow(f, n);
      CombineZeroRow(f, y[..n], cols);
      ZeroRowLaws(f, y[n]);
      ZeroRowLaws(f, ZeroRow(f, cols));
    }
  }

  /** Combining combinations is combining with the product. */
  lemma {:induction false} CombineProduct<F(!new)>(f: Field<F>, u: seq<F>, y: Mat<F>, z: Mat<F>, inner: nat, cols: nat)
    requires IsField(f) && Shape(y, |u|, inner) && Shape(z, inner, cols)
    ensures Combine(f, Combine(f, u, y, inner), z, cols) == Combine(f, u, Product(f, y, z, inner, cols), cols)
  {
    if u == [] {
      CombineZeroRow(f, z, cols);
    } else {
      var n := |u| - 1;
      var u', y' := u[..n], y[..n];
      CombineProduct(f, u', y', z, inner, cols);
      assert Product(f, y, z, inner, cols)[..n] == Product(f, y', z, inner, cols);
      CombineAdd(f, Combine(f, u', y', inner), ScaleRow(f, u[n], y[n]), z, cols);
      CombineScale(f, u[n], y[n], z, cols);
    }
  }

  lemma ProductAssociates<F(!new)>(f: Field<F>, a: Mat<F>, b: Mat<F>, c: Mat<F>, p: nat, q: nat, r: nat)
    requires IsField(f) && Shape(a, |a|, p) && Shape(b, p, q) && Shape(c, q, r)
    ensures Product(f, Product(f, a, b, p, q), c, q, r) == Product(f, a, Product(f, b, c, q, r), p, r)
  {
    forall i | 0 <= i < |a|
      ensures Combine(f, Combine(f, a[i], b, q), c, r) == Combine(f, a[i], Product(f, b, c, q, r), r)
    {
      CombineProduct(f, a[i], b, c, q, r);
    }
  }

  lemma {:induction false} CombineUnitRow<F(!new)>(f: Field<F>, i: nat, y: Mat<F>, cols: nat)
    requires IsField(f) && i < |y| && Shape(y, |y|, cols)
    ensures Combine(f, UnitRow(f, |y|, i), y, cols) == y[i]
  {
    var n := |y| - 1;
    var e := UnitRow(f, |y|, i);
    ZeroRowLaws(f, y[n]);
    if i == n {
      assert e[..n] == ZeroRow(f, n);
      CombineZeroRow(f, y[..n], cols);
    } else {
      assert e[..n] == UnitRow(f, n, i);
      CombineUnitRow(f, i, y[..n], cols);
      ZeroRowLaws(f, y[i]);
    }
  }

  lemma ProductIdentity<F(!new)>(f: Field<F>, y: Mat<F>, cols: nat)
    requires IsField(f) && Shape(y, |y|, cols)
    ensures Product(f, Identity(f, |y|), y, |y|, cols) == y
  {
    forall i | 0 <= i < |y| ensures Combine(f, UnitRow(f, |y|, i), y, cols) == y[i] {
      CombineUnitRow(f, i, y, cols);
    }
  }

  // ---------------------------------------------------------------- row operations

  datatype RowOp<F> =
    | Swap(i: nat, j: nat)
    | Scale(i: nat, c: F)
    | AddMultiple(i: nat, j: nat, c: F)   // row i += c * row j

  ghost predicate ValidOp<F>(f: Field<F>, op: RowOp<F>, n: nat) {
    match op
    case Swap(i, j) => i < n && j < n
    case Scale(i, c) => i < n && c != f.zero
    case AddMultiple(i, j, c) => i < n && j < n && i != j
  }

  function ApplyOp<F>(f: Field<F>, op: RowOp<F>, x: Mat<F>, cols: nat): (r: Mat<F>)
    requires Shape(x, |x|, cols) && ValidOp(f, op, |x|)
    ensures Shape(r, |x|, cols)
  {
    match op
    case Swap(i, j) => x[i := x[j]][j := x[i]]
    case Scale(i, c) => x[i := ScaleRow(f, c, x[i])]
    case AddMultiple(i, j, c) => x[i := AddRows(f, x[i], ScaleRow(f, c, x[j]))]
  }

  function UndoOp<F>(f: Field<F>, op: RowOp<F>): RowOp<F>
  {
    match op
    case Swap(i, j) => op
    case Scale(i, c) => Scale(i, f.divide(f.one, c))
    case AddMultiple(i, j, c) => op
  }

  lemma UndoneOp<F(!new)>(f: Field<F>, op: RowOp<F>, x: Mat<F>, cols: nat)
    requires IsField(f) && Shape(x, |x|, cols) && ValidOp(f, op, |x|)
    ensures ValidOp(f, UndoOp(f, op), |x|)
    ensures ApplyOp(f, UndoOp(f, op), ApplyOp(f, op, x, cols), cols) == x
  {
    match op
    case Swap(i, j) =>
    case Scale(i, c) =>
      assert f.Divides(f.one, c);
      MultiplyZero(f, c);
      ScaleScale(f, f.divide(f.one, c), c, x[i]);
      ZeroRowLaws(f, x[i]);
    case AddMultiple(i, j, c) =>
      AddRowsTwice(f, x[i], ScaleRow(f, c, x[j]));
  }

  /** A row operation on the left factor is the same row operation on the product. */
  lemma OpProduct<F(!new)>(f: Field<F>, op: RowOp<F>, x: Mat<F>, y: Mat<F>, inner: nat, cols: nat)
    requires IsField(f) && Shape(x, |x|, inner) && Shape(y, inner, cols) && ValidOp(f, op, |x|)
    ensures Product(f, ApplyOp(f, op, x, inner), y, inner, cols) ==
            ApplyOp(f, op, Product(f, x, y, inner, cols), cols)
  {
    match op
    case Swap(i, j) =>
    case Scale(i, c) =>
      CombineScale(f, c, x[i], y, cols);
    case AddMultiple(i, j, c) =>
      CombineAdd(f, x[i], ScaleRow(f, c, x[j]), y, cols);
      CombineScale(f, c, x[j], y, cols);
  }

  ghost predicate ValidOps<F>(f: Field<F>, ops: seq<RowOp<F>>, n: nat) {
    forall p :: 0 <= p < |ops| ==> ValidOp(f, ops[p], n)
  }

  ghost function ApplyOps<F>(f: Field<F>, ops: seq<RowOp<F>>, x: Mat<F>, cols: nat): (r: Mat<F>)
    requires Shape(x, |x|, cols) && ValidOps(f, ops, |x|)
    ensures Shape(r, |x|, cols)
  {
    if ops == [] then x else
      ApplyOp(f, ops[|ops| - 1], ApplyOps(f, ops[..|ops| - 1], x, cols), cols)
  }

  lemma {:induction false} OpsProduct<F(!new)>(f: Field<F>, ops: seq<RowOp<F>>, x: Mat<F>, y: Mat<F>, inner: nat,
                                               cols: nat)
    requires IsField(f) && Shape(x, |x|, inner) && Shape(y, inner, cols) && ValidOps(f, ops, |x|)
    ensures Product(f, ApplyOps(f, ops, x, inner), y, inner, cols) ==
            ApplyOps(f, ops, Product(f, x, y, inner, cols), cols)
  {
    if ops != [] {
      var n := |ops| - 1;
      OpsProduct(f, ops[..n], x, y, inner, cols);
      OpProduct(f, ops[n], ApplyOps(f, ops[..n], x, inner), y, inner, cols);
    }
  }

  /** Row operations are injective, so equal results have equal arguments. */
  lemma {:induction false} OpsInjective<F(!new)>(f: Field<F>, ops: seq<RowOp<F>>, x: Mat<F>, y: Mat<F>, cols: nat)
    requires IsField(f) && |x| == |y| && Shape(x, |x|, cols) && Shape(y, |y|, cols) && ValidOps(f, ops, |x|)
    requires ApplyOps(f, ops, x, cols) == ApplyOps(f, ops, y, cols)
    ensures x == y
  {
    if ops != [] {
      var n := |ops| - 1;
      UndoneOp(f, ops[n], ApplyOps(f, ops[..n], x, cols), cols);
      UndoneOp(f, ops[n], ApplyOps(f, ops[..n], y, cols), cols);
      OpsInjective(f, ops[..n], x, y, cols);
    }
  }

  /** Operations that turn `a` into the identity turn the identity into the inverse of `a`, on both sides. */
  lemma OpsGiveInverse<F(!new)>(f: Field<F>, ops: seq<RowOp<F>>, a: Mat<F>, n: nat)
    requires IsField(f) && Shape(a, n, n) && ValidOps(f, ops, n)
    requires ApplyOps(f, ops, a, n) == Identity(f, n)
    ensures Inverses(f, a, ApplyOps(f, ops, Identity(f, n), n), n)
  {
    var id := Identity(f, n);
    var b := ApplyOps(f, ops, id, n);
    OpsProduct(f, ops, id, a, n, n);
    ProductIdentity(f, a, n);
    assert Product(f, b, a, n, n) == id;
    // ops turns a*b into ops(a)*b == b == ops(id), and ops is injective
    OpsProduct(f, ops, a, b, n, n);
    ProductIdentity(f, b, n);
    OpsInjective(f, ops, Product(f, a, b, n, n), id, n);
  }

  // ---------------------------------------------------------------- kernels

  function ZeroMatrix<F>(f: Field<F>, rows: nat, cols: nat): (r: Mat<F>)
    ensures Shape(r, rows, cols) && forall i {:trigger r[i]} :: 0 <= i < rows ==> r[i] == ZeroRow(f, cols)
  {
    seq(rows, i => ZeroRow(f, cols))
  }

  function Column<F>(v: seq<F>): (r: Mat<F>)
    ensures Shape(r, |v|, 1) && forall i {:trigger r[i]} :: 0 <= i < |v| ==> r[i] == [v[i]]
  {
    seq(|v|, i requires 0 <= i < |v| => [v[i]])
  }

  /** v is a solution of a * v = 0. */
  ghost predicate InKernel<F>(f: Field<F>, a: Mat<F>, v: seq<F>)
    requires Shape(a, |a|, |v|)
  {
    Product(f, a, Column(v), |v|, 1) == ZeroMatrix(f, |a|, 1)
  }

  lemma {:induction false} OpsKeepZero<F(!new)>(f: Field<F>, ops: seq<RowOp<F>>, n: nat, cols: nat)
    requires IsField(f) && ValidOps(f, ops, n)
    ensures ApplyOps(f, ops, ZeroMatrix(f, n, cols), cols) == ZeroMatrix(f, n, cols)
  {
    if ops != [] {
      OpsKeepZero(f, ops[..|ops| - 1], n, cols);
      var op := ops[|ops| - 1];
      if !op.Swap? { ScaleZeroRow(f, op.c, cols); }
      ZeroRowLaws(f, ZeroRow(f, cols));
    }
  }

  /** Row operations add nothing to the kernel. */
  lemma OpsKeepKernel<F(!new)>(f: Field<F>, ops: seq<RowOp<F>>, a: Mat<F>, v: seq<F>)
    requires IsField(f) && Shape(a, |a|, |v|) && ValidOps(f, ops, |a|)
    requires InKernel(f, ApplyOps(f, ops, a, |v|), v)
    ensures InKernel(f, a, v)
  {
    OpsProduct(f, ops, a, Column(v), |v|, 1);
    OpsKeepZero(f, ops, |a|, 1);
    OpsInjective(f, ops, Product(f, a, Column(v), |v|, 1), ZeroMatrix(f, |a|, 1), 1);
  }

  lemma {:induction false} CombineZeroMatrix<F(!new)>(f: Field<F>, u: seq<F>, cols: nat)
    requires IsField(f)
    ensures Combine(f, u, ZeroMatrix(f, |u|, cols), cols) == ZeroRow(f, cols)
  {
    if u != [] {
      var n := |u| - 1;
      assert ZeroMatrix(f, |u|, cols)[..n] == ZeroMatrix(f, n, cols);
      CombineZeroMatrix(f, u[..n], cols);
      ScaleZeroRow(f, u[n], cols);
      ZeroRowLaws(f, ZeroRow(f, cols));
    }
  }

  /** A matrix with a nonzero vector in its kernel has no inverse. */
  lemma KernelMeansSingular<F(!new)>(f: Field<F>, a: Mat<F>, v: seq<F>)
    requires IsField(f) && Shape(a, |v|, |v|) && InKernel(f, a, v) && v != ZeroRow(f, |v|)
    ensures !Invertible(f, a, |v|)
  {
    forall b | Inverses(f, a, b, |v|) ensures false {
      InvertedKernel(f, a, b, v);
      ZeroColumn(f, v);
    }
  }

  lemma InvertedKernel<F(!new)>(f: Field<F>, a: Mat<F>, b: Mat<F>, v: seq<F>)
    requires IsField(f) && Inverses(f, a, b, |v|) && InKernel(f, a, v)
    ensures Column(v) == ZeroMatrix(f, |v|, 1)
  {
    var n := |v|;
    ProductAssociates(f, b, a, Column(v), n, n, 1);
    ProductIdentity(f, Column(v), 1);
    forall i | 0 <= i < n ensures Combine(f, b[i], ZeroMatrix(f, n, 1), 1) == ZeroRow(f, 1) {
      CombineZeroMatrix(f, b[i], 1);
    }
  }

  lemma ZeroColumn<F>(f: Field<F>, v: seq<F>)
    requires Column(v) == ZeroMatrix(f, |v|, 1)
    ensures v == ZeroRow(f, |v|)
  {
    forall i | 0 <= i < |v| ensures v[i] == f.zero {
      assert v[i] == Column(v)[i][0] == ZeroMatrix(f, |v|, 1)[i][0];
    }
  }

  // ---------------------------------------------------------------- inner products

  function Dot<F>(f: Field<F>, u: seq<F>, v: seq<F>): F
    requires |u| == |v|
  {
    Combine(f, u, Column(v), 1)[0]
  }

  lemma DotStep<F(!new)>(f: Field<F>, u: seq<F>, v: seq<F>)
    requires |u| == |v| > 0
    ensures Dot(f, u, v) == f.add(Dot(f, u[..|u|-1], v[..|u|-1]), f.multiply(u[|u|-1], v[|u|-1]))
  {
    assert Column(v)[..|u|-1] == Column(v[..|u|-1]);
  }

  lemma {:induction false} DotConcat<F(!new)>(f: Field<F>, u: seq<F>, v: seq<F>, u': seq<F>, v': seq<F>)
    requires IsField(f) && |u| == |v| && |u'| == |v'|
    ensures Dot(f, u + u', v + v') == f.add(Dot(f, u, v), Dot(f, u', v'))
  {
    if u' == [] {
      assert u + u' == u && v + v' == v;
      assert f.AddZero(Dot(f, u, v)) && f.AddCommutes(f.zero, Dot(f, u, v));
    } else {
      var n := |u'| - 1;
      DotConcat(f, u, v, u'[..n], v'[..n]);
      DotStep(f, u', v');
      DotStep(f, u + u', v + v');
      assert (u + u')[..|u + u'| - 1] == u + u'[..n] && (v + v')[..|u + u'| - 1] == v + v'[..n];
      assert f.AddAssociates(Dot(f, u, v), Dot(f, u'[..n], v'[..n]), f.multiply(u'[n], v'[n]));
    }
  }

  /** The inner product depends only on the products of corresponding components. */
  lemma {:induction false} DotTermwise<F(!new)>(f: Field<F>, u: seq<F>, v: seq<F>, u': seq<F>, v': seq<F>)
    requires |u| == |v| == |u'| == |v'|
    requires forall i :: 0 <= i < |u| ==> f.multiply(u[i], v[i]) == f.multiply(u'[i], v'[i])
    ensures Dot(f, u, v) == Dot(f, u', v')
  {
    if u != [] {
      var n := |u| - 1;
      DotTermwise(f, u[..n], v[..n], u'[..n], v'[..n]);
      DotStep(f, u, v);
      DotStep(f, u', v');
    }
  }

  lemma DotZero<F(!new)>(f: Field<F>, u: seq<F>, v: seq<F>)
    requires IsField(f) && |u| == |v|
    requires forall i :: 0 <= i < |u| ==> u[i] == f.zero || v[i] == f.zero
    ensures Dot(f, u, v) == f.zero
  {
    var zeros := ZeroRow(f, |u|);
    forall i | 0 <= i < |u| ensures f.multiply(u[i], v[i]) == f.multiply(zeros[i], v[i]) {
      MultiplyZero(f, u[i]);
      MultiplyZero(f, v[i]);
    }
    DotTermwise(f, u, v, zeros, v);
    CombineZeroRow(f, Column(v), 1);
  }

  lemma DotLinear<F(!new)>(f: Field<F>, u: seq<F>, u': seq<F>, c: F, v: seq<F>)
    requires IsField(f) && |u| == |u'| == |v|
    ensures Dot(f, AddRows(f, u, u'), v) == f.add(Dot(f, u, v), Dot(f, u', v))
    ensures Dot(f, ScaleRow(f, c, u), v) == f.multiply(c, Dot(f, u, v))
  {
    CombineAdd(f, u, u', Column(v), 1);
    CombineScale(f, c, u, Column(v), 1);
  }

  lemma KernelByDots<F(!new)>(f: Field<F>, a: Mat<F>, v: seq<F>)
    requires Shape(a, |a|, |v|)
    ensures InKernel(f, a, v) <==> forall r :: 0 <= r < |a| ==> Dot(f, a[r], v) == f.zero
  {
    var p := Product(f, a, Column(v), |v|, 1);
    if forall r :: 0 <= r < |a| ==> Dot(f, a[r], v) == f.zero {
      forall r | 0 <= r < |a| ensures p[r] == ZeroRow(f, 1) {
        assert p[r] == [Dot(f, a[r], v)];
      }
    }
    if InKernel(f, a, v) {
      forall r | 0 <= r < |a| ensures Dot(f, a[r], v) == f.zero {
        assert p[r] == ZeroRow(f, 1);
      }
    }
  }
}
