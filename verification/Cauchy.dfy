/** Square Cauchy systems have only the zero solution.

    This is the algebra behind the code being maximum distance separable: any k rows
    of the distribution matrix are linearly independent. */
module Cauchy {
  import opened GaloisField
  import opened Matrix

  ghost predicate Distinct<T>(s: seq<T>) {
    forall i, j :: 0 <= i < j < |s| ==> s[i] != s[j]
  }

  /** The row 1/(x+y[0]), 1/(x+y[1]), ... */
  function CauchyRow<F>(f: Field<F>, x: F, ys: seq<F>): (r: seq<F>)
    ensures |r| == |ys| && forall j {:trigger r[j]} :: 0 <= j < |ys| ==> r[j] == f.divide(f.one, f.add(x, ys[j]))
  {
    seq(|ys|, j requires 0 <= j < |ys| => f.divide(f.one, f.add(x, ys[j])))
  }

  ghost predicate Separate<F>(f: Field<F>, xs: seq<F>, ys: seq<F>) {
    forall i, j :: 0 <= i < |xs| && 0 <= j < |ys| ==> f.add(xs[i], ys[j]) != f.zero
  }

  function Pointwise<F>(f: Field<F>, u: seq<F>, v: seq<F>): (r: seq<F>)
    requires |u| == |v|
    ensures |r| == |u| && forall j {:trigger r[j]} :: 0 <= j < |u| ==> r[j] == f.multiply(u[j], v[j])
  {
    seq(|u|, j requires 0 <= j < |u| => f.multiply(u[j], v[j]))
  }

  /** 1/p + 1/q == (p+q) * (1/p * 1/q), with p == x+y, q == z+y. */
  lemma SumOfReciprocals<F(!new)>(f: Field<F>, x: F, z: F, y: F)
    requires IsField(f) && f.add(x, y) != f.zero && f.add(z, y) != f.zero
    ensures var p, q := f.divide(f.one, f.add(x, y)), f.divide(f.one, f.add(z, y));
            f.add(p, q) == f.multiply(f.add(x, z), f.multiply(p, q))
  {
    var a, b := f.add(x, y), f.add(z, y);
    var p, q := f.divide(f.one, a), f.divide(f.one, b);
    var pq := f.multiply(p, q);
    // a + b == x + z
    AddExchange(f, x, y, z, y);
    assert f.AddSelf(y) && f.AddCommutes(f.add(x, z), f.zero) && f.AddZero(f.add(x, z));
    assert f.add(a, b) == f.add(x, z);
    // a * pq == q and b * pq == p
    assert f.Divides(f.one, a) && f.Divides(f.one, b) && f.Commutes(p, a) && f.Commutes(q, b);
    assert f.Associates(a, p, q) && f.MultiplyOne(q);
    assert f.Commutes(p, q) && f.Associates(b, q, p) && f.MultiplyOne(p);
    assert f.Commutes(f.add(a, b), pq) && f.Distributes(pq, a, b) && f.Commutes(pq, a) && f.Commutes(pq, b);
    assert f.AddCommutes(p, q);
  }

  /** (y+y0) * (p*q) == p + (z+y0) * (p*q), with q == 1/(z+y). */
  lemma ShiftedReciprocal<F(!new)>(f: Field<F>, z: F, y: F, y0: F, p: F)
    requires IsField(f) && f.add(z, y) != f.zero
    ensures var pq := f.multiply(p, f.divide(f.one, f.add(z, y)));
            f.multiply(f.add(y, y0), pq) == f.add(p, f.multiply(f.add(z, y0), pq))
  {
    var b := f.add(z, y);
    var q := f.divide(f.one, b);
    var pq := f.multiply(p, q);
    // b + (z + y0) == y + y0
    AddExchange(f, z, y, z, y0);
    assert f.AddSelf(z) && f.AddZero(f.add(y, y0));
    // b * pq == p
    assert f.Divides(f.one, b) && f.Commutes(q, b) && f.Commutes(p, q) && f.Associates(b, q, p) && f.MultiplyOne(p);
    var c := f.add(z, y0);
    assert f.Commutes(f.add(b, c), pq) && f.Distributes(pq, b, c) && f.Commutes(pq, b) && f.Commutes(pq, c);
  }

  /** Two Cauchy equations at x and z, with x != z, give one in which y0 no longer occurs. */
  lemma EliminateOne<F(!new)>(f: Field<F>, x: F, z: F, ys: seq<F>, y0: F, vs: seq<F>)
    requires IsField(f) && |ys| == |vs| && f.add(x, z) != f.zero
    requires Separate(f, [x, z], ys)
    requires Dot(f, CauchyRow(f, x, ys), vs) == f.zero == Dot(f, CauchyRow(f, z, ys), vs)
    ensures Dot(f, CauchyRow(f, z, ys),
                   Pointwise(f, seq(|ys|, j requires 0 <= j < |ys| => f.add(ys[j], y0)),
                                Pointwise(f, CauchyRow(f, x, ys), vs))) == f.zero
  {
    var p, q := CauchyRow(f, x, ys), CauchyRow(f, z, ys);
    var pq := Pointwise(f, p, q);
    var d, c := f.add(x, z), f.add(z, y0);
    forall j | 0 <= j < |ys|
      ensures f.add(p[j], q[j]) == f.multiply(d, pq[j])
      ensures f.multiply(f.add(ys[j], y0), pq[j]) == f.add(p[j], f.multiply(c, pq[j]))
    {
      assert [x, z][0] == x && [x, z][1] == z;
      SumOfReciprocals(f, x, z, ys[j]);
      ShiftedReciprocal(f, z, ys[j], y0, p[j]);
    }
    assert AddRows(f, p, q) == ScaleRow(f, d, pq);
    DotLinear(f, p, q, f.one, vs);
    DotLinear(f, pq, pq, d, vs);
    assert f.AddZero(f.zero);
    NoZeroDivisors(f, d, Dot(f, pq, vs));
    assert Dot(f, pq, vs) == f.zero;
    var es := seq(|ys|, j requires 0 <= j < |ys| => f.add(ys[j], y0));
    assert Pointwise(f, es, pq) == AddRows(f, p, ScaleRow(f, c, pq));
    DotLinear(f, p, ScaleRow(f, c, pq), f.one, vs);
    DotLinear(f, pq, pq, c, vs);
    MultiplyZero(f, c);
    assert Dot(f, Pointwise(f, es, pq), vs) == f.zero;
    var us := Pointwise(f, es, Pointwise(f, p, vs));
    forall j | 0 <= j < |ys| ensures f.multiply(q[j], us[j]) == f.multiply(Pointwise(f, es, pq)[j], vs[j]) {
      Regroup(f, es[j], p[j], q[j], vs[j]);
    }
    DotTermwise(f, q, us, Pointwise(f, es, pq), vs);
  }

  lemma Regroup<F(!new)>(f: Field<F>, e: F, p: F, q: F, v: F)
    requires IsField(f)
    ensures f.multiply(q, f.multiply(e, f.multiply(p, v))) == f.multiply(f.multiply(e, f.multiply(p, q)), v)
  {
    var pv := f.multiply(p, v);
    assert f.Commutes(q, f.multiply(e, pv)) && f.Associates(e, pv, q) && f.Commutes(pv, q);
    assert f.Associates(q, p, v) && f.Commutes(q, p) && f.Associates(e, f.multiply(p, q), v);
  }

  /** The unknowns after the last one has been eliminated with the equation at x. */
  ghost function Reduced<F>(f: Field<F>, x: F, ys: seq<F>, vs: seq<F>): (us: seq<F>)
    requires |ys| == |vs| > 0
    ensures |us| == |vs| && forall j {:trigger us[j]} :: 0 <= j < |us| ==>
              us[j] == f.multiply(f.add(ys[j], ys[|ys| - 1]), f.multiply(f.divide(f.one, f.add(x, ys[j])), vs[j]))
  {
    Pointwise(f, seq(|ys|, j requires 0 <= j < |ys| => f.add(ys[j], ys[|ys| - 1])),
              Pointwise(f, CauchyRow(f, x, ys), vs))
  }

  /** A square Cauchy system has only the zero solution. */
  lemma {:induction false} CauchyKernel<F(!new)>(f: Field<F>, xs: seq<F>, ys: seq<F>, vs: seq<F>)
    requires IsField(f) && |xs| == |ys| == |vs|
    requires Distinct(xs) && Distinct(ys) && Separate(f, xs, ys)
    requires forall i :: 0 <= i < |xs| ==> Dot(f, CauchyRow(f, xs[i], ys), vs) == f.zero
    ensures vs == ZeroRow(f, |vs|)
  {
    if xs != [] {
      var n := |xs| - 1;
      var us := Reduced(f, xs[n], ys, vs);
      forall i | 0 <= i < n
        ensures Dot(f, CauchyRow(f, xs[i], ys[..n]), us[..n]) == f.zero
      {
        ReducedEquation(f, xs, ys, vs, i);
      }
      CauchyKernel(f, xs[..n], ys[..n], us[..n]);
      Unreduced(f, xs[n], ys, vs);
    }
  }

  /** Where the reduced unknowns are zero, so are the unknowns. */
  lemma Unreduced<F(!new)>(f: Field<F>, x: F, ys: seq<F>, vs: seq<F>)
    requires IsField(f) && |ys| == |vs| > 0 && Distinct(ys)
    requires forall j :: 0 <= j < |ys| ==> f.add(x, ys[j]) != f.zero
    requires Reduced(f, x, ys, vs)[..|ys| - 1] == ZeroRow(f, |ys| - 1) && Dot(f, CauchyRow(f, x, ys), vs) == f.zero
    ensures vs == ZeroRow(f, |vs|)
  {
    var n, us := |ys| - 1, Reduced(f, x, ys, vs);
    forall j | 0 <= j < n ensures vs[j] == f.zero {
      assert us[j] == us[..n][j] == f.zero;
      CancelFactors(f, x, ys[j], ys[n], vs[j]);
    }
    LastUnknown(f, x, ys, vs);
  }

  lemma ReducedEquation<F(!new)>(f: Field<F>, xs: seq<F>, ys: seq<F>, vs: seq<F>, i: nat)
    requires IsField(f) && |xs| == |ys| == |vs| && i < |xs| - 1
    requires Distinct(xs) && Separate(f, xs, ys)
    requires forall i :: 0 <= i < |xs| ==> Dot(f, CauchyRow(f, xs[i], ys), vs) == f.zero
    ensures var n := |xs| - 1; Dot(f, CauchyRow(f, xs[i], ys[..n]), Reduced(f, xs[n], ys, vs)[..n]) == f.zero
  {
    var n := |xs| - 1;
    var x, z, y := xs[n], xs[i], ys[n];
    if f.add(x, z) == f.zero { AddZeroMeansEqual(f, x, z); }
    EliminateOne(f, x, z, ys, y, vs);
    var es := seq(|ys|, j requires 0 <= j < |ys| => f.add(ys[j], y));
    var us := Pointwise(f, es, Pointwise(f, CauchyRow(f, x, ys), vs));
    DotStep(f, CauchyRow(f, z, ys), us);
    assert CauchyRow(f, z, ys)[..n] == CauchyRow(f, z, ys[..n]);
    // the last unknown has been eliminated: its coefficient y + y is zero
    assert f.AddSelf(y);
    MultiplyZero(f, Pointwise(f, CauchyRow(f, x, ys), vs)[n]);
    MultiplyZero(f, CauchyRow(f, z, ys)[n]);
    var rest := Dot(f, CauchyRow(f, z, ys[..n]), us[..n]);
    assert f.AddCommutes(rest, f.zero) && f.AddZero(rest);
  }

  lemma CancelFactors<F(!new)>(f: Field<F>, x: F, y: F, y0: F, v: F)
    requires IsField(f) && f.add(x, y) != f.zero && y != y0
    requires f.multiply(f.add(y, y0), f.multiply(f.divide(f.one, f.add(x, y)), v)) == f.zero
    ensures v == f.zero
  {
    var p := f.divide(f.one, f.add(x, y));
    if f.add(y, y0) == f.zero { AddZeroMeansEqual(f, y, y0); }
    NoZeroDivisors(f, f.add(y, y0), f.multiply(p, v));
    NoZeroDivisors(f, p, v);
    assert f.Divides(f.one, f.add(x, y));
    MultiplyZero(f, f.add(x, y));
  }

  lemma LastUnknown<F(!new)>(f: Field<F>, x: F, ys: seq<F>, vs: seq<F>)
    requires IsField(f) && |ys| == |vs| > 0
    requires forall j :: 0 <= j < |ys| - 1 ==> vs[j] == f.zero
    requires f.add(x, ys[|ys| - 1]) != f.zero
    requires Dot(f, CauchyRow(f, x, ys), vs) == f.zero
    ensures vs[|vs| - 1] == f.zero
  {
    var n := |ys| - 1;
    var row := CauchyRow(f, x, ys);
    DotStep(f, row, vs);
    DotZero(f, row[..n], vs[..n]);
    assert f.AddZero(f.multiply(row[n], vs[n]));
    NoZeroDivisors(f, row[n], vs[n]);
    assert f.Divides(f.one, f.add(x, ys[n]));
    MultiplyZero(f, f.add(x, ys[n]));
  }
}
