/** The distribution matrices of the codec, and why any k of their rows suffice. */
module Distribution {
  import opened GaloisField
  import opened Matrix
  import opened Cauchy
  import opened Inversion

  /** GF(256) as the codec uses it: elements are bytes and addition is exclusive or. */
  function GF256(multiply: (bv8, bv8) -> bv8, divide: (bv8, bv8) -> bv8): (f: Field<bv8>)
  {
    Field(0, 1, (a: bv8, b: bv8) => a ^ b, multiply, divide)
  }

  /** The byte with value i. */
  function Element(i: nat): (r: bv8)
    requires i < 256
  {
    if i == 0 then 0 else Element(i - 1) + 1
  }

  lemma Successor(x: bv8)
    requires x != 255
    ensures (x + 1) as int == x as int + 1
  {
  }

  lemma {:induction false} ElementValue(i: nat)
    requires i < 256
    ensures Element(i) as int == i
  {
    if i > 0 {
      ElementValue(i - 1);
      Successor(Element(i - 1));
    }
  }

  lemma ElementInjective(i: nat, j: nat)
    requires i < 256 && j < 256 && i != j
    ensures Element(i) != Element(j)
  {
    ElementValue(i);
    ElementValue(j);
  }

  /** The field elements numbered first, first+1, ... */
  function Elements(first: nat, count: nat): (r: seq<bv8>)
    requires first + count <= 256
    ensures |r| == count && forall j {:trigger r[j]} :: 0 <= j < count ==> r[j] == Element(first + j)
  {
    seq(count, j requires 0 <= j < count => Element(first + j))
  }

  lemma ElementsSeparate(f: Field<bv8>, m: nat, k: nat)
    requires IsField(f) && m + k <= 256
    ensures Points(f, Elements(0, m), Elements(m, k))
  {
    var xs, ys := Elements(0, m), Elements(m, k);
    forall s, t | 0 <= s < t < m ensures xs[s] != xs[t] {
      ElementInjective(s, t);
    }
    forall s, t | 0 <= s < t < k ensures ys[s] != ys[t] {
      ElementInjective(m + s, m + t);
    }
    forall s, t | 0 <= s < m && 0 <= t < k ensures f.add(xs[s], ys[t]) != f.zero {
      ElementInjective(s, m + t);
      if f.add(xs[s], ys[t]) == f.zero { AddZeroMeansEqual(f, xs[s], ys[t]); }
    }
  }

  // ---------------------------------------------------------------- systematic Cauchy matrix

  /** Row i of the matrix made of the identity followed by the Cauchy rows of the xs. */
  function SystematicRow<F>(f: Field<F>, xs: seq<F>, ys: seq<F>, i: nat): (r: seq<F>)
    requires i < |xs| + |ys|
    ensures |r| == |ys|
  {
    if i < |ys| then UnitRow(f, |ys|, i) else CauchyRow(f, xs[i - |ys|], ys)
  }

  function SystematicOf<F>(f: Field<F>, xs: seq<F>, ys: seq<F>): (r: Mat<F>)
    ensures Shape(r, |xs| + |ys|, |ys|)
    ensures forall i {:trigger r[i]} :: 0 <= i < |r| ==> r[i] == SystematicRow(f, xs, ys, i)
  {
    seq(|xs| + |ys|, i requires 0 <= i < |xs| + |ys| => SystematicRow(f, xs, ys, i))
  }

  /** The n x k distribution matrix, k == n - m, of the codecs based on Reed-Solomon coding. */
  function Systematic(f: Field<bv8>, n: nat, m: nat): (r: Mat<bv8>)
    requires m < n <= 256
    ensures Shape(r, n, n - m)
  {
    SystematicOf(f, Elements(0, m), Elements(m, n - m))
  }

  /** A list of k different share numbers. */
  ghost predicate ShareIDs(ids: seq<nat>, k: nat, n: nat) {
    |ids| == k && Distinct(ids) && forall t :: 0 <= t < k ==> ids[t] < n
  }

  function SelectRows<F>(d: Mat<F>, ids: seq<nat>): (r: Mat<F>)
    requires forall t :: 0 <= t < |ids| ==> ids[t] < |d|
    ensures |r| == |ids| && forall t {:trigger r[t]} :: 0 <= t < |ids| ==> r[t] == d[ids[t]]
  {
    seq(|ids|, t requires 0 <= t < |ids| => d[ids[t]])
  }

  /** Store the rows of the received shares in a square matrix and invert it. */
  method InvertRows(f: Field<bv8>, d: array2<bv8>, ids: seq<nat>, sq: array2<bv8>, inv: array2<bv8>) returns (ok: bool)
    requires IsField(f) && d != sq && d != inv && sq != inv && ShareIDs(ids, d.Length1, d.Length0)
    requires sq.Length0 == sq.Length1 == inv.Length0 == inv.Length1 == d.Length1
    modifies sq, inv
    ensures ok <==> Invertible(f, SelectRows(Rows(d), ids), d.Length1)
    ensures ok ==> Inverses(f, SelectRows(Rows(d), ids), Rows(inv), d.Length1)
  {
    var k := d.Length1;
    ghost var sub := SelectRows(Rows(d), ids);
    for i := 0 to k
      invariant forall r, c :: 0 <= r < i && 0 <= c < k ==> sq[r, c] == sub[r][c]
    {
      for j := 0 to k
        invariant forall r, c :: 0 <= r < i && 0 <= c < k ==> sq[r, c] == sub[r][c]
        invariant forall c :: 0 <= c < j ==> sq[i, c] == sub[i][c]
      {
        sq[i, j] := d[ids[i], j];
        assert Rows(d)[ids[i]][j] == d[ids[i], j];
      }
    }
    EqualEntries(Rows(sq), sub, k, k);
    ok := SquareMatrixInverting(f, sq, inv);
  }

  /** The k rows of the distribution matrix that belong to k shares. */
  function Submatrix(f: Field<bv8>, n: nat, m: nat, ids: seq<nat>): (r: Mat<bv8>)
    requires m < n <= 256 && ShareIDs(ids, n - m, n)
    ensures Shape(r, n - m, n - m)
  {
    SelectRows(Systematic(f, n, m), ids)
  }

  // ---------------------------------------------------------------- counting

  ghost function Elems(s: seq<nat>): set<nat> {
    set x | x in s
  }

  lemma {:induction false} DistinctCount(s: seq<nat>)
    requires Distinct(s)
    ensures |Elems(s)| == |s|
  {
    if s != [] {
      var n := |s| - 1;
      DistinctCount(s[..n]);
      assert s == s[..n] + [s[n]] && s[n] !in s[..n];
      assert Elems(s) == Elems(s[..n]) + {s[n]};
    }
  }

  ghost function Below(ids: seq<nat>, p: nat): set<nat> {
    set x | x in ids && x < p
  }

  /** The components of s below p whose positions are not among the shares. */
  ghost function Missing<F>(s: seq<F>, ids: seq<nat>, p: nat): seq<F>
    requires p <= |s|
  {
    if p == 0 then [] else
      var r := Missing(s, ids, p - 1);
      if p - 1 in ids then r else r + [s[p - 1]]
  }

  lemma {:induction false} MissingCount<F>(s: seq<F>, ids: seq<nat>, p: nat)
    requires p <= |s|
    ensures |Missing(s, ids, p)| + |Below(ids, p)| == p
  {
    if p == 0 {
      assert Below(ids, 0) == {};
    } else {
      MissingCount(s, ids, p - 1);
      assert Below(ids, p) == Below(ids, p - 1) + (if p - 1 in ids then {p - 1} else {});
    }
  }

  /** The shares numbered k and up, in order. */
  ghost function Parity(ids: seq<nat>, k: nat): seq<nat>
  {
    if ids == [] then [] else
      var r := Parity(ids[..|ids| - 1], k);
      var last := ids[|ids| - 1];
      if last < k then r else r + [last]
  }

  lemma {:induction false} ParityElements(ids: seq<nat>, k: nat)
    requires Distinct(ids)
    ensures forall id :: id in Parity(ids, k) <==> id in ids && id >= k
    ensures Distinct(Parity(ids, k))
  {
    if ids != [] {
      var n := |ids| - 1;
      ParityElements(ids[..n], k);
      assert ids == ids[..n] + [ids[n]] && ids[n] !in ids[..n];
    }
  }

  lemma DisjointCount(a: set<nat>, b: set<nat>, c: set<nat>)
    requires c == a + b && a !! b
    ensures |c| == |a| + |b|
  {
  }

  /** As many data positions are missing as there are parity shares to make up for them. */
  lemma MissingMatchesParity<F>(s: seq<F>, ids: seq<nat>)
    requires |ids| == |s| && Distinct(ids)
    ensures |Missing(s, ids, |s|)| == |Parity(ids, |s|)|
  {
    var k := |s|;
    ParityElements(ids, k);
    MissingCount(s, ids, k);
    DistinctCount(ids);
    DistinctCount(Parity(ids, k));
    DisjointCount(Below(ids, k), Elems(Parity(ids, k)), Elems(ids));
  }

  // ---------------------------------------------------------------- any k rows are independent

  /** Different points xs and ys with no x + y equal to zero. */
  ghost predicate Points<F>(f: Field<F>, xs: seq<F>, ys: seq<F>) {
    Distinct(xs) && Distinct(ys) && Separate(f, xs, ys)
  }

  lemma {:induction false} MissingFrom<F>(s: seq<F>, ids: seq<nat>, p: nat)
    requires p <= |s|
    ensures forall y :: y in Missing(s, ids, p) ==> y in s[..p]
    ensures Distinct(s) ==> Distinct(Missing(s, ids, p))
  {
    if p > 0 {
      MissingFrom(s, ids, p - 1);
      assert s[..p] == s[..p - 1] + [s[p - 1]];
      assert Distinct(s) ==> s[p - 1] !in s[..p - 1];
    }
  }

  lemma {:induction false} MissingCauchy<F(!new)>(f: Field<F>, x: F, ys: seq<F>, ids: seq<nat>, p: nat)
    requires p <= |ys|
    ensures Missing(CauchyRow(f, x, ys), ids, p) == CauchyRow(f, x, Missing(ys, ids, p))
  {
    if p > 0 {
      MissingCauchy(f, x, ys, ids, p - 1);
    }
  }

  /** Components known to be zero can be left out of an inner product. */
  lemma {:induction false} DotMissing<F(!new)>(f: Field<F>, row: seq<F>, v: seq<F>, ids: seq<nat>, p: nat)
    requires IsField(f) && p <= |row| == |v|
    requires forall j :: 0 <= j < |v| && j in ids ==> v[j] == f.zero
    ensures |Missing(row, ids, p)| == |Missing(v, ids, p)|
    ensures Dot(f, row[..p], v[..p]) == Dot(f, Missing(row, ids, p), Missing(v, ids, p))
  {
    if p > 0 {
      var mr, mv := Missing(row, ids, p - 1), Missing(v, ids, p - 1);
      DotMissing(f, row, v, ids, p - 1);
      assert row[..p] == row[..p - 1] + [row[p - 1]] && v[..p] == v[..p - 1] + [v[p - 1]];
      DotAppend(f, row[..p - 1], row[p - 1], v[..p - 1], v[p - 1]);
      if p - 1 in ids {
        MultiplyZero(f, row[p - 1]);
        var d := Dot(f, mr, mv);
        assert f.AddCommutes(d, f.zero) && f.AddZero(d);
      } else {
        DotAppend(f, mr, row[p - 1], mv, v[p - 1]);
      }
    }
  }

  lemma DotAppend<F(!new)>(f: Field<F>, u: seq<F>, a: F, v: seq<F>, b: F)
    requires |u| == |v|
    ensures Dot(f, u + [a], v + [b]) == f.add(Dot(f, u, v), f.multiply(a, b))
  {
    DotStep(f, u + [a], v + [b]);
    assert (u + [a])[..|u|] == u && (v + [b])[..|u|] == v;
  }

  /** Missing components that are all zero, and present ones that are zero, are all there is. */
  lemma {:induction false} AllZero<F>(z: F, v: seq<F>, ids: seq<nat>, p: nat)
    requires p <= |v|
    requires forall j :: 0 <= j < p && j in ids ==> v[j] == z
    requires forall j :: 0 <= j < |Missing(v, ids, p)| ==> Missing(v, ids, p)[j] == z
    ensures forall j :: 0 <= j < p ==> v[j] == z
  {
    if p > 0 {
      var r, r' := Missing(v, ids, p), Missing(v, ids, p - 1);
      assert r' == r[..|r'|];
      if p - 1 !in ids { assert r[|r| - 1] == v[p - 1]; }
      AllZero(z, v, ids, p - 1);
    }
  }

  /** A data share in the selection fixes its component. */
  lemma DataShareComponent<F(!new)>(f: Field<F>, v: seq<F>, i: nat)
    requires IsField(f) && i < |v|
    requires Dot(f, UnitRow(f, |v|, i), v) == f.zero
    ensures v[i] == f.zero
  {
    CombineUnitRow(f, i, Column(v), 1);
  }

  ghost predicate Orthogonal<F>(f: Field<F>, xs: seq<F>, ys: seq<F>, id: nat, v: seq<F>)
    requires |v| == |ys|
  {
    id < |xs| + |ys| && Dot(f, SystematicRow(f, xs, ys, id), v) == f.zero
  }

  /** A parity share is an equation between the missing components alone. */
  lemma ParityEquation<F(!new)>(f: Field<F>, xs: seq<F>, ys: seq<F>, ids: seq<nat>, v: seq<F>, id: nat)
    requires IsField(f) && |v| == |ys| && |ys| <= id
    requires forall j :: 0 <= j < |v| && j in ids ==> v[j] == f.zero
    requires Orthogonal(f, xs, ys, id, v)
    ensures |Missing(ys, ids, |ys|)| == |Missing(v, ids, |ys|)|
    ensures Dot(f, CauchyRow(f, xs[id - |ys|], Missing(ys, ids, |ys|)), Missing(v, ids, |ys|)) == f.zero
  {
    var k := |ys|;
    var row := CauchyRow(f, xs[id - k], ys);
    DotMissing(f, row, v, ids, k);
    assert row[..k] == row && v[..k] == v;
    MissingCauchy(f, xs[id - k], ys, ids, k);
  }

  /** The points of the parity shares. */
  ghost function ParityPoints<F>(xs: seq<F>, high: seq<nat>, k: nat): (r: seq<F>)
    requires forall t :: 0 <= t < |high| ==> k <= high[t] < k + |xs|
    ensures |r| == |high| && forall t {:trigger r[t]} :: 0 <= t < |high| ==> r[t] == xs[high[t] - k]
  {
    seq(|high|, t requires 0 <= t < |high| => xs[high[t] - k])
  }

  /** The points of the parity shares and of the missing data shares are again separate. */
  lemma SelectedPoints<F(!new)>(f: Field<F>, xs: seq<F>, ys: seq<F>, high: seq<nat>, ids: seq<nat>)
    requires Points(f, xs, ys) && Distinct(high)
    requires forall t :: 0 <= t < |high| ==> |ys| <= high[t] < |ys| + |xs|
    ensures Points(f, ParityPoints(xs, high, |ys|), Missing(ys, ids, |ys|))
  {
    var k := |ys|;
    var px, py := ParityPoints(xs, high, k), Missing(ys, ids, k);
    MissingFrom(ys, ids, k);
    forall s, t | 0 <= s < t < |px| ensures px[s] != px[t] {
      if high[s] < high[t] {
        assert xs[high[s] - k] != xs[high[t] - k];
      } else {
        assert xs[high[t] - k] != xs[high[s] - k];
      }
    }
    forall s, t | 0 <= s < |px| && 0 <= t < |py| ensures f.add(px[s], py[t]) != f.zero {
      assert py[t] in py;
      var j :| 0 <= j < k && ys[..k][j] == py[t];
      assert f.add(xs[high[s] - k], ys[j]) != f.zero;
    }
  }

  /** The parity shares fix the components of the missing data shares. */
  lemma MissingComponents<F(!new)>(f: Field<F>, xs: seq<F>, ys: seq<F>, ids: seq<nat>, high: seq<nat>, unknown: seq<F>)
    requires IsField(f) && Points(f, xs, ys) && Distinct(high)
    requires |high| == |Missing(ys, ids, |ys|)| == |unknown|
    requires forall t :: 0 <= t < |high| ==> |ys| <= high[t] < |ys| + |xs|
    requires forall t :: 0 <= t < |high| ==>
      Dot(f, CauchyRow(f, xs[high[t] - |ys|], Missing(ys, ids, |ys|)), unknown) == f.zero
    ensures unknown == ZeroRow(f, |unknown|)
  {
    SelectedPoints(f, xs, ys, high, ids);
    CauchyKernel(f, ParityPoints(xs, high, |ys|), Missing(ys, ids, |ys|), unknown);
  }

  /** Only the zero vector is orthogonal to k different rows of the systematic matrix. */
  lemma SystematicKernel<F(!new)>(f: Field<F>, xs: seq<F>, ys: seq<F>, ids: seq<nat>, v: seq<F>)
    requires IsField(f) && Points(f, xs, ys) && ShareIDs(ids, |ys|, |xs| + |ys|) && |v| == |ys|
    requires forall id :: id in ids ==> Orthogonal(f, xs, ys, id, v)
    ensures v == ZeroRow(f, |ys|)
  {
    var k := |ys|;
    forall j | 0 <= j < k && j in ids ensures v[j] == f.zero {
      assert Orthogonal(f, xs, ys, j, v);
      DataShareComponent(f, v, j);
    }
    var high := Parity(ids, k);
    ParityElements(ids, k);
    MissingMatchesParity(ys, ids);
    MissingCount(v, ids, k);
    MissingCount(ys, ids, k);
    var unknown := Missing(v, ids, k);
    forall t | 0 <= t < |high|
      ensures k <= high[t] < k + |xs|
      ensures Dot(f, CauchyRow(f, xs[high[t] - k], Missing(ys, ids, k)), unknown) == f.zero
    {
      assert high[t] in high;
      assert Orthogonal(f, xs, ys, high[t], v);
      ParityEquation(f, xs, ys, ids, v, high[t]);
    }
    MissingComponents(f, xs, ys, ids, high, unknown);
    AllZero(f.zero, v, ids, k);
  }

  lemma SelectedKernel<F(!new)>(f: Field<F>, xs: seq<F>, ys: seq<F>, ids: seq<nat>, v: seq<F>)
    requires IsField(f) && Points(f, xs, ys) && ShareIDs(ids, |ys|, |xs| + |ys|) && |v| == |ys|
    requires InKernel(f, SelectRows(SystematicOf(f, xs, ys), ids), v)
    ensures v == ZeroRow(f, |ys|)
  {
    var a := SelectRows(SystematicOf(f, xs, ys), ids);
    KernelByDots(f, a, v);
    forall id | id in ids ensures Orthogonal(f, xs, ys, id, v) {
      var t :| 0 <= t < |ids| && ids[t] == id;
      assert a[t] == SystematicRow(f, xs, ys, id);
    }
    SystematicKernel(f, xs, ys, ids, v);
  }

  lemma AnyRowsOf<F(!new)>(f: Field<F>, xs: seq<F>, ys: seq<F>, ids: seq<nat>)
    requires IsField(f) && Points(f, xs, ys) && ShareIDs(ids, |ys|, |xs| + |ys|)
    ensures Invertible(f, SelectRows(SystematicOf(f, xs, ys), ids), |ys|)
  {
    var a := SelectRows(SystematicOf(f, xs, ys), ids);
    forall v | |v| == |a| && InKernel(f, a, v) ensures v == ZeroRow(f, |a|) {
      SelectedKernel(f, xs, ys, ids, v);
    }
    TrivialKernelInvertible(f, a);
  }

  /** Any k different rows of the systematic matrix form an invertible matrix. */
  lemma AnyRowsInvertible(f: Field<bv8>, n: nat, m: nat, ids: seq<nat>)
    requires IsField(f) && m < n <= 256 && ShareIDs(ids, n - m, n)
    ensures Invertible(f, Submatrix(f, n, m, ids), n - m)
  {
    ElementsSeparate(f, m, n - m);
    AnyRowsOf(f, Elements(0, m), Elements(m, n - m), ids);
  }

  // ---------------------------------------------------------------- pure Cauchy matrix of CRSSS

  function CauchyOf<F>(f: Field<F>, xs: seq<F>, ys: seq<F>): (r: Mat<F>)
    ensures Shape(r, |xs|, |ys|) && forall i {:trigger r[i]} :: 0 <= i < |xs| ==> r[i] == CauchyRow(f, xs[i], ys)
  {
    seq(|xs|, i requires 0 <= i < |xs| => CauchyRow(f, xs[i], ys))
  }

  /** The n x k distribution matrix of CRSSS. */
  function Dispersed(f: Field<bv8>, n: nat, k: nat): (r: Mat<bv8>)
    requires n + k <= 256
    ensures Shape(r, n, k)
  {
    CauchyOf(f, Elements(0, n), Elements(n, k))
  }

  lemma CauchyRowsKernel<F(!new)>(f: Field<F>, xs: seq<F>, ys: seq<F>, ids: seq<nat>, v: seq<F>)
    requires IsField(f) && Points(f, xs, ys) && ShareIDs(ids, |ys|, |xs|) && |v| == |ys|
    requires InKernel(f, SelectRows(CauchyOf(f, xs, ys), ids), v)
    ensures v == ZeroRow(f, |ys|)
  {
    var a := SelectRows(CauchyOf(f, xs, ys), ids);
    KernelByDots(f, a, v);
    var px := seq(|ids|, t requires 0 <= t < |ids| => xs[ids[t]]);
    forall s, t | 0 <= s < t < |px| ensures px[s] != px[t] {
      if ids[s] < ids[t] { assert xs[ids[s]] != xs[ids[t]]; } else { assert xs[ids[t]] != xs[ids[s]]; }
    }
    forall t | 0 <= t < |px| ensures Dot(f, CauchyRow(f, px[t], ys), v) == f.zero {
      assert a[t] == CauchyRow(f, px[t], ys);
    }
    CauchyKernel(f, px, ys, v);
  }

  lemma AnyCauchyRowsOf<F(!new)>(f: Field<F>, xs: seq<F>, ys: seq<F>, ids: seq<nat>)
    requires IsField(f) && Points(f, xs, ys) && ShareIDs(ids, |ys|, |xs|)
    ensures Invertible(f, SelectRows(CauchyOf(f, xs, ys), ids), |ys|)
  {
    var a := SelectRows(CauchyOf(f, xs, ys), ids);
    forall v | |v| == |a| && InKernel(f, a, v) ensures v == ZeroRow(f, |a|) {
      CauchyRowsKernel(f, xs, ys, ids, v);
    }
    TrivialKernelInvertible(f, a);
  }

  /** Any k different rows of the Cauchy matrix form an invertible matrix. */
  lemma AnyDispersedRowsInvertible(f: Field<bv8>, n: nat, k: nat, ids: seq<nat>)
    requires IsField(f) && n + k <= 256 && ShareIDs(ids, k, n)
    ensures Invertible(f, SelectRows(Dispersed(f, n, k), ids), k)
  {
    ElementsSeparate(f, n, k);
    AnyCauchyRowsOf(f, Elements(0, n), Elements(n, k), ids);
  }
}
