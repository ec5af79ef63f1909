/** Facts about products and quotients. */
module Arithmetic {
  lemma Distribute(a: int, b: int, c: int)
    ensures a * (b + c) == a * b + a * c
  {
  }

  lemma ScaleMonotone(size: nat, a: nat, b: nat)
    requires a <= b
    ensures size * a <= size * b
  {
    Distribute(size, a, b - a);
  }

  lemma MultiplyAssociates(a: int, b: int, c: int)
    ensures (a * b) * c == a * (b * c)
  {
  }

  lemma DivideExact(d: nat, x: nat)
    requires d > 0
    ensures (d * x) / d == x && (d * x) % d == 0
  {
    QuotientUnique(d, d * x, x, 0);
  }

  lemma DivideBound(d: nat, x: nat, y: nat)
    requires d > 0 && d * x <= y
    ensures x <= y / d
  {
    var q := y / d;
    Distribute(d, q, 1);
    if x > q {
      ScaleMonotone(d, q + 1, x);
      assert false;
    }
  }

  lemma DivideShift(d: nat, x: nat, y: nat)
    requires d > 0
    ensures (x + d * y) / d == x / d + y
  {
    var q, r := x / d, x % d;
    Distribute(d, q, y);
    QuotientUnique(d, x + d * y, q + y, r);
  }

  lemma QuotientUnique(d: nat, x: nat, q: nat, r: nat)
    requires d > 0 && x == d * q + r && r < d
    ensures x / d == q
  {
    var p := x / d;
    Distribute(d, p, 1);
    Distribute(d, q, 1);
    if p < q {
      ScaleMonotone(d, p + 1, q);
      assert false;
    }
    if p > q {
      ScaleMonotone(d, q + 1, p);
      assert false;
    }
  }

  lemma RemainderOf(q: nat, d: nat, r: nat)
    requires r < d
    ensures (d * q + r) % d == r
  {
    QuotientUnique(d, d * q + r, q, r);
  }
}
