/** The finite field the erasure code computes in.

    The codec obtains GF(256) arithmetic from an external library, so the field is a
    record of its operations together with the laws they must satisfy.  Each law is a
    predicate over the elements it speaks about: asserting `f.Associates(a, b, c)` is
    how a proof asks for one instance of it. */
module GaloisField {

  /** A field of characteristic two: addition is its own inverse. */
  datatype Field<!F> = Field(
    zero: F, one: F,
    add: (F, F) -> F, multiply: (F, F) -> F, divide: (F, F) -> F)
  {
    ghost predicate AddCommutes(a: F, b: F) { add(a, b) == add(b, a) }
    ghost predicate AddAssociates(a: F, b: F, c: F) { add(add(a, b), c) == add(a, add(b, c)) }
    ghost predicate AddZero(a: F) { add(zero, a) == a }
    ghost predicate AddSelf(a: F) { add(a, a) == zero }
    ghost predicate Commutes(a: F, b: F) { multiply(a, b) == multiply(b, a) }
    ghost predicate Associates(a: F, b: F, c: F) {
      multiply(multiply(a, b), c) == multiply(a, multiply(b, c))
    }
    ghost predicate Distributes(a: F, b: F, c: F) {
      multiply(a, add(b, c)) == add(multiply(a, b), multiply(a, c))
    }
    ghost predicate MultiplyOne(a: F) { multiply(one, a) == a }
    ghost predicate Divides(a: F, b: F) { b != zero ==> multiply(divide(a, b), b) == a }
  }

  ghost predicate IsAdditiveGroup<F(!new)>(f: Field<F>) {
    && (forall a, b :: f.AddCommutes(a, b))
    && (forall a, b, c :: f.AddAssociates(a, b, c))
    && (forall a :: f.AddZero(a))
    && (forall a :: f.AddSelf(a))
  }

  ghost predicate IsField<F(!new)>(f: Field<F>) {
    && IsAdditiveGroup(f)
    && (forall a, b :: f.Commutes(a, b))
    && (forall a, b, c :: f.Associates(a, b, c))
    && (forall a, b, c :: f.Distributes(a, b, c))
    && (forall a :: f.MultiplyOne(a))
    && (forall a, b :: f.Divides(a, b))
    && f.zero != f.one
  }

  lemma MultiplyZero<F(!new)>(f: Field<F>, a: F)
    requires IsField(f)
    ensures f.multiply(a, f.zero) == f.zero == f.multiply(f.zero, a)
  {
    assert f.Distributes(a, f.zero, f.zero) && f.Commutes(a, f.zero);
    assert f.AddZero(f.zero) && f.AddSelf(f.multiply(a, f.zero));
  }

  lemma NoZeroDivisors<F(!new)>(f: Field<F>, a: F, b: F)
    requires IsField(f) && f.multiply(a, b) == f.zero
    ensures a == f.zero || b == f.zero
  {
    if b != f.zero {
      var c := f.divide(f.one, b);
      assert f.Divides(f.one, b) && f.Associates(c, b, a) && f.Commutes(a, b) && f.MultiplyOne(a);
      MultiplyZero(f, c);
    }
  }

  /** A sum is zero only when its terms are equal. */
  lemma AddZeroMeansEqual<F(!new)>(f: Field<F>, a: F, b: F)
    requires IsAdditiveGroup(f) && f.add(a, b) == f.zero
    ensures a == b
  {
    assert f.AddAssociates(a, b, b) && f.AddSelf(b) && f.AddZero(b) && f.AddCommutes(a, f.zero) && f.AddZero(a);
  }

  lemma AddExchange<F(!new)>(f: Field<F>, a: F, b: F, c: F, d: F)
    requires IsAdditiveGroup(f)
    ensures f.add(f.add(a, b), f.add(c, d)) == f.add(f.add(a, c), f.add(b, d))
  {
    assert f.AddAssociates(a, b, f.add(c, d)) && f.AddAssociates(b, c, d) && f.AddCommutes(b, c)
        && f.AddAssociates(c, b, d) && f.AddAssociates(a, c, f.add(b, d));
  }

  /** Adding the same element twice changes nothing. */
  lemma AddTwice<F(!new)>(f: Field<F>, a: F, b: F)
    requires IsAdditiveGroup(f)
    ensures f.add(f.add(a, b), b) == a && f.add(b, f.add(b, a)) == a
  {
    assert f.AddAssociates(a, b, b) && f.AddSelf(b) && f.AddCommutes(a, f.zero) && f.AddZero(a);
    assert f.AddAssociates(b, b, a);
  }
}
