/** Fields of characteristic two, where adding and subtracting are the same.

    The algebra behind crt/nk8.c needs nothing else of GF(2^8). The laws are quantified over a trigger that
    only the lemmas below mention, so that each use of a law is spelled out. */
module Fields {

  datatype Field<!F> = Field(zero: F, one: F, add: (F, F) -> F, mul: (F, F) -> F, inv: F -> F)

  ghost predicate Use1<F>(a: F) { true }
  ghost predicate Use2<F>(a: F, b: F) { true }
  ghost predicate Use3<F>(a: F, b: F, c: F) { true }

  /** A commutative ring with a + a == 0. */
  ghost predicate IsRing<F(!new)>(f: Field<F>) {
    && f.one != f.zero
    && (forall a {:trigger Use1(a)} :: Use1(a) ==>
      f.add(a, f.zero) == a && f.add(a, a) == f.zero && f.mul(a, f.one) == a)
    && (forall a, b {:trigger Use2(a, b)} :: Use2(a, b) ==>
      f.add(a, b) == f.add(b, a) && f.mul(a, b) == f.mul(b, a))
    && (forall a, b, c {:trigger Use3(a, b, c)} :: Use3(a, b, c) ==>
      && f.add(f.add(a, b), c) == f.add(a, f.add(b, c))
      && f.mul(f.mul(a, b), c) == f.mul(a, f.mul(b, c))
      && f.mul(a, f.add(b, c)) == f.add(f.mul(a, b), f.mul(a, c)))
  }

  ghost predicate IsField<F(!new)>(f: Field<F>) {
    && IsRing(f)
    && forall a {:trigger Use1(a)} :: Use1(a) ==> a != f.zero ==> f.mul(a, f.inv(a)) == f.one
  }

  lemma RingUnit<F(!new)>(f: Field<F>, a: F)
    requires IsRing(f)
    ensures f.add(a, f.zero) == a && f.add(f.zero, a) == a && f.add(a, a) == f.zero
    ensures f.mul(a, f.one) == a && f.mul(f.one, a) == a
  {
    assert Use1(a) && Use2(a, f.zero) && Use2(a, f.one);
  }

  lemma Unit<F(!new)>(f: Field<F>, a: F)
    requires IsField(f)
    ensures f.add(a, f.zero) == a && f.add(f.zero, a) == a && f.add(a, a) == f.zero
    ensures f.mul(a, f.one) == a && f.mul(f.one, a) == a
    ensures a != f.zero ==> f.mul(a, f.inv(a)) == f.one && f.mul(f.inv(a), a) == f.one
  {
    RingUnit(f, a);
    assert Use1(a) && Use2(a, f.inv(a));
  }

  lemma Comm<F(!new)>(f: Field<F>, a: F, b: F)
    requires IsRing(f)
    ensures f.add(a, b) == f.add(b, a) && f.mul(a, b) == f.mul(b, a)
  {
    assert Use2(a, b);
  }

  lemma Assoc<F(!new)>(f: Field<F>, a: F, b: F, c: F)
    requires IsRing(f)
    ensures f.add(f.add(a, b), c) == f.add(a, f.add(b, c))
    ensures f.mul(f.mul(a, b), c) == f.mul(a, f.mul(b, c))
  {
    assert Use3(a, b, c);
  }

  lemma Distr<F(!new)>(f: Field<F>, a: F, b: F, c: F)
    requires IsRing(f)
    ensures f.mul(a, f.add(b, c)) == f.add(f.mul(a, b), f.mul(a, c))
    ensures f.mul(f.add(b, c), a) == f.add(f.mul(b, a), f.mul(c, a))
  {
    assert Use3(a, b, c);
    Comm(f, a, f.add(b, c));
    Comm(f, a, b);
    Comm(f, a, c);
  }

  lemma MulZero<F(!new)>(f: Field<F>, a: F)
    requires IsRing(f)
    ensures f.mul(a, f.zero) == f.zero && f.mul(f.zero, a) == f.zero
  {
    RingUnit(f, f.zero);
    Distr(f, a, f.zero, f.zero);
    RingUnit(f, f.mul(a, f.zero));
    Comm(f, a, f.zero);
  }

  lemma NoZeroDivisors<F(!new)>(f: Field<F>, a: F, b: F)
    requires IsField(f) && f.mul(a, b) == f.zero
    ensures a == f.zero || b == f.zero
  {
    if a != f.zero {
      Unit(f, a);
      Unit(f, b);
      Assoc(f, f.inv(a), a, b);
      MulZero(f, f.inv(a));
    }
  }

  /** (a + b) + (c + d) == (a + c) + (b + d) */
  lemma AddSwap<F(!new)>(f: Field<F>, a: F, b: F, c: F, d: F)
    requires IsRing(f)
    ensures f.add(f.add(a, b), f.add(c, d)) == f.add(f.add(a, c), f.add(b, d))
  {
    Assoc(f, a, b, f.add(c, d));
    Assoc(f, b, c, d);
    Comm(f, b, c);
    Assoc(f, c, b, d);
    Assoc(f, a, c, f.add(b, d));
  }

  /** What is added twice cancels. */
  lemma Cancel<F(!new)>(f: Field<F>, a: F, b: F)
    requires IsField(f)
    ensures f.add(f.add(a, b), b) == a
  {
    Assoc(f, a, b, b);
    Unit(f, b);
    Unit(f, a);
  }

  lemma SumZero<F(!new)>(f: Field<F>, a: F, b: F)
    requires IsField(f) && f.add(a, b) == f.zero
    ensures a == b
  {
    Cancel(f, a, b);
    Unit(f, b);
  }

  function Div<F>(f: Field<F>, a: F, b: F): F {
    f.mul(a, f.inv(b))
  }

  lemma DivMul<F(!new)>(f: Field<F>, a: F, b: F)
    requires IsField(f) && b != f.zero
    ensures f.mul(Div(f, a, b), b) == a && f.mul(b, Div(f, a, b)) == a
  {
    Assoc(f, a, f.inv(b), b);
    Unit(f, b);
    Unit(f, a);
    Comm(f, b, Div(f, a, b));
  }
}
