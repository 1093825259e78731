/** Repeated squaring in a commutative ring of characteristic two, and the inverses it gives. */
module Frobenius {
  import opened Fields

  function Sq<F>(f: Field<F>, a: F): F {
    f.mul(a, a)
  }

  /** a^(2^n) */
  function Squares<F>(f: Field<F>, a: F, n: nat): F
  {
    if n == 0 then a else Squares(f, Sq(f, a), n - 1)
  }

  /** a a^2 a^4 ... of n factors: a^(2^n - 1). */
  function Chain<F>(f: Field<F>, a: F, n: nat): F
  {
    if n == 0 then f.one else f.mul(a, Chain(f, Sq(f, a), n - 1))
  }

  lemma SqSum<F(!new)>(f: Field<F>, a: F, b: F)
    requires IsRing(f)
    ensures Sq(f, f.add(a, b)) == f.add(Sq(f, a), Sq(f, b))
  {
    var ab := f.mul(a, b);
    Distr(f, f.add(a, b), a, b);
    Distr(f, a, a, b);
    Distr(f, b, a, b);
    Comm(f, a, b);
    Comm(f, ab, Sq(f, b));
    AddSwap(f, Sq(f, a), ab, Sq(f, b), ab);
    RingUnit(f, ab);
    RingUnit(f, f.add(Sq(f, a), Sq(f, b)));
  }

  lemma SqProduct<F(!new)>(f: Field<F>, a: F, b: F)
    requires IsRing(f)
    ensures Sq(f, f.mul(a, b)) == f.mul(Sq(f, a), Sq(f, b))
  {
    Assoc(f, a, b, f.mul(a, b));
    Assoc(f, b, a, b);
    Comm(f, a, b);
    Assoc(f, a, b, b);
    Assoc(f, a, a, f.mul(b, b));
  }

  lemma {:induction false} SquaresSum<F(!new)>(f: Field<F>, a: F, b: F, n: nat)
    requires IsRing(f)
    ensures Squares(f, f.add(a, b), n) == f.add(Squares(f, a, n), Squares(f, b, n))
    decreases n
  {
    if n > 0 {
      SqSum(f, a, b);
      SquaresSum(f, Sq(f, a), Sq(f, b), n - 1);
    }
  }

  lemma {:induction false} SquaresProduct<F(!new)>(f: Field<F>, a: F, b: F, n: nat)
    requires IsRing(f)
    ensures Squares(f, f.mul(a, b), n) == f.mul(Squares(f, a, n), Squares(f, b, n))
    decreases n
  {
    if n > 0 {
      SqProduct(f, a, b);
      SquaresProduct(f, Sq(f, a), Sq(f, b), n - 1);
    }
  }

  lemma {:induction false} SquaresUnits<F(!new)>(f: Field<F>, n: nat)
    requires IsRing(f)
    ensures Squares(f, f.zero, n) == f.zero && Squares(f, f.one, n) == f.one
  {
    if n > 0 {
      MulZero(f, f.zero);
      RingUnit(f, f.one);
      SquaresUnits(f, n - 1);
    }
  }

  lemma {:induction false} SquareOfChain<F(!new)>(f: Field<F>, a: F, n: nat)
    requires IsRing(f)
    ensures Sq(f, Chain(f, a, n)) == Chain(f, Sq(f, a), n)
    decreases n
  {
    if n == 0 {
      RingUnit(f, f.one);
    } else {
      SqProduct(f, a, Chain(f, Sq(f, a), n - 1));
      SquareOfChain(f, Sq(f, a), n - 1);
    }
  }

  lemma {:induction false} ChainLast<F(!new)>(f: Field<F>, a: F, n: nat)
    requires IsRing(f)
    ensures Chain(f, a, n + 1) == f.mul(Chain(f, a, n), Squares(f, a, n))
    decreases n
  {
    if n == 0 {
      RingUnit(f, a);
    } else {
      ChainLast(f, Sq(f, a), n - 1);
      Assoc(f, a, Chain(f, Sq(f, a), n - 1), Squares(f, Sq(f, a), n - 1));
    }
  }

  lemma {:induction false} ChainTimes<F(!new)>(f: Field<F>, a: F, n: nat)
    requires IsRing(f)
    ensures f.mul(a, Chain(f, a, n)) == Squares(f, a, n)
    decreases n
  {
    if n == 0 {
      RingUnit(f, a);
    } else {
      Assoc(f, a, a, Chain(f, Sq(f, a), n - 1));
      ChainTimes(f, Sq(f, a), n - 1);
    }
  }

  /** If a^(2^(n+1)) is a, and 0 and 1 are the only idempotents, then a^(2^(n+1) - 2) is the inverse of a. */
  lemma ChainInverse<F(!new)>(f: Field<F>, a: F, n: nat)
    requires IsRing(f) && a != f.zero && Squares(f, a, n + 1) == a
    requires Sq(f, Chain(f, a, n + 1)) == Chain(f, a, n + 1) ==> Chain(f, a, n + 1) == f.zero || Chain(f, a, n + 1) == f.one
    ensures f.mul(a, Chain(f, Sq(f, a), n)) == f.one
  {
    SquareOfChain(f, a, n + 1);
    ChainLast(f, Sq(f, a), n);
    Comm(f, Chain(f, Sq(f, a), n), a);
    ChainTimes(f, a, n + 1);
    MulZero(f, a);
  }
}
