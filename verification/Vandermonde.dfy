/** Polynomials over a field, and the pivots of the matrix that nk8_assemble_block inverts (crt/nk8.c). */
module Vandermonde {
  import opened Fields
  import opened Linear
  import opened Elimination

  // ---------------------------------------------------------------- polynomials

  /** A polynomial is the sequence of its coefficients, the constant one first. */
  type Poly<F> = seq<F>

  function Eval<F>(f: Field<F>, p: Poly<F>, x: F): F {
    if p == [] then f.zero else f.add(p[0], f.mul(x, Eval(f, p[1..], x)))
  }

  ghost predicate Monic<F>(f: Field<F>, p: Poly<F>, degree: nat) {
    |p| == degree + 1 && p[degree] == f.one
  }

  /** p plus c times the shorter s. */
  function AddLow<F>(f: Field<F>, p: Poly<F>, c: F, s: Poly<F>): (r: Poly<F>)
    requires |s| <= |p|
    ensures |r| == |p| && forall i :: |s| <= i < |p| ==> r[i] == p[i]
  {
    seq(|p|, i requires 0 <= i < |p| => if i < |s| then f.add(p[i], f.mul(c, s[i])) else p[i])
  }

  lemma {:induction false} EvalAddLow<F(!new)>(f: Field<F>, p: Poly<F>, c: F, s: Poly<F>, x: F)
    requires IsField(f) && |s| <= |p|
    ensures Eval(f, AddLow(f, p, c, s), x) == f.add(Eval(f, p, x), f.mul(c, Eval(f, s, x)))
  {
    var r := AddLow(f, p, c, s);
    if s == [] {
      assert r == p;
      MulZero(f, c);
      Unit(f, Eval(f, p, x));
    } else {
      EvalAddLow(f, p[1..], c, s[1..], x);
      assert r[1..] == AddLow(f, p[1..], c, s[1..]);
      var u, v := Eval(f, p[1..], x), Eval(f, s[1..], x);
      Distr(f, x, u, f.mul(c, v));
      Assoc(f, x, c, v);
      Comm(f, x, c);
      Assoc(f, c, x, v);
      AddSwap(f, p[0], f.mul(c, s[0]), f.mul(x, u), f.mul(c, f.mul(x, v)));
      Distr(f, c, s[0], f.mul(x, v));
    }
  }

  /** Division by x + a. */
  function Quotient<F>(f: Field<F>, p: Poly<F>, a: F): (q: Poly<F>)
    requires p != []
    ensures |q| == |p| - 1
  {
    if |p| == 1 then [] else [Eval(f, p[1..], a)] + Quotient(f, p[1..], a)
  }

  lemma {:induction false} QuotientMonic<F(!new)>(f: Field<F>, p: Poly<F>, a: F, degree: nat)
    requires IsField(f) && Monic(f, p, degree) && degree > 0
    ensures Monic(f, Quotient(f, p, a), degree - 1)
  {
    if degree == 1 {
      assert p[1..] == [f.one];
      assert Eval(f, p[1..], a) == f.add(f.one, f.mul(a, Eval(f, [], a)));
      MulZero(f, a);
      Unit(f, f.one);
    } else {
      QuotientMonic(f, p[1..], a, degree - 1);
    }
  }

  /** x (x + a) q + x b = (x + a) (b + x q) + a b */
  lemma Regroup<F(!new)>(f: Field<F>, x: F, a: F, q: F, b: F)
    requires IsField(f)
    ensures f.mul(x, f.add(f.mul(f.add(x, a), q), b))
      == f.add(f.mul(f.add(x, a), f.add(b, f.mul(x, q))), f.mul(a, b))
  {
    var w := f.add(x, a);
    Distr(f, x, f.mul(w, q), b);
    Assoc(f, x, w, q);
    Comm(f, x, w);
    Assoc(f, w, x, q);
    var t := f.mul(w, f.mul(x, q));
    assert f.mul(x, f.add(f.mul(w, q), b)) == f.add(t, f.mul(x, b));
    Distr(f, w, b, f.mul(x, q));
    Distr(f, b, x, a);
    Comm(f, f.mul(w, b), t);
    Assoc(f, t, f.mul(w, b), f.mul(a, b));
    Cancel(f, f.mul(x, b), f.mul(a, b));
  }

  lemma {:induction false} EvalQuotient<F(!new)>(f: Field<F>, p: Poly<F>, a: F, x: F)
    requires IsField(f) && p != []
    ensures Eval(f, p, x) == f.add(f.mul(f.add(x, a), Eval(f, Quotient(f, p, a), x)), Eval(f, p, a))
  {
    var w := f.add(x, a);
    if |p| == 1 {
      assert p[1..] == [] && Eval(f, p[1..], x) == Eval(f, p[1..], a) == f.zero;
      MulZero(f, x);
      MulZero(f, a);
      MulZero(f, w);
      Unit(f, Eval(f, p, a));
    } else {
      EvalQuotient(f, p[1..], a, x);
      var q, b := Eval(f, Quotient(f, p[1..], a), x), Eval(f, p[1..], a);
      assert Quotient(f, p, a)[1..] == Quotient(f, p[1..], a);
      Regroup(f, x, a, q, b);
      var m, n := f.mul(w, f.add(b, f.mul(x, q))), f.mul(a, b);
      Comm(f, p[0], f.add(m, n));
      Assoc(f, m, n, p[0]);
      Comm(f, n, p[0]);
    }
  }

  ghost predicate Distinct<F>(xs: seq<F>) {
    forall i, j :: 0 <= i < j < |xs| ==> xs[i] != xs[j]
  }

  /** A monic polynomial has no more roots than its degree. */
  lemma {:induction false} RootBound<F(!new)>(f: Field<F>, p: Poly<F>, degree: nat, xs: seq<F>)
    requires IsField(f) && Monic(f, p, degree) && Distinct(xs)
    requires forall i :: 0 <= i < |xs| ==> Eval(f, p, xs[i]) == f.zero
    ensures |xs| <= degree
    decreases degree
  {
    if |xs| > 0 {
      var n := |xs| - 1;
      var a := xs[n];
      if degree == 0 {
        ConstantOne(f, p, a);
      } else {
        var q := Quotient(f, p, a);
        QuotientMonic(f, p, a, degree);
        forall i | 0 <= i < n
          ensures Eval(f, q, xs[i]) == f.zero
        {
          RootOfQuotient(f, p, a, xs[i]);
        }
        RootBound(f, q, degree - 1, xs[..n]);
      }
    }
  }

  lemma ConstantOne<F(!new)>(f: Field<F>, p: Poly<F>, a: F)
    requires IsField(f) && Monic(f, p, 0)
    ensures Eval(f, p, a) == f.one
  {
    assert p[1..] == [];
    MulZero(f, a);
    Unit(f, f.one);
  }

  lemma RootOfQuotient<F(!new)>(f: Field<F>, p: Poly<F>, a: F, x: F)
    requires IsField(f) && p != [] && x != a && Eval(f, p, a) == Eval(f, p, x) == f.zero
    ensures Eval(f, Quotient(f, p, a), x) == f.zero
  {
    EvalQuotient(f, p, a, x);
    var w, q := f.add(x, a), Eval(f, Quotient(f, p, a), x);
    Unit(f, f.mul(w, q));
    NoZeroDivisors(f, w, q);
    if w == f.zero {
      SumZero(f, x, a);
    }
  }

  // ---------------------------------------------------------------- powers of the identifiers

  function Pow<F>(f: Field<F>, x: F, e: nat): F {
    if e == 0 then f.one else f.mul(Pow(f, x, e - 1), x)
  }

  function Monomial<F>(f: Field<F>, degree: nat): (p: Poly<F>)
    ensures Monic(f, p, degree)
  {
    Zeros(f, degree) + [f.one]
  }

  lemma {:induction false} EvalMonomial<F(!new)>(f: Field<F>, degree: nat, x: F)
    requires IsField(f)
    ensures Eval(f, Monomial(f, degree), x) == Pow(f, x, degree)
  {
    if degree == 0 {
      ConstantOne(f, Monomial(f, 0), x);
    } else {
      EvalMonomial(f, degree - 1, x);
      assert Monomial(f, degree)[1..] == Monomial(f, degree - 1);
      Comm(f, x, Pow(f, x, degree - 1));
      Unit(f, Pow(f, x, degree));
    }
  }

  /** Row m holds the m-th powers of the identifiers. */
  function Powers<F>(f: Field<F>, xs: seq<F>): (V: Mat<F>)
    ensures Shape(V, |xs|, |xs|)
    ensures forall m, i :: 0 <= m < |xs| && 0 <= i < |xs| ==> V[m][i] == Pow(f, xs[i], m)
  {
    seq(|xs|, m requires 0 <= m < |xs| => seq(|xs|, i requires 0 <= i < |xs| => Pow(f, xs[i], m)))
  }

  // ---------------------------------------------------------------- its pivots

  /** Row r of A is the values of a monic polynomial of degree r, with the first i identifiers among its roots from
      row i on. */
  ghost predicate RowOf<F>(f: Field<F>, row: Vec<F>, xs: seq<F>, r: nat, i: nat, p: Poly<F>) {
    && |row| == |xs| && i <= |xs| && Monic(f, p, r)
    && (forall c :: 0 <= c < |xs| ==> row[c] == Eval(f, p, xs[c]))
    && (r >= i ==> forall c :: 0 <= c < i ==> row[c] == f.zero)
  }

  lemma PivotNonzero<F(!new)>(f: Field<F>, row: Vec<F>, xs: seq<F>, i: nat, p: Poly<F>)
    requires IsField(f) && Distinct(xs) && i < |xs| && RowOf(f, row, xs, i, i, p)
    ensures row[i] != f.zero
  {
    if row[i] == f.zero {
      RootBound(f, p, i, xs[..i + 1]);
    }
  }

  lemma RowStep<F(!new)>(f: Field<F>, u: Vec<F>, v: Vec<F>, xs: seq<F>, r: nat, i: nat, p: Poly<F>, s: Poly<F>)
    returns (q: Poly<F>)
    requires IsField(f) && i < r < |xs| && RowOf(f, u, xs, r, i, p) && RowOf(f, v, xs, i, i, s) && v[i] != f.zero
    ensures RowOf(f, VAdd(f, u, VScale(f, Quot(f, u[i], v[i]), v)), xs, r, i + 1, q)
  {
    var c := Quot(f, u[i], v[i]);
    var w := VAdd(f, u, VScale(f, c, v));
    q := AddLow(f, p, c, s);
    forall k | 0 <= k < |xs|
      ensures w[k] == Eval(f, q, xs[k])
    {
      EvalAddLow(f, p, c, s, xs[k]);
    }
    DivMul(f, u[i], v[i]);
    Unit(f, u[i]);
    MulZero(f, c);
    Unit(f, f.zero);
  }

  ghost predicate SomeRow<F(!new)>(f: Field<F>, row: Vec<F>, xs: seq<F>, r: nat, i: nat) {
    exists p :: RowOf(f, row, xs, r, i, p)
  }

  lemma RowCleared<F(!new)>(f: Field<F>, A: Mat<F>, xs: seq<F>, i: nat, r: nat)
    requires IsField(f) && Shape(A, |xs|, |xs|) && i < |xs| && r < |xs| && A[i][i] != f.zero
    requires SomeRow(f, A[r], xs, r, i) && SomeRow(f, A[i], xs, i, i)
    ensures SomeRow(f, Clear(f, A, |xs|, i, |xs|)[r], xs, r, i + 1)
  {
    var p :| RowOf(f, A[r], xs, r, i, p);
    if r > i {
      var s :| RowOf(f, A[i], xs, i, i, s);
      var q := RowStep(f, A[r], A[i], xs, r, i, p, s);
    } else {
      assert RowOf(f, A[r], xs, r, i + 1, p);
    }
  }

  lemma {:induction false} PowersFrom<F(!new)>(f: Field<F>, A: Mat<F>, xs: seq<F>, i: nat)
    requires IsField(f) && Distinct(xs) && i <= |xs| && Shape(A, |xs|, |xs|)
    requires forall r :: 0 <= r < |xs| ==> SomeRow(f, A[r], xs, r, i)
    ensures PivotsFrom(f, A, |xs|, i)
    decreases |xs| - i
  {
    if i < |xs| {
      assert SomeRow(f, A[i], xs, i, i);
      var p :| RowOf(f, A[i], xs, i, i, p);
      PivotNonzero(f, A[i], xs, i, p);
      var B := Clear(f, A, |xs|, i, |xs|);
      forall r | 0 <= r < |xs|
        ensures SomeRow(f, B[r], xs, r, i + 1)
      {
        RowCleared(f, A, xs, i, r);
      }
      PowersFrom(f, B, xs, i + 1);
    }
  }

  /** Distinct identifiers are all that gf_inverse_matrix needs to succeed on the matrix of their powers. */
  lemma PowersPivots<F(!new)>(f: Field<F>, xs: seq<F>)
    requires IsField(f) && Distinct(xs)
    ensures NonzeroPivots(f, Powers(f, xs), |xs|)
  {
    var V := Powers(f, xs);
    forall r | 0 <= r < |xs|
      ensures SomeRow(f, V[r], xs, r, 0)
    {
      forall c | 0 <= c < |xs|
        ensures V[r][c] == Eval(f, Monomial(f, r), xs[c])
      {
        EvalMonomial(f, r, xs[c]);
      }
      assert RowOf(f, V[r], xs, r, 0, Monomial(f, r));
    }
    PowersFrom(f, V, xs, 0);
  }

  // ---------------------------------------------------------------- data bytes and part bytes

  lemma {:induction false} EvalAppend<F(!new)>(f: Field<F>, p: Poly<F>, c: F, x: F)
    requires IsField(f)
    ensures Eval(f, p + [c], x) == f.add(Eval(f, p, x), f.mul(Pow(f, x, |p|), c))
  {
    if p == [] {
      assert (p + [c])[1..] == [];
      MulZero(f, x);
      Unit(f, c);
    } else {
      EvalAppend(f, p[1..], c, x);
      assert (p + [c])[1..] == p[1..] + [c];
      var e := Pow(f, x, |p| - 1);
      Distr(f, x, Eval(f, p[1..], x), f.mul(e, c));
      Assoc(f, x, e, c);
      Comm(f, x, e);
      Assoc(f, p[0], f.mul(x, Eval(f, p[1..], x)), f.mul(Pow(f, x, |p|), c));
    }
  }

  lemma EvalNothing<F(!new)>(f: Field<F>, d: Vec<F>, x: F)
    requires |d| == 0
    ensures Eval(f, d, x) == f.zero
  {
  }

  /** The bytes that the parts xs hold for the data d. */
  lemma {:induction false} PartsAreValues<F(!new)>(f: Field<F>, d: Vec<F>, A: Mat<F>, xs: seq<F>, i: nat)
    requires IsField(f) && Shape(A, |d|, |xs|) && i < |xs|
    requires forall m :: 0 <= m < |d| ==> A[m][i] == Pow(f, xs[i], m)
    ensures LinComb(f, d, A, |xs|)[i] == Eval(f, d, xs[i])
  {
    hide IsRing, Pow, Eval;
    if |d| == 0 {
      EvalNothing(f, d, xs[i]);
    } else {
      var n := |d| - 1;
      PartsAreValues(f, d[..n], A[..n], xs, i);
      EvalAppend(f, d[..n], d[n], xs[i]);
      assert d == d[..n] + [d[n]];
      Comm(f, d[n], A[n][i]);
    }
  }

  /** The inverse of the matrix of powers gets the data back from the parts. */
  lemma DataFromParts<F(!new)>(f: Field<F>, d: Vec<F>, s: Vec<F>, xs: seq<F>, R: Mat<F>)
    requires IsField(f) && |d| == |s| == |xs| && Shape(R, |xs|, |xs|)
    requires forall i :: 0 <= i < |xs| ==> s[i] == Eval(f, d, xs[i])
    requires Product(f, Powers(f, xs), R, |xs|) == Identity(f, |xs|)
    ensures LinComb(f, s, R, |xs|) == d
  {
    var V := Powers(f, xs);
    forall i | 0 <= i < |xs|
      ensures LinComb(f, d, V, |xs|)[i] == s[i]
    {
      PartsAreValues(f, d, V, xs, i);
    }
    assert LinComb(f, d, V, |xs|) == s;
    LinCombAssoc(f, d, V, R, |xs|);
    LinCombIdentity(f, d);
  }

  // ---------------------------------------------------------------- fewer parts are not enough

  /** The monic polynomial whose roots are xs. */
  function WithRoots<F>(f: Field<F>, xs: seq<F>): (p: Poly<F>)
    ensures |p| == |xs| + 1
  {
    if xs == [] then [f.one] else
      var q := WithRoots(f, xs[1..]);
      AddLow(f, [f.zero] + q, xs[0], q)
  }

  lemma {:induction false} WithRootsMonic<F(!new)>(f: Field<F>, xs: seq<F>)
    ensures Monic(f, WithRoots(f, xs), |xs|)
  {
    if xs != [] {
      WithRootsMonic(f, xs[1..]);
    }
  }

  lemma {:induction false} WithRootsEval<F(!new)>(f: Field<F>, xs: seq<F>, i: nat)
    requires IsField(f) && i < |xs|
    ensures Eval(f, WithRoots(f, xs), xs[i]) == f.zero
  {
    var q := WithRoots(f, xs[1..]);
    var v := Eval(f, q, xs[i]);
    EvalAddLow(f, [f.zero] + q, xs[0], q, xs[i]);
    assert ([f.zero] + q)[1..] == q;
    Unit(f, f.mul(xs[i], v));
    if i > 0 {
      WithRootsEval(f, xs[1..], i - 1);
      MulZero(f, xs[i]);
      MulZero(f, xs[0]);
      Unit(f, f.zero);
    }
  }
}
