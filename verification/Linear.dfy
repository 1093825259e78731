/** Vectors and matrices over a field. A matrix is the sequence of its rows. */
module Linear {
  import opened Fields

  type Vec<F> = seq<F>
  type Mat<F> = seq<seq<F>>

  ghost predicate Shape<F>(A: Mat<F>, rows: nat, cols: nat) {
    |A| == rows && forall i :: 0 <= i < rows ==> |A[i]| == cols
  }

  function Zeros<F>(f: Field<F>, n: nat): (r: Vec<F>)
    ensures |r| == n && forall i :: 0 <= i < n ==> r[i] == f.zero
  {
    seq(n, _ => f.zero)
  }

  function VAdd<F>(f: Field<F>, a: Vec<F>, b: Vec<F>): (r: Vec<F>)
    requires |a| == |b|
    ensures |r| == |a| && forall i :: 0 <= i < |a| ==> r[i] == f.add(a[i], b[i])
  {
    seq(|a|, i requires 0 <= i < |a| => f.add(a[i], b[i]))
  }

  function VScale<F>(f: Field<F>, c: F, a: Vec<F>): (r: Vec<F>)
    ensures |r| == |a| && forall i :: 0 <= i < |a| ==> r[i] == f.mul(c, a[i])
  {
    seq(|a|, i requires 0 <= i < |a| => f.mul(c, a[i]))
  }

  /** The row vector p times the matrix A: the sum of p[i] times row i. */
  function LinComb<F>(f: Field<F>, p: Vec<F>, A: Mat<F>, cols: nat): (r: Vec<F>)
    requires Shape(A, |p|, cols)
    ensures |r| == cols
  {
    if |p| == 0 then Zeros(f, cols)
    else
      var n := |p| - 1;
      VAdd(f, LinComb(f, p[..n], A[..n], cols), VScale(f, p[n], A[n]))
  }

  /** e_i, of length n. */
  function Basis<F>(f: Field<F>, n: nat, i: nat): (r: Vec<F>)
    ensures |r| == n && forall j :: 0 <= j < n ==> r[j] == if j == i then f.one else f.zero
  {
    seq(n, j => if j == i then f.one else f.zero)
  }

  function Identity<F>(f: Field<F>, n: nat): (r: Mat<F>)
    ensures |r| == n && forall i :: 0 <= i < n ==> r[i] == Basis(f, n, i)
  {
    seq(n, i requires 0 <= i < n => Basis(f, n, i))
  }

  // ---------------------------------------------------------------- laws

  lemma VAddSwap<F(!new)>(f: Field<F>, a: Vec<F>, b: Vec<F>, c: Vec<F>, d: Vec<F>)
    requires IsField(f) && |a| == |b| == |c| == |d|
    ensures VAdd(f, VAdd(f, a, b), VAdd(f, c, d)) == VAdd(f, VAdd(f, a, c), VAdd(f, b, d))
  {
    forall i | 0 <= i < |a|
      ensures VAdd(f, VAdd(f, a, b), VAdd(f, c, d))[i] == VAdd(f, VAdd(f, a, c), VAdd(f, b, d))[i]
    {
      AddSwap(f, a[i], b[i], c[i], d[i]);
    }
  }

  lemma VAddAssoc<F(!new)>(f: Field<F>, a: Vec<F>, b: Vec<F>, c: Vec<F>)
    requires IsField(f) && |a| == |b| == |c|
    ensures VAdd(f, VAdd(f, a, b), c) == VAdd(f, a, VAdd(f, b, c))
    ensures VAdd(f, VAdd(f, a, b), c) == VAdd(f, VAdd(f, a, c), b)
  {
    forall i | 0 <= i < |a|
      ensures VAdd(f, VAdd(f, a, b), c)[i] == VAdd(f, a, VAdd(f, b, c))[i]
      ensures VAdd(f, VAdd(f, a, b), c)[i] == VAdd(f, VAdd(f, a, c), b)[i]
    {
      Assoc(f, a[i], b[i], c[i]);
      Assoc(f, a[i], c[i], b[i]);
      Comm(f, b[i], c[i]);
    }
  }

  lemma VAddZero<F(!new)>(f: Field<F>, a: Vec<F>)
    requires IsField(f)
    ensures VAdd(f, a, Zeros(f, |a|)) == a && VAdd(f, Zeros(f, |a|), a) == a && VAdd(f, a, a) == Zeros(f, |a|)
  {
    forall i | 0 <= i < |a|
      ensures VAdd(f, a, Zeros(f, |a|))[i] == a[i] && VAdd(f, Zeros(f, |a|), a)[i] == a[i]
      ensures VAdd(f, a, a)[i] == f.zero
    {
      Unit(f, a[i]);
    }
  }

  lemma VScaleAdd<F(!new)>(f: Field<F>, c: F, d: F, a: Vec<F>, b: Vec<F>)
    requires IsField(f) && |a| == |b|
    ensures VScale(f, c, VAdd(f, a, b)) == VAdd(f, VScale(f, c, a), VScale(f, c, b))
    ensures VScale(f, f.add(c, d), a) == VAdd(f, VScale(f, c, a), VScale(f, d, a))
  {
    forall i | 0 <= i < |a|
      ensures VScale(f, c, VAdd(f, a, b))[i] == VAdd(f, VScale(f, c, a), VScale(f, c, b))[i]
      ensures VScale(f, f.add(c, d), a)[i] == VAdd(f, VScale(f, c, a), VScale(f, d, a))[i]
    {
      Distr(f, c, a[i], b[i]);
      Distr(f, a[i], c, d);
    }
  }

  lemma VScaleMul<F(!new)>(f: Field<F>, c: F, d: F, a: Vec<F>)
    requires IsField(f)
    ensures VScale(f, f.mul(c, d), a) == VScale(f, c, VScale(f, d, a))
    ensures VScale(f, f.mul(c, d), a) == VScale(f, d, VScale(f, c, a))
    ensures VScale(f, f.one, a) == a && VScale(f, f.zero, a) == Zeros(f, |a|)
    ensures VScale(f, c, Zeros(f, |a|)) == Zeros(f, |a|)
  {
    forall i | 0 <= i < |a|
      ensures VScale(f, f.mul(c, d), a)[i] == VScale(f, c, VScale(f, d, a))[i]
      ensures VScale(f, f.mul(c, d), a)[i] == VScale(f, d, VScale(f, c, a))[i]
      ensures VScale(f, f.one, a)[i] == a[i] && VScale(f, f.zero, a)[i] == f.zero
      ensures VScale(f, c, Zeros(f, |a|))[i] == f.zero
    {
      Assoc(f, c, d, a[i]);
      Assoc(f, d, c, a[i]);
      Comm(f, c, d);
      Unit(f, a[i]);
      MulZero(f, a[i]);
      MulZero(f, c);
    }
  }

  /** Adding u to row k adds p[k] times u to the product. */
  lemma {:induction false} LinCombRow<F(!new)>(f: Field<F>, p: Vec<F>, A: Mat<F>, cols: nat, k: nat, u: Vec<F>)
    requires IsField(f) && Shape(A, |p|, cols) && k < |p| && |u| == cols
    ensures LinComb(f, p, A[k := VAdd(f, A[k], u)], cols) == VAdd(f, LinComb(f, p, A, cols), VScale(f, p[k], u))
  {
    var n := |p| - 1;
    var B := A[k := VAdd(f, A[k], u)];
    if k == n {
      assert B[..n] == A[..n];
      VScaleAdd(f, p[n], p[n], A[n], u);
      VAddAssoc(f, LinComb(f, p[..n], A[..n], cols), VScale(f, p[n], A[n]), VScale(f, p[n], u));
    } else {
      assert B[..n] == A[..n][k := VAdd(f, A[k], u)];
      LinCombRow(f, p[..n], A[..n], cols, k, u);
      VAddAssoc(f, LinComb(f, p[..n], A[..n], cols), VScale(f, p[k], u), VScale(f, p[n], A[n]));
    }
  }

  /** Adding a to entry i adds a times row i to the product. */
  lemma {:induction false} LinCombEntry<F(!new)>(f: Field<F>, p: Vec<F>, A: Mat<F>, cols: nat, i: nat, a: F)
    requires IsField(f) && Shape(A, |p|, cols) && i < |p|
    ensures LinComb(f, p[i := f.add(p[i], a)], A, cols) == VAdd(f, LinComb(f, p, A, cols), VScale(f, a, A[i]))
  {
    var n := |p| - 1;
    var q := p[i := f.add(p[i], a)];
    if i == n {
      assert q[..n] == p[..n];
      VScaleAdd(f, p[n], a, A[n], A[n]);
      VAddAssoc(f, LinComb(f, p[..n], A[..n], cols), VScale(f, p[n], A[n]), VScale(f, a, A[n]));
    } else {
      assert q[..n] == p[..n][i := f.add(p[i], a)];
      LinCombEntry(f, p[..n], A[..n], cols, i, a);
      VAddAssoc(f, LinComb(f, p[..n], A[..n], cols), VScale(f, a, A[i]), VScale(f, p[n], A[n]));
    }
  }

  lemma {:induction false} LinCombZero<F(!new)>(f: Field<F>, p: Vec<F>, A: Mat<F>, cols: nat)
    requires IsField(f) && Shape(A, |p|, cols) && forall i :: 0 <= i < |p| ==> p[i] == f.zero
    ensures LinComb(f, p, A, cols) == Zeros(f, cols)
  {
    if |p| > 0 {
      var n := |p| - 1;
      LinCombZero(f, p[..n], A[..n], cols);
      VScaleMul(f, f.zero, f.zero, A[n]);
      VAddZero(f, Zeros(f, cols));
    }
  }

  /** e_i times A is row i. */
  lemma {:induction false} LinCombBasis<F(!new)>(f: Field<F>, A: Mat<F>, cols: nat, i: nat)
    requires IsField(f) && Shape(A, |A|, cols) && i < |A|
    ensures LinComb(f, Basis(f, |A|, i), A, cols) == A[i]
  {
    var n := |A| - 1;
    var e := Basis(f, |A|, i);
    VScaleMul(f, f.one, f.one, A[n]);
    VAddZero(f, A[i]);
    if i == n {
      LinCombZero(f, e[..n], A[..n], cols);
    } else {
      assert e[..n] == Basis(f, n, i);
      LinCombBasis(f, A[..n], cols, i);
    }
  }

  /** p times the identity is p. */
  lemma LinCombIdentity<F(!new)>(f: Field<F>, p: Vec<F>)
    requires IsField(f)
    ensures Shape(Identity(f, |p|), |p|, |p|)
    ensures LinComb(f, p, Identity(f, |p|), |p|) == p
  {
    LinCombDiagonal(f, p, Identity(f, |p|), |p|);
    forall i | 0 <= i < |p|
      ensures f.mul(p[i], Identity(f, |p|)[i][i]) == p[i]
    {
      Unit(f, p[i]);
    }
  }

  ghost predicate Diagonal<F>(f: Field<F>, A: Mat<F>) {
    forall i, j :: 0 <= i < |A| && 0 <= j < |A[i]| && i != j ==> A[i][j] == f.zero
  }

  /** p times a diagonal matrix scales the entries of p. */
  lemma {:induction false} LinCombDiagonal<F(!new)>(f: Field<F>, p: Vec<F>, A: Mat<F>, cols: nat)
    requires IsField(f) && Shape(A, |p|, cols) && |p| <= cols && Diagonal(f, A)
    ensures forall j :: 0 <= j < cols ==>
      LinComb(f, p, A, cols)[j] == if j < |p| then f.mul(p[j], A[j][j]) else f.zero
  {
    if |p| > 0 {
      var n := |p| - 1;
      LinCombDiagonal(f, p[..n], A[..n], cols);
      var rest := LinComb(f, p[..n], A[..n], cols);
      forall j | 0 <= j < cols
        ensures LinComb(f, p, A, cols)[j] == if j < |p| then f.mul(p[j], A[j][j]) else f.zero
      {
        MulZero(f, p[n]);
        Unit(f, rest[j]);
        Unit(f, f.mul(p[n], A[n][j]));
      }
    }
  }

  /** Multiplying out is linear in the vector. */
  lemma {:induction false} LinCombAdd<F(!new)>(f: Field<F>, p: Vec<F>, q: Vec<F>, A: Mat<F>, cols: nat)
    requires IsField(f) && |p| == |q| && Shape(A, |p|, cols)
    ensures LinComb(f, VAdd(f, p, q), A, cols) == VAdd(f, LinComb(f, p, A, cols), LinComb(f, q, A, cols))
  {
    if |p| == 0 {
      VAddZero(f, Zeros(f, cols));
    } else {
      var n := |p| - 1;
      assert VAdd(f, p, q)[..n] == VAdd(f, p[..n], q[..n]);
      LinCombAdd(f, p[..n], q[..n], A[..n], cols);
      VScaleAdd(f, p[n], q[n], A[n], A[n]);
      VAddSwap(f, LinComb(f, p[..n], A[..n], cols), LinComb(f, q[..n], A[..n], cols),
        VScale(f, p[n], A[n]), VScale(f, q[n], A[n]));
    }
  }

  lemma {:induction false} LinCombScale<F(!new)>(f: Field<F>, c: F, p: Vec<F>, A: Mat<F>, cols: nat)
    requires IsField(f) && Shape(A, |p|, cols)
    ensures LinComb(f, VScale(f, c, p), A, cols) == VScale(f, c, LinComb(f, p, A, cols))
  {
    if |p| == 0 {
      VScaleMul(f, c, c, Zeros(f, cols));
    } else {
      var n := |p| - 1;
      assert VScale(f, c, p)[..n] == VScale(f, c, p[..n]);
      LinCombScale(f, c, p[..n], A[..n], cols);
      VScaleMul(f, c, p[n], A[n]);
      VScaleAdd(f, c, c, LinComb(f, p[..n], A[..n], cols), VScale(f, p[n], A[n]));
    }
  }

  /** The product of two matrices. */
  function Product<F>(f: Field<F>, A: Mat<F>, B: Mat<F>, cols: nat): (r: Mat<F>)
    requires Shape(A, |A|, |B|) && Shape(B, |B|, cols)
    ensures Shape(r, |A|, cols) && forall i :: 0 <= i < |A| ==> r[i] == LinComb(f, A[i], B, cols)
  {
    seq(|A|, i requires 0 <= i < |A| => LinComb(f, A[i], B, cols))
  }

  /** (p A) B == p (A B) */
  lemma {:induction false} LinCombAssoc<F(!new)>(f: Field<F>, p: Vec<F>, A: Mat<F>, B: Mat<F>, cols: nat)
    requires IsField(f) && Shape(A, |p|, |B|) && Shape(B, |B|, cols)
    ensures LinComb(f, LinComb(f, p, A, |B|), B, cols) == LinComb(f, p, Product(f, A, B, cols), cols)
  {
    if |p| == 0 {
      LinCombZero(f, Zeros(f, |B|), B, cols);
    } else {
      var n := |p| - 1;
      assert Product(f, A, B, cols)[..n] == Product(f, A[..n], B, cols);
      LinCombAssoc(f, p[..n], A[..n], B, cols);
      LinCombAdd(f, LinComb(f, p[..n], A[..n], |B|), VScale(f, p[n], A[n]), B, cols);
      LinCombScale(f, p[n], A[n], B, cols);
    }
  }
}
