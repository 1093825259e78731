/** n independent vectors do not fit in the span of fewer than n: the converse of gf_inverse_matrix needs it. */
module Rank {
  import opened Fields
  import opened Linear

  function Drop<T>(s: seq<T>, k: nat): (r: seq<T>)
    requires k < |s|
    ensures |r| == |s| - 1 && forall i :: 0 <= i < |r| ==> r[i] == if i < k then s[i] else s[i + 1]
  {
    s[..k] + s[k + 1..]
  }

  function DropColumn<F>(B: Mat<F>, cols: nat, k: nat): (r: Mat<F>)
    requires Shape(B, |B|, cols) && k < cols
    ensures Shape(r, |B|, cols - 1) && forall i :: 0 <= i < |B| ==> r[i] == Drop(B[i], k)
  {
    seq(|B|, i requires 0 <= i < |B| => Drop(B[i], k))
  }

  /** A row that contributes nothing can be left out. */
  lemma {:induction false} LinCombDrop<F(!new)>(f: Field<F>, p: Vec<F>, B: Mat<F>, cols: nat, k: nat)
    requires IsField(f) && Shape(B, |p|, cols) && k < |p| && VScale(f, p[k], B[k]) == Zeros(f, cols)
    ensures LinComb(f, Drop(p, k), Drop(B, k), cols) == LinComb(f, p, B, cols)
  {
    var n := |p| - 1;
    var before := LinComb(f, p[..n], B[..n], cols);
    if k == n {
      assert Drop(p, k) == p[..n] && Drop(B, k) == B[..n];
      VAddZero(f, before);
    } else {
      LinCombDrop(f, p[..n], B[..n], cols, k);
      assert Drop(p, k)[..n - 1] == Drop(p[..n], k) && Drop(B, k)[..n - 1] == Drop(B[..n], k);
    }
  }

  lemma DropSum<F(!new)>(f: Field<F>, a: Vec<F>, c: F, b: Vec<F>, k: nat)
    requires |a| == |b| && k < |a|
    ensures Drop(VAdd(f, a, VScale(f, c, b)), k) == VAdd(f, Drop(a, k), VScale(f, c, Drop(b, k)))
  {
  }

  lemma {:induction false} LinCombDropColumn<F(!new)>(f: Field<F>, p: Vec<F>, B: Mat<F>, cols: nat, k: nat)
    requires IsField(f) && Shape(B, |p|, cols) && k < cols
    ensures LinComb(f, p, DropColumn(B, cols, k), cols - 1) == Drop(LinComb(f, p, B, cols), k)
  {
    if |p| > 0 {
      var n := |p| - 1;
      LinCombDropColumn(f, p[..n], B[..n], cols, k);
      DropSum(f, LinComb(f, p[..n], B[..n], cols), p[n], B[n], k);
      assert DropColumn(B, cols, k)[..n] == DropColumn(B[..n], cols, k);
    }
  }

  /** Row r of A times B is e_r, for every r. */
  ghost predicate Spans<F>(f: Field<F>, A: Mat<F>, n: nat, B: Mat<F>, m: nat) {
    && Shape(A, n, m) && Shape(B, m, n)
    && forall r :: 0 <= r < n ==> LinComb(f, A[r], B, n) == Basis(f, n, r)
  }

  /** e_r + c e_p without entry p. */
  lemma DropBasis<F(!new)>(f: Field<F>, n: nat, r: nat, p: nat, c: F)
    requires IsField(f) && p < n && r < n && p != r
    ensures Drop(VAdd(f, Basis(f, n, r), VScale(f, c, Basis(f, n, p))), p)
      == Basis(f, n - 1, if r < p then r else r - 1)
  {
    MulZero(f, c);
    Unit(f, f.zero);
    Unit(f, f.one);
  }

  /** Row r with the multiple of row p added that makes entry l zero. */
  lemma Reduced<F(!new)>(f: Field<F>, A: Mat<F>, n: nat, B: Mat<F>, m: nat, p: nat, l: nat, r: nat) returns (a: Vec<F>, c: F)
    requires IsField(f) && Spans(f, A, n, B, m) && p < n && r < n && l < m && A[p][l] != f.zero
    ensures |a| == m && VScale(f, a[l], B[l]) == Zeros(f, n)
    ensures LinComb(f, a, B, n) == VAdd(f, Basis(f, n, r), VScale(f, c, Basis(f, n, p)))
  {
    c := Div(f, A[r][l], A[p][l]);
    a := VAdd(f, A[r], VScale(f, c, A[p]));
    LinCombAdd(f, A[r], VScale(f, c, A[p]), B, n);
    LinCombScale(f, c, A[p], B, n);
    DivMul(f, A[r][l], A[p][l]);
    Unit(f, A[r][l]);
    VScaleMul(f, c, c, B[l]);
  }

  lemma SmallerRow<F(!new)>(f: Field<F>, A: Mat<F>, n: nat, B: Mat<F>, m: nat, p: nat, l: nat, r: nat) returns (q: Vec<F>)
    requires IsField(f) && Spans(f, A, n, B, m) && p < n && r < n && p != r && l < m && A[p][l] != f.zero
    ensures |q| == m - 1
    ensures LinComb(f, q, DropColumn(Drop(B, l), n, p), n - 1) == Basis(f, n - 1, if r < p then r else r - 1)
  {
    var a, c := Reduced(f, A, n, B, m, p, l, r);
    LinCombDrop(f, a, B, n, l);
    q := Drop(a, l);
    LinCombDropColumn(f, q, Drop(B, l), n, p);
    DropBasis(f, n, r, p, c);
  }

  ghost predicate Yields<F>(f: Field<F>, q: Vec<F>, B: Mat<F>, n: nat, r: nat) {
    Shape(B, |q|, n) && LinComb(f, q, B, n) == Basis(f, n, r)
  }

  ghost predicate Reached<F(!new)>(f: Field<F>, B: Mat<F>, n: nat, r: nat) {
    exists q :: Yields(f, q, B, n, r)
  }

  lemma ChooseRows<F(!new)>(f: Field<F>, n: nat, B: Mat<F>, m: nat) returns (A: Mat<F>)
    requires Shape(B, m, n) && forall r :: 0 <= r < n ==> Reached(f, B, n, r)
    ensures Spans(f, A, n, B, m)
  {
    A := [];
    while |A| < n
      invariant |A| <= n && forall r :: 0 <= r < |A| ==> Yields(f, A[r], B, n, r)
    {
      assert Reached(f, B, n, |A|);
      var q :| Yields(f, q, B, n, |A|);
      A := A + [q];
    }
  }

  lemma Smaller<F(!new)>(f: Field<F>, A: Mat<F>, n: nat, B: Mat<F>, m: nat, p: nat, l: nat) returns (A': Mat<F>)
    requires IsField(f) && Spans(f, A, n, B, m) && p < n && l < m && A[p][l] != f.zero
    ensures Spans(f, A', n - 1, DropColumn(Drop(B, l), n, p), m - 1)
  {
    var n', B' := n - 1, DropColumn(Drop(B, l), n, p);
    forall s | 0 <= s < n'
      ensures Reached(f, B', n', s)
    {
      var q := SmallerRow(f, A, n, B, m, p, l, if s < p then s else s + 1);
      assert Yields(f, q, B', n', s);
    }
    A' := ChooseRows(f, n', B', m - 1);
  }

  lemma Same<F(!new)>(f: Field<F>, A: Mat<F>, n: nat, B: Mat<F>, m: nat, l: nat) returns (A': Mat<F>)
    requires IsField(f) && Spans(f, A, n, B, m) && l < m
    requires forall r :: 0 <= r < n ==> VScale(f, A[r][l], B[l]) == Zeros(f, n)
    ensures Spans(f, A', n, Drop(B, l), m - 1)
  {
    A' := seq(n, r requires 0 <= r < n => Drop(A[r], l));
    forall r | 0 <= r < n
      ensures LinComb(f, A'[r], Drop(B, l), n) == Basis(f, n, r)
    {
      LinCombDrop(f, A[r], B, n, l);
    }
  }

  lemma ZeroScale<F(!new)>(f: Field<F>, v: Vec<F>)
    requires IsField(f)
    ensures VScale(f, f.zero, v) == Zeros(f, |v|)
  {
    VScaleMul(f, f.zero, f.zero, v);
  }

  lemma NothingSpans<F(!new)>(f: Field<F>, a: Vec<F>, n: nat)
    requires IsField(f) && n > 0
    ensures |a| == 0 ==> LinComb(f, a, [], n) != Basis(f, n, 0)
  {
    assert Zeros(f, n)[0] != Basis(f, n, 0)[0];
  }

  /** One row less on the right costs at most one row on the left. */
  lemma OneLess<F(!new)>(f: Field<F>, A: Mat<F>, n: nat, B: Mat<F>, m: nat) returns (A': Mat<F>, n': nat, B': Mat<F>)
    requires IsField(f) && Spans(f, A, n, B, m) && m > 0
    ensures Spans(f, A', n', B', m - 1) && n <= n' + 1
  {
    if p :| 0 <= p < n && A[p][m - 1] != f.zero {
      n', B' := n - 1, DropColumn(Drop(B, m - 1), n, p);
      A' := Smaller(f, A, n, B, m, p, m - 1);
    } else {
      ZeroScale(f, B[m - 1]);
      n', B' := n, Drop(B, m - 1);
      A' := Same(f, A, n, B, m, m - 1);
    }
  }

  /** A B = 1 needs at least as many rows in B as there are in A. */
  lemma {:induction false} RankBound<F(!new)>(f: Field<F>, A: Mat<F>, n: nat, B: Mat<F>, m: nat)
    requires IsField(f) && Spans(f, A, n, B, m)
    ensures n <= m
    decreases m
  {
    if n > 0 {
      NothingSpans(f, A[0], n);
    }
    if m == 0 {
      assert B == [];
    } else {
      var A', n', B' := OneLess(f, A, n, B, m);
      RankBound(f, A', n', B', m - 1);
    }
  }

  /** A square matrix with a row of zeros is no inverse. */
  lemma ZeroRowNoInverse<F(!new)>(f: Field<F>, A: Mat<F>, B: Mat<F>, n: nat, z: nat)
    requires IsField(f) && Shape(A, n, n) && Shape(B, n, n) && z < n && B[z] == Zeros(f, n)
    ensures Product(f, A, B, n) != Identity(f, n)
  {
    if Product(f, A, B, n) == Identity(f, n) {
      forall r | 0 <= r < n
        ensures LinComb(f, A[r], B, n) == Basis(f, n, r)
        ensures VScale(f, A[r][z], B[z]) == Zeros(f, n)
      {
        assert Product(f, A, B, n)[r] == Identity(f, n)[r];
        VScaleMul(f, A[r][z], f.zero, Zeros(f, n));
      }
      var A' := Same(f, A, n, B, n, z);
      RankBound(f, A', n, Drop(B, z), n - 1);
    }
  }
}
