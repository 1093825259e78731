/** gf_inverse_matrix of crt/nk8.c over any field of characteristic two. */
module Elimination {
  import opened Fields
  import opened Linear
  import opened Rank

  /** gf_div: a quotient by zero is zero. */
  function Quot<F(==)>(f: Field<F>, a: F, b: F): F {
    if b == f.zero then f.zero else Div(f, a, b)
  }

  lemma QuotZero<F(!new)>(f: Field<F>, b: F)
    requires IsField(f)
    ensures Quot(f, f.zero, b) == f.zero
  {
    MulZero(f, f.inv(b));
  }

  lemma QuotTimes<F(!new)>(f: Field<F>, i: F, j: F)
    requires IsField(f) && j != f.zero
    ensures f.mul(Quot(f, i, j), j) == i
    ensures i != f.zero ==> Quot(f, i, j) != f.zero
  {
    DivMul(f, i, j);
    MulZero(f, j);
  }

  lemma QuotUnique<F(!new)>(f: Field<F>, k: F, i: F, j: F)
    requires IsField(f) && j != f.zero && f.mul(k, j) == i
    ensures k == Quot(f, i, j)
  {
    Assoc(f, k, j, f.inv(j));
    Unit(f, j);
    Unit(f, k);
  }

  lemma QuotExists<F(!new)>(f: Field<F>, i: F, j: F) returns (v: F)
    requires IsField(f) && i != f.zero && j != f.zero
    ensures f.mul(v, j) == i && v != f.zero
  {
    v := Quot(f, i, j);
    QuotTimes(f, i, j);
  }

  // ---------------------------------------------------------------- row operations

  /** Row k plus c times row i. */
  function AddRow<F>(f: Field<F>, A: Mat<F>, n: nat, k: nat, i: nat, c: F): (r: Mat<F>)
    requires Shape(A, n, n) && k < n && i < n
    ensures Shape(r, n, n)
  {
    A[k := VAdd(f, A[k], VScale(f, c, A[i]))]
  }

  /** The row operation on A and this change of p leave p A as it is. */
  function Undo<F>(f: Field<F>, p: Vec<F>, k: nat, i: nat, c: F): (r: Vec<F>)
    requires k < |p| && i < |p|
    ensures |r| == |p|
  {
    p[i := f.add(p[i], f.mul(c, p[k]))]
  }

  lemma SameProduct<F(!new)>(f: Field<F>, p: Vec<F>, A: Mat<F>, n: nat, k: nat, i: nat, c: F)
    requires IsField(f) && |p| == n && Shape(A, n, n) && k < n && i < n && k != i
    ensures LinComb(f, Undo(f, p, k, i, c), AddRow(f, A, n, k, i, c), n) == LinComb(f, p, A, n)
  {
    var q := Undo(f, p, k, i, c);
    var u := VScale(f, c, A[i]);
    var pA := LinComb(f, p, A, n);
    LinCombRow(f, q, A, n, k, u);
    LinCombEntry(f, p, A, n, i, f.mul(c, p[k]));
    VScaleMul(f, c, p[k], A[i]);
    VAddAssoc(f, pA, VScale(f, p[k], u), VScale(f, p[k], u));
    VAddZero(f, VScale(f, p[k], u));
    VAddZero(f, pA);
  }

  /** P M = M0 and P N = 1: what has been done to M and to N has been the same. */
  ghost predicate Track<F(!new)>(f: Field<F>, n: nat, P: Mat<F>, M: Mat<F>, N: Mat<F>, M0: Mat<F>) {
    && Shape(P, n, n) && Shape(M, n, n) && Shape(N, n, n) && Shape(M0, n, n)
    && forall r :: 0 <= r < n ==> LinComb(f, P[r], M, n) == M0[r] && LinComb(f, P[r], N, n) == Basis(f, n, r)
  }

  lemma TrackStart<F(!new)>(f: Field<F>, n: nat, M0: Mat<F>)
    requires IsField(f) && Shape(M0, n, n)
    ensures Track(f, n, Identity(f, n), M0, Identity(f, n), M0)
  {
    forall r | 0 <= r < n
      ensures LinComb(f, Identity(f, n)[r], M0, n) == M0[r]
      ensures LinComb(f, Identity(f, n)[r], Identity(f, n), n) == Basis(f, n, r)
    {
      LinCombBasis(f, M0, n, r);
      LinCombBasis(f, Identity(f, n), n, r);
    }
  }

  lemma TrackStep<F(!new)>(f: Field<F>, n: nat, P: Mat<F>, M: Mat<F>, N: Mat<F>, M0: Mat<F>, k: nat, i: nat, c: F)
    returns (P': Mat<F>)
    requires IsField(f) && Track(f, n, P, M, N, M0) && k < n && i < n && k != i
    ensures Track(f, n, P', AddRow(f, M, n, k, i, c), AddRow(f, N, n, k, i, c), M0)
  {
    P' := seq(n, r requires 0 <= r < n => Undo(f, P[r], k, i, c));
    forall r | 0 <= r < n
      ensures LinComb(f, P'[r], AddRow(f, M, n, k, i, c), n) == M0[r]
      ensures LinComb(f, P'[r], AddRow(f, N, n, k, i, c), n) == Basis(f, n, r)
    {
      SameProduct(f, P[r], M, n, k, i, c);
      SameProduct(f, P[r], N, n, k, i, c);
    }
  }

  // ---------------------------------------------------------------- what forward elimination computes

  /** Column i cleared below the diagonal, in the rows before `k`. */
  function Clear<F(==)>(f: Field<F>, A: Mat<F>, n: nat, i: nat, k: nat): (r: Mat<F>)
    requires Shape(A, n, n) && i < n
    ensures Shape(r, n, n)
  {
    seq(n, r requires 0 <= r < n =>
      if i < r < k then VAdd(f, A[r], VScale(f, Quot(f, A[r][i], A[i][i]), A[i])) else A[r])
  }

  /** From the matrix where columns 0..i-1 are done on, every pivot is not zero. */
  ghost predicate PivotsFrom<F>(f: Field<F>, A: Mat<F>, n: nat, i: nat)
    requires Shape(A, n, n) && i <= n
    decreases n - i
  {
    i == n || (A[i][i] != f.zero && PivotsFrom(f, Clear(f, A, n, i, n), n, i + 1))
  }

  /** Every pivot the elimination meets is not zero. */
  ghost predicate NonzeroPivots<F>(f: Field<F>, A: Mat<F>, n: nat)
    requires Shape(A, n, n)
  {
    PivotsFrom(f, A, n, 0)
  }

  /** Below the diagonal the first i columns are zero. */
  ghost predicate Upper<F>(f: Field<F>, A: Mat<F>, i: nat) {
    forall r, c :: 0 <= c < r < |A| && c < i && c < |A[r]| ==> A[r][c] == f.zero
  }

  lemma ClearsColumn<F(!new)>(f: Field<F>, A: Mat<F>, n: nat, i: nat)
    requires IsField(f) && Shape(A, n, n) && i < n && Upper(f, A, i) && A[i][i] != f.zero
    ensures Upper(f, Clear(f, A, n, i, n), i + 1)
  {
    var B := Clear(f, A, n, i, n);
    forall r, c | 0 <= c < r < n && c < i + 1
      ensures B[r][c] == f.zero
    {
      if r > i {
        var q := Quot(f, A[r][i], A[i][i]);
        if c == i {
          DivMul(f, A[r][i], A[i][i]);
          Unit(f, A[r][i]);
        } else {
          MulZero(f, q);
          Unit(f, f.zero);
        }
      }
    }
  }

  // ---------------------------------------------------------------- scaling at the end

  lemma {:induction false} Rescale<F(!new)>(f: Field<F>, p: Vec<F>, d: Vec<F>, N: Mat<F>, R: Mat<F>, q: Vec<F>, cols: nat)
    requires IsField(f) && |p| == |d| == |q| && Shape(N, |p|, cols) && Shape(R, |p|, cols)
    requires forall j :: 0 <= j < |p| ==> d[j] != f.zero && q[j] == f.mul(p[j], d[j])
    requires forall j :: 0 <= j < |p| ==> R[j] == VScale(f, f.inv(d[j]), N[j])
    ensures LinComb(f, q, R, cols) == LinComb(f, p, N, cols)
  {
    if |p| > 0 {
      var n := |p| - 1;
      Rescale(f, p[..n], d[..n], N[..n], R[..n], q[..n], cols);
      VScaleMul(f, q[n], f.inv(d[n]), N[n]);
      Assoc(f, p[n], d[n], f.inv(d[n]));
      Unit(f, d[n]);
      Unit(f, p[n]);
    }
  }

  /** Once M is diagonal, dividing the rows of N by the diagonal gives the inverse of M0. */
  lemma Inverts<F(!new)>(f: Field<F>, n: nat, P: Mat<F>, D: Mat<F>, N: Mat<F>, M0: Mat<F>, R: Mat<F>)
    requires IsField(f) && Track(f, n, P, D, N, M0) && Diagonal(f, D) && Shape(R, n, n)
    requires forall j :: 0 <= j < n ==> D[j][j] != f.zero && R[j] == VScale(f, f.inv(D[j][j]), N[j])
    ensures Product(f, M0, R, n) == Identity(f, n)
  {
    forall r | 0 <= r < n
      ensures LinComb(f, M0[r], R, n) == Basis(f, n, r)
    {
      LinCombDiagonal(f, P[r], D, n);
      Rescale(f, P[r], seq(n, j requires 0 <= j < n => D[j][j]), N, R, M0[r], n);
    }
  }

  // ---------------------------------------------------------------- in place

  ghost function Row<F>(a: array2<F>, i: nat): (r: Vec<F>)
    reads a
    requires i < a.Length0
    ensures |r| == a.Length1 && forall j :: 0 <= j < a.Length1 ==> r[j] == a[i, j]
  {
    seq(a.Length1, j requires 0 <= j < a.Length1 reads a => a[i, j])
  }

  ghost function Rows<F>(a: array2<F>): (r: Mat<F>)
    reads a
    ensures |r| == a.Length0 && forall i :: 0 <= i < a.Length0 ==> r[i] == Row(a, i)
  {
    seq(a.Length0, i requires 0 <= i < a.Length0 reads a => Row(a, i))
  }

  /** Adds c times row i to row k, from column `from` on. */
  method AddScaled<F>(f: Field<F>, a: array2<F>, k: nat, i: nat, c: F, from: nat)
    requires k < a.Length0 && i < a.Length0 && k != i && from <= a.Length1
    modifies a
    ensures forall r, m :: 0 <= r < a.Length0 && r != k && 0 <= m < a.Length1 ==> a[r, m] == old(a[r, m])
    ensures forall m :: 0 <= m < a.Length1 ==>
      a[k, m] == if m < from then old(a[k, m]) else f.add(old(a[k, m]), f.mul(old(a[i, m]), c))
  {
    var m := from;
    while m < a.Length1
      invariant from <= m <= a.Length1
      invariant forall r, x :: 0 <= r < a.Length0 && r != k && 0 <= x < a.Length1 ==> a[r, x] == old(a[r, x])
      invariant forall x :: 0 <= x < a.Length1 ==>
        a[k, x] == if from <= x < m then f.add(old(a[k, x]), f.mul(old(a[i, x]), c)) else old(a[k, x])
    {
      a[k, m] := f.add(a[k, m], f.mul(a[i, m], c));
      m := m + 1;
    }
  }

  /** The row operation, when the columns left out are zero in row i anyway. */
  method AddScaledRow<F(!new)>(f: Field<F>, a: array2<F>, n: nat, k: nat, i: nat, c: F, from: nat)
    requires IsField(f) && a.Length0 == a.Length1 == n && k < n && i < n && k != i && from <= n
    modifies a
    ensures forall r :: 0 <= r < n && r != k ==> Row(a, r) == old(Row(a, r))
    ensures (forall m :: 0 <= m < from ==> old(a[i, m]) == f.zero) ==>
      Rows(a) == AddRow(f, old(Rows(a)), n, k, i, c)
  {
    ghost var A := Rows(a);
    AddScaled(f, a, k, i, c, from);
    forall r | 0 <= r < n && r != k
      ensures Row(a, r) == A[r]
    {
    }
    if forall m :: 0 <= m < from ==> A[i][m] == f.zero {
      ghost var B := AddRow(f, A, n, k, i, c);
      forall m | 0 <= m < n
        ensures a[k, m] == B[k][m]
      {
        Comm(f, A[i][m], c);
        MulZero(f, c);
        Unit(f, A[k][m]);
      }
      assert Row(a, k) == B[k];
      assert Rows(a) == B;
    }
  }

  method SetIdentity<F>(f: Field<F>, b: array2<F>, n: nat)
    requires b.Length0 == b.Length1 == n
    modifies b
    ensures Rows(b) == Identity(f, n)
  {
    var i := 0;
    while i < n
      invariant i <= n
      invariant forall r, c :: 0 <= r < i && 0 <= c < n ==> b[r, c] == if r == c then f.one else f.zero
    {
      var j := 0;
      while j < n
        invariant j <= n
        invariant forall r, c :: 0 <= r < i && 0 <= c < n ==> b[r, c] == if r == c then f.one else f.zero
        invariant forall c :: 0 <= c < j ==> b[i, c] == if i == c then f.one else f.zero
      {
        b[i, j] := if i != j then f.zero else f.one;
        j := j + 1;
      }
      i := i + 1;
    }
    forall r | 0 <= r < n
      ensures Row(b, r) == Basis(f, n, r)
    {
    }
  }

  /** Row i has something from column i on: the test that the source takes for a pivot search. */
  method FindInRow<F(==)>(f: Field<F>, a: array2<F>, i: nat) returns (found: bool)
    requires i < a.Length0 == a.Length1
    ensures a[i, i] != f.zero ==> found
    ensures found <==> exists j :: i <= j < a.Length1 && a[i, j] != f.zero
  {
    var j := i;
    found := false;
    while j < a.Length1
      invariant i <= j <= a.Length1 && !found
      invariant forall x :: i <= x < j ==> a[i, x] == f.zero
    {
      if a[i, j] != f.zero {
        // j != i would swap copies of the two rows, which changes nothing
        return true;
      }
      j := j + 1;
    }
  }

  /** Column i below the diagonal. `good`: so far every pivot was not zero. */
  method ClearColumn<F(==, !new)>(f: Field<F>, a: array2<F>, b: array2<F>, n: nat, i: nat,
      ghost M0: Mat<F>, ghost P: Mat<F>, ghost good: bool) returns (ghost P': Mat<F>)
    requires IsField(f) && a.Length0 == a.Length1 == b.Length0 == b.Length1 == n && a != b && i < n
    requires good ==> Track(f, n, P, Rows(a), Rows(b), M0) && Upper(f, Rows(a), i)
    modifies a, b
    ensures forall r :: 0 <= r <= i ==> Row(a, r) == old(Row(a, r))
    ensures good ==> Rows(a) == Clear(f, old(Rows(a)), n, i, n) && Track(f, n, P', Rows(a), Rows(b), M0)
  {
    ghost var A := Rows(a);
    P' := P;
    var k := i + 1;
    while k < n
      invariant i < k <= n
      invariant forall r :: 0 <= r <= i ==> Row(a, r) == A[r]
      invariant forall r :: k <= r < n ==> Row(a, r) == A[r]
      invariant good ==> Rows(a) == Clear(f, A, n, i, k) && Track(f, n, P', Rows(a), Rows(b), M0)
    {
      var c := Quot(f, a[k, i], a[i, i]);
      assert a[k, i] == Row(a, k)[i] == A[k][i] && a[i, i] == Row(a, i)[i] == A[i][i];
      assert forall m :: 0 <= m < n ==> a[i, m] == Row(a, i)[m] == A[i][m];
      if good {
        P' := TrackStep(f, n, P', Rows(a), Rows(b), M0, k, i, c);
        assert AddRow(f, Clear(f, A, n, i, k), n, k, i, c) == Clear(f, A, n, i, k + 1);
      }
      AddScaledRow(f, a, n, k, i, c, i);
      AddScaledRow(f, b, n, k, i, c, 0);
      k := k + 1;
    }
  }

  /** What the first loop leaves: all pivots were fine and M is upper triangular, or some diagonal entry is zero. */
  ghost predicate Swept<F(!new)>(f: Field<F>, n: nat, P: Mat<F>, M: Mat<F>, N: Mat<F>, M0: Mat<F>, good: bool, bad: nat) {
    && Shape(M, n, n) && Shape(N, n, n) && Shape(M0, n, n)
    && (good ==>
      && NonzeroPivots(f, M0, n) && Track(f, n, P, M, N, M0) && Upper(f, M, n)
      && forall j :: 0 <= j < n ==> M[j][j] != f.zero)
    && (!good ==> !NonzeroPivots(f, M0, n) && bad < n && M[bad][bad] == f.zero)
  }

  /** The first loop when columns 0..i-1 are done. */
  ghost predicate Sweeping<F(!new)>(f: Field<F>, n: nat, P: Mat<F>, M: Mat<F>, N: Mat<F>, M0: Mat<F>, i: nat, good: bool, bad: nat) {
    && i <= n && Shape(M, n, n) && Shape(N, n, n) && Shape(M0, n, n)
    && (good ==>
      && (NonzeroPivots(f, M0, n) <==> PivotsFrom(f, M, n, i)) && Track(f, n, P, M, N, M0) && Upper(f, M, i)
      && forall j :: 0 <= j < i ==> M[j][j] != f.zero)
    && (!good ==> bad < i && M[bad][bad] == f.zero && !NonzeroPivots(f, M0, n))
  }

  lemma SweepNext<F(!new)>(f: Field<F>, n: nat, P: Mat<F>, M: Mat<F>, N: Mat<F>, M0: Mat<F>, i: nat, good: bool, bad: nat,
      P': Mat<F>, M': Mat<F>, N': Mat<F>)
    requires IsField(f) && Sweeping(f, n, P, M, N, M0, i, good, bad) && i < n
    requires Shape(M', n, n) && Shape(N', n, n) && forall r :: 0 <= r <= i ==> M'[r] == M[r]
    requires good && M[i][i] != f.zero ==> M' == Clear(f, M, n, i, n) && Track(f, n, P', M', N', M0)
    ensures Sweeping(f, n, P', M', N', M0, i + 1, good && M[i][i] != f.zero, if good then i else bad)
  {
    if good && M[i][i] != f.zero {
      ClearsColumn(f, M, n, i);
    }
  }

  lemma SweepStart<F(!new)>(f: Field<F>, n: nat, M0: Mat<F>)
    requires IsField(f) && Shape(M0, n, n)
    ensures Sweeping(f, n, Identity(f, n), M0, Identity(f, n), M0, 0, true, 0)
  {
    TrackStart(f, n, M0);
  }

  lemma SweptAll<F(!new)>(f: Field<F>, n: nat, P: Mat<F>, M: Mat<F>, N: Mat<F>, M0: Mat<F>, good: bool, bad: nat)
    requires Sweeping(f, n, P, M, N, M0, n, good, bad)
    ensures Swept(f, n, P, M, N, M0, good, bad)
  {
  }

  /** One round of the first loop. */
  method SweepColumn<F(==, !new)>(f: Field<F>, a: array2<F>, b: array2<F>, n: nat, ghost M0: Mat<F>, i: nat,
      ghost P: Mat<F>, ghost good: bool, ghost bad: nat)
    returns (found: bool, ghost P': Mat<F>, ghost good': bool, ghost bad': nat)
    requires IsField(f) && a.Length0 == a.Length1 == b.Length0 == b.Length1 == n && a != b && i < n
    requires Sweeping(f, n, P, Rows(a), Rows(b), M0, i, good, bad)
    modifies a, b
    ensures found ==> Sweeping(f, n, P', Rows(a), Rows(b), M0, i + 1, good', bad')
    ensures !found ==> !NonzeroPivots(f, M0, n)
  {
    ghost var M, N := Rows(a), Rows(b);
    P', good', bad' := P, good && M[i][i] != f.zero, if good then i else bad;
    found := FindInRow(f, a, i);
    if found {
      P' := ClearColumn(f, a, b, n, i, M0, P, good');
      SweepNext(f, n, P, M, N, M0, i, good, bad, P', Rows(a), Rows(b));
    }
  }

  method SweepColumns<F(==, !new)>(f: Field<F>, a: array2<F>, b: array2<F>, n: nat, ghost M0: Mat<F>, ghost P0: Mat<F>)
    returns (ok: bool, ghost P: Mat<F>, ghost good: bool, ghost bad: nat)
    requires IsField(f) && a.Length0 == a.Length1 == b.Length0 == b.Length1 == n && a != b
    requires Sweeping(f, n, P0, Rows(a), Rows(b), M0, 0, true, 0)
    modifies a, b
    ensures ok ==> Sweeping(f, n, P, Rows(a), Rows(b), M0, n, good, bad)
    ensures !ok ==> !NonzeroPivots(f, M0, n)
  {
    ok, P, good, bad := true, P0, true, 0;
    var i := 0;
    while i < n
      invariant Sweeping(f, n, P, Rows(a), Rows(b), M0, i, good, bad) && ok
    {
      ok, P, good, bad := SweepColumn(f, a, b, n, M0, i, P, good, bad);
      if !ok {
        return;
      }
      i := i + 1;
    }
  }

  method ForwardPass<F(==, !new)>(f: Field<F>, a: array2<F>, b: array2<F>, n: nat, ghost M0: Mat<F>)
    returns (ok: bool, ghost P: Mat<F>, ghost good: bool, ghost bad: nat)
    requires IsField(f) && a.Length0 == a.Length1 == b.Length0 == b.Length1 == n && a != b
    requires Rows(a) == M0 && Rows(b) == Identity(f, n)
    modifies a, b
    ensures ok ==> Swept(f, n, P, Rows(a), Rows(b), M0, good, bad)
    ensures !ok ==> !NonzeroPivots(f, M0, n)
  {
    SweepStart(f, n, M0);
    ok, P, good, bad := SweepColumns(f, a, b, n, M0, Identity(f, n));
    if ok {
      SweptAll(f, n, P, Rows(a), Rows(b), M0, good, bad);
    }
  }

  /** Above the diagonal the columns after i are zero. */
  ghost predicate ClearedAfter<F>(f: Field<F>, M: Mat<F>, i: int) {
    forall r, c :: 0 <= r < c < |M| && c > i && c < |M[r]| ==> M[r][c] == f.zero
  }

  /** Setting M[j][i] to zero is the row operation that subtracts row i, which is zero but for its diagonal. */
  lemma ZeroIsRowOp<F(!new)>(f: Field<F>, M: Mat<F>, n: nat, j: nat, i: nat)
    requires IsField(f) && Shape(M, n, n) && j < i < n && Upper(f, M, n) && ClearedAfter(f, M, i) && M[i][i] != f.zero
    ensures AddRow(f, M, n, j, i, Quot(f, M[j][i], M[i][i])) == M[j := M[j][i := f.zero]]
  {
    var q := Quot(f, M[j][i], M[i][i]);
    var row := VAdd(f, M[j], VScale(f, q, M[i]));
    forall m | 0 <= m < n
      ensures row[m] == M[j][i := f.zero][m]
    {
      if m == i {
        DivMul(f, M[j][i], M[i][i]);
        Unit(f, M[j][i]);
      } else {
        MulZero(f, q);
        Unit(f, M[j][m]);
      }
    }
    assert row == M[j][i := f.zero];
  }

  /** The second loop while column i is being cleared: N is the inverse before its rows are divided. */
  ghost predicate Backing<F(!new)>(f: Field<F>, n: nat, P: Mat<F>, M: Mat<F>, N: Mat<F>, B: Mat<F>, M0: Mat<F>, i: nat) {
    && Track(f, n, P, M, N, M0) && Upper(f, M, n) && ClearedAfter(f, M, i) && Shape(B, n, n)
    && i < n && (forall j :: 0 <= j < n ==> M[j][j] != f.zero)
    && (forall r :: 0 <= r <= i ==> B[r] == N[r])
    && (forall r :: i < r < n ==> B[r] == VScale(f, f.inv(M[r][r]), N[r]))
  }

  lemma BackStep<F(!new)>(f: Field<F>, n: nat, P: Mat<F>, M: Mat<F>, N: Mat<F>, B: Mat<F>, M0: Mat<F>, i: nat, j: nat)
    returns (P': Mat<F>, N': Mat<F>)
    requires IsField(f) && Backing(f, n, P, M, N, B, M0, i) && j < i
    ensures Backing(f, n, P', M[j := M[j][i := f.zero]], N',
      AddRow(f, B, n, j, i, Quot(f, M[j][i], M[i][i])), M0, i)
  {
    var c := Quot(f, M[j][i], M[i][i]);
    ZeroIsRowOp(f, M, n, j, i);
    P' := TrackStep(f, n, P, M, N, M0, j, i, c);
    N' := AddRow(f, N, n, j, i, c);
  }

  method SetZero<F>(f: Field<F>, a: array2<F>, n: nat, j: nat, i: nat)
    requires a.Length0 == a.Length1 == n && j < n && i < n
    modifies a
    ensures Rows(a) == old(Rows(a))[j := old(Rows(a))[j][i := f.zero]]
  {
    ghost var A := Rows(a);
    a[j, i] := f.zero;
    assert Row(a, j) == A[j][i := f.zero];
    assert forall r :: 0 <= r < n && r != j ==> Row(a, r) == A[r];
  }

  /** Column i above the diagonal. */
  method ClearAbove<F(==, !new)>(f: Field<F>, a: array2<F>, b: array2<F>, n: nat, i: nat,
      ghost M0: Mat<F>, ghost P: Mat<F>, ghost N: Mat<F>, ghost good: bool) returns (ghost P': Mat<F>, ghost N': Mat<F>)
    requires IsField(f) && a.Length0 == a.Length1 == b.Length0 == b.Length1 == n && a != b && i < n
    requires good ==> Backing(f, n, P, Rows(a), N, Rows(b), M0, i)
    modifies a, b
    ensures forall r :: 0 <= r < n ==> Rows(a)[r][r] == old(Rows(a))[r][r]
    ensures forall r :: i <= r < n ==> Rows(b)[r] == old(Rows(b))[r]
    ensures forall r :: 0 <= r < i ==> Rows(a)[r][i] == f.zero
    ensures good ==> Backing(f, n, P', Rows(a), N', Rows(b), M0, i)
  {
    P', N' := P, N;
    var j := i - 1;
    while j >= 0
      invariant -1 <= j < i
      invariant forall r :: 0 <= r < n ==> Rows(a)[r][r] == old(Rows(a))[r][r]
      invariant forall r :: i <= r < n ==> Rows(b)[r] == old(Rows(b))[r]
      invariant forall r :: j < r < i ==> Rows(a)[r][i] == f.zero
      invariant good ==> Backing(f, n, P', Rows(a), N', Rows(b), M0, i)
    {
      assert Rows(a)[j][i] == a[j, i] && Rows(a)[i][i] == a[i, i];
      var c := Quot(f, a[j, i], a[i, i]);
      if good {
        P', N' := BackStep(f, n, P', Rows(a), N', Rows(b), M0, i, j);
      }
      ghost var B := Rows(b);
      SetZero(f, a, n, j, i);
      AddScaledRow(f, b, n, j, i, c, 0);
      assert forall r :: 0 <= r < n && r != j ==> Rows(b)[r] == B[r];
      j := j - 1;
    }
  }

  /** Divides row i of the inverse by the diagonal entry. */
  method DivideRow<F(==)>(f: Field<F>, b: array2<F>, i: nat, d: F)
    requires i < b.Length0
    modifies b
    ensures forall r, c :: 0 <= r < b.Length0 && r != i && 0 <= c < b.Length1 ==> b[r, c] == old(b[r, c])
    ensures forall c :: 0 <= c < b.Length1 ==> b[i, c] == Quot(f, old(b[i, c]), d)
  {
    var k := 0;
    while k < b.Length1
      invariant k <= b.Length1
      invariant forall r, c :: 0 <= r < b.Length0 && r != i && 0 <= c < b.Length1 ==> b[r, c] == old(b[r, c])
      invariant forall c :: 0 <= c < b.Length1 ==> b[i, c] == if c < k then Quot(f, old(b[i, c]), d) else old(b[i, c])
    {
      b[i, k] := Quot(f, b[i, k], d);
      k := k + 1;
    }
  }

  /** Row i of the inverse divided by the pivot; zero if the pivot is. */
  method DivideBy<F(==, !new)>(f: Field<F>, a: array2<F>, b: array2<F>, n: nat, i: nat)
    requires IsField(f) && a.Length0 == a.Length1 == b.Length0 == b.Length1 == n && a != b && i < n
    modifies b
    ensures forall r :: 0 <= r < n && r != i ==> Rows(b)[r] == old(Rows(b))[r]
    ensures Rows(a)[i][i] != f.zero ==> Rows(b)[i] == VScale(f, f.inv(Rows(a)[i][i]), old(Rows(b))[i])
    ensures Rows(a)[i][i] == f.zero ==> Rows(b)[i] == Zeros(f, n)
  {
    ghost var B := Rows(b);
    var d := a[i, i];
    DivideRow(f, b, i, d);
    forall r | 0 <= r < n && r != i
      ensures Row(b, r) == B[r]
    {
    }
    forall c | 0 <= c < n
      ensures f.mul(B[i][c], f.inv(d)) == f.mul(f.inv(d), B[i][c])
    {
      Comm(f, B[i][c], f.inv(d));
    }
    assert d != f.zero ==> Row(b, i) == VScale(f, f.inv(d), B[i]);
    assert d == f.zero ==> Row(b, i) == Zeros(f, n);
  }

  method FinishRow<F(==, !new)>(f: Field<F>, a: array2<F>, b: array2<F>, n: nat, i: nat,
      ghost M0: Mat<F>, ghost P: Mat<F>, ghost N: Mat<F>, ghost good: bool)
    requires IsField(f) && a.Length0 == a.Length1 == b.Length0 == b.Length1 == n && a != b && 0 < i < n
    requires good ==> Backing(f, n, P, Rows(a), N, Rows(b), M0, i)
    requires forall r :: 0 <= r < i ==> Rows(a)[r][i] == f.zero
    modifies b
    ensures forall r :: 0 <= r < n && r != i ==> Rows(b)[r] == old(Rows(b))[r]
    ensures good ==> Backing(f, n, P, Rows(a), N, Rows(b), M0, i - 1)
    ensures Rows(a)[i][i] == f.zero ==> Rows(b)[i] == Zeros(f, n)
  {
    DivideBy(f, a, b, n, i);
  }

  lemma Outcome<F(!new)>(f: Field<F>, n: nat, M0: Mat<F>, R: Mat<F>, good: bool, bad: nat)
    requires IsField(f) && Shape(M0, n, n) && Shape(R, n, n)
    requires good ==> Product(f, M0, R, n) == Identity(f, n)
    requires !good ==> bad < n && R[bad] == Zeros(f, n)
    ensures good <==> Product(f, M0, R, n) == Identity(f, n)
  {
    if !good {
      ZeroRowNoInverse(f, M0, R, n, bad);
    }
  }

  method BackPass<F(==, !new)>(f: Field<F>, a: array2<F>, b: array2<F>, n: nat, ghost M0: Mat<F>, ghost P: Mat<F>,
      ghost good: bool, ghost bad: nat)
    requires IsField(f) && a.Length0 == a.Length1 == b.Length0 == b.Length1 == n && a != b && n > 0
    requires Swept(f, n, P, Rows(a), Rows(b), M0, good, bad)
    modifies a, b
    ensures Shape(Rows(b), n, n)
    ensures NonzeroPivots(f, M0, n) <==> Product(f, M0, Rows(b), n) == Identity(f, n)
  {
    ghost var P', N := P, Rows(b);
    var i := n - 1;
    while i > 0
      invariant 0 <= i < n
      invariant good ==> Backing(f, n, P', Rows(a), N, Rows(b), M0, i)
      invariant !good ==> bad < n && Rows(a)[bad][bad] == f.zero
      invariant !good && bad > i ==> Rows(b)[bad] == Zeros(f, n)
    {
      P', N := ClearAbove(f, a, b, n, i, M0, P', N, good);
      FinishRow(f, a, b, n, i, M0, P', N, good);
      i := i - 1;
    }
    DivideBy(f, a, b, n, 0);
    if good {
      Inverts(f, n, P', Rows(a), N, M0, Rows(b));
    }
    Outcome(f, n, M0, Rows(b), good, bad);
  }

  /** Leaves the inverse of `matrix` in `inverse` if and only if every pivot is not zero. */
  method InverseMatrix<F(==, !new)>(f: Field<F>, matrix: array2<F>, inverse: array2<F>, n: nat) returns (ok: bool)
    requires IsField(f) && matrix != inverse && n > 0
    requires matrix.Length0 == matrix.Length1 == inverse.Length0 == inverse.Length1 == n
    modifies matrix, inverse
    ensures Shape(old(Rows(matrix)), n, n) && Shape(Rows(inverse), n, n)
    ensures NonzeroPivots(f, old(Rows(matrix)), n)
      <==> ok && Product(f, old(Rows(matrix)), Rows(inverse), n) == Identity(f, n)
  {
    ghost var M0 := Rows(matrix);
    SetIdentity(f, inverse, n);
    ghost var P, good, bad;
    ok, P, good, bad := ForwardPass(f, matrix, inverse, n, M0);
    if ok {
      BackPass(f, matrix, inverse, n, M0, P, good, bad);
    }
  }

  /** An invertible matrix that gf_inverse_matrix does not invert: the swap of two rows has a zero for its first pivot. */
  lemma SwapHasNoPivot<F(!new)>(f: Field<F>) returns (S: Mat<F>)
    requires IsField(f)
    ensures Shape(S, 2, 2) && Product(f, S, S, 2) == Identity(f, 2) && !NonzeroPivots(f, S, 2)
  {
    S := [Basis(f, 2, 1), Basis(f, 2, 0)];
    LinCombBasis(f, S, 2, 0);
    LinCombBasis(f, S, 2, 1);
    assert Product(f, S, S, 2) == Identity(f, 2);
  }
}
