/** What the parts of a block are (crt/nk8.c:311-317, 384-421), and what gets the block back from them. */
module Nk8Parts {
  import opened Fields
  import opened Linear
  import opened Vandermonde

  /** k bytes at a time, with zeros after the last byte. */
  function Chunks<F>(f: Field<F>, b: Vec<F>, k: nat): (r: seq<Vec<F>>)
    requires k > 0
    ensures forall j :: 0 <= j < |r| ==> |r[j]| == k
    ensures |r| == 0 <==> |b| == 0
  {
    if b == [] then []
    else if |b| < k then [b + Zeros(f, k - |b|)]
    else [b[..k]] + Chunks(f, b[k..], k)
  }

  /** The part with this identifier: the values at `id` of the polynomials that the chunks are. */
  function Part<F>(f: Field<F>, b: Vec<F>, k: nat, id: F): (r: Vec<F>)
    requires k > 0
    ensures |r| == |Chunks(f, b, k)|
  {
    var cs := Chunks(f, b, k);
    seq(|cs|, j requires 0 <= j < |cs| => Eval(f, cs[j], id))
  }

  function PartSize(size: nat, k: nat): nat
    requires k > 0
  {
    size / k + if size % k != 0 then 1 else 0
  }

  lemma {:induction false} MulLt(a: nat, b: nat, k: nat)
    ensures a < b ==> a * k + k <= b * k
    decreases b
  {
    if a < b {
      MulLt(a, b - 1, k);
      assert b * k == (b - 1) * k + k;
    }
  }

  lemma CeilUnique(size: nat, k: nat, a: nat, b: nat)
    requires size <= a * k < size + k && size <= b * k < size + k
    ensures a == b
  {
    MulLt(a, b, k);
    MulLt(b, a, k);
  }

  /** The least number of parts of size k that cover `size` bytes. */
  lemma PartSizeBounds(size: nat, k: nat)
    requires k > 0
    ensures size <= PartSize(size, k) * k < size + k
  {
    var q, r := size / k, size % k;
    assert size == q * k + r;
    assert (q + 1) * k == q * k + k;
  }

  lemma {:induction false} ChunkBounds<F(!new)>(f: Field<F>, b: Vec<F>, k: nat)
    requires k > 0
    ensures |b| <= |Chunks(f, b, k)| * k < |b| + k
    decreases |b|
  {
    if |b| >= k {
      var c := |Chunks(f, b[k..], k)|;
      ChunkBounds(f, b[k..], k);
      assert (c + 1) * k == c * k + k;
    }
  }

  lemma ChunkCount<F(!new)>(f: Field<F>, b: Vec<F>, k: nat)
    requires k > 0
    ensures |Chunks(f, b, k)| == PartSize(|b|, k)
  {
    ChunkBounds(f, b, k);
    PartSizeBounds(|b|, k);
    CeilUnique(|b|, k, |Chunks(f, b, k)|, PartSize(|b|, k));
  }

  /** Chunk j begins at byte j k; the last one may be short. */
  lemma {:induction false} ChunkAt<F(!new)>(f: Field<F>, b: Vec<F>, k: nat, j: nat)
    requires k > 0 && j < |Chunks(f, b, k)|
    ensures 0 <= j * k < |b|
    ensures j * k + k <= |b| ==> Chunks(f, b, k)[j] == b[j * k..j * k + k]
    ensures j * k + k > |b| ==> Chunks(f, b, k)[j] == b[j * k..] + Zeros(f, j * k + k - |b|) && |Chunks(f, b, k)| == j + 1
    decreases j
  {
    if j > 0 {
      var o := (j - 1) * k;
      assert j * k == o + k;
      ChunkAt(f, b[k..], k, j - 1);
      assert b[k..][o..] == b[o + k..];
      if o + k + k <= |b| {
        assert b[k..][o..o + k] == b[o + k..o + k + k];
      }
    }
  }

  /** The first `size` bytes of the chunks in a row. */
  function Joined<F>(cs: seq<Vec<F>>, size: nat): Vec<F>
    decreases |cs|
  {
    if cs == [] then []
    else if size <= |cs[0]| then cs[0][..size]
    else cs[0] + Joined(cs[1..], size - |cs[0]|)
  }

  lemma {:induction false} JoinedChunks<F(!new)>(f: Field<F>, b: Vec<F>, k: nat)
    requires k > 0
    ensures Joined(Chunks(f, b, k), |b|) == b
    decreases |b|
  {
    if b != [] {
      var cs := Chunks(f, b, k);
      if |b| >= k {
        JoinedChunks(f, b[k..], k);
        assert cs[1..] == Chunks(f, b[k..], k);
      }
    }
  }

  lemma {:induction false} JoinedAppend<F>(cs: seq<Vec<F>>, c: Vec<F>, k: nat, extra: nat)
    requires k > 0 && (forall j :: 0 <= j < |cs| ==> |cs[j]| == k) && extra <= |c|
    ensures 0 <= |cs| * k
    ensures Joined(cs + [c], |cs| * k + extra) == Joined(cs, |cs| * k) + c[..extra]
    ensures |Joined(cs, |cs| * k)| == |cs| * k
  {
    if cs == [] {
      assert cs + [c] == [c] && [c][1..] == [];
    } else {
      var n := |cs| - 1;
      assert |cs| * k == n * k + k;
      JoinedAppend(cs[1..], c, k, extra);
      assert (cs + [c])[1..] == cs[1..] + [c];
      NonNegative(n, k);
      if n == 0 {
        assert cs[1..] == [] && cs[0][..k] == cs[0];
        assert Joined(cs, k) == cs[0];
      }
    }
  }

  lemma NonNegative(n: nat, k: nat)
    ensures n * k >= 0
  {
  }

  // ---------------------------------------------------------------- the block from its parts

  /** D is a block with these parts. */
  ghost predicate Shares<F>(f: Field<F>, D: Vec<F>, k: nat, parts: seq<Vec<F>>, ids: Vec<F>) {
    k > 0 && |parts| == |ids| && forall i :: 0 <= i < |ids| ==> parts[i] == Part(f, D, k, ids[i])
  }

  function Column<F>(parts: seq<Vec<F>>, j: nat): (r: Vec<F>)
    requires forall i :: 0 <= i < |parts| ==> j < |parts[i]|
    ensures |r| == |parts|
  {
    seq(|parts|, i requires 0 <= i < |parts| => parts[i][j])
  }

  /** Byte j of k parts and the inverse of the matrix of powers give chunk j. */
  lemma ChunkFromParts<F(!new)>(f: Field<F>, D: Vec<F>, k: nat, parts: seq<Vec<F>>, xs: Vec<F>, R: Mat<F>, j: nat)
    requires IsField(f) && |xs| == k && Shares(f, D, k, parts, xs) && Shape(R, k, k) && j < |Chunks(f, D, k)|
    requires Product(f, Powers(f, xs), R, k) == Identity(f, k)
    ensures forall i :: 0 <= i < k ==> j < |parts[i]|
    ensures LinComb(f, Column(parts, j), R, k) == Chunks(f, D, k)[j]
  {
    forall i | 0 <= i < k
      ensures j < |parts[i]| && parts[i][j] == Eval(f, Chunks(f, D, k)[j], xs[i])
    {
      assert parts[i] == Part(f, D, k, xs[i]);
    }
    DataFromParts(f, Chunks(f, D, k)[j], Column(parts, j), xs, R);
  }

  lemma BlockFromParts<F(!new)>(f: Field<F>, D: Vec<F>, k: nat, parts: seq<Vec<F>>, xs: Vec<F>, R: Mat<F>, cs: seq<Vec<F>>)
    requires IsField(f) && |xs| == k && Shares(f, D, k, parts, xs) && Shape(R, k, k)
    requires Product(f, Powers(f, xs), R, k) == Identity(f, k)
    requires |cs| == PartSize(|D|, k) && forall i :: 0 <= i < k ==> |parts[i]| >= |cs|
    requires forall j :: 0 <= j < |cs| ==> cs[j] == LinComb(f, Column(parts, j), R, k)
    ensures Joined(cs, |D|) == D
  {
    hide IsField, Chunks, LinComb, Joined;
    ChunkCount(f, D, k);
    forall j | 0 <= j < |cs|
      ensures cs[j] == Chunks(f, D, k)[j]
    {
      ChunkFromParts(f, D, k, parts, xs, R, j);
    }
    assert cs == Chunks(f, D, k);
    JoinedChunks(f, D, k);
  }

  // ---------------------------------------------------------------- how many parts it takes

  /** Whatever identifiers are chosen, fewer than k of them and fewer than the block has bytes, the block shares their parts
      with another one. */
  lemma TooFewParts<F(!new)>(f: Field<F>, D: Vec<F>, k: nat, xs: Vec<F>) returns (E: Vec<F>)
    requires IsField(f) && |xs| < k && |xs| < |D|
    ensures |E| == |D| && E != D
    ensures forall i :: 0 <= i < |xs| ==> Part(f, E, k, xs[i]) == Part(f, D, k, xs[i])
  {
    hide Eval, WithRoots;
    var p := WithRoots(f, xs);
    WithRootsMonic(f, xs);
    var n := if |D| < k then |D| else k;
    var c := AddLow(f, D[..n], f.one, p);
    E := c + D[n..];
    Shifted(f, D[|xs|], f.one);
    assert E[|xs|] == c[|xs|] != D[|xs|];
    assert E[..n] == c && E[n..] == D[n..];
    forall i | 0 <= i < |xs|
      ensures Part(f, E, k, xs[i]) == Part(f, D, k, xs[i])
    {
      WithRootsEval(f, xs, i);
      EvalAddLow(f, D[..n], f.one, p, xs[i]);
      MulZero(f, f.one);
      Unit(f, Eval(f, D[..n], xs[i]));
      SamePart(f, D, E, k, n, xs[i]);
    }
  }

  /** Blocks that differ in their first chunks only, which have the same value there. */
  lemma SamePart<F(!new)>(f: Field<F>, D: Vec<F>, E: Vec<F>, k: nat, n: nat, x: F)
    requires IsField(f) && k > 0 && |E| == |D| > 0 && n == (if |D| < k then |D| else k)
    requires E[n..] == D[n..] && Eval(f, E[..n], x) == Eval(f, D[..n], x)
    ensures Part(f, E, k, x) == Part(f, D, k, x)
  {
    hide IsField, Eval;
    if |D| < k {
      assert D[..n] == D && E[..n] == E;
      EvalPadded(f, D, k - |D|, x);
      EvalPadded(f, E, k - |D|, x);
    }
  }

  lemma {:induction false} EvalPadded<F(!new)>(f: Field<F>, p: Vec<F>, n: nat, x: F)
    requires IsField(f)
    ensures Eval(f, p + Zeros(f, n), x) == Eval(f, p, x)
  {
    if n == 0 {
      assert p + Zeros(f, 0) == p;
    } else {
      EvalPadded(f, p, n - 1, x);
      assert p + Zeros(f, n) == (p + Zeros(f, n - 1)) + [f.zero];
      EvalAppend(f, p + Zeros(f, n - 1), f.zero, x);
      MulZero(f, Pow(f, x, |p| + n - 1));
      Unit(f, Eval(f, p, x));
    }
  }

  /** Two polynomials of n coefficients that agree in n places are the same. */
  lemma {:induction false} ValuesDecide<F(!new)>(f: Field<F>, p: Vec<F>, q: Vec<F>, xs: Vec<F>)
    requires IsField(f) && |p| == |q| <= |xs| && Distinct(xs)
    requires forall i :: 0 <= i < |xs| ==> Eval(f, p, xs[i]) == Eval(f, q, xs[i])
    ensures p == q
    decreases |p|
  {
    if |p| > 0 {
      var n := |p| - 1;
      if p[n] != q[n] {
        LeadersDiffer(f, p, q, xs);
      } else {
        forall i | 0 <= i < |xs|
          ensures Eval(f, p[..n], xs[i]) == Eval(f, q[..n], xs[i])
        {
          assert p == p[..n] + [p[n]] && q == q[..n] + [q[n]];
          EvalAppend(f, p[..n], p[n], xs[i]);
          EvalAppend(f, q[..n], q[n], xs[i]);
          Cancel(f, Eval(f, p[..n], xs[i]), f.mul(Pow(f, xs[i], n), p[n]));
          Cancel(f, Eval(f, q[..n], xs[i]), f.mul(Pow(f, xs[i], n), p[n]));
        }
        ValuesDecide(f, p[..n], q[..n], xs);
        assert p == p[..n] + [p[n]] && q == q[..n] + [q[n]];
      }
    }
  }

  /** Their difference over its leading coefficient would be monic with too many roots. */
  lemma LeadersDiffer<F(!new)>(f: Field<F>, p: Vec<F>, q: Vec<F>, xs: Vec<F>)
    requires IsField(f) && 0 < |p| == |q| <= |xs| && Distinct(xs) && p[|p| - 1] != q[|p| - 1]
    ensures exists i :: 0 <= i < |xs| && Eval(f, p, xs[i]) != Eval(f, q, xs[i])
  {
    var n := |p| - 1;
    var d := AddLow(f, p, f.one, q);
    Unit(f, q[n]);
    if d[n] == f.zero {
      SumZero(f, p[n], q[n]);
    }
    var c := f.inv(d[n]);
    var r := AddLow(f, Zeros(f, n + 1), c, d);
    Unit(f, d[n]);
    Unit(f, f.one);
    assert Monic(f, r, n);
    if forall i :: 0 <= i < |xs| ==> Eval(f, p, xs[i]) == Eval(f, q, xs[i]) {
      forall i | 0 <= i < |xs|
        ensures Eval(f, r, xs[i]) == f.zero
      {
        EvalAddLow(f, p, f.one, q, xs[i]);
        EvalAddLow(f, Zeros(f, n + 1), c, d, xs[i]);
        Unit(f, Eval(f, q, xs[i]));
        EvalPadded(f, [], n + 1, xs[i]);
        assert [] + Zeros(f, n + 1) == Zeros(f, n + 1);
        MulZero(f, c);
        Unit(f, f.zero);
      }
      RootBound(f, r, n, xs);
    }
  }

  /** k different identifiers, or as many as the block has bytes, leave no choice. */
  lemma EnoughParts<F(!new)>(f: Field<F>, D: Vec<F>, E: Vec<F>, k: nat, xs: Vec<F>)
    requires IsField(f) && k > 0 && |E| == |D| && Distinct(xs) && (|xs| >= k || |xs| >= |D|)
    requires forall i :: 0 <= i < |xs| ==> Part(f, E, k, xs[i]) == Part(f, D, k, xs[i])
    ensures E == D
  {
    hide IsField, Chunks, Joined, Eval;
    ChunkCount(f, D, k);
    ChunkCount(f, E, k);
    var cs, es := Chunks(f, D, k), Chunks(f, E, k);
    forall j | 0 <= j < |cs|
      ensures cs[j] == es[j]
    {
      forall i | 0 <= i < |xs|
        ensures Eval(f, cs[j], xs[i]) == Eval(f, es[j], xs[i])
      {
        assert Part(f, D, k, xs[i])[j] == Part(f, E, k, xs[i])[j];
      }
      if |xs| >= k {
        ValuesDecide(f, cs[j], es[j], xs);
      } else {
        ShortBlock(f, D, E, k, xs);
      }
    }
    assert cs == es;
    JoinedChunks(f, D, k);
    JoinedChunks(f, E, k);
  }

  lemma ShortBlock<F(!new)>(f: Field<F>, D: Vec<F>, E: Vec<F>, k: nat, xs: Vec<F>)
    requires IsField(f) && 0 < |D| < k && |E| == |D| <= |xs| && Distinct(xs)
    requires forall i :: 0 <= i < |xs| ==> Eval(f, Chunks(f, D, k)[0], xs[i]) == Eval(f, Chunks(f, E, k)[0], xs[i])
    ensures E == D
  {
    forall i | 0 <= i < |xs|
      ensures Eval(f, D, xs[i]) == Eval(f, E, xs[i])
    {
      EvalPadded(f, D, k - |D|, xs[i]);
      EvalPadded(f, E, k - |D|, xs[i]);
    }
    ValuesDecide(f, D, E, xs);
  }

  lemma Shifted<F(!new)>(f: Field<F>, a: F, b: F)
    requires IsField(f) && b != f.zero
    ensures f.add(a, f.mul(f.one, b)) != a
  {
    Unit(f, b);
    Unit(f, a);
    Assoc(f, a, a, b);
  }
}
