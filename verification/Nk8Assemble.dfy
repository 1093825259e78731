/** nk8_assemble_block of crt/nk8.c:446-599, and the round trip. */
module Nk8Assemble {
  import opened Common
  import opened Fields
  import opened Linear
  import opened Elimination
  import opened Vandermonde
  import opened Gf256Bits
  import opened Nk8Parts
  import opened Nk8Tables
  import opened Nk8

  // ---------------------------------------------------------------- which parts are used

  /** xs and sparts are taken from ids and parts, at the positions `at`. */
  ghost predicate Taken(parts: seq<Bytes>, ids: Bytes, sparts: seq<Bytes>, xs: Bytes, at: seq<nat>) {
    && |sparts| == |xs| == |at|
    && forall j :: 0 <= j < |at| ==> at[j] < |ids| && at[j] < |parts| && xs[j] == ids[at[j]] && sparts[j] == parts[at[j]]
  }

  /** The identifier at i has not come before, and fewer than k different ones have. */
  ghost predicate Used(ids: Bytes, k: nat, i: nat) {
    i < |ids| && ids[i] !in ids[..i] && |Elements(ids[..i])| < k
  }

  /** The parts that are used are those of D; nothing is said of the others. */
  ghost predicate SharesUsed(f: Field<Byte>, D: Bytes, k: nat, parts: seq<Bytes>, ids: Bytes) {
    k > 0 && |parts| == |ids| && forall i :: 0 <= i < |ids| && Used(ids, k, i) ==> parts[i] == Part(f, D, k, ids[i])
  }

  lemma {:induction false} FirstsPrefix(s: Bytes, n: nat)
    requires n <= |s|
    ensures Firsts(s[..n]) <= Firsts(s)
  {
    if n < |s| {
      var m := |s| - 1;
      FirstsPrefix(s[..m], n);
      assert s[..m][..n] == s[..n];
    } else {
      assert s[..n] == s;
    }
  }

  /** The first k different identifiers with their parts, or all the different ones if they are fewer. */
  method PickParts(parts: seq<Bytes>, ids: Bytes, k: nat) returns (sparts: seq<Bytes>, xs: Bytes, ghost at: seq<nat>)
    requires |parts| == |ids| && k > 0
    ensures Taken(parts, ids, sparts, xs, at) && Distinct(xs) && |xs| <= k
    ensures |xs| == k <==> |Elements(ids)| >= k
    ensures xs <= Firsts(ids) && |xs| == (if |Firsts(ids)| < k then |Firsts(ids)| else k)
    ensures forall j :: 0 <= j < |at| ==> Used(ids, k, at[j])
  {
    sparts, xs, at := [], [], [];
    var i := 0;
    while i < |ids| && |xs| < k
      invariant 0 <= i <= |ids| && |xs| <= k && xs == Firsts(ids[..i]) && Taken(parts, ids, sparts, xs, at)
      invariant forall j :: 0 <= j < |at| ==> Used(ids, k, at[j])
    {
      var found := Contains(ids, i, ids[i]);
      FirstsCount(ids[..i]);
      assert ids[..i + 1] == ids[..i] + [ids[i]] && ids[..i + 1][..i] == ids[..i];
      if !found {
        sparts, xs, at := sparts + [parts[i]], xs + [ids[i]], at + [i];
      }
      i := i + 1;
    }
    FirstsCount(ids[..i]);
    FirstsCount(ids);
    FirstsPrefix(ids, i);
    SubsetSize(Elements(ids[..i]), Elements(ids));
    assert i == |ids| ==> ids[..i] == ids;
  }

  lemma SharesTaken(f: Field<Byte>, D: Bytes, k: nat, parts: seq<Bytes>, ids: Bytes, sparts: seq<Bytes>, xs: Bytes, at: seq<nat>)
    requires Taken(parts, ids, sparts, xs, at) && SharesUsed(f, D, k, parts, ids)
    requires forall j :: 0 <= j < |at| ==> Used(ids, k, at[j])
    ensures Shares(f, D, k, sparts, xs)
  {
  }

  // ---------------------------------------------------------------- the matrix

  method NewMatrix(k: nat) returns (a: array2<Byte>)
    ensures fresh(a) && a.Length0 == a.Length1 == k
  {
    a := new Byte[k, k]((_, _) => ZERO);
  }

  lemma NextPower(f: Field<Byte>, x: Byte, k: nat, m: nat)
    requires 0 < m < k
    ensures PowerVector(f, x, k)[m] == f.mul(PowerVector(f, x, k)[m - 1], x)
  {
  }

  /** Column i: its powers from the second on. */
  method FillColumn(t: Tables, a: array2<Byte>, x: Byte, i: nat, ghost pv: Bytes)
    requires t.Valid() && t.inited && a != t.log && a != t.alog
    requires a.Length0 == a.Length1 == |pv| && i < |pv| && |pv| >= 2 && pv == PowerVector(t.f, x, |pv|)
    requires a[0, i] == pv[0] && a[1, i] == pv[1] == x
    modifies a
    ensures forall m, c :: 0 <= m < |pv| && 0 <= c < |pv| && c != i ==> a[m, c] == old(a[m, c])
    ensures forall m :: 0 <= m < |pv| ==> a[m, i] == pv[m]
  {
    var m := 2;
    while m < a.Length0
      invariant 2 <= m <= |pv| && a[1, i] == x
      invariant forall r, c :: 0 <= r < |pv| && 0 <= c < |pv| && c != i ==> a[r, c] == old(a[r, c])
      invariant forall r :: 0 <= r < m ==> a[r, i] == pv[r]
    {
      NextPower(t.f, x, |pv|, m);
      var p := t.Mult(a[m - 1, i], a[1, i]);
      a[m, i] := p;
      m := m + 1;
    }
  }

  method PowerMatrix(t: Tables, xs: Bytes) returns (a: array2<Byte>)
    requires t.Valid() && t.inited && |xs| >= 2
    ensures fresh(a) && a.Length0 == a.Length1 == |xs| && Rows(a) == Powers(t.f, xs)
  {
    var k := |xs|;
    a := NewMatrix(k);
    var i := 0;
    while i < k
      invariant 0 <= i <= k
      invariant forall c :: 0 <= c < i ==> a[0, c] == t.f.one && a[1, c] == xs[c]
    {
      a[0, i] := t.f.one;
      a[1, i] := xs[i];
      i := i + 1;
    }
    i := 0;
    while i < k
      invariant 0 <= i <= k
      invariant forall c :: i <= c < k ==> a[0, c] == t.f.one && a[1, c] == xs[c]
      invariant forall m, c :: 0 <= m < k && 0 <= c < i ==> a[m, c] == Pow(t.f, xs[c], m)
    {
      FirstPower(t.f, xs[i]);
      FillColumn(t, a, xs[i], i, PowerVector(t.f, xs[i], k));
      i := i + 1;
    }
    MatrixEqual(a, k, Powers(t.f, xs));
  }

  lemma FirstPower(f: Field<Byte>, x: Byte)
    requires IsField(f)
    ensures Pow(f, x, 0) == f.one && Pow(f, x, 1) == x
  {
    Unit(f, x);
  }

  lemma MatrixEqual(a: array2<Byte>, k: nat, M: Mat<Byte>)
    requires a.Length0 == a.Length1 == k && Shape(M, k, k)
    requires forall m, c :: 0 <= m < k && 0 <= c < k ==> a[m, c] == M[m][c]
    ensures Rows(a) == M
  {
    forall m | 0 <= m < k
      ensures Row(a, m) == M[m]
    {
    }
  }

  // ---------------------------------------------------------------- the data of one chunk

  lemma NextRow(f: Field<Byte>, s: Bytes, A: Mat<Byte>, k: nat, i: nat, m: nat)
    requires Shape(A, |s|, k) && i < |s| && m < k
    ensures LinComb(f, s[..i + 1], A[..i + 1], k)[m] == f.add(LinComb(f, s[..i], A[..i], k)[m], f.mul(s[i], A[i][m]))
  {
    assert s[..i + 1][..i] == s[..i] && A[..i + 1][..i] == A[..i];
  }

  method Entry(t: Tables, s: Bytes, R: array2<Byte>, k: nat, m: nat) returns (curr: Byte)
    requires t.Valid() && t.inited && |s| == k && R.Length0 == R.Length1 == k && m < k
    ensures curr == LinComb(t.f, s, Rows(R), k)[m]
  {
    curr := t.f.zero;
    var i := 0;
    while i < k
      invariant 0 <= i <= k && curr == LinComb(t.f, s[..i], Rows(R)[..i], k)[m]
    {
      NextRow(t.f, s, Rows(R), k, i, m);
      var p := t.Mult(s[i], R[i, m]);
      assert R[i, m] == Rows(R)[i][m];
      curr := t.f.add(curr, p);
      i := i + 1;
    }
    assert s[..i] == s && Rows(R)[..i] == Rows(R);
  }

  method ChunkData(t: Tables, s: Bytes, R: array2<Byte>, k: nat) returns (d: Bytes)
    requires t.Valid() && t.inited && |s| == k && R.Length0 == R.Length1 == k
    ensures d == LinComb(t.f, s, Rows(R), k)
  {
    d := [];
    var m := 0;
    while m < k
      invariant 0 <= m <= k && d == LinComb(t.f, s, Rows(R), k)[..m]
    {
      var e := Entry(t, s, R, k, m);
      d := d + [e];
      m := m + 1;
    }
  }

  method CopyInto(block: array<Byte>, p: nat, d: Bytes, n: nat)
    requires n <= |d| && p + n <= block.Length
    modifies block
    ensures block[..p] == old(block[..p]) && block[p..p + n] == d[..n] && block[p + n..] == old(block[p + n..])
  {
    var m := 0;
    while m < n
      invariant 0 <= m <= n
      invariant block[..p] == old(block[..p]) && block[p..p + m] == d[..m] && block[p + m..] == old(block[p + m..])
    {
      block[p + m] := d[m];
      m := m + 1;
    }
  }

  // ---------------------------------------------------------------- the whole block

  ghost predicate Decoded(f: Field<Byte>, sparts: seq<Bytes>, R: Mat<Byte>, k: nat, cs: seq<Bytes>) {
    && |sparts| == k && Shape(R, k, k) && (forall i :: 0 <= i < k ==> |sparts[i]| >= |cs|)
    && forall j :: 0 <= j < |cs| ==> cs[j] == LinComb(f, Column(sparts, j), R, k)
  }

  method ReadColumn(sparts: seq<Bytes>, j: nat) returns (s: Bytes)
    requires forall i :: 0 <= i < |sparts| ==> j < |sparts[i]|
    ensures s == Column(sparts, j)
  {
    s := [];
    var i := 0;
    while i < |sparts|
      invariant 0 <= i <= |sparts| && s == Column(sparts, j)[..i]
    {
      s := s + [sparts[i][j]];
      i := i + 1;
    }
  }

  method NextChunk(t: Tables, sparts: seq<Bytes>, R: array2<Byte>, k: nat, j: nat, ghost cs: seq<Bytes>)
    returns (d: Bytes, ghost cs': seq<Bytes>)
    requires t.Valid() && t.inited && R.Length0 == R.Length1 == k && Decoded(t.f, sparts, Rows(R), k, cs) && j == |cs|
    requires forall i :: 0 <= i < k ==> |sparts[i]| > j
    ensures |d| == k && cs' == cs + [d] && Decoded(t.f, sparts, Rows(R), k, cs')
  {
    var s := ReadColumn(sparts, j);
    d := ChunkData(t, s, R, k);
    cs' := cs + [d];
  }

  /** The block so far: the first p bytes are the chunks decoded so far. */
  ghost predicate Written(f: Field<Byte>, sparts: seq<Bytes>, R: Mat<Byte>, k: nat, cs: seq<Bytes>, b: Bytes, p: nat) {
    && k > 0 && Decoded(f, sparts, R, k, cs) && p == |cs| * k <= |b| && b[..p] == Joined(cs, p)
  }

  lemma WriteChunk(f: Field<Byte>, sparts: seq<Bytes>, R: Mat<Byte>, k: nat, cs: seq<Bytes>, b: Bytes, p: nat,
      d: Bytes, n: nat, b': Bytes)
    requires Written(f, sparts, R, k, cs, b, p) && Decoded(f, sparts, R, k, cs + [d]) && |d| == k && n <= k
    requires p + n <= |b| == |b'| && b'[..p] == b[..p] && b'[p..p + n] == d[..n]
    ensures b'[..p + n] == Joined(cs + [d], p + n)
    ensures n == k ==> Written(f, sparts, R, k, cs + [d], b', p + k)
  {
    JoinedAppend(cs, d, k, n);
    assert b'[..p + n] == b'[..p] + b'[p..p + n];
    assert (|cs| + 1) * k == |cs| * k + k;
  }

  method WholeChunks(t: Tables, sparts: seq<Bytes>, R: array2<Byte>, k: nat, full: nat, block: array<Byte>)
    returns (ghost cs: seq<Bytes>)
    requires t.Valid() && t.inited && k > 0 && R.Length0 == R.Length1 == k && |sparts| == k
    requires full * k <= block.Length && forall i :: 0 <= i < k ==> |sparts[i]| >= full
    modifies block
    ensures |cs| == full && Written(t.f, sparts, Rows(R), k, cs, block[..], full * k)
  {
    cs := [];
    var j, p := 0, 0;
    while j < full
      invariant 0 <= j <= full && |cs| == j && Written(t.f, sparts, Rows(R), k, cs, block[..], p)
    {
      ghost var b := block[..];
      var d;
      ghost var cs';
      d, cs' := NextChunk(t, sparts, R, k, j, cs);
      MulLt(j, full, k);
      CopyInto(block, p, d, k);
      WriteChunk(t.f, sparts, Rows(R), k, cs, b, p, d, k, block[..]);
      cs := cs';
      j, p := j + 1, p + k;
    }
  }

  method DecodeBlock(t: Tables, sparts: seq<Bytes>, R: array2<Byte>, k: nat, block: array<Byte>) returns (ghost cs: seq<Bytes>)
    requires t.Valid() && t.inited && k > 0 && R.Length0 == R.Length1 == k && |sparts| == k && block.Length > 0
    requires forall i :: 0 <= i < k ==> |sparts[i]| >= PartSize(block.Length, k)
    modifies block
    ensures |cs| == PartSize(block.Length, k) && Decoded(t.f, sparts, Rows(R), k, cs)
    ensures block[..] == Joined(cs, block.Length)
  {
    var full, tail := Cut(block.Length, k);
    cs := WholeChunks(t, sparts, R, k, full, block);
    if tail > 0 {
      ghost var b := block[..];
      var d;
      ghost var cs';
      d, cs' := NextChunk(t, sparts, R, k, full, cs);
      CopyInto(block, block.Length - tail, d, tail);
      WriteChunk(t.f, sparts, Rows(R), k, cs, b, full * k, d, tail, block[..]);
      cs := cs';
    }
    assert block[..block.Length] == block[..];
  }

  lemma AnyBlock(f: Field<Byte>, k: nat, parts: seq<Bytes>, ids: Bytes, sparts: seq<Bytes>, xs: Bytes, at: seq<nat>,
      R: Mat<Byte>, cs: seq<Bytes>, b: Bytes, D: Bytes)
    requires IsField(f) && |xs| == k && Taken(parts, ids, sparts, xs, at) && Decoded(f, sparts, R, k, cs)
    requires Product(f, Powers(f, xs), R, k) == Identity(f, k)
    requires forall j :: 0 <= j < |at| ==> Used(ids, k, at[j])
    requires |D| == |b| && SharesUsed(f, D, k, parts, ids) && |cs| == PartSize(|b|, k) && b == Joined(cs, |b|)
    ensures b == D
  {
    SharesTaken(f, D, k, parts, ids, sparts, xs, at);
    BlockFromParts(f, D, k, sparts, xs, R, cs);
  }

  method Invert(t: Tables, xs: Bytes) returns (ok: bool, R: array2<Byte>)
    requires t.Valid() && t.inited && |xs| >= 2 && Distinct(xs)
    ensures ok && R.Length0 == R.Length1 == |xs| && fresh(R)
    ensures Product(t.f, Powers(t.f, xs), Rows(R), |xs|) == Identity(t.f, |xs|)
  {
    R := NewMatrix(|xs|);
    var a := PowerMatrix(t, xs);
    PowersPivots(t.f, xs);
    ok := InverseMatrix(t.f, a, R, |xs|);
  }

  /** nk8_assemble_block: with k different parts or more, the block that the first k of them are the parts of. */
  method AssembleBlock(t: Tables, parts: seq<Bytes>, ids: Bytes, n: int, k: int, block: array<Byte>) returns (err: Err)
    requires t.Valid() && block.Length <= INT_MAX
    requires Params(block.Length, n, k) ==>
      |parts| == |ids| == n && forall i :: 0 <= i < n ==> |parts[i]| >= PartSize(block.Length, k)
    modifies block
    ensures err == if !(2 <= n <= 255 && 2 <= k <= 254 && k <= n && block.Length > 0) then EINVAL else if !t.inited then EAGAIN
      else if |Elements(ids)| < k then EINVAL else Ok
    ensures err != Ok ==> block[..] == old(block[..])
    ensures err == Ok ==> forall D :: |D| == block.Length && SharesUsed(t.f, D, k, parts, ids) ==> block[..] == D
  {
    if !Params(block.Length, n, k) {
      return EINVAL;
    }
    if !t.inited {
      return EAGAIN;
    }
    var sparts, xs;
    ghost var at;
    sparts, xs, at := PickParts(parts, ids, k);
    if |xs| < k {
      return EINVAL;
    }
    var ok, R := Invert(t, xs);
    if !ok {
      return EFAULT;
    }
    ghost var cs := DecodeBlock(t, sparts, R, k, block);
    forall D | |D| == block.Length && SharesUsed(t.f, D, k, parts, ids)
      ensures block[..] == D
    {
      AnyBlock(t.f, k, parts, ids, sparts, xs, at, Rows(R), cs, block[..], D);
    }
    return Ok;
  }

  // ---------------------------------------------------------------- the round trip

  /** The parts at these positions; a position may come more than once. */
  function Chosen<T>(s: seq<T>, at: seq<nat>): (r: seq<T>)
    requires forall j :: 0 <= j < |at| ==> at[j] < |s|
    ensures |r| == |at| && forall j :: 0 <= j < |at| ==> r[j] == s[at[j]]
  {
    seq(|at|, j requires 0 <= j < |at| => s[at[j]])
  }

  lemma SharesChosen(f: Field<Byte>, D: Bytes, k: nat, parts: seq<Bytes>, ids: Bytes, at: seq<nat>)
    requires Shares(f, D, k, parts, ids) && forall j :: 0 <= j < |at| ==> at[j] < |ids|
    ensures Shares(f, D, k, Chosen(parts, at), Chosen(ids, at))
    ensures forall i :: 0 <= i < |at| ==> |Chosen(parts, at)[i]| == PartSize(|D|, k)
  {
    ChunkCount(f, D, k);
  }

  /** Different identifiers at different positions: as many of one as of the other. */
  lemma {:induction false} ChosenCount(ids: Bytes, at: seq<nat>)
    requires Distinct(ids) && forall j :: 0 <= j < |at| ==> at[j] < |ids|
    ensures |Elements(Chosen(ids, at))| == |Elements(at)|
  {
    if at != [] {
      var n := |at| - 1;
      var rest, last := at[..n], at[n];
      ChosenCount(ids, rest);
      SamePlace(ids, rest, last);
      ElementsAppend(rest, last);
      ElementsAppend(Chosen(ids, rest), ids[last]);
      assert at == rest + [last] && Chosen(ids, at) == Chosen(ids, rest) + [ids[last]];
    }
  }

  lemma SamePlace(ids: Bytes, at: seq<nat>, p: nat)
    requires Distinct(ids) && (forall j :: 0 <= j < |at| ==> at[j] < |ids|) && p < |ids|
    ensures ids[p] in Chosen(ids, at) <==> p in at
  {
    if p in at {
      var j :| 0 <= j < |at| && at[j] == p;
      assert Chosen(ids, at)[j] == ids[p];
    }
  }

  /** Split a block and assemble it from any selection that has k of the parts or more: the same block. */
  method RoundTrip(t: Tables, block: Bytes, n: int, k: int, draws: Bytes, at: seq<nat>) returns (copy: Bytes)
    requires t.Valid() && t.inited && |block| <= INT_MAX && Params(|block|, n, k) && ZERO !in draws && |Elements(draws)| >= n
    requires k <= |at| <= MAX_N && (forall j :: 0 <= j < |at| ==> at[j] < n) && |Elements(at)| >= k
    ensures copy == block
  {
    var err, parts, ids := SplitBlock(t, block, n, k, draws);
    var b := NewBuffer(|block|);
    SharesChosen(t.f, block, k, parts, ids, at);
    ChosenCount(ids, at);
    err := AssembleBlock(t, Chosen(parts, at), Chosen(ids, at), |at|, k, b);
    copy := b[..];
  }
}
