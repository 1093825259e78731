/** nk8_split_block and nk8_assemble_block of crt/nk8.c:319-599. */
module Nk8 {
  import opened Common
  import opened Fields
  import opened Linear
  import opened Vandermonde
  import opened Gf256Bits
  import opened Nk8Parts
  import opened Nk8Tables

  type Bytes = seq<Byte>

  datatype Err = Ok | EINVAL | EAGAIN | EFAULT

  const MIN_N := 2
  const MAX_N := 255
  const MIN_K := 2
  const MAX_K := 254

  /** Block sizes for which the index arithmetic stays within an int. */
  const INT_MAX := 0x7fff_ffff

  /** What both operations check. */
  predicate Params(size: nat, n: int, k: int) {
    MIN_N <= n <= MAX_N && MIN_K <= k <= MAX_K && k <= n && size > 0
  }

  // ---------------------------------------------------------------- identifiers

  /** The distinct elements of s in the order of their first occurrences. */
  function Firsts(s: Bytes): (r: Bytes)
    ensures forall x :: x in r <==> x in s
    ensures Distinct(r)
  {
    if s == [] then []
    else
      var n := |s| - 1;
      assert s == s[..n] + [s[n]];
      if s[n] in s[..n] then Firsts(s[..n]) else Firsts(s[..n]) + [s[n]]
  }

  lemma ElementsAppend<T>(s: seq<T>, x: T)
    ensures |Elements(s + [x])| == |Elements(s)| + if x in s then 0 else 1
  {
    assert Elements(s + [x]) == Elements(s) + {x};
    if x in s {
      assert Elements(s + [x]) == Elements(s);
    } else {
      assert x !in Elements(s);
    }
  }

  lemma {:induction false} FirstsCount(s: Bytes)
    ensures |Firsts(s)| == |Elements(s)|
  {
    if s != [] {
      var n := |s| - 1;
      FirstsCount(s[..n]);
      ElementsAppend(s[..n], s[n]);
      assert s == s[..n] + [s[n]];
    }
  }

  method Contains(s: Bytes, n: nat, x: Byte) returns (found: bool)
    requires n <= |s|
    ensures found <==> x in s[..n]
  {
    var j := 0;
    while j < n
      invariant 0 <= j <= n && x !in s[..j]
    {
      if s[j] == x {
        return true;
      }
      j := j + 1;
    }
    return false;
  }

  /** nk8_gen_part_ids. `draws` is what the random generator gives, each from 1 to 255; it is asked again as long
      as an identifier comes twice. */
  method GenPartIds(n: nat, draws: Bytes) returns (ok: bool, ids: Bytes)
    requires ZERO !in draws
    ensures ok <==> |Elements(draws)| >= n
    ensures ok ==> |ids| == n && Distinct(ids) && ZERO !in ids
  {
    ids := [];
    var p := 0;
    while |ids| < n && p < |draws|
      invariant 0 <= p <= |draws| && |ids| <= n && ids == Firsts(draws[..p])
    {
      var found := Contains(ids, |ids|, draws[p]);
      assert ids[..|ids|] == ids && draws[..p + 1] == draws[..p] + [draws[p]];
      assert draws[..p + 1][..p] == draws[..p];
      if !found {
        ids := ids + [draws[p]];
      }
      p := p + 1;
    }
    ok := |ids| == n;
    FirstsCount(draws[..p]);
    assert Elements(draws[..p]) <= Elements(draws);
    assert |Elements(draws[..p])| <= |Elements(draws)| by {
      SubsetSize(Elements(draws[..p]), Elements(draws));
    }
    assert p == |draws| ==> draws[..p] == draws;
  }

  // ---------------------------------------------------------------- splitting

  method NewBuffer(n: nat) returns (b: array<Byte>)
    ensures fresh(b) && b.Length == n
  {
    b := new Byte[n](_ => ZERO);
  }

  /** 1, id, id^2, ... */
  function PowerVector(f: Field<Byte>, id: Byte, k: nat): (r: Bytes)
    ensures |r| == k && forall m :: 0 <= m < k ==> r[m] == Pow(f, id, m)
  {
    seq(k, m requires 0 <= m < k => Pow(f, id, m))
  }

  method PowersOf(t: Tables, k: nat, id: Byte) returns (r: Bytes)
    requires t.Valid() && t.inited && k > 0
    ensures r == PowerVector(t.f, id, k)
  {
    hide Tables.Valid;
    var sv := NewBuffer(k);
    sv[0] := t.f.one;
    var j := 1;
    while j < k
      invariant 1 <= j <= k && forall m :: 0 <= m < j ==> sv[m] == Pow(t.f, id, m)
    {
      var r := t.Mult(sv[j - 1], id);
      sv[j] := r;
      j := j + 1;
    }
    r := sv[..];
  }

  method PartByte(t: Tables, sv: Bytes, id: Byte, data: Bytes) returns (curr: Byte)
    requires t.Valid() && t.inited && sv == PowerVector(t.f, id, |data|)
    ensures curr == Eval(t.f, data, id)
  {
    curr := t.f.zero;
    var m := 0;
    while m < |data|
      invariant 0 <= m <= |data| && curr == Eval(t.f, data[..m], id)
    {
      var r := t.Mult(sv[m], data[m]);
      EvalAppend(t.f, data[..m], data[m], id);
      assert data[..m + 1] == data[..m] + [data[m]];
      curr := t.f.add(curr, r);
      m := m + 1;
    }
    assert data[..m] == data;
  }

  /** How the block is cut: `full` whole chunks, then `tail` bytes more. */
  ghost predicate CutAs(size: nat, k: nat, full: nat, tail: nat) {
    k > 0 && tail < k && full * k + tail == size && PartSize(size, k) == full + if tail > 0 then 1 else 0
  }

  method Cut(size: nat, k: nat) returns (full: nat, tail: nat)
    requires k > 0 && size > 0
    ensures CutAs(size, k, full, tail)
  {
    full, tail := PartSize(size, k), 0;
    PartSizeBounds(size, k);
    if full * k > size {
      assert full > 0 && (full - 1) * k == full * k - k;
      tail := size - (full - 1) * k;
      full := full - 1;
    }
  }

  /** Byte j of a part, for a chunk that is whole and for one that is not. */
  lemma ByteOfPart(f: Field<Byte>, block: Bytes, k: nat, id: Byte, j: nat, full: nat, tail: nat)
    requires CutAs(|block|, k, full, tail) && j < PartSize(|block|, k)
    ensures |Part(f, block, k, id)| == PartSize(|block|, k)
    ensures j < full ==> j * k + k <= |block| && Part(f, block, k, id)[j] == Eval(f, block[j * k..j * k + k], id)
    ensures j == full ==> Part(f, block, k, id)[j] == Eval(f, block[|block| - tail..] + Zeros(f, k - tail), id)
  {
    ChunkCount(f, block, k);
    ChunkAt(f, block, k, j);
    MulLt(j, full, k);
  }

  method WholeByte(t: Tables, sv: Bytes, block: Bytes, k: nat, id: Byte, j: nat, ghost full: nat, ghost tail: nat)
    returns (b: Byte)
    requires t.Valid() && t.inited && CutAs(|block|, k, full, tail) && j < full
    requires sv == PowerVector(t.f, id, k)
    ensures j < |Part(t.f, block, k, id)| && b == Part(t.f, block, k, id)[j]
  {
    ByteOfPart(t.f, block, k, id, j, full, tail);
    b := PartByte(t, sv, id, block[j * k..j * k + k]);
  }

  method TailByte(t: Tables, sv: Bytes, block: Bytes, k: nat, id: Byte, full: nat, tail: nat) returns (b: Byte)
    requires t.Valid() && t.inited && CutAs(|block|, k, full, tail) && tail > 0
    requires sv == PowerVector(t.f, id, k)
    ensures full < |Part(t.f, block, k, id)| && b == Part(t.f, block, k, id)[full]
  {
    ByteOfPart(t.f, block, k, id, full, full, tail);
    b := PartByte(t, sv, id, block[|block| - tail..] + Zeros(t.f, k - tail));
  }

  /** The part for one identifier. */
  method PartOf(t: Tables, block: Bytes, k: nat, id: Byte) returns (part: Bytes)
    requires t.Valid() && t.inited && k > 0 && |block| > 0
    ensures part == Part(t.f, block, k, id)
  {
    var sv := PowersOf(t, k, id);
    var full, tail := Cut(|block|, k);
    ghost var P := Part(t.f, block, k, id);
    ChunkCount(t.f, block, k);
    part := [];
    var j := 0;
    while j < full
      invariant 0 <= j <= full && part == P[..j]
    {
      var b := WholeByte(t, sv, block, k, id, j, full, tail);
      part := part + [b];
      j := j + 1;
    }
    if tail > 0 {
      var b := TailByte(t, sv, block, k, id, full, tail);
      part := part + [b];
    }
  }

  /** nk8_split_block. `draws` is what the random generator gives. */
  method SplitBlock(t: Tables, block: Bytes, n: int, k: int, draws: Bytes) returns (err: Err, parts: seq<Bytes>, ids: Bytes)
    requires t.Valid() && |block| <= INT_MAX && ZERO !in draws && (Params(|block|, n, k) ==> |Elements(draws)| >= n)
    ensures err == if !(2 <= n <= 255 && 2 <= k <= 254 && k <= n && |block| > 0) then EINVAL else if !t.inited then EAGAIN else Ok
    ensures err == Ok ==> |ids| == n && Distinct(ids) && ZERO !in ids && Shares(t.f, block, k, parts, ids)
  {
    parts, ids := [], [];
    if !Params(|block|, n, k) {
      return EINVAL, parts, ids;
    }
    if !t.inited {
      return EAGAIN, parts, ids;
    }
    var ok;
    ok, ids := GenPartIds(n, draws);
    var i := 0;
    while i < n
      invariant 0 <= i <= n && |parts| == i
      invariant forall x :: 0 <= x < i ==> parts[x] == Part(t.f, block, k, ids[x])
    {
      var part := PartOf(t, block, k, ids[i]);
      parts := parts + [part];
      i := i + 1;
    }
    err := Ok;
  }
}
