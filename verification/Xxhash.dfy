/** XXH32 and XXH64 of crt/xxhash.c, in one call and fed piece by piece.

    Both have the same shape. A Kit holds what differs: the size of a stripe, how one is folded, and how the last
    bytes are mixed in. */
module Xxhash {
  import opened Common
  import opened Stripes
  import opened Pages

  datatype Kit<!A, !W> = Kit(
    stripe: nat, start: W -> A, step: (A, Bytes) -> A, merge: A -> W, short: W -> W, addLength: (W, nat) -> W,
    wide: nat, mixWide: (W, Bytes) -> W, middle: nat, mixMiddle: (W, Bytes) -> W, mixByte: (W, bv8) -> W,
    avalanche: W -> W)

  predicate Proper<A, W>(k: Kit<A, W>) {
    k.stripe > 0 && k.wide > 0
  }

  // ---------------------------------------------------------------- what the hash is

  /** The last bytes: `wide` at a time, then `middle` of them once if there are as many, then one by one. */
  function Tail<A, W>(k: Kit<A, W>, h: W, d: Bytes): W
    requires Proper(k)
    decreases |d|
  {
    if |d| >= k.wide then Tail(k, k.mixWide(h, d[..k.wide]), d[k.wide..])
    else if 0 < k.middle <= |d| then Singles(k, k.mixMiddle(h, d[..k.middle]), d[k.middle..])
    else Singles(k, h, d)
  }

  function Singles<A, W>(k: Kit<A, W>, h: W, d: Bytes): W
    decreases |d|
  {
    if d == [] then h else Singles(k, k.mixByte(h, d[0]), d[1..])
  }

  function Finish<A, W>(k: Kit<A, W>, seed: W, a: A, total: nat, rest: Bytes): W
    requires Proper(k)
  {
    var h := if total >= k.stripe then k.merge(a) else k.short(seed);
    k.avalanche(Tail(k, k.addLength(h, total), rest))
  }

  function Hash<A, W>(k: Kit<A, W>, seed: W, d: Bytes): W
    requires Proper(k)
  {
    Finish(k, seed, Fold(k.step, k.stripe, k.start(seed), d), |d|, Rest(k.stripe, d))
  }

  // ---------------------------------------------------------------- in one call

  method FinishTail<A, W>(k: Kit<A, W>, h0: W, d: Bytes, p0: nat) returns (h: W)
    requires Proper(k) && p0 <= |d|
    ensures h == k.avalanche(Tail(k, h0, d[p0..]))
  {
    h := h0;
    var p := p0;
    while p + k.wide <= |d|
      invariant p0 <= p <= |d| && Tail(k, h, d[p..]) == Tail(k, h0, d[p0..])
    {
      assert d[p..][..k.wide] == d[p..p + k.wide] && d[p..][k.wide..] == d[p + k.wide..];
      h := k.mixWide(h, d[p..p + k.wide]);
      p := p + k.wide;
    }
    ghost var singles := Tail(k, h, d[p..]);
    if k.middle > 0 && p + k.middle <= |d| {
      assert d[p..][..k.middle] == d[p..p + k.middle] && d[p..][k.middle..] == d[p + k.middle..];
      h := k.mixMiddle(h, d[p..p + k.middle]);
      p := p + k.middle;
    }
    while p < |d|
      invariant p0 <= p <= |d| && Singles(k, h, d[p..]) == singles
    {
      assert d[p..][1..] == d[p + 1..];
      h := k.mixByte(h, d[p]);
      p := p + 1;
    }
    h := k.avalanche(h);
  }

  method OneShot<A, W>(k: Kit<A, W>, d: Bytes, seed: W) returns (r: W)
    requires Proper(k)
    ensures r == Hash(k, seed, d)
  {
    var h, p := k.short(seed), 0;
    assert d[0..] == d;
    if |d| >= k.stripe {
      var a;
      a, p := FoldFrom(k.step, k.stripe, k.start(seed), d, 0);
      h := k.merge(a);
    }
    r := FinishTail(k, k.addLength(h, |d|), d, p);
  }

  // ---------------------------------------------------------------- piece by piece

  ghost predicate Feeds<A, W>(k: Kit<A, W>, seed: W, s: Stream<A>)
    reads s, s.mem
  {
    Proper(k) && s.Valid() && s.n == k.stripe && s.step == k.step && s.start == k.start(seed)
  }

  method Reset<A, W>(k: Kit<A, W>, seed: W) returns (s: Stream<A>)
    requires Proper(k)
    ensures fresh(s) && fresh(s.mem) && Feeds(k, seed, s) && s.data == []
  {
    s := new Stream(k.stripe, k.step, k.start(seed));
  }

  /** The state is only read. */
  method Digest<A, W>(k: Kit<A, W>, seed: W, s: Stream<A>) returns (r: W)
    requires Feeds(k, seed, s)
    ensures r == Hash(k, seed, s.data)
  {
    var h := if s.total >= k.stripe then k.merge(s.acc) else k.short(seed);
    var rest := s.mem[..s.memsize];
    assert rest[0..] == rest;
    r := FinishTail(k, k.addLength(h, s.total), rest, 0);
  }

  lemma {:induction false} ConcatPrefix(pieces: seq<Bytes>, i: nat)
    requires i <= |pieces|
    ensures |Concat(pieces[..i])| <= |Concat(pieces)|
    decreases |pieces|
  {
    if i < |pieces| {
      var n := |pieces| - 1;
      ConcatPrefix(pieces[..n], i);
      assert pieces[..n][..i] == pieces[..i];
    } else {
      assert pieces[..i] == pieces;
    }
  }

  /** However the bytes are cut into updates, the digest is the hash of all of them. */
  method Streaming<A, W>(k: Kit<A, W>, pieces: seq<Bytes>, seed: W) returns (r: W)
    requires Proper(k) && |Concat(pieces)| < U64
    ensures r == Hash(k, seed, Concat(pieces))
  {
    var s := Reset(k, seed);
    var i := 0;
    while i < |pieces|
      invariant 0 <= i <= |pieces| && fresh(s) && fresh(s.mem) && Feeds(k, seed, s) && s.data == Concat(pieces[..i])
    {
      assert pieces[..i + 1][..i] == pieces[..i];
      ConcatPrefix(pieces, i + 1);
      s.Update(pieces[i]);
      i := i + 1;
    }
    assert pieces[..i] == pieces;
    r := Digest(k, seed, s);
  }

  // ---------------------------------------------------------------- sums over pages

  datatype Outcome<W> = Done(sum: W) | EINVAL

  /** nkfs_pages_dsum: page by page, it is the sum that the sender computes over one buffer. */
  method PagesDsum<A, W>(k: Kit<A, W>, seed: W, pages: seq<Bytes>, pagesLen: nat, len: nat) returns (r: Outcome<W>)
    requires Proper(k) && (forall i :: 0 <= i < |pages| ==> |pages[i]| == PAGE_SIZE) && pagesLen <= PAGE_SIZE * |pages| < U64
    ensures |Concat(pages)| == PAGE_SIZE * |pages|
    ensures r == if len > pagesLen then EINVAL else Done(Hash(k, seed, Concat(pages)[..len]))
  {
    ConcatLength(pages);
    if pagesLen < len {
      return EINVAL;
    }
    var s := Reset(k, seed);
    var i, left := 0, len;
    while left > 0
      invariant 0 <= left <= len && len - left <= 4096 * i && (left > 0 ==> len - left == 4096 * i)
      invariant fresh(s) && fresh(s.mem) && Feeds(k, seed, s) && s.data == Concat(pages)[..len - left]
    {
      var ilen := if left > PAGE_SIZE then PAGE_SIZE else left;
      PageBytes(pages, i, ilen);
      s.Update(pages[i][..ilen]);
      left := left - ilen;
      i := i + 1;
    }
    var sum := Digest(k, seed, s);
    r := Done(sum);
  }

  /** The receiver sums a packet page by page, and the sender sums it in one piece. */
  method SumsAgree<A, W>(k: Kit<A, W>, seed: W, pages: seq<Bytes>, len: nat) returns (server: Outcome<W>, client: W)
    requires Proper(k) && (forall i :: 0 <= i < |pages| ==> |pages[i]| == PAGE_SIZE) && len <= PAGE_SIZE * |pages| < U64
    ensures |Concat(pages)| == PAGE_SIZE * |pages| && client == Hash(k, seed, Concat(pages)[..len]) && server == Done(client)
  {
    server := PagesDsum(k, seed, pages, PAGE_SIZE * |pages|, len);
    var buffer := Concat(pages)[..len];
    assert [buffer][..0] == [];
    assert Concat([buffer]) == buffer;
    client := Streaming(k, [buffer], seed);
  }

  /** The same bytes in one call and in pieces. */
  method CallsAgree<A, W>(k: Kit<A, W>, seed: W, pieces: seq<Bytes>) returns (once: W, streamed: W)
    requires Proper(k) && |Concat(pieces)| < U64
    ensures once == streamed == Hash(k, seed, Concat(pieces))
  {
    once := OneShot(k, Concat(pieces), seed);
    streamed := Streaming(k, pieces, seed);
  }

  /** nkfs_pages_create: as many pages as the bytes need. */
  function PageCount(len: nat): (n: nat)
    ensures len <= PAGE_SIZE * n < len + PAGE_SIZE
  {
    len / 4096 + if len % 4096 != 0 then 1 else 0
  }
}

/** XXH64: crt/xxhash.c:358-467, 566-577, 736-919. Words are taken modulo 2^64. */
module Xxh64 {
  import opened Common
  import opened Stripes
  import opened Pages
  import opened Xxhash

  const P1: bv64 := 11400714785074694791
  const P2: bv64 := 14029467366897019727
  const P3: bv64 := 1609587929392839161
  const P4: bv64 := 9650029242287828579
  const P5: bv64 := 2870177450012600261

  /** Byte i of b, in a word. */
  function At(b: Bytes, i: nat): bv64 {
    if i < |b| then b[i] as bv64 else 0
  }

  function Read32(b: Bytes, i: nat): bv64 {
    At(b, i) | (At(b, i + 1) << 8) | (At(b, i + 2) << 16) | (At(b, i + 3) << 24)
  }

  function Read64(b: Bytes, i: nat): bv64 {
    Read32(b, i) | (Read32(b, i + 4) << 32)
  }

  datatype Acc = Acc(v1: bv64, v2: bv64, v3: bv64, v4: bv64)

  function Start(seed: bv64): Acc {
    Acc(seed + P1 + P2, seed + P2, seed, seed - P1)
  }

  function Round(v: bv64, word: bv64): bv64 {
    (v + word * P2).RotateLeft(31) * P1
  }

  function Stripe(a: Acc, b: Bytes): Acc {
    Acc(Round(a.v1, Read64(b, 0)), Round(a.v2, Read64(b, 8)), Round(a.v3, Read64(b, 16)), Round(a.v4, Read64(b, 24)))
  }

  function MergeOne(h: bv64, v: bv64): bv64 {
    (h ^ Round(0, v)) * P1 + P4
  }

  function Merge(a: Acc): bv64 {
    var h := a.v1.RotateLeft(1) + a.v2.RotateLeft(7) + a.v3.RotateLeft(12) + a.v4.RotateLeft(18);
    MergeOne(MergeOne(MergeOne(MergeOne(h, a.v1), a.v2), a.v3), a.v4)
  }

  function AddLength(h: bv64, n: nat): bv64 {
    h + (n % 0x1_0000_0000_0000_0000) as bv64
  }

  function Mix8(h: bv64, b: Bytes): bv64 {
    (h ^ Round(0, Read64(b, 0))).RotateLeft(27) * P1 + P4
  }

  function Mix4(h: bv64, b: Bytes): bv64 {
    (h ^ (Read32(b, 0) * P1)).RotateLeft(23) * P2 + P3
  }

  function Mix1(h: bv64, b: bv8): bv64 {
    (h ^ ((b as bv64) * P5)).RotateLeft(11) * P1
  }

  function Avalanche(h: bv64): bv64 {
    var a := (h ^ (h >> 33)) * P2;
    var b := (a ^ (a >> 29)) * P3;
    b ^ (b >> 32)
  }

  const XXH64: Kit<Acc, bv64> :=
    Kit(32, Start, Stripe, Merge, (seed: bv64) => seed + P5, AddLength, 8, Mix8, 4, Mix4, Mix1, Avalanche)

  /** csum_reset, csum_update and csum_digest of crt/csum.c: the seed is 0. */
  method PacketSums(pages: seq<Bytes>, len: nat) returns (server: Outcome<bv64>, client: bv64)
    requires (forall i :: 0 <= i < |pages| ==> |pages[i]| == PAGE_SIZE) && len <= PAGE_SIZE * |pages| < U64
    ensures |Concat(pages)| == PAGE_SIZE * |pages| && client == Hash(XXH64, 0, Concat(pages)[..len]) && server == Done(client)
  {
    server, client := SumsAgree(XXH64, 0, pages, len);
  }

  method Calls64(pieces: seq<Bytes>, seed: bv64) returns (once: bv64, streamed: bv64)
    requires |Concat(pieces)| < U64
    ensures once == streamed == Hash(XXH64, seed, Concat(pieces))
  {
    once, streamed := CallsAgree(XXH64, seed, pieces);
  }
}

/** XXH32: crt/xxhash.c:253-327, 553-564, 579-734. Words are taken modulo 2^32. */
module Xxh32 {
  import opened Common
  import opened Stripes
  import opened Xxhash

  const P1: bv32 := 2654435761
  const P2: bv32 := 2246822519
  const P3: bv32 := 3266489917
  const P4: bv32 := 668265263
  const P5: bv32 := 374761393

  function At(b: Bytes, i: nat): bv32 {
    if i < |b| then b[i] as bv32 else 0
  }

  function Read32(b: Bytes, i: nat): bv32 {
    At(b, i) | (At(b, i + 1) << 8) | (At(b, i + 2) << 16) | (At(b, i + 3) << 24)
  }

  datatype Acc = Acc(v1: bv32, v2: bv32, v3: bv32, v4: bv32)

  function Start(seed: bv32): Acc {
    Acc(seed + P1 + P2, seed + P2, seed, seed - P1)
  }

  function Round(v: bv32, word: bv32): bv32 {
    (v + word * P2).RotateLeft(13) * P1
  }

  function Stripe(a: Acc, b: Bytes): Acc {
    Acc(Round(a.v1, Read32(b, 0)), Round(a.v2, Read32(b, 4)), Round(a.v3, Read32(b, 8)), Round(a.v4, Read32(b, 12)))
  }

  function Merge(a: Acc): bv32 {
    a.v1.RotateLeft(1) + a.v2.RotateLeft(7) + a.v3.RotateLeft(12) + a.v4.RotateLeft(18)
  }

  function AddLength(h: bv32, n: nat): bv32 {
    h + (n % 0x1_0000_0000) as bv32
  }

  function Mix4(h: bv32, b: Bytes): bv32 {
    (h + Read32(b, 0) * P3).RotateLeft(17) * P4
  }

  function Mix1(h: bv32, b: bv8): bv32 {
    (h + (b as bv32) * P5).RotateLeft(11) * P1
  }

  function Avalanche(h: bv32): bv32 {
    var a := (h ^ (h >> 15)) * P2;
    var b := (a ^ (a >> 13)) * P3;
    b ^ (b >> 16)
  }

  const XXH32: Kit<Acc, bv32> :=
    Kit(16, Start, Stripe, Merge, (seed: bv32) => seed + P5, AddLength, 4, Mix4, 0, Mix4, Mix1, Avalanche)

  method Calls32(pieces: seq<Bytes>, seed: bv32) returns (once: bv32, streamed: bv32)
    requires |Concat(pieces)| < U64
    ensures once == streamed == Hash(XXH32, seed, Concat(pieces))
  {
    once, streamed := CallsAgree(XXH32, seed, pieces);
  }
}
