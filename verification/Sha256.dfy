/** SHA-256 of crt/sha256.c against section 6.2.2 and section 5.1.1 of FIPS 180-4.

    The buffering and the rounds use nothing of the words but the operations that an Ops holds; Sha256Words gives
    them for 32-bit words. */
module Sha256 {
  import opened Stripes

  datatype Ops<!W> = Ops(
    add: (W, W) -> W, small0: W -> W, small1: W -> W, big0: W -> W, big1: W -> W,
    ch: (W, W, W) -> W, maj: (W, W, W) -> W, k: nat -> W, word: Bytes -> W, bytes: W -> Bytes)

  datatype Regs<!W> = Regs(a: W, b: W, c: W, d: W, e: W, f: W, g: W, h: W)

  // ---------------------------------------------------------------- section 6.2.2

  function Schedule<W>(o: Ops<W>, block: Bytes, t: nat): W
    requires |block| == 64
  {
    if t < 16 then o.word(block[4 * t..4 * t + 4])
    else o.add(o.add(o.add(o.small1(Schedule(o, block, t - 2)), Schedule(o, block, t - 7)),
      o.small0(Schedule(o, block, t - 15))), Schedule(o, block, t - 16))
  }

  function T1<W>(o: Ops<W>, e: W, f: W, g: W, h: W, k: W, w: W): W {
    o.add(o.add(o.add(o.add(h, o.big1(e)), o.ch(e, f, g)), k), w)
  }

  function T2<W>(o: Ops<W>, a: W, b: W, c: W): W {
    o.add(o.big0(a), o.maj(a, b, c))
  }

  /** One round: every register moves on by one. */
  function RoundStep<W>(o: Ops<W>, s: Regs<W>, k: W, w: W): Regs<W> {
    var t1 := T1(o, s.e, s.f, s.g, s.h, k, w);
    Regs(o.add(t1, T2(o, s.a, s.b, s.c)), s.a, s.b, s.c, o.add(s.d, t1), s.e, s.f, s.g)
  }

  function Rounds<W>(o: Ops<W>, s: Regs<W>, block: Bytes, t: nat): Regs<W>
    requires |block| == 64
  {
    if t == 0 then s else RoundStep(o, Rounds(o, s, block, t - 1), o.k(t - 1), Schedule(o, block, t - 1))
  }

  function AddRegs<W>(o: Ops<W>, s: Regs<W>, r: Regs<W>): Regs<W> {
    Regs(o.add(s.a, r.a), o.add(s.b, r.b), o.add(s.c, r.c), o.add(s.d, r.d),
      o.add(s.e, r.e), o.add(s.f, r.f), o.add(s.g, r.g), o.add(s.h, r.h))
  }

  function Compress<W>(o: Ops<W>, s: Regs<W>, block: Bytes): Regs<W> {
    if |block| == 64 then AddRegs(o, s, Rounds(o, s, block, 64)) else s
  }

  // ---------------------------------------------------------------- sha256_process

  /** The macro P: d and h are the two registers that change. */
  function P<W>(o: Ops<W>, a: W, b: W, c: W, d: W, e: W, f: W, g: W, h: W, x: W, k: W): (r: (W, W)) {
    var temp1 := T1(o, e, f, g, h, k, x);
    (o.add(d, temp1), o.add(temp1, T2(o, a, b, c)))
  }

  ghost predicate Filled<W>(o: Ops<W>, w: array<W>, block: Bytes, t: nat)
    requires |block| == 64 && w.Length == 64 && t <= 64
    reads w
  {
    forall i :: 0 <= i < t ==> w[i] == Schedule(o, block, i)
  }

  /** The macro R, from the sixteenth word on. */
  method NextWord<W>(o: Ops<W>, w: array<W>, t: nat, ghost block: Bytes) returns (x: W)
    requires |block| == 64 && w.Length == 64 && t < 64 && Filled(o, w, block, if t < 16 then 16 else t)
    modifies w
    ensures Filled(o, w, block, if t + 1 < 16 then 16 else t + 1) && x == Schedule(o, block, t)
  {
    if t >= 16 {
      w[t] := o.add(o.add(o.add(o.small1(w[t - 2]), w[t - 7]), o.small0(w[t - 15])), w[t - 16]);
    }
    x := w[t];
  }

  /** Eight rounds: the registers change their roles instead of their values. */
  method EightRounds<W>(o: Ops<W>, w: array<W>, t: nat, s: Regs<W>, ghost s0: Regs<W>, ghost block: Bytes)
    returns (r: Regs<W>)
    requires |block| == 64 && w.Length == 64 && t + 8 <= 64 && Filled(o, w, block, if t < 16 then 16 else t)
    requires s == Rounds(o, s0, block, t)
    modifies w
    ensures Filled(o, w, block, if t + 8 < 16 then 16 else t + 8) && r == Rounds(o, s0, block, t + 8)
  {
    var A, B, C, D, E, F, G, H := s.a, s.b, s.c, s.d, s.e, s.f, s.g, s.h;
    var x := NextWord(o, w, t, block);
    var p := P(o, A, B, C, D, E, F, G, H, x, o.k(t));
    D, H := p.0, p.1;
    assert Regs(H, A, B, C, D, E, F, G) == Rounds(o, s0, block, t + 1);
    x := NextWord(o, w, t + 1, block);
    p := P(o, H, A, B, C, D, E, F, G, x, o.k(t + 1));
    C, G := p.0, p.1;
    assert Regs(G, H, A, B, C, D, E, F) == Rounds(o, s0, block, t + 2);
    x := NextWord(o, w, t + 2, block);
    p := P(o, G, H, A, B, C, D, E, F, x, o.k(t + 2));
    B, F := p.0, p.1;
    assert Regs(F, G, H, A, B, C, D, E) == Rounds(o, s0, block, t + 3);
    x := NextWord(o, w, t + 3, block);
    p := P(o, F, G, H, A, B, C, D, E, x, o.k(t + 3));
    A, E := p.0, p.1;
    assert Regs(E, F, G, H, A, B, C, D) == Rounds(o, s0, block, t + 4);
    x := NextWord(o, w, t + 4, block);
    p := P(o, E, F, G, H, A, B, C, D, x, o.k(t + 4));
    H, D := p.0, p.1;
    assert Regs(D, E, F, G, H, A, B, C) == Rounds(o, s0, block, t + 5);
    x := NextWord(o, w, t + 5, block);
    p := P(o, D, E, F, G, H, A, B, C, x, o.k(t + 5));
    G, C := p.0, p.1;
    assert Regs(C, D, E, F, G, H, A, B) == Rounds(o, s0, block, t + 6);
    x := NextWord(o, w, t + 6, block);
    p := P(o, C, D, E, F, G, H, A, B, x, o.k(t + 6));
    F, B := p.0, p.1;
    assert Regs(B, C, D, E, F, G, H, A) == Rounds(o, s0, block, t + 7);
    x := NextWord(o, w, t + 7, block);
    p := P(o, B, C, D, E, F, G, H, A, x, o.k(t + 7));
    E, A := p.0, p.1;
    r := Regs(A, B, C, D, E, F, G, H);
  }

  lemma FirstWords<W>(o: Ops<W>, block: Bytes, t: nat)
    requires |block| == 64 && t < 16
    ensures Schedule(o, block, t) == o.word(block[4 * t..4 * t + 4])
  {
  }

  method LoadWords<W>(o: Ops<W>, block: Bytes, zero: W) returns (w: array<W>)
    requires |block| == 64
    ensures fresh(w) && w.Length == 64 && Filled(o, w, block, 16)
  {
    hide Schedule;
    w := new W[64](_ => zero);
    var i := 0;
    while i < 16
      invariant 0 <= i <= 16 && Filled(o, w, block, i)
    {
      FirstWords(o, block, i);
      w[i] := o.word(block[4 * i..4 * i + 4]);
      i := i + 1;
    }
  }

  method AllRounds<W>(o: Ops<W>, w: array<W>, s: Regs<W>, n: nat, ghost block: Bytes) returns (r: Regs<W>)
    requires |block| == 64 && w.Length == 64 && Filled(o, w, block, 16) && n <= 8
    modifies w
    ensures r == Rounds(o, s, block, 8 * n)
  {
    r := s;
    var i := 0;
    while i < n
      invariant 0 <= i <= n && Filled(o, w, block, if i < 2 then 16 else 8 * i)
      invariant r == Rounds(o, s, block, 8 * i)
    {
      r := EightRounds(o, w, 8 * i, r, s, block);
      i := i + 1;
    }
  }

  method Process<W>(o: Ops<W>, s: Regs<W>, block: Bytes) returns (r: Regs<W>)
    requires |block| == 64
    ensures r == Compress(o, s, block)
  {
    var w := LoadWords(o, block, s.a);
    r := AllRounds(o, w, s, 8, block);
    r := AddRegs(o, s, r);
  }
}

/** sha256_update and sha256_finish. */
module Sha256Stream {
  import opened Common
  import opened Stripes
  import opened Sha256

  // ---------------------------------------------------------------- section 5.1.1

  function Zeros(n: nat): (r: Bytes)
    ensures |r| == n
  {
    seq(n, _ => 0)
  }

  function Byte(n: nat): bv8 {
    (n % 256) as bv8
  }

  /** A 32-bit number, the high byte first. */
  function Big32(n: nat): (r: Bytes)
    ensures |r| == 4
  {
    [Byte(n / 0x100_0000), Byte(n / 0x1_0000), Byte(n / 0x100), Byte(n)]
  }

  function Big64(n: nat): (r: Bytes)
    ensures |r| == 8
  {
    Big32(n / 0x1_0000_0000) + Big32(n % 0x1_0000_0000)
  }

  function Value(b: bv8): nat {
    b as nat
  }

  lemma SmallValue(n: nat)
    requires n < 256
    ensures Value(n as bv8) == n
  {
  }

  lemma ByteIs(n: nat)
    ensures Value(Byte(n)) == n % 256
  {
    hide Value;
    SmallValue(n % 256);
  }

  lemma FourDigits(n: nat)
    requires n < 0x1_0000_0000
    ensures n == 0x100_0000 * (n / 0x100_0000 % 256) + 0x1_0000 * (n / 0x1_0000 % 256) + 0x100 * (n / 0x100 % 256) + n % 256
  {
  }

  lemma Big32Is(n: nat)
    requires n < 0x1_0000_0000
    ensures var r := Big32(n); n == 0x100_0000 * Value(r[0]) + 0x1_0000 * Value(r[1]) + 0x100 * Value(r[2]) + Value(r[3])
  {
    hide Byte, Value;
    ByteIs(n / 0x100_0000);
    ByteIs(n / 0x1_0000);
    ByteIs(n / 0x100);
    ByteIs(n);
    FourDigits(n);
  }

  /** Eight bytes, each counting 256 times what the next one counts. */
  lemma Big64Is(n: nat)
    requires n < U64
    ensures var r := Big64(n);
      n == 0x1_0000_0000 * (0x100_0000 * Value(r[0]) + 0x1_0000 * Value(r[1]) + 0x100 * Value(r[2]) + Value(r[3]))
        + (0x100_0000 * Value(r[4]) + 0x1_0000 * Value(r[5]) + 0x100 * Value(r[6]) + Value(r[7]))
  {
    hide Big32, Value;
    Big32Is(n / 0x1_0000_0000);
    Big32Is(n % 0x1_0000_0000);
  }

  /** The zeros after the one bit: as few as leave room for the length at the end of a block. */
  function ZeroCount(n: nat): (z: nat)
    ensures (n + 1 + z + 8) % 64 == 0 && z < 64
  {
    var r := n % 64;
    if r < 56 then 55 - r else 119 - r
  }

  /** What follows a message of n bytes: a one bit, zeros, and the length in bits. */
  function Padding(n: nat): (r: Bytes)
    ensures |r| == 1 + ZeroCount(n) + 8
  {
    [0x80] + Zeros(ZeroCount(n)) + Big64(8 * n)
  }

  // ---------------------------------------------------------------- blocks

  function Stepper<W>(o: Ops<W>): (Regs<W>, Bytes) -> Regs<W> {
    (s, b) => Compress(o, s, b)
  }

  /** The state after every whole block of d. */
  function After<W>(o: Ops<W>, start: Regs<W>, d: Bytes): Regs<W> {
    Fold(Stepper(o), 64, start, d)
  }

  function Output<W>(o: Ops<W>, s: Regs<W>, is224: bool): Bytes {
    o.bytes(s.a) + o.bytes(s.b) + o.bytes(s.c) + o.bytes(s.d) + o.bytes(s.e) + o.bytes(s.f) + o.bytes(s.g)
    + if is224 then [] else o.bytes(s.h)
  }

  /** The sum of the message d. */
  function Sum<W>(o: Ops<W>, start: Regs<W>, is224: bool, d: Bytes): Bytes {
    Output(o, After(o, start, d + Padding(|d|)), is224)
  }

  // ---------------------------------------------------------------- other spellings of Ch and Maj

  /** The operations of p are those of o, Ch and Maj perhaps spelled in another way. */
  ghost predicate Alike<W(!new)>(o: Ops<W>, p: Ops<W>) {
    && p == o.(ch := p.ch, maj := p.maj)
    && (forall x, y, z :: o.ch(x, y, z) == p.ch(x, y, z))
    && (forall x, y, z :: o.maj(x, y, z) == p.maj(x, y, z))
  }

  lemma {:induction false} ScheduleAlike<W(!new)>(o: Ops<W>, p: Ops<W>, block: Bytes, t: nat)
    requires Alike(o, p) && |block| == 64
    ensures Schedule(o, block, t) == Schedule(p, block, t)
  {
    if t >= 16 {
      ScheduleAlike(o, p, block, t - 2);
      ScheduleAlike(o, p, block, t - 7);
      ScheduleAlike(o, p, block, t - 15);
      ScheduleAlike(o, p, block, t - 16);
    }
  }

  lemma {:induction false} RoundsAlike<W(!new)>(o: Ops<W>, p: Ops<W>, s: Regs<W>, block: Bytes, t: nat)
    requires Alike(o, p) && |block| == 64
    ensures Rounds(o, s, block, t) == Rounds(p, s, block, t)
  {
    if t > 0 {
      RoundsAlike(o, p, s, block, t - 1);
      ScheduleAlike(o, p, block, t - 1);
    }
  }

  lemma {:induction false} AfterAlike<W(!new)>(o: Ops<W>, p: Ops<W>, s: Regs<W>, d: Bytes)
    requires Alike(o, p)
    ensures After(o, s, d) == After(p, s, d)
    decreases |d|
  {
    hide Rounds;
    if |d| >= 64 {
      RoundsAlike(o, p, s, d[..64], 64);
      AfterAlike(o, p, Compress(o, s, d[..64]), d[64..]);
    }
  }

  lemma SumAlike<W(!new)>(o: Ops<W>, p: Ops<W>, start: Regs<W>, is224: bool, d: Bytes)
    requires Alike(o, p)
    ensures Sum(o, start, is224, d) == Sum(p, start, is224, d)
  {
    AfterAlike(o, p, start, d + Padding(|d|));
  }

  lemma {:induction false} RestLength(d: Bytes)
    ensures |Rest(64, d)| == |d| % 64
    decreases |d|
  {
    if |d| >= 64 {
      RestLength(d[64..]);
    }
  }

  // ---------------------------------------------------------------- counters

  /** Two 32-bit words count bytes, modulo 2^64. */
  ghost predicate Counts(total0: nat, total1: nat, n: nat) {
    total0 < 0x1_0000_0000 && total1 < 0x1_0000_0000 && total0 + 0x1_0000_0000 * total1 == n % U64
  }

  lemma Below64(x: nat, y: nat)
    ensures (x + 64 * y) % 64 == x % 64
  {
  }

  lemma LowCount(total0: nat, total1: nat, n: nat)
    requires Counts(total0, total1, n)
    ensures total0 % 64 == n % 64
  {
    var q := n / U64;
    assert n == n % U64 + U64 * q;
    Below64(total0, 0x400_0000 * total1);
    Below64(n % U64, 0x400_0000_0000_0000 * q);
  }

  lemma Wraps(n: nat, len: nat)
    requires len < U64
    ensures (n + len) % U64 == if n % U64 + len < U64 then n % U64 + len else n % U64 + len - U64
  {
  }

  /** Adding to the low word carries when it comes out smaller than what was added. */
  method AddCount(total0: nat, total1: nat, len: nat, ghost n: nat) returns (t0: nat, t1: nat)
    requires Counts(total0, total1, n) && len < 0x1_0000_0000
    ensures Counts(t0, t1, n + len)
  {
    t0, t1 := (total0 + len) % 0x1_0000_0000, total1;
    if t0 < len {
      t1 := (t1 + 1) % 0x1_0000_0000;
    }
    Wraps(n, len);
  }

  lemma PaddedJoin(d: Bytes, pad: Bytes, msglen: Bytes)
    requires pad == [0x80] + Zeros(ZeroCount(|d|)) && msglen == Big64(8 * |d|)
    ensures (d + pad) + msglen == d + Padding(|d|)
  {
  }

  /** Input that is not joined with buffered bytes to a block. */
  lemma NoNewBlock<W>(o: Ops<W>, s: Regs<W>, rest: Bytes, input: Bytes)
    requires rest == [] || |rest| + |input| < 64
    ensures input[0..] == input
    ensures Fold(Stepper(o), 64, s, rest + input) == Fold(Stepper(o), 64, s, input)
    ensures Rest(64, rest + input) == rest + Rest(64, input)
  {
    if rest == [] {
      assert rest + input == input;
    }
  }

  class Context<W> {
    const o: Ops<W>
    const is224: bool
    const buffer: array<bv8>
    var state: Regs<W>
    var total0: nat
    var total1: nat
    ghost const start: Regs<W>
    ghost var data: Bytes

    ghost predicate Valid()
      reads this, buffer
    {
      && buffer.Length == 64 && Counts(total0, total1, |data|)
      && state == After(o, start, data)
      && buffer[..|Rest(64, data)|] == Rest(64, data)
    }

    /** sha256_starts. */
    constructor (o: Ops<W>, start: Regs<W>, is224: bool)
      ensures Valid() && data == [] && fresh(buffer) && this.o == o && this.start == start && this.is224 == is224
    {
      this.o, this.is224, this.start := o, is224, start;
      state, total0, total1, data := start, 0, 0, [];
      buffer := new bv8[64](_ => 0);
    }

    method Copy(at: nat, input: Bytes, from: nat, len: nat)
      requires at + len <= buffer.Length && from + len <= |input|
      modifies buffer
      ensures buffer[..at] == old(buffer[..at]) && buffer[at..at + len] == input[from..from + len]
    {
      var i := 0;
      while i < len
        invariant 0 <= i <= len
        invariant buffer[..at] == old(buffer[..at]) && buffer[at..at + i] == input[from..from + i]
      {
        buffer[at + i] := input[from + i];
        i := i + 1;
      }
    }

    /** The loop over the whole blocks of the input from position p on. */
    method Blocks(input: Bytes, p: nat) returns (q: nat)
      requires p <= |input|
      modifies this`state
      ensures p <= q <= |input| && input[q..] == Rest(64, input[p..])
      ensures state == Fold(Stepper(o), 64, old(state), input[p..])
    {
      q := p;
      while |input| - q >= 64
        invariant p <= q <= |input|
        invariant Fold(Stepper(o), 64, state, input[q..]) == Fold(Stepper(o), 64, old(state), input[p..])
        invariant Rest(64, input[q..]) == Rest(64, input[p..])
      {
        assert input[q..][..64] == input[q..q + 64] && input[q..][64..] == input[q + 64..];
        state := Process(o, state, input[q..q + 64]);
        q := q + 64;
      }
    }

    /** The buffered bytes and the first of the input make a block. */
    method FillBlock(input: Bytes, left: nat, ghost rest: Bytes)
      requires buffer.Length == 64 && 0 < left < 64 && left + |input| >= 64 && |rest| == left && buffer[..left] == rest
      modifies this`state, buffer
      ensures Fold(Stepper(o), 64, state, input[64 - left..]) == Fold(Stepper(o), 64, old(state), rest + input)
      ensures Rest(64, input[64 - left..]) == Rest(64, rest + input)
    {
      var fill := 64 - left;
      Copy(left, input, 0, fill);
      ghost var joined := rest + input;
      assert buffer[..] == buffer[..left] + buffer[left..left + fill];
      assert input[0..0 + fill] == input[..fill];
      assert joined[..64] == buffer[..] && joined[64..] == input[fill..];
      state := Process(o, state, buffer[..]);
    }

    /** The whole blocks of the input from p on, and the bytes after them behind the `left` buffered ones. */
    method BlocksAndKeep(input: Bytes, p: nat, left: nat)
      requires buffer.Length == 64 && p <= |input| && (left > 0 ==> p == 0 && left + |input| < 64)
      modifies this`state, buffer
      ensures state == Fold(Stepper(o), 64, old(state), input[p..])
      ensures left + |Rest(64, input[p..])| <= 64
      ensures buffer[..left + |Rest(64, input[p..])|] == old(buffer[..left]) + Rest(64, input[p..])
    {
      assert p == 0 ==> input[p..] == input;
      var q := Blocks(input, p);
      ghost var kept := input[q..];
      if q < |input| {
        Copy(left, input, q, |input| - q);
        assert input[q..q + (|input| - q)] == kept;
        assert buffer[..left + |kept|] == buffer[..left] + buffer[left..left + |kept|];
      }
    }

    /** Everything but the counters: `left` bytes are buffered. */
    method Absorb(input: Bytes, left: nat, ghost rest: Bytes)
      requires buffer.Length == 64 && |rest| == left < 64 && buffer[..left] == rest
      modifies this`state, buffer
      ensures state == Fold(Stepper(o), 64, old(state), rest + input)
      ensures buffer[..|Rest(64, rest + input)|] == Rest(64, rest + input)
    {
      hide Fold, Stepper;
      var p, l := 0, left;
      if left > 0 && |input| >= 64 - left {
        FillBlock(input, left, rest);
        p, l := 64 - left, 0;
      } else {
        NoNewBlock(o, state, rest, input);
      }
      BlocksAndKeep(input, p, l);
    }

    method Update(input: Bytes)
      requires Valid() && |input| < 0x1_0000_0000
      modifies this, buffer
      ensures Valid() && data == old(data) + input
    {
      hide Fold, Stepper, Counts;
      if |input| == 0 {
        assert data + input == data;
        return;
      }
      var left := total0 % 64;
      RestLength(data);
      LowCount(total0, total1, |data|);
      FoldAppend(Stepper(o), 64, start, data, input);
      total0, total1 := AddCount(total0, total1, |input|, |data|);
      Absorb(input, left, Rest(64, data));
      data := data + input;
    }

    method LengthBytes() returns (msglen: Bytes)
      requires Valid() && |data| < 0x2000_0000_0000_0000
      ensures msglen == Big64(8 * |data|)
    {
      var high, low := total0 / 0x2000_0000 + (8 * total1) % 0x1_0000_0000, (8 * total0) % 0x1_0000_0000;
      BitLength(total0, total1, |data|);
      msglen := Big32(high) + Big32(low);
    }

    method PadBytes() returns (pad: Bytes)
      requires Valid()
      ensures pad == [0x80] + Zeros(ZeroCount(|data|)) && |pad| <= 64
    {
      var last := total0 % 64;
      LowCount(total0, total1, |data|);
      var padn := if last < 56 then 56 - last else 120 - last;
      pad := [0x80] + Zeros(padn - 1);
    }

    /** sha256_finish. */
    method Finish() returns (sum: Bytes)
      requires Valid() && |data| < 0x2000_0000_0000_0000
      modifies this, buffer
      ensures sum == old(Sum(o, start, is224, data))
    {
      ghost var d := data;
      var msglen := LengthBytes();
      var pad := PadBytes();
      Update(pad);
      Update(msglen);
      PaddedJoin(d, pad, msglen);
      sum := Output(o, state, is224);
    }
  }

  /** The two words of the bit length: eight times the count, without loss below 2^61 bytes. */
  lemma BitLength(total0: nat, total1: nat, n: nat)
    requires Counts(total0, total1, n) && n < 0x2000_0000_0000_0000
    ensures total0 / 0x2000_0000 + (8 * total1) % 0x1_0000_0000 == 8 * n / 0x1_0000_0000
    ensures (8 * total0) % 0x1_0000_0000 == 8 * n % 0x1_0000_0000
  {
    assert n % U64 == n;
    assert total1 < 0x2000_0000;
    assert 8 * n == 8 * total0 + 0x1_0000_0000 * (8 * total1);
    assert 8 * total0 / 0x1_0000_0000 == total0 / 0x2000_0000;
  }

  /** However the message is cut into updates, the sum is that of the padded message. */
  method Streaming<W>(o: Ops<W>, start: Regs<W>, is224: bool, pieces: seq<Bytes>) returns (sum: Bytes)
    requires (forall i :: 0 <= i < |pieces| ==> |pieces[i]| < 0x1_0000_0000) && |Concat(pieces)| < 0x2000_0000_0000_0000
    ensures sum == Sum(o, start, is224, Concat(pieces))
  {
    var c := new Context(o, start, is224);
    var i := 0;
    while i < |pieces|
      invariant 0 <= i <= |pieces| && fresh(c) && fresh(c.buffer) && c.Valid() && c.data == Concat(pieces[..i])
      invariant c.o == o && c.start == start && c.is224 == is224
    {
      assert pieces[..i + 1][..i] == pieces[..i];
      c.Update(pieces[i]);
      i := i + 1;
    }
    assert pieces[..i] == pieces;
    sum := c.Finish();
  }
}

/** Ch and Maj of section 4.1.2 of FIPS 180-4, and the macros F1 and F0 that spell them with fewer operations. */
module Sha256Choices {
  function Ch(x: bv32, y: bv32, z: bv32): bv32 { (x & y) ^ (!x & z) }
  function Maj(x: bv32, y: bv32, z: bv32): bv32 { (x & y) ^ (x & z) ^ (y & z) }

  function F1(x: bv32, y: bv32, z: bv32): bv32 { z ^ (x & (y ^ z)) }
  function F0(x: bv32, y: bv32, z: bv32): bv32 { (x & y) | (z & (x | y)) }

  lemma Choose(x: bv32, y: bv32, z: bv32)
    ensures z ^ (x & (y ^ z)) == (x & y) ^ (!x & z)
  {
  }

  lemma Majority(x: bv32, y: bv32, z: bv32)
    ensures ((x & y) | (z & (x | y))) == (x & y) ^ (x & z) ^ (y & z)
  {
  }

  lemma F1IsCh(x: bv32, y: bv32, z: bv32)
    ensures F1(x, y, z) == Ch(x, y, z)
  {
    Choose(x, y, z);
  }

  lemma F0IsMaj(x: bv32, y: bv32, z: bv32)
    ensures F0(x, y, z) == Maj(x, y, z)
  {
    Majority(x, y, z);
  }
}

/** The 32-bit words of sections 4.1.2, 4.2.2 and 5.3 of FIPS 180-4, and the macros of crt/sha256.c:60-72. */
module Sha256Words {
  import opened Stripes
  import opened Sha256
  import opened Sha256Stream
  import opened Sha256Choices

  const KS: seq<seq<bv32>> := [
    [0x428A2F98, 0x71374491, 0xB5C0FBCF, 0xE9B5DBA5, 0x3956C25B, 0x59F111F1, 0x923F82A4, 0xAB1C5ED5],
    [0xD807AA98, 0x12835B01, 0x243185BE, 0x550C7DC3, 0x72BE5D74, 0x80DEB1FE, 0x9BDC06A7, 0xC19BF174],
    [0xE49B69C1, 0xEFBE4786, 0x0FC19DC6, 0x240CA1CC, 0x2DE92C6F, 0x4A7484AA, 0x5CB0A9DC, 0x76F988DA],
    [0x983E5152, 0xA831C66D, 0xB00327C8, 0xBF597FC7, 0xC6E00BF3, 0xD5A79147, 0x06CA6351, 0x14292967],
    [0x27B70A85, 0x2E1B2138, 0x4D2C6DFC, 0x53380D13, 0x650A7354, 0x766A0ABB, 0x81C2C92E, 0x92722C85],
    [0xA2BFE8A1, 0xA81A664B, 0xC24B8B70, 0xC76C51A3, 0xD192E819, 0xD6990624, 0xF40E3585, 0x106AA070],
    [0x19A4C116, 0x1E376C08, 0x2748774C, 0x34B0BCB5, 0x391C0CB3, 0x4ED8AA4A, 0x5B9CCA4F, 0x682E6FF3],
    [0x748F82EE, 0x78A5636F, 0x84C87814, 0x8CC70208, 0x90BEFFFA, 0xA4506CEB, 0xBEF9A3F7, 0xC67178F2]
  ]

  function K(t: nat): bv32 {
    if t < 64 then KS[t / 8][t % 8] else 0
  }

  function Small0(x: bv32): bv32 { x.RotateRight(7) ^ x.RotateRight(18) ^ (x >> 3) }
  function Small1(x: bv32): bv32 { x.RotateRight(17) ^ x.RotateRight(19) ^ (x >> 10) }
  function Big0(x: bv32): bv32 { x.RotateRight(2) ^ x.RotateRight(13) ^ x.RotateRight(22) }
  function Big1(x: bv32): bv32 { x.RotateRight(6) ^ x.RotateRight(11) ^ x.RotateRight(25) }

  function Word(b: Bytes): bv32 {
    if |b| == 4 then ((b[0] as bv32) << 24) | ((b[1] as bv32) << 16) | ((b[2] as bv32) << 8) | (b[3] as bv32) else 0
  }

  function Low8(x: bv32): bv8 {
    (x & 0xff) as bv8
  }

  function BytesOf(x: bv32): Bytes {
    [Low8(x >> 24), Low8(x >> 16), Low8(x >> 8), Low8(x)]
  }

  const SHA2: Ops<bv32> := Ops((x: bv32, y: bv32) => x + y, Small0, Small1, Big0, Big1, F1, F0, K, Word, BytesOf)

  const IV256: Regs<bv32> := Regs(0x6A09E667, 0xBB67AE85, 0x3C6EF372, 0xA54FF53A, 0x510E527F, 0x9B05688C, 0x1F83D9AB, 0x5BE0CD19)
  const IV224: Regs<bv32> := Regs(0xC1059ED8, 0x367CD507, 0x3070DD17, 0xF70E5939, 0xFFC00B31, 0x68581511, 0x64F98FA7, 0xBEFA4FA4)

  function StartOf(is224: bool): Regs<bv32> {
    if is224 then IV224 else IV256
  }

  /** The operations with Ch and Maj as the standard spells them. */
  const STANDARD: Ops<bv32> := SHA2.(ch := Ch, maj := Maj)

  lemma SpelledAlike()
    ensures Alike(SHA2, STANDARD)
  {
    forall x: bv32, y: bv32, z: bv32
      ensures SHA2.ch(x, y, z) == STANDARD.ch(x, y, z)
    {
      F1IsCh(x, y, z);
    }
    forall x: bv32, y: bv32, z: bv32
      ensures SHA2.maj(x, y, z) == STANDARD.maj(x, y, z)
    {
      F0IsMaj(x, y, z);
    }
  }

  /** sha256: SHA-256 or SHA-224, as the standard has it, of a message in any number of pieces. */
  method Hash(pieces: seq<Bytes>, is224: bool) returns (sum: Bytes)
    requires (forall i :: 0 <= i < |pieces| ==> |pieces[i]| < 0x1_0000_0000) && |Concat(pieces)| < 0x2000_0000_0000_0000
    ensures sum == Sum(STANDARD, StartOf(is224), is224, Concat(pieces))
  {
    hide Sum, Concat, Alike;
    SpelledAlike();
    SumAlike(SHA2, STANDARD, StartOf(is224), is224, Concat(pieces));
    sum := Streaming(SHA2, StartOf(is224), is224, pieces);
  }
}
