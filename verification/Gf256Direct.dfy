/** gf_mult_direct of crt/nk8.c:54-74: a carry-less product in sixteen bits, then the remainder modulo 283. */
module Gf256Direct {
  import opened Gf256Bits

  // ---------------------------------------------------------------- shifts

  function Shr(b: Byte, n: nat): Byte
    decreases n, b
  {
    if n == 0 then b else Shr(Shr1(b), n - 1)
  }

  lemma {:induction false} ShrLast(b: Byte, n: nat)
    ensures Shr(b, n + 1) == Shr1(Shr(b, n))
    decreases n
  {
    if n > 0 {
      ShrLast(Shr1(b), n - 1);
    }
  }

  lemma {:induction false} ShrXor(a: Byte, b: Byte, n: nat)
    ensures Shr(Xor(a, b), n) == Xor(Shr(a, n), Shr(b, n))
    decreases n
  {
    if n > 0 {
      LinearLow(a, b, a, a);
      ShrXor(Shr1(a), Shr1(b), n - 1);
    }
  }

  /** With nothing above bit n, what is left of bit n is 0 or 1. */
  lemma OneBit(b: Byte, n: nat)
    requires Shr(b, n + 1) == ZERO
    ensures Shr(b, n) == ZERO || Shr(b, n) == ONE
  {
    ShrLast(b, n);
  }

  lemma ShrSeven(b: Byte)
    ensures Shr(b, 7).b0 == b.b7
  {
    assert Shr(b, 7) == Shr(Shr1(b), 6);
    assert Shr(Shr1(b), 6) == Shr(Shr1(Shr1(b)), 5);
    var c := Shr1(Shr1(b));
    assert Shr(c, 5) == Shr(Shr1(c), 4);
    assert Shr(Shr1(c), 4) == Shr(Shr1(Shr1(c)), 3);
    var d := Shr1(Shr1(c));
    assert Shr(d, 3) == Shr(Shr1(d), 2);
    assert Shr(Shr1(d), 2) == Shr(Shr1(Shr1(d)), 1);
  }

  lemma {:induction false} ShrZero(n: nat)
    ensures Shr(ZERO, n) == ZERO
  {
    if n > 0 {
      assert Shr1(ZERO) == ZERO;
      ShrZero(n - 1);
    }
  }

  lemma {:induction false} ShrMore(b: Byte, n: nat, k: nat)
    requires n <= k && Shr(b, n) == ZERO
    ensures Shr(b, k) == ZERO
    decreases k
  {
    if k > n {
      ShrMore(b, n, k - 1);
      ShrLast(b, k - 1);
    }
  }

  lemma TopClear(b: Byte, n: nat)
    requires n <= 7 && Shr(b, n) == ZERO
    ensures !b.b7
  {
    ShrMore(b, n, 7);
    ShrSeven(b);
  }

  // ---------------------------------------------------------------- products, bit by bit

  function Doubles(a: Byte, n: nat): Byte {
    if n == 0 then a else Times2(Doubles(a, n - 1))
  }

  lemma {:induction false} DoublesFront(a: Byte, n: nat)
    ensures Doubles(a, n + 1) == Doubles(Times2(a), n)
  {
    if n > 0 {
      DoublesFront(a, n - 1);
    }
  }

  lemma {:induction false} MulLast(a: Byte, b: Byte, n: nat)
    ensures MulBits(a, b, n + 1) == Xor(MulBits(a, b, n), Low(Shr(b, n), Doubles(a, n)))
    decreases n
  {
    if n == 0 {
      XorComm(Low(b, a), ZERO);
    } else {
      MulLast(Times2(a), Shr1(b), n - 1);
      DoublesFront(a, n - 1);
      XorAssoc(Low(b, a), MulBits(Times2(a), Shr1(b), n - 1), Low(Shr(b, n), Doubles(a, n)));
    }
  }

  lemma SingleTop(i: nat)
    requires i < 7
    ensures !ShlBy(ONE, i).b7
  {
    assert ShlBy(ONE, 0) == ONE;
    assert ShlBy(ONE, 1) == Byte(false, false, false, false, false, false, true, false);
    assert ShlBy(ONE, 2) == Byte(false, false, false, false, false, true, false, false);
    assert ShlBy(ONE, 3) == Byte(false, false, false, false, true, false, false, false);
    assert ShlBy(ONE, 4) == Byte(false, false, false, true, false, false, false, false);
    assert ShlBy(ONE, 5) == Byte(false, false, true, false, false, false, false, false);
    assert ShlBy(ONE, 6) == Byte(false, true, false, false, false, false, false, false);
  }

  /** The byte with only bit i set. */
  lemma {:induction false} Single(a: Byte, i: nat)
    requires i < 8
    ensures Shr(ShlBy(ONE, i), i) == ONE && MulBits(a, ShlBy(ONE, i), i) == ZERO
    decreases i
  {
    if i > 0 {
      SingleTop(i - 1);
      assert Shr1(ShlBy(ONE, i)) == ShlBy(ONE, i - 1);
      Single(Times2(a), i - 1);
      XorUnit(ZERO);
    }
  }

  /** Taking bit i out of m. */
  lemma ClearBit(a: Byte, m: Byte, i: nat)
    requires i < 8 && Shr(m, i) == ONE
    ensures Shr(Xor(m, ShlBy(ONE, i)), i) == ZERO
    ensures MulBits(a, Xor(m, ShlBy(ONE, i)), i) == MulBits(a, m, i)
  {
    Single(a, i);
    ShrXor(m, ShlBy(ONE, i), i);
    DistrRight(a, m, ShlBy(ONE, i), i);
    XorUnit(MulBits(a, m, i));
    XorUnit(ONE);
  }

  // ---------------------------------------------------------------- sixteen bits

  datatype Word = Word(hi: Byte, lo: Byte)

  const X1B := Byte(false, false, false, true, true, false, true, true)
  const P283 := Word(ONE, X1B)

  function XorW(a: Word, b: Word): Word {
    Word(Xor(a.hi, b.hi), Xor(a.lo, b.lo))
  }

  function ShlW1(w: Word): Word {
    Word(Byte(w.hi.b6, w.hi.b5, w.hi.b4, w.hi.b3, w.hi.b2, w.hi.b1, w.hi.b0, w.lo.b7), Shl1(w.lo))
  }

  function ShlW(w: Word, n: nat): Word {
    if n == 0 then w else ShlW1(ShlW(w, n - 1))
  }

  /** The byte that a word is equal to modulo 283. */
  function Mod283(w: Word): Byte {
    Xor(w.lo, Mul(X1B, w.hi))
  }

  lemma ModXor(a: Word, b: Word)
    ensures Mod283(XorW(a, b)) == Xor(Mod283(a), Mod283(b))
  {
    DistrRight(X1B, a.hi, b.hi, 8);
    XorSwap(a.lo, b.lo, Mul(X1B, a.hi), Mul(X1B, b.hi));
  }

  lemma ModByte(w: Word)
    requires w.hi == ZERO
    ensures Mod283(w) == w.lo
  {
    MulOfZero(X1B, 8);
    XorUnit(w.lo);
  }

  lemma TopBitUnused(a: Byte, b: Byte)
    requires !b.b7
    ensures Mul(a, b) == MulBits(a, b, 7)
  {
    MulLast(a, b, 7);
    ShrSeven(b);
    XorUnit(MulBits(a, b, 7));
  }

  lemma Carry(lo: Byte)
    ensures Times2(lo) == Xor(Shl1(lo), if lo.b7 then X1B else ZERO)
  {
  }

  lemma ShlWHi(w: Word)
    requires !w.hi.b7
    ensures Shr1(ShlW1(w).hi) == w.hi && ShlW1(w).hi.b0 == w.lo.b7
  {
  }

  lemma ModShl(w: Word)
    requires !w.hi.b7
    ensures Mod283(ShlW1(w)) == Times2(Mod283(w))
  {
    var v := ShlW1(w);
    var m := MulBits(X1B, w.hi, 7);
    TopBitUnused(X1B, w.hi);
    ShlWHi(w);
    assert Mul(X1B, v.hi) == Xor(Low(v.hi, X1B), MulBits(Times2(X1B), w.hi, 7));
    MulTimes2(X1B, w.hi, 7);
    Carry(w.lo);
    XorAssoc(v.lo, Low(v.hi, X1B), Times2(m));
    LinearTimes2(w.lo, m);
  }

  /** Shifting a word whose high byte has `top` at bit j moves it to bit j + 1. */
  lemma HiShl(w: Word, j: nat, top: Byte)
    requires !w.hi.b7 && Shr(w.hi, j) == top
    ensures Shr(ShlW1(w).hi, j + 1) == top
  {
    ShlWHi(w);
  }

  lemma {:induction false} ModOfShifted(n: Byte, i: nat)
    requires i <= 7
    ensures Mod283(ShlW(Word(ZERO, n), i)) == Doubles(n, i)
    ensures Shr(ShlW(Word(ZERO, n), i).hi, i) == ZERO
  {
    if i == 0 {
      ModByte(Word(ZERO, n));
    } else {
      var w := ShlW(Word(ZERO, n), i - 1);
      ModOfShifted(n, i - 1);
      TopClear(w.hi, i - 1);
      ModShl(w);
      HiShl(w, i - 1, ZERO);
    }
  }

  lemma BelowTop(h: Byte, j: nat)
    requires j < 7 && Shr(h, j) == ONE
    ensures !h.b7
  {
    ShrLast(h, j);
    assert Shr1(ONE) == ZERO;
    TopClear(h, j + 1);
  }

  lemma {:induction false} ModOfPolynomial(j: nat)
    requires j <= 7
    ensures Mod283(ShlW(P283, j)) == ZERO && Shr(ShlW(P283, j).hi, j) == ONE
  {
    if j == 0 {
      MulOne(X1B);
      XorUnit(X1B);
    } else {
      var w := ShlW(P283, j - 1);
      ModOfPolynomial(j - 1);
      BelowTop(w.hi, j - 1);
      ModShl(w);
      assert Times2(ZERO) == ZERO;
      HiShl(w, j - 1, ONE);
    }
  }

  // ---------------------------------------------------------------- the two loops

  lemma ShrEight(b: Byte)
    ensures Shr(b, 8) == ZERO
  {
    var c := Shr1(Shr1(b));
    assert Shr(b, 8) == Shr(Shr1(b), 7);
    assert Shr(Shr1(b), 7) == Shr(c, 6);
    var d := Shr1(Shr1(c));
    assert Shr(c, 6) == Shr(Shr1(c), 5);
    assert Shr(Shr1(c), 5) == Shr(d, 4);
    var e := Shr1(Shr1(d));
    assert Shr(d, 4) == Shr(Shr1(d), 3);
    assert Shr(Shr1(d), 3) == Shr(e, 2);
    assert Shr(e, 2) == Shr(Shr1(e), 1);
  }

  /** The bits of m from i on are done, the others are still to be multiplied. */
  ghost predicate Taking(n: Byte, m: Byte, k: Word, i: nat, product: Byte) {
    Shr(m, i) == ZERO && Xor(Mod283(k), MulBits(n, m, i)) == product
  }

  lemma TakeStart(n: Byte, m: Byte)
    ensures Taking(n, m, Word(ZERO, ZERO), 8, Mul(n, m))
  {
    ModByte(Word(ZERO, ZERO));
    XorUnit(Mul(n, m));
    ShrEight(m);
  }

  lemma TakeBit(n: Byte, m: Byte, k: Word, i: nat, product: Byte)
    requires i < 8 && Taking(n, m, k, i + 1, product) && Shr(m, i) != ZERO
    ensures Taking(n, Xor(m, ShlBy(ONE, i)), XorW(k, ShlW(Word(ZERO, n), i)), i, product)
  {
    OneBit(m, i);
    ClearBit(n, m, i);
    MulLast(n, m, i);
    ModOfShifted(n, i);
    ModXor(k, ShlW(Word(ZERO, n), i));
    XorComm(MulBits(n, m, i), Doubles(n, i));
    XorAssoc(Mod283(k), Doubles(n, i), MulBits(n, m, i));
  }

  lemma SkipBit(n: Byte, m: Byte, k: Word, i: nat, product: Byte)
    requires Taking(n, m, k, i + 1, product) && Shr(m, i) == ZERO
    ensures Taking(n, m, k, i, product)
  {
    MulLast(n, m, i);
    XorUnit(MulBits(n, m, i));
  }

  lemma TakeEnd(n: Byte, m: Byte, k: Word, product: Byte)
    requires Taking(n, m, k, 0, product)
    ensures Mod283(k) == product
  {
    XorUnit(Mod283(k));
  }

  method TakeRound(n: Byte, m: Byte, k: Word, i: nat, ghost product: Byte) returns (m': Byte, k': Word)
    requires i < 8 && Taking(n, m, k, i + 1, product)
    ensures Taking(n, m', k', i, product)
  {
    if Shr(m, i) != ZERO {
      TakeBit(n, m, k, i, product);
      k' := XorW(k, ShlW(Word(ZERO, n), i));
      m' := Xor(m, ShlBy(ONE, i));
    } else {
      SkipBit(n, m, k, i, product);
      m', k' := m, k;
    }
  }

  method TakeAll(n: Byte, m0: Byte, k0: Word, ghost product: Byte) returns (k: Word)
    requires Taking(n, m0, k0, 8, product)
    ensures Mod283(k) == product
  {
    var m, i := m0, 8;
    k := k0;
    while i > 0
      invariant 0 <= i <= 8 && Taking(n, m, k, i, product)
    {
      i := i - 1;
      m, k := TakeRound(n, m, k, i, product);
    }
    TakeEnd(n, m, k, product);
  }

  method CarryLess(m: Byte, n: Byte) returns (k: Word)
    ensures Mod283(k) == Mul(n, m)
  {
    TakeStart(n, m);
    k := TakeAll(n, m, Word(ZERO, ZERO), Mul(n, m));
  }

  lemma ReduceBit(k: Word, j: nat)
    requires j <= 7 && Shr(k.hi, j + 1) == ZERO && Shr(k.hi, j) != ZERO
    ensures Shr(XorW(k, ShlW(P283, j)).hi, j) == ZERO
    ensures Mod283(XorW(k, ShlW(P283, j))) == Mod283(k)
  {
    OneBit(k.hi, j);
    ModOfPolynomial(j);
    ShrXor(k.hi, ShlW(P283, j).hi, j);
    XorUnit(ONE);
    ModXor(k, ShlW(P283, j));
    XorUnit(Mod283(k));
  }

  /** k >> i for i >= 8 */
  function ShrHigh(k: Word, i: nat): Byte
    requires i >= 8
  {
    Shr(k.hi, i - 8)
  }

  method Remainder(k0: Word) returns (k: Word)
    ensures k.hi == ZERO && k.lo == Mod283(k0)
  {
    k := k0;
    if ShrHigh(k, 8) != ZERO {
      ShrEight(k.hi);
      var i := 16;
      while i > 8
        invariant 8 <= i <= 16 && Shr(k.hi, i - 8) == ZERO && Mod283(k) == Mod283(k0)
      {
        i := i - 1;
        if ShrHigh(k, i) != ZERO {
          ReduceBit(k, i - 8);
          k := XorW(k, ShlW(P283, i - 8));
        }
      }
    }
    ModByte(k);
  }

  method MultDirect(m: Byte, n: Byte) returns (r: Byte)
    ensures r == Mul(m, n)
  {
    if m == ZERO || n == ZERO {
      MulOfZero(m, 8);
      MulOfZero(n, 8);
      return ZERO;
    }
    var k := CarryLess(m, n);
    k := Remainder(k);
    MulComm(m, n);
    return k.lo;
  }
}
