/** GF(2^8) with the polynomial 283, x^8 + x^4 + x^3 + x + 1, as crt/nk8.c:54-123 computes it.

    A byte is its eight bits, the polynomial of degree at most seven that they are the coefficients of. */
module Gf256Bits {

  datatype Byte = Byte(b7: bool, b6: bool, b5: bool, b4: bool, b3: bool, b2: bool, b1: bool, b0: bool)

  const ZERO := Byte(false, false, false, false, false, false, false, false)
  const ONE := Byte(false, false, false, false, false, false, false, true)

  function Xor(a: Byte, b: Byte): Byte {
    Byte(a.b7 != b.b7, a.b6 != b.b6, a.b5 != b.b5, a.b4 != b.b4, a.b3 != b.b3, a.b2 != b.b2, a.b1 != b.b1, a.b0 != b.b0)
  }

  /** a >> 1 */
  function Shr1(a: Byte): Byte {
    Byte(false, a.b7, a.b6, a.b5, a.b4, a.b3, a.b2, a.b1)
  }

  /** a << 1, without the bit that leaves the byte. */
  function Shl1(a: Byte): Byte {
    Byte(a.b6, a.b5, a.b4, a.b3, a.b2, a.b1, a.b0, false)
  }

  // ---------------------------------------------------------------- multiplication

  /** Times x, modulo the polynomial. */
  function Times2(a: Byte): Byte {
    Byte(a.b6, a.b5, a.b4, a.b3 != a.b7, a.b2 != a.b7, a.b1, a.b0 != a.b7, a.b7)
  }

  function Low(b: Byte, a: Byte): Byte {
    if b.b0 then a else ZERO
  }

  /** a times the polynomial whose coefficients are the last n bits of b. */
  function MulBits(a: Byte, b: Byte, n: nat): Byte
    decreases n, a
  {
    if n == 0 then ZERO else Xor(Low(b, a), MulBits(Times2(a), Shr1(b), n - 1))
  }

  function Mul(a: Byte, b: Byte): Byte {
    MulBits(a, b, 8)
  }

  // ---------------------------------------------------------------- laws of the ring

  lemma XorUnit(a: Byte)
    ensures Xor(a, ZERO) == a && Xor(ZERO, a) == a && Xor(a, a) == ZERO
  {
  }

  lemma XorComm(a: Byte, b: Byte)
    ensures Xor(a, b) == Xor(b, a)
  {
  }

  lemma XorAssoc(a: Byte, b: Byte, c: Byte)
    ensures Xor(Xor(a, b), c) == Xor(a, Xor(b, c))
  {
  }

  lemma XorSwap(a: Byte, b: Byte, c: Byte, d: Byte)
    ensures Xor(Xor(a, b), Xor(c, d)) == Xor(Xor(a, c), Xor(b, d))
  {
  }

  lemma LinearTimes2(a: Byte, b: Byte)
    ensures Times2(Xor(a, b)) == Xor(Times2(a), Times2(b))
  {
  }

  lemma LinearLow(b: Byte, c: Byte, x: Byte, y: Byte)
    ensures Low(Xor(b, c), x) == Xor(Low(b, x), Low(c, x))
    ensures Low(b, Xor(x, y)) == Xor(Low(b, x), Low(b, y))
    ensures Times2(Low(b, x)) == Low(b, Times2(x))
    ensures Shr1(Xor(b, c)) == Xor(Shr1(b), Shr1(c))
  {
  }

  lemma {:induction false} DistrRight(a: Byte, b: Byte, c: Byte, n: nat)
    ensures MulBits(a, Xor(b, c), n) == Xor(MulBits(a, b, n), MulBits(a, c, n))
    decreases n
  {
    if n > 0 {
      LinearLow(b, c, a, a);
      DistrRight(Times2(a), Shr1(b), Shr1(c), n - 1);
      XorSwap(Low(b, a), Low(c, a), MulBits(Times2(a), Shr1(b), n - 1), MulBits(Times2(a), Shr1(c), n - 1));
    }
  }

  lemma {:induction false} DistrLeft(a: Byte, b: Byte, c: Byte, n: nat)
    ensures MulBits(Xor(a, b), c, n) == Xor(MulBits(a, c, n), MulBits(b, c, n))
    decreases n
  {
    if n > 0 {
      LinearLow(c, c, a, b);
      LinearTimes2(a, b);
      DistrLeft(Times2(a), Times2(b), Shr1(c), n - 1);
      XorSwap(Low(c, a), Low(c, b), MulBits(Times2(a), Shr1(c), n - 1), MulBits(Times2(b), Shr1(c), n - 1));
    }
  }

  lemma {:induction false} MulTimes2(a: Byte, b: Byte, n: nat)
    ensures MulBits(Times2(a), b, n) == Times2(MulBits(a, b, n))
    decreases n
  {
    if n > 0 {
      MulTimes2(Times2(a), Shr1(b), n - 1);
      LinearLow(b, b, a, a);
      LinearTimes2(Low(b, a), MulBits(Times2(a), Shr1(b), n - 1));
    }
  }

  lemma {:induction false} MulOfZero(b: Byte, n: nat)
    ensures MulBits(ZERO, b, n) == ZERO && MulBits(b, ZERO, n) == ZERO
    decreases n
  {
    if n > 0 {
      assert Times2(ZERO) == ZERO && Shr1(ZERO) == ZERO;
      MulOfZero(Shr1(b), n - 1);
      MulOfZero(Times2(b), n - 1);
    }
  }

  lemma MulLow(a: Byte, x: Byte, b: Byte, m: nat)
    ensures MulBits(Low(a, x), b, m) == Low(a, MulBits(x, b, m))
  {
    MulOfZero(b, m);
  }

  /** (x a) b == (x b) a, bit by bit of a. */
  lemma {:induction false} Exchange(x: Byte, a: Byte, n: nat, b: Byte, m: nat)
    ensures MulBits(MulBits(x, a, n), b, m) == MulBits(MulBits(x, b, m), a, n)
    decreases n
  {
    if n == 0 {
      MulOfZero(b, m);
    } else {
      var rest := MulBits(Times2(x), Shr1(a), n - 1);
      DistrLeft(Low(a, x), rest, b, m);
      MulLow(a, x, b, m);
      Exchange(Times2(x), Shr1(a), n - 1, b, m);
      MulTimes2(x, b, m);
    }
  }

  function ShlBy(a: Byte, k: nat): Byte {
    if k == 0 then a else Shl1(ShlBy(a, k - 1))
  }

  lemma {:induction false} LinearShlBy(a: Byte, b: Byte, k: nat)
    ensures ShlBy(Xor(a, b), k) == Xor(ShlBy(a, k), ShlBy(b, k)) && ShlBy(ZERO, k) == ZERO
  {
    if k > 0 {
      LinearShlBy(a, b, k - 1);
    }
  }

  lemma {:induction false} ShlByFront(a: Byte, k: nat)
    ensures ShlBy(a, k + 1) == ShlBy(Shl1(a), k)
  {
    if k > 0 {
      ShlByFront(a, k - 1);
    }
  }

  /** The byte with only bit k set, for k < 7: shifting it and multiplying it by x are the same. */
  lemma NoCarry(k: nat)
    requires k < 7
    ensures Times2(ShlBy(ONE, k)) == ShlBy(ONE, k + 1)
  {
    assert ShlBy(ONE, k).b7 == false by {
      assert ShlBy(ONE, 0) == ONE;
      assert ShlBy(ONE, 1) == Byte(false, false, false, false, false, false, true, false);
      assert ShlBy(ONE, 2) == Byte(false, false, false, false, false, true, false, false);
      assert ShlBy(ONE, 3) == Byte(false, false, false, false, true, false, false, false);
      assert ShlBy(ONE, 4) == Byte(false, false, false, true, false, false, false, false);
      assert ShlBy(ONE, 5) == Byte(false, false, true, false, false, false, false, false);
      assert ShlBy(ONE, 6) == Byte(false, true, false, false, false, false, false, false);
    }
  }

  lemma ShiftedOut(b: Byte)
    ensures ShlBy(b, 8) == ZERO
  {
    assert ShlBy(b, 1) == Shl1(ShlBy(b, 0));
    assert ShlBy(b, 2) == Shl1(ShlBy(b, 1));
    assert ShlBy(b, 3) == Shl1(ShlBy(b, 2));
    assert ShlBy(b, 4) == Shl1(ShlBy(b, 3));
    assert ShlBy(b, 5) == Shl1(ShlBy(b, 4));
    assert ShlBy(b, 6) == Shl1(ShlBy(b, 5));
    assert ShlBy(b, 7) == Shl1(ShlBy(b, 6));
  }

  lemma LastBit(b: Byte)
    ensures b == Xor(Low(b, ONE), Shl1(Shr1(b)))
  {
  }

  lemma ShlLastBit(b: Byte, k: nat)
    ensures ShlBy(b, k) == Xor(Low(b, ShlBy(ONE, k)), ShlBy(Shr1(b), k + 1))
  {
    LastBit(b);
    LinearShlBy(Low(b, ONE), Shl1(Shr1(b)), k);
    ShlByFront(Shr1(b), k);
  }

  lemma {:induction false} OneTimes(b: Byte, k: nat, n: nat)
    requires k + n == 8
    ensures MulBits(ShlBy(ONE, k), b, n) == ShlBy(b, k)
    decreases n
  {
    if n == 0 {
      ShiftedOut(b);
    } else {
      ShlLastBit(b, k);
      if n == 1 {
        ShiftedOut(Shr1(b));
      } else {
        NoCarry(k);
        OneTimes(Shr1(b), k + 1, n - 1);
      }
    }
  }

  lemma MulOne(a: Byte)
    ensures Mul(ONE, a) == a && Mul(a, ONE) == a
  {
    OneTimes(a, 0, 8);
    MulComm(a, ONE);
  }

  lemma MulComm(a: Byte, b: Byte)
    ensures Mul(a, b) == Mul(b, a)
  {
    OneTimes(a, 0, 8);
    OneTimes(b, 0, 8);
    Exchange(ONE, a, 8, b, 8);
  }

  lemma MulAssoc(a: Byte, b: Byte, c: Byte)
    ensures Mul(Mul(a, b), c) == Mul(a, Mul(b, c))
  {
    Exchange(b, a, 8, c, 8);
    MulComm(a, b);
    MulComm(a, Mul(b, c));
  }

  ghost predicate Closed(S: iset<Byte>) {
    && ZERO in S
    && (forall y :: y in S ==> Times2(y) in S)
    && (forall y, z :: y in S && z in S ==> Xor(y, z) in S)
  }

  lemma {:induction false} GeneratedBits(S: iset<Byte>, x: Byte, a: Byte, n: nat)
    requires Closed(S) && x in S
    ensures MulBits(x, a, n) in S
    decreases n
  {
    if n > 0 {
      GeneratedBits(S, Times2(x), Shr1(a), n - 1);
    }
  }

  /** Every byte is a sum of powers of x. */
  lemma Generated(S: iset<Byte>, a: Byte)
    requires Closed(S) && ONE in S
    ensures a in S
  {
    GeneratedBits(S, ONE, a, 8);
    MulOne(a);
  }

  // ---------------------------------------------------------------- squares

  /** Squaring is linear; these are its coefficients. */
  function Square(a: Byte): Byte {
    Byte(a.b6 != a.b7, a.b3 != a.b5, a.b5 != a.b6, a.b2 != (a.b4 != a.b7),
      (a.b4 != a.b5) != (a.b6 != a.b7), a.b1 != a.b5, a.b4 != (a.b6 != a.b7), a.b0 != (a.b4 != a.b6))
  }

  lemma LinearSquare(a: Byte, b: Byte)
    ensures Square(Xor(a, b)) == Xor(Square(a), Square(b))
  {
  }

  lemma SquareTimes2(a: Byte)
    ensures Square(Times2(a)) == Times2(Times2(Square(a)))
  {
  }

  /** (a + b)^2 == a^2 + b^2 */
  lemma SquareOfSum(a: Byte, b: Byte)
    ensures Mul(Xor(a, b), Xor(a, b)) == Xor(Mul(a, a), Mul(b, b))
  {
    DistrLeft(a, b, Xor(a, b), 8);
    DistrRight(a, a, b, 8);
    DistrRight(b, a, b, 8);
    MulComm(a, b);
    XorComm(Mul(b, a), Mul(b, b));
    XorSwap(Mul(a, a), Mul(a, b), Mul(b, b), Mul(b, a));
    XorUnit(Mul(a, b));
    XorUnit(Xor(Mul(a, a), Mul(b, b)));
  }

  lemma SquareOfDouble(x: Byte)
    ensures Mul(Times2(x), Times2(x)) == Times2(Times2(Mul(x, x)))
  {
    MulTimes2(x, Times2(x), 8);
    MulComm(x, Times2(x));
    MulTimes2(x, x, 8);
  }

  ghost predicate Agree(a: Byte) {
    Mul(a, a) == Square(a)
  }

  lemma AgreeSum(a: Byte, b: Byte)
    requires Agree(a) && Agree(b)
    ensures Agree(Xor(a, b))
  {
    SquareOfSum(a, b);
    LinearSquare(a, b);
  }

  lemma AgreeDouble(x: Byte)
    requires Agree(x)
    ensures Agree(Times2(x))
  {
    SquareOfDouble(x);
    SquareTimes2(x);
  }

  lemma AgreeZero()
    ensures Agree(ZERO)
  {
    MulOfZero(ZERO, 8);
  }

  lemma {:induction false} SquaresAgree(x: Byte, a: Byte, n: nat)
    requires Agree(x)
    ensures Agree(MulBits(x, a, n))
    decreases n
  {
    AgreeZero();
    if n > 0 {
      AgreeDouble(x);
      SquaresAgree(Times2(x), Shr1(a), n - 1);
      AgreeSum(Low(a, x), MulBits(Times2(x), Shr1(a), n - 1));
    }
  }

  lemma SquareIsMul(a: Byte)
    ensures Mul(a, a) == Square(a)
  {
    MulOne(ONE);
    assert Agree(ONE);
    SquaresAgree(ONE, a, 8);
    assert Agree(Mul(ONE, a));
    MulOne(a);
  }

  /** Only 0 and 1 are their own squares. */
  lemma Idempotent(e: Byte)
    requires Square(e) == e
    ensures e == ZERO || e == ONE
  {
  }

  const TWO := Byte(false, false, false, false, false, false, true, false)

  lemma TwoTimes(a: Byte)
    ensures Mul(TWO, a) == Times2(a)
  {
    assert Times2(ONE) == TWO;
    MulTimes2(ONE, a, 8);
    MulOne(a);
  }

  /** 2, 4, 0x10, 0x1b, 0x5e, 0xe4, 0x4d, 0xfa and 2 again. */
  lemma SquaresOfTwo() returns (s: seq<Byte>)
    ensures |s| == 9 && s[0] == TWO && s[8] == TWO
    ensures forall i :: 0 <= i < 8 ==> Square(s[i]) == s[i + 1]
  {
    var x04 := Byte(false, false, false, false, false, true, false, false);
    var x10 := Byte(false, false, false, true, false, false, false, false);
    var x1b := Byte(false, false, false, true, true, false, true, true);
    var x5e := Byte(false, true, false, true, true, true, true, false);
    var xe4 := Byte(true, true, true, false, false, true, false, false);
    var x4d := Byte(false, true, false, false, true, true, false, true);
    var xfa := Byte(true, true, true, true, true, false, true, false);
    s := [TWO, x04, x10, x1b, x5e, xe4, x4d, xfa, TWO];
    assert Square(TWO) == x04 && Square(x04) == x10 && Square(x10) == x1b && Square(x1b) == x5e;
    assert Square(x5e) == xe4 && Square(xe4) == x4d && Square(x4d) == xfa && Square(xfa) == TWO;
  }
}
