/** The product of crt/nk8.c:54-74 on numbers: what remains of the carry-less product when it is divided by 283, that is by
    x^8 + x^4 + x^3 + x + 1. */
module Gf256Numbers {
  import opened Common
  import opened Fields
  import opened Gf256
  import opened Gf256Bits
  import opened Gf256Direct
  import opened Nk8Parts
  import opened Nk8Tables
  import opened Vandermonde

  // ---------------------------------------------------------------- numbers as polynomials over two elements

  /** a ^ b */
  function XorN(a: nat, b: nat): nat
    decreases a + b
  {
    if a == 0 && b == 0 then 0 else (a + b) % 2 + 2 * XorN(a / 2, b / 2)
  }

  /** The product without carries. */
  function Clmul(x: nat, y: nat): nat
    decreases y
  {
    if y == 0 then 0 else XorN(if y % 2 == 1 then x else 0, Clmul(2 * x, y / 2))
  }

  lemma XorHalf(a: nat, b: nat)
    ensures XorN(a, b) / 2 == XorN(a / 2, b / 2) && XorN(a, b) % 2 == (a + b) % 2
  {
  }

  lemma {:induction false} XorBasics(a: nat, b: nat)
    ensures XorN(a, b) == XorN(b, a) && XorN(a, 0) == a && XorN(a, a) == 0
    decreases a + b
  {
    if a + b > 0 {
      XorBasics(a / 2, b / 2);
    }
  }

  lemma {:induction false} XorAssocN(a: nat, b: nat, c: nat)
    ensures XorN(XorN(a, b), c) == XorN(a, XorN(b, c))
    decreases a + b + c
  {
    hide XorN;
    if a + b + c == 0 {
      XorBasics(0, 0);
    } else {
      XorAssocN(a / 2, b / 2, c / 2);
      XorHalf(a, b);
      XorHalf(b, c);
      XorHalf(XorN(a, b), c);
      XorHalf(a, XorN(b, c));
    }
  }

  /** (a + b) + (c + d) == (a + c) + (b + d) */
  lemma XorSwapN(a: nat, b: nat, c: nat, d: nat)
    ensures XorN(XorN(a, b), XorN(c, d)) == XorN(XorN(a, c), XorN(b, d))
  {
    XorAssocN(a, b, XorN(c, d));
    XorAssocN(b, c, d);
    XorBasics(b, c);
    XorAssocN(c, b, d);
    XorAssocN(a, c, XorN(b, d));
  }

  lemma XorDouble(a: nat, b: nat)
    ensures XorN(2 * a, 2 * b) == 2 * XorN(a, b)
  {
    hide XorN;
    XorHalf(2 * a, 2 * b);
  }

  lemma {:induction false} ClmulLeft(x: nat, z: nat, y: nat)
    ensures Clmul(XorN(x, z), y) == XorN(Clmul(x, y), Clmul(z, y))
    decreases y
  {
    if y > 0 {
      XorDouble(x, z);
      ClmulLeft(2 * x, 2 * z, y / 2);
      XorSwapN(if y % 2 == 1 then x else 0, Clmul(2 * x, y / 2), if y % 2 == 1 then z else 0, Clmul(2 * z, y / 2));
    }
  }

  lemma ClmulNone(x: nat)
    ensures Clmul(x, 0) == 0
  {
  }

  lemma ClmulStep(x: nat, y: nat)
    ensures Clmul(x, y) == XorN(if y % 2 == 1 then x else 0, Clmul(2 * x, y / 2))
  {
  }

  lemma {:induction false} ClmulRight(x: nat, y: nat, z: nat)
    ensures Clmul(x, XorN(y, z)) == XorN(Clmul(x, y), Clmul(x, z))
    decreases y + z
  {
    hide XorN, Clmul;
    if y + z == 0 {
      XorBasics(0, 0);
      ClmulNone(x);
    } else {
      XorHalf(y, z);
      ClmulRight(2 * x, y / 2, z / 2);
      ClmulStep(x, XorN(y, z));
      ClmulStep(x, y);
      ClmulStep(x, z);
      XorSwapN(if y % 2 == 1 then x else 0, Clmul(2 * x, y / 2), if z % 2 == 1 then x else 0, Clmul(2 * x, z / 2));
      XorBasics(x, x);
      XorBasics(x, 0);
      XorBasics(0, 0);
    }
  }

  lemma {:induction false} ClmulZero(y: nat)
    ensures Clmul(0, y) == 0
    decreases y
  {
    if y > 0 {
      ClmulZero(y / 2);
    }
  }

  // ---------------------------------------------------------------- the remainder is the only one

  lemma {:induction false} XorBelow(a: nat, b: nat, n: nat)
    requires a < Power2(n) && b < Power2(n)
    ensures XorN(a, b) < Power2(n)
  {
    if n > 0 {
      XorBelow(a / 2, b / 2, n - 1);
    }
  }

  lemma {:induction false} XorAbove(a: nat, b: nat, n: nat)
    requires a < Power2(n) <= b
    ensures XorN(a, b) >= Power2(n)
  {
    if n == 0 {
      XorBasics(b, 0);
    } else {
      XorAbove(a / 2, b / 2, n - 1);
      XorHalf(a, b);
    }
  }

  lemma {:induction false} ClmulAbove(x: nat, y: nat, k: nat)
    requires Power2(k) <= x < Power2(k + 1) && y > 0
    ensures Clmul(x, y) >= Power2(k)
    decreases y
  {
    if y == 1 {
      XorBasics(x, 0);
      assert Clmul(2 * x, 0) == 0;
    } else {
      ClmulAbove(2 * x, y / 2, k + 1);
      XorAbove(if y % 2 == 1 then x else 0, Clmul(2 * x, y / 2), k + 1);
    }
  }

  lemma EightBits()
    ensures Power2(8) == 256 && Power2(9) == 512
  {
    assert Power2(4) == 16;
  }

  /** r is what remains of n after division by 283. */
  ghost predicate Remains(n: nat, r: nat) {
    r < 256 && exists q: nat :: n == XorN(Clmul(283, q), r)
  }

  lemma OnlyRemainder(n: nat, r: nat, s: nat)
    requires Remains(n, r) && Remains(n, s)
    ensures r == s
  {
    var p: nat :| n == XorN(Clmul(283, p), r);
    var q: nat :| n == XorN(Clmul(283, q), s);
    var a, b := Clmul(283, p), Clmul(283, q);
    ClmulRight(283, p, q);
    EightBits();
    XorBelow(r, s, 8);
    // a + r + b + s is zero
    XorSwapN(a, r, b, s);
    XorBasics(n, n);
    SumIsZero(XorN(a, b), XorN(r, s));
    if XorN(p, q) > 0 {
      ClmulAbove(283, XorN(p, q), 8);
    }
    SumIsZero(r, s);
  }

  lemma SumIsZero(a: nat, b: nat)
    requires XorN(a, b) == 0
    ensures a == b
  {
    XorAssocN(a, b, b);
    XorBasics(b, b);
    XorBasics(a, 0);
    XorBasics(0, b);
    XorBasics(b, 0);
  }

  // ---------------------------------------------------------------- bytes as numbers

  function Bit(b: bool): nat {
    if b then 1 else 0
  }

  lemma {:induction false} NumberTop(a: Byte, n: nat)
    requires Shr(a, n) == ZERO
    ensures Number(a, n + 1) == Number(a, n)
    decreases n
  {
    if n > 0 {
      ShrFront(a, n - 1);
      NumberTop(Shr1(a), n - 1);
    }
  }

  lemma ShrFront(a: Byte, n: nat)
    ensures Shr(a, n + 1) == Shr(Shr1(a), n)
  {
  }

  lemma NumberStep(a: Byte, n: nat)
    requires n > 0
    ensures Number(a, n) == 2 * Number(Shr1(a), n - 1) + Bit(a.b0)
  {
  }

  lemma HalfOfByte(a: Byte)
    ensures Value(a) == 2 * Value(Shr1(a)) + Bit(a.b0) && Value(a) / 2 == Value(Shr1(a)) && Value(a) % 2 == Bit(a.b0)
  {
    hide Number, Shr;
    ShrEight(a);
    ShrFront(a, 7);
    NumberTop(Shr1(a), 7);
    NumberStep(a, 8);
  }

  lemma BitSum(a: bool, b: bool)
    ensures (Bit(a) + Bit(b)) % 2 == Bit(a != b)
  {
  }

  lemma HalfOfSum(a: Byte, b: Byte)
    ensures Shr1(Xor(a, b)) == Xor(Shr1(a), Shr1(b)) && Xor(a, b).b0 == (a.b0 != b.b0)
  {
  }

  lemma XorStep(a: Byte, b: Byte)
    requires Value(Xor(Shr1(a), Shr1(b))) == XorN(Value(Shr1(a)), Value(Shr1(b)))
    ensures Value(Xor(a, b)) == XorN(Value(a), Value(b))
  {
    hide XorN, Value, Bit, Xor, Shr1;
    HalfOfByte(a);
    HalfOfByte(b);
    HalfOfByte(Xor(a, b));
    BitSum(a.b0, b.b0);
    HalfOfSum(a, b);
    XorFromHalves(Value(a), Value(b), Value(Xor(a, b)));
  }

  lemma XorFromHalves(x: nat, y: nat, z: nat)
    requires z / 2 == XorN(x / 2, y / 2) && z % 2 == (x % 2 + y % 2) % 2
    ensures z == XorN(x, y)
  {
    hide XorN;
    XorHalf(x, y);
    assert (x % 2 + y % 2) % 2 == (x + y) % 2;
  }

  lemma {:induction false} ValueXor(a: Byte, b: Byte, n: nat)
    requires Value(a) < Power2(n) && Value(b) < Power2(n)
    ensures Value(Xor(a, b)) == XorN(Value(a), Value(b))
    decreases n
  {
    hide XorN, Value, Bit, Xor, Shr1;
    if n == 0 {
      Index(a);
      Index(b);
      XorUnit(a);
      XorBasics(0, 0);
    } else {
      HalfOfByte(a);
      HalfOfByte(b);
      ValueXor(Shr1(a), Shr1(b), n - 1);
      XorStep(a, b);
    }
  }

  lemma XorValues(a: Byte, b: Byte)
    ensures Value(Xor(a, b)) == XorN(Value(a), Value(b))
  {
    EightBits();
    FromValue(a);
    FromValue(b);
    ValueXor(a, b, 8);
  }

  lemma {:induction false} XorHigh(v: nat, w: nat, n: nat)
    requires v < Power2(n) && w < Power2(n)
    ensures XorN(v, Power2(n) + w) == Power2(n) + XorN(v, w)
  {
    hide XorN;
    if n == 0 {
      XorBasics(1, 0);
      XorBasics(0, 0);
    } else {
      XorHigh(v / 2, w / 2, n - 1);
      XorHalf(v, Power2(n) + w);
      XorHalf(v, w);
      assert (Power2(n) + w) / 2 == Power2(n - 1) + w / 2;
    }
  }

  const LOW := Byte(false, false, false, true, true, false, true, true)
  const TOP := Byte(true, false, false, false, false, false, false, false)

  lemma Literals()
    ensures Value(LOW) == 27 && Value(TOP) == 128 && Value(ZERO) == 0
  {
    hide Value;
    Index(ZERO);
    var one := Byte(false, false, false, false, false, false, false, true);
    var three := Byte(false, false, false, false, false, false, true, true);
    var six := Byte(false, false, false, false, false, true, true, false);
    var thirteen := Byte(false, false, false, false, true, true, false, true);
    HalfOfByte(one);
    HalfOfByte(three);
    HalfOfByte(six);
    HalfOfByte(thirteen);
    HalfOfByte(LOW);
    HalfOfByte(Byte(false, false, false, false, false, false, true, false));
    HalfOfByte(Byte(false, false, false, false, false, true, false, false));
    HalfOfByte(Byte(false, false, false, false, true, false, false, false));
    HalfOfByte(Byte(false, false, false, true, false, false, false, false));
    HalfOfByte(Byte(false, false, true, false, false, false, false, false));
    HalfOfByte(Byte(false, true, false, false, false, false, false, false));
    HalfOfByte(TOP);
  }

  lemma WithoutTop(a: Byte)
    ensures var low := a.(b7 := false);
      Shr1(Shl1(a)) == low && !Shl1(a).b0 && a == if a.b7 then Xor(low, TOP) else low
  {
  }

  /** a << 1 loses the top bit. */
  lemma ValueShl(a: Byte)
    ensures Value(Shl1(a)) + (if a.b7 then 256 else 0) == 2 * Value(a)
  {
    hide Value, XorN, Xor, Shl1, Shr1;
    var low := a.(b7 := false);
    HalfOfByte(Shl1(a));
    WithoutTop(a);
    if a.b7 {
      Literals();
      XorValues(low, TOP);
      HalfOfByte(low);
      SevenBits(low);
      XorHigh(Value(low), 0, 7);
      XorBasics(Value(low), 0);
    }
  }

  lemma SevenBits(a: Byte)
    requires !a.b7
    ensures Power2(7) == 128 && Value(a) < 128
  {
    hide Value;
    assert Power2(4) == 16;
    FromValue(Shl1(a));
    HalfOfByte(Shl1(a));
    assert Shr1(Shl1(a)) == a;
  }

  lemma Doubled(a: Byte)
    ensures 2 * Value(a) == XorN(Value(Times2(a)), if a.b7 then 283 else 0)
  {
    hide XorN, Value;
    var t := Times2(a);
    ValueShl(a);
    if a.b7 {
      EightBits();
      FromValue(t);
      XorHigh(Value(t), 27, 8);
      Literals();
      XorValues(t, LOW);
      assert Xor(t, LOW) == Shl1(a);
    } else {
      XorBasics(Value(t), 0);
      assert t == Shl1(a);
    }
  }

  lemma {:induction false} BitsRemain(a: Byte, b: Byte, n: nat) returns (q: nat)
    requires Value(b) < Power2(n)
    ensures Clmul(Value(a), Value(b)) == XorN(Clmul(283, q), Value(MulBits(a, b, n)))
    decreases n
  {
    hide XorN, Value, Clmul;
    Literals();
    ClmulNone(Value(a));
    ClmulNone(283);
    XorBasics(0, 0);
    if n == 0 {
      q := 0;
    } else {
      HalfOfByte(b);
      var y, rest := Value(b) / 2, MulBits(Times2(a), Shr1(b), n - 1);
      var p := BitsRemain(Times2(a), Shr1(b), n - 1);
      var c, d := if a.b7 then 283 else 0, if a.b7 then y else 0;
      Doubled(a);
      ClmulStep(Value(a), Value(b));
      ClmulLeft(Value(Times2(a)), c, y);
      ClmulZero(y);
      ClmulRight(283, p, d);
      XorValues(Low(b, a), rest);
      q := XorN(p, d);
      Regrouped(Value(Low(b, a)), Clmul(283, p), Value(rest), Clmul(283, d));
    }
  }

  /** a + ((p + r) + d) == (p + d) + (a + r) */
  lemma Regrouped(a: nat, p: nat, r: nat, d: nat)
    ensures XorN(a, XorN(XorN(p, r), d)) == XorN(XorN(p, d), XorN(a, r))
  {
    XorAssocN(p, r, d);
    XorBasics(r, d);
    XorAssocN(p, d, r);
    XorBasics(a, XorN(XorN(p, d), r));
    XorAssocN(XorN(p, d), r, a);
    XorBasics(r, a);
  }

  /** The product of two bytes is what remains of the product of the two numbers. */
  lemma ProductRemains(a: Byte, b: Byte)
    ensures Remains(Clmul(Value(a), Value(b)), Value(Mul(a, b)))
  {
    EightBits();
    FromValue(b);
    FromValue(Mul(a, b));
    var q := BitsRemain(a, b, 8);
  }

  /** Two bytes in chunks of two: the second one is the coefficient of x. */
  lemma TwoBytes<F(!new)>(f: Field<F>, a: F, b: F, x: F)
    requires IsField(f)
    ensures Part(f, [a, b], 2, x) == [f.add(a, f.mul(x, b))]
  {
    var p := [a, b];
    assert p[1..] == [b] && [b][1..] == [] && p[..2] == p && p[2..] == [];
    Unit(f, b);
    MulZero(f, x);
    assert Eval(f, [b], x) == b;
    assert Chunks(f, p, 2) == [p];
  }

  /** Of the block 00 80 in two parts, the one with the identifier 2: 2 * 128 is 256, and that leaves 27. */
  lemma KnownPart()
    ensures Part(GF, [FromInt(0), FromInt(128)], 2, FromInt(2)) == [FromInt(27)]
  {
    hide Mul, Inverse, Part, IsField;
    GfIsField();
    Literals();
    TwoIs();
    FromValue(ZERO);
    FromValue(TOP);
    FromValue(LOW);
    FromValue(TWO);
    TwoBytes(GF, ZERO, TOP, TWO);
    TwoTimes(TOP);
    XorUnit(LOW);
  }

  lemma TwoIs()
    ensures Value(TWO) == 2
  {
    hide Value;
    Index(ZERO);
    HalfOfByte(Byte(false, false, false, false, false, false, false, true));
    HalfOfByte(TWO);
  }
}
