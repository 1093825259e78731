/** The field that crt/nk8.c:54-123 computes in. */
module Gf256 {
  import opened Fields
  import opened Frobenius
  import opened Gf256Bits

  const RING: Field<Byte> := Field(ZERO, ONE, Xor, Mul, Square)

  lemma RingLaws()
    ensures IsRing(RING)
  {
    forall a | Use1(a)
      ensures Xor(a, ZERO) == a && Xor(a, a) == ZERO && Mul(a, ONE) == a
    {
      XorUnit(a);
      MulOne(a);
    }
    forall a, b | Use2(a, b)
      ensures Xor(a, b) == Xor(b, a) && Mul(a, b) == Mul(b, a)
    {
      XorComm(a, b);
      MulComm(a, b);
    }
    forall a, b, c | Use3(a, b, c)
      ensures Xor(Xor(a, b), c) == Xor(a, Xor(b, c)) && Mul(Mul(a, b), c) == Mul(a, Mul(b, c))
      ensures Mul(a, Xor(b, c)) == Xor(Mul(a, b), Mul(a, c))
    {
      XorAssoc(a, b, c);
      MulAssoc(a, b, c);
      DistrRight(a, b, c, 8);
    }
  }

  // ---------------------------------------------------------------- a^256 == a

  ghost predicate Fixed(x: Byte, m: nat) {
    Squares(RING, x, m) == x
  }

  lemma SqIsSquare(a: Byte)
    ensures Sq(RING, a) == Square(a)
  {
    SquareIsMul(a);
  }

  lemma {:induction false} SquaresAlong(s: seq<Byte>, i: nat, n: nat)
    requires i + n < |s| && forall j :: 0 <= j < |s| - 1 ==> Square(s[j]) == s[j + 1]
    ensures Squares(RING, s[i], n) == s[i + n]
    decreases n
  {
    if n > 0 {
      SqIsSquare(s[i]);
      SquaresAlong(s, i + 1, n - 1);
    }
  }

  lemma FixedTwo()
    ensures Fixed(TWO, 8)
  {
    var s := SquaresOfTwo();
    SquaresAlong(s, 0, 8);
  }

  lemma FixedUnits(m: nat)
    ensures Fixed(ZERO, m) && Fixed(ONE, m)
  {
    RingLaws();
    SquaresUnits(RING, m);
  }

  lemma FixedSum(a: Byte, b: Byte, m: nat)
    requires Fixed(a, m) && Fixed(b, m)
    ensures Fixed(Xor(a, b), m)
  {
    RingLaws();
    SquaresSum(RING, a, b, m);
  }

  lemma FixedTimes2(a: Byte, m: nat)
    requires Fixed(TWO, m) && Fixed(a, m)
    ensures Fixed(Times2(a), m)
  {
    RingLaws();
    TwoTimes(a);
    SquaresProduct(RING, TWO, a, m);
  }

  lemma FixedAll(a: Byte, m: nat)
    requires Fixed(TWO, m)
    ensures Fixed(a, m)
  {
    var S := iset x | Fixed(x, m);
    FixedUnits(m);
    forall y | y in S
      ensures Times2(y) in S
    {
      FixedTimes2(y, m);
    }
    forall y, z | y in S && z in S
      ensures Xor(y, z) in S
    {
      FixedSum(y, z, m);
    }
    Generated(S, a);
  }

  /** a^256 == a */
  lemma Fermat(a: Byte)
    ensures Fixed(a, 8)
  {
    FixedTwo();
    FixedAll(a, 8);
  }

  // ---------------------------------------------------------------- the field

  /** a^254 */
  function Inverse(a: Byte): Byte {
    Chain(RING, Sq(RING, a), 7)
  }

  lemma InverseFrom(a: Byte, m: nat)
    requires a != ZERO && Fixed(a, m + 1)
    ensures Mul(a, Chain(RING, Sq(RING, a), m)) == ONE
  {
    RingLaws();
    var e := Chain(RING, a, m + 1);
    SqIsSquare(e);
    if Square(e) == e {
      Idempotent(e);
    }
    ChainInverse(RING, a, m);
  }

  lemma MulInverse(a: Byte)
    requires a != ZERO
    ensures Mul(a, Inverse(a)) == ONE
  {
    Fermat(a);
    InverseFrom(a, 7);
  }

  const GF: Field<Byte> := Field(ZERO, ONE, Xor, Mul, Inverse)

  lemma GfIsField()
    ensures IsField(GF)
  {
    RingLaws();
    assert IsRing(GF) by {
      forall a | Use1(a)
        ensures GF.add(a, GF.zero) == a && GF.add(a, a) == GF.zero && GF.mul(a, GF.one) == a
      {
        RingUnit(RING, a);
      }
      forall a, b | Use2(a, b)
        ensures GF.add(a, b) == GF.add(b, a) && GF.mul(a, b) == GF.mul(b, a)
      {
        Comm(RING, a, b);
      }
      forall a, b, c | Use3(a, b, c)
        ensures GF.add(GF.add(a, b), c) == GF.add(a, GF.add(b, c))
        ensures GF.mul(GF.mul(a, b), c) == GF.mul(a, GF.mul(b, c))
        ensures GF.mul(a, GF.add(b, c)) == GF.add(GF.mul(a, b), GF.mul(a, c))
      {
        Assoc(RING, a, b, c);
        Distr(RING, a, b, c);
      }
    }
    forall a | Use1(a) && a != ZERO
      ensures GF.mul(a, GF.inv(a)) == ONE
    {
      MulInverse(a);
    }
  }
}
