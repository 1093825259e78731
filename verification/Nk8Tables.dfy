/** The multiplication and division tables of crt/nk8.c:3-8, 76-123. */
module Nk8Tables {
  import opened Common
  import opened Fields
  import opened Elimination
  import opened Gf256Bits
  import opened Gf256
  import opened Gf256Direct

  // ---------------------------------------------------------------- bytes as indices

  /** The number that the last n bits of a are. */
  function Number(a: Byte, n: nat): (v: nat)
    decreases n, a
  {
    if n == 0 then 0 else 2 * Number(Shr1(a), n - 1) + if a.b0 then 1 else 0
  }

  function WithLow(a: Byte, low: bool): Byte {
    Byte(a.b6, a.b5, a.b4, a.b3, a.b2, a.b1, a.b0, low)
  }

  /** The last n bits of v. */
  function BitsOf(v: nat, n: nat): Byte
    decreases n, v
  {
    if n == 0 then ZERO else WithLow(BitsOf(v / 2, n - 1), v % 2 == 1)
  }

  lemma {:induction false} BitsOfNumber(a: Byte, n: nat)
    requires Shr(a, n) == ZERO
    ensures BitsOf(Number(a, n), n) == a
    decreases n
  {
    if n > 0 {
      BitsOfNumber(Shr1(a), n - 1);
      assert WithLow(Shr1(a), a.b0) == a;
    }
  }

  lemma {:induction false} NumberBound(a: Byte, n: nat)
    ensures Number(a, n) < Power2(n)
    decreases n
  {
    if n > 0 {
      NumberBound(Shr1(a), n - 1);
    }
  }

  lemma {:induction false} NumberOfZero(n: nat)
    ensures Number(ZERO, n) == 0
  {
    if n > 0 {
      assert Shr1(ZERO) == ZERO;
      NumberOfZero(n - 1);
    }
  }

  /** The bits of v < 2^n make up v. */
  lemma {:induction false} NumberOfBits(v: nat, n: nat)
    requires v < Power2(n) && n <= 8
    ensures Number(BitsOf(v, n), n) == v && Shr(BitsOf(v, n), n) == ZERO
    decreases n
  {
    if n > 0 {
      var h := BitsOf(v / 2, n - 1);
      NumberOfBits(v / 2, n - 1);
      TopClear(h, n - 1);
      assert Shr1(WithLow(h, v % 2 == 1)) == h;
    }
  }

  function Value(a: Byte): nat {
    Number(a, 8)
  }

  function FromInt(i: nat): Byte
    requires i < 256
  {
    BitsOf(i, 8)
  }

  lemma FromValue(a: Byte)
    ensures Value(a) < 256 && FromInt(Value(a)) == a
  {
    ShrEight(a);
    BitsOfNumber(a, 8);
    NumberBound(a, 8);
    assert Power2(8) == 256;
  }

  lemma ValueFrom(i: nat)
    requires i < 256
    ensures Value(FromInt(i)) == i
  {
    assert Power2(8) == 256;
    NumberOfBits(i, 8);
  }

  lemma Index(a: Byte)
    ensures Value(a) == 0 <==> a == ZERO
  {
    FromValue(a);
    FromValue(ZERO);
    NumberOfZero(8);
  }

  // ---------------------------------------------------------------- the tables

  type Table = t: seq<seq<Byte>> | |t| == 256 && forall x :: 0 <= x < 256 ==> |t[x]| == 256
    witness seq(256, _ => seq(256, _ => ZERO))

  ghost predicate Holds(a: array2<Byte>, t: Table, rows: nat)
    requires a.Length0 == a.Length1 == 256 && rows <= 256
    reads a
  {
    forall x, y :: 0 <= x < rows && 0 <= y < 256 ==> a[x, y] == t[x][y]
  }

  ghost predicate MulCell(f: Field<Byte>, v: Byte, x: nat, y: nat) {
    x < 256 && y < 256 && v == f.mul(FromInt(x), FromInt(y))
  }

  ghost predicate DivCell(f: Field<Byte>, v: Byte, x: nat, y: nat) {
    x < 256 && y < 256 && v == Quot(f, FromInt(x), FromInt(y))
  }

  ghost predicate IsMulTable(f: Field<Byte>, t: Table) {
    forall x, y {:trigger MulCell(f, t[x][y], x, y)} :: 0 <= x < 256 && 0 <= y < 256 ==> MulCell(f, t[x][y], x, y)
  }

  ghost predicate IsDivTable(f: Field<Byte>, t: Table) {
    forall x, y {:trigger DivCell(f, t[x][y], x, y)} :: 0 <= x < 256 && 0 <= y < 256 ==> DivCell(f, t[x][y], x, y)
  }

  function ProductCell(f: Field<Byte>, x: nat, y: nat): Byte
    requires x < 256 && y < 256
  {
    f.mul(FromInt(x), FromInt(y))
  }

  lemma MulTable(f: Field<Byte>) returns (t: Table)
    ensures IsMulTable(f, t)
  {
    t := seq(256, x requires 0 <= x < 256 => seq(256, y requires 0 <= y < 256 => ProductCell(f, x, y)));
  }

  function QuotCell(f: Field<Byte>, x: nat, y: nat): Byte
    requires x < 256 && y < 256
  {
    Quot(f, FromInt(x), FromInt(y))
  }

  lemma DivTable(f: Field<Byte>) returns (t: Table)
    ensures IsDivTable(f, t)
  {
    t := seq(256, x requires 0 <= x < 256 => seq(256, y requires 0 <= y < 256 => QuotCell(f, x, y)));
  }

  method MultCell(i: nat, j: nat, ghost t: Table) returns (r: Byte)
    requires i < 256 && j < 256 && IsMulTable(GF, t)
    ensures r == t[i][j]
  {
    assert MulCell(GF, t[i][j], i, j);
    r := MultDirect(FromInt(i), FromInt(j));
  }

  method Search(log: array2<Byte>, i: Byte, j: nat, ghost q: nat) returns (found: bool, k: nat)
    requires log.Length0 == log.Length1 == 256 && j < 256 && 1 <= q < 256 && log[q, j] == i
    ensures found && k < 256 && log[k, j] == i
  {
    found, k := false, 1;
    while k < 256 && !found
      invariant 1 <= k <= 256 && (if found then k < 256 && log[k, j] == i else k <= q)
      decreases 256 - k, !found
    {
      if log[k, j] == i {
        found := true;
      } else {
        k := k + 1;
      }
    }
  }

  lemma Nonzero(i: nat)
    requires 0 < i < 256
    ensures FromInt(i) != ZERO
  {
    ValueFrom(i);
    Index(FromInt(i));
  }

  lemma ZeroIndex()
    ensures FromInt(0) == ZERO
  {
    FromValue(ZERO);
    NumberOfZero(8);
  }

  /** The quotient as an index into the table. */
  lemma QuotIndex(f: Field<Byte>, I: Byte, J: Byte) returns (q: nat)
    requires IsField(f) && f.zero == ZERO && I != ZERO && J != ZERO
    ensures 1 <= q < 256 && f.mul(FromInt(q), J) == I
  {
    var v := QuotExists(f, I, J);
    Index(v);
    FromValue(v);
    q := Value(v);
  }

  /** gf_div_brute: the search always finds the quotient. */
  method DivBrute(f: Field<Byte>, log: array2<Byte>, i: nat, j: nat, ghost t: Table) returns (r: Byte)
    requires IsField(f) && f.zero == ZERO && log.Length0 == log.Length1 == 256 && i < 256 && j < 256
    requires Holds(log, t, 256) && IsMulTable(f, t)
    ensures DivCell(f, r, i, j)
  {
    if i == 0 || j == 0 {
      ZeroIndex();
      QuotZero(f, FromInt(j));
      return ZERO;
    }
    Nonzero(i);
    Nonzero(j);
    ghost var q := QuotIndex(f, FromInt(i), FromInt(j));
    assert MulCell(f, t[q][j], q, j);
    var found, k := Search(log, FromInt(i), j, q);
    assert MulCell(f, t[k][j], k, j);
    QuotUnique(f, FromInt(k), FromInt(i), FromInt(j));
    r := if found then FromInt(k) else ZERO;
  }

  /** gf_log and gf_alog, once nk8_init has filled them in. `f` is GF, and its laws are all that splitting and
      assembling need to know. */
  class Tables {
    const f: Field<Byte>
    const log: array2<Byte>
    const alog: array2<Byte>
    var inited: bool
    ghost const products: Table
    ghost const quotients: Table

    ghost predicate Shaped() {
      && IsField(f) && f.zero == ZERO && log.Length0 == log.Length1 == alog.Length0 == alog.Length1 == 256 && log != alog
      && IsMulTable(f, products) && IsDivTable(f, quotients)
    }

    ghost predicate Valid()
      reads this, log, alog
    {
      Shaped() && (inited ==> Holds(log, products, 256) && Holds(alog, quotients, 256))
    }

    constructor ()
      ensures Valid() && !inited && f == GF && fresh(log) && fresh(alog)
    {
      f := GF;
      log := new Byte[256, 256]((_, _) => ZERO);
      alog := new Byte[256, 256]((_, _) => ZERO);
      inited := false;
      ghost var p := MulTable(GF);
      ghost var q := DivTable(GF);
      products, quotients := p, q;
      GfIsField();
    }

    method FillMult()
      requires Shaped() && f == GF
      modifies log
      ensures Holds(log, products, 256)
    {
      var i := 0;
      while i < 256
        invariant 0 <= i <= 256 && Holds(log, products, i)
      {
        var j := 0;
        while j < 256
          invariant 0 <= j <= 256 && Holds(log, products, i)
          invariant forall y :: 0 <= y < j ==> log[i, y] == products[i][y]
        {
          var r := MultCell(i, j, products);
          log[i, j] := r;
          j := j + 1;
        }
        i := i + 1;
      }
    }

    method FillDiv()
      requires Shaped() && Holds(log, products, 256)
      modifies alog
      ensures Holds(alog, quotients, 256)
    {
      var i := 0;
      while i < 256
        invariant 0 <= i <= 256 && Holds(alog, quotients, i)
      {
        var j := 0;
        while j < 256
          invariant 0 <= j <= 256 && Holds(alog, quotients, i)
          invariant forall y :: 0 <= y < j ==> alog[i, y] == quotients[i][y]
        {
          var r := DivBrute(f, log, i, j, products);
          assert DivCell(f, quotients[i][j], i, j);
          alog[i, j] := r;
          j := j + 1;
        }
        i := i + 1;
      }
    }

    method Init()
      requires Valid() && f == GF
      modifies this, log, alog
      ensures Valid() && inited
    {
      FillMult();
      FillDiv();
      inited := true;
    }

    method Mult(a: Byte, b: Byte) returns (r: Byte)
      requires Valid() && inited
      ensures r == f.mul(a, b)
    {
      FromValue(a);
      FromValue(b);
      r := log[Value(a), Value(b)];
      assert MulCell(f, products[Value(a)][Value(b)], Value(a), Value(b));
    }

    method Div(a: Byte, b: Byte) returns (r: Byte)
      requires Valid() && inited
      ensures r == Quot(f, a, b)
    {
      FromValue(a);
      FromValue(b);
      r := alog[Value(a), Value(b)];
      assert DivCell(f, quotients[Value(a)][Value(b)], Value(a), Value(b));
    }
  }
}
