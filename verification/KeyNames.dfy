/** Numbers whose keys are in a known order: nkfs_btree_key_by_u64 puts the low byte first, so the keys of 0, 1, 2, ... are
    not in the order of the numbers. */
module KeyNames {
  import opened BtreeShape
  import opened KeyOrder

  /** The n bytes of y, the high byte first. */
  function Big(y: nat, n: nat): (r: seq<nat>)
    ensures |r| == n && Bytewise(r)
  {
    if n == 0 then [] else Big(y / 256, n - 1) + [y % 256]
  }

  lemma {:induction false} NumberBig(y: nat, n: nat)
    requires y < Power256(n)
    ensures Number(Big(y, n)) == y
  {
    if n > 0 {
      NumberBig(y / 256, n - 1);
      assert Big(y, n)[..n - 1] == Big(y / 256, n - 1);
    }
  }

  lemma {:induction false} NumberFrontZero(s: seq<nat>)
    ensures Number([0] + s) == Number(s)
  {
    var z := [0] + s;
    if s == [] {
      assert z[..0] == [];
    } else {
      NumberFrontZero(s[..|s| - 1]);
      assert z[..|z| - 1] == [0] + s[..|s| - 1];
    }
  }

  lemma {:induction false} NumberBackZeros(s: seq<nat>, n: nat)
    ensures Number(s + Zeros(n)) == Number(s) * Power256(n)
  {
    var z := s + Zeros(n);
    if n == 0 {
      assert z == s;
    } else {
      NumberBackZeros(s, n - 1);
      assert z[..|z| - 1] == s + Zeros(n - 1);
      assert Number(s) * (256 * Power256(n - 1)) == 256 * (Number(s) * Power256(n - 1));
    }
  }

  lemma {:induction false} LittleFrom(s: seq<nat>)
    requires Bytewise(s)
    ensures Little(FromLittle(s), |s|) == s
  {
    if s != [] {
      LittleFrom(s[1..]);
      var v := FromLittle(s);
      assert v % 256 == s[0] && v / 256 == FromLittle(s[1..]);
      assert s == [s[0]] + s[1..];
    }
  }

  lemma {:induction false} FromLittleBound(s: seq<nat>, n: nat)
    requires Bytewise(s)
    ensures FromLittle(s + Zeros(n)) < Power256(|s|)
  {
    if s == [] {
      assert s + Zeros(n) == Zeros(n);
      FromLittleZeros(n);
    } else {
      FromLittleBound(s[1..], n);
      assert (s + Zeros(n))[1..] == s[1..] + Zeros(n);
    }
  }

  lemma {:induction false} FromLittleZeros(n: nat)
    ensures FromLittle(Zeros(n)) == 0
  {
    if n > 0 {
      FromLittleZeros(n - 1);
      assert Zeros(n)[1..] == Zeros(n - 1);
    }
  }

  const NAMES: nat := 0x100_0000_0000

  /** The number whose key is y times 256 to the tenth. */
  function Name(y: nat): nat {
    FromLittle([0] + Big(y, 5) + Zeros(2))
  }

  const STEP: nat := 0x1_0000_0000_0000_0000_0000

  function KeyNo(y: nat): nat {
    y * STEP
  }

  lemma KeyNoOrder(x: nat, y: nat)
    requires x < y
    ensures KeyNo(x) < KeyNo(y)
  {
  }

  lemma KeyNoInRange(y: nat)
    requires y < NAMES
    ensures 0 <= KeyNo(y) < KEY_LIMIT
  {
  }

  lemma NamedKey(y: nat)
    requires y < NAMES
    ensures KeyOf(Name(y)) == KeyNo(y)
    ensures Name(y) < 0x1_0000_0000_0000 && Name(y) % 256 == 0
  {
    var a := [0] + Big(y, 5);
    var s := a + Zeros(2);
    LittleFrom(s);
    assert KeyBytes(Name(y)) == a + Zeros(10);
    NumberBackZeros(a, 10);
    NumberFrontZero(Big(y, 5));
    PowersOf256();
    NumberBig(y, 5);
    FromLittleBound(a, 2);
    assert s[0] == 0;
  }

  lemma PowersOf256()
    ensures Power256(5) == NAMES && Power256(6) == 0x1_0000_0000_0000 && Power256(10) == STEP
  {
    assert Power256(4) == 0x1_0000_0000;
    assert Power256(8) == 0x1_0000_0000_0000_0000;
  }

  lemma NameInjective(x: nat, y: nat)
    requires x < NAMES && y < NAMES && Name(x) == Name(y)
    ensures x == y
  {
    NamedKey(x);
    NamedKey(y);
  }

  // ---------------------------------------------------------------- maps from the first n of them to blocks

  function Numbered(n: nat, base: nat): map<nat, nat> {
    if n == 0 then map[] else Numbered(n - 1, base)[Name(n - 1) := base + n - 1]
  }

  lemma {:induction false} NumberedHas(n: nat, base: nat)
    requires n <= NAMES
    ensures forall v :: v in Numbered(n, base) <==> exists y: nat :: y < n && v == Name(y)
    ensures forall y: nat :: y < n ==> Numbered(n, base)[Name(y)] == base + y
  {
    hide Name;
    if n > 0 {
      NumberedHas(n - 1, base);
      NamesApart(n - 1);
    }
  }

  lemma NamesApart(n: nat)
    requires n < NAMES
    ensures forall y: nat :: y < n ==> Name(y) != Name(n)
  {
    hide Name;
    forall y: nat | y < n
      ensures Name(y) != Name(n)
    {
      if Name(y) == Name(n) {
        NameInjective(y, n);
      }
    }
  }

  function Keyed(n: nat, base: nat): (m: map<int, int>)
    ensures forall k :: k in m <==> exists y: nat :: y < n && k == KeyNo(y)
    ensures forall y: nat :: y < n ==> m[KeyNo(y)] == base + y
  {
    if n == 0 then map[]
    else
      assert forall y: nat :: y < n - 1 ==> KeyNo(y) != KeyNo(n - 1);
      Keyed(n - 1, base)[KeyNo(n - 1) := base + n - 1]
  }
}
