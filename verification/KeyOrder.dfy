/** Keys: struct nkfs_btree_key is 16 bytes (include/nkfs_image.h:45-47), compared by memcmp (core/btree.c:689-694).
    Read as one number, the first byte first, keys have the same order. */
module KeyOrder {
  import opened Common
  import opened BtreeShape

  ghost predicate Bytewise(s: seq<nat>) {
    forall i :: 0 <= i < |s| ==> s[i] < 256
  }

  /** The bytes as one number, the last byte counting least. */
  function Number(s: seq<nat>): nat {
    if s == [] then 0 else 256 * Number(s[..|s| - 1]) + s[|s| - 1]
  }

  function Power256(n: nat): nat {
    if n == 0 then 1 else 256 * Power256(n - 1)
  }

  lemma {:induction false} NumberBound(s: seq<nat>)
    requires Bytewise(s)
    ensures Number(s) < Power256(|s|)
  {
    if s != [] {
      NumberBound(s[..|s| - 1]);
    }
  }

  lemma SixteenBytes()
    ensures Power256(16) == KEY_LIMIT
  {
    assert Power256(4) == 0x1_0000_0000;
    assert Power256(8) == 0x1_0000_0000_0000_0000;
    assert Power256(12) == 0x1_0000_0000_0000_0000_0000_0000;
  }

  /** memcmp: the first byte that differs decides. */
  method Memcmp(a: seq<nat>, b: seq<nat>) returns (r: int)
    requires |a| == |b| && Bytewise(a) && Bytewise(b)
    ensures r < 0 <==> Number(a) < Number(b)
    ensures r > 0 <==> Number(a) > Number(b)
    ensures r == 0 <==> a == b
  {
    var i := 0;
    while i < |a|
      invariant 0 <= i <= |a| && a[..i] == b[..i]
    {
      if a[i] != b[i] {
        FirstDecides(a, b, i);
        return a[i] as int - b[i] as int;
      }
      assert a[..i + 1] == a[..i] + [a[i]] && b[..i + 1] == b[..i] + [b[i]];
      i := i + 1;
    }
    assert a == a[..i] && b == b[..i];
    r := 0;
  }

  lemma {:induction false} FirstDecides(a: seq<nat>, b: seq<nat>, i: nat)
    requires |a| == |b| && Bytewise(a) && Bytewise(b) && i < |a| && a[..i] == b[..i] && a[i] != b[i]
    ensures Number(a) < Number(b) <==> a[i] < b[i]
    ensures Number(a) != Number(b)
    decreases |a|
  {
    var n := |a| - 1;
    if i < n {
      assert a[..n][..i] == a[..i] && b[..n][..i] == b[..i];
      FirstDecides(a[..n], b[..n], i);
    }
  }

  /** Different keys are different numbers. */
  lemma {:induction false} NumberInjective(a: seq<nat>, b: seq<nat>)
    requires |a| == |b| && Bytewise(a) && Bytewise(b) && Number(a) == Number(b)
    ensures a == b
  {
    if a != [] {
      var n := |a| - 1;
      NumberInjective(a[..n], b[..n]);
      assert a == a[..n] + [a[n]] && b == b[..n] + [b[n]];
    }
  }

  // ---------------------------------------------------------------- keys made of numbers

  /** The n bytes of v in memory, the low byte first. */
  function Little(v: nat, n: nat): (r: seq<nat>)
    ensures |r| == n && Bytewise(r)
  {
    if n == 0 then [] else [v % 256] + Little(v / 256, n - 1)
  }

  function FromLittle(s: seq<nat>): nat {
    if s == [] then 0 else s[0] + 256 * FromLittle(s[1..])
  }

  lemma {:induction false} FromLittleOf(v: nat, n: nat)
    requires v < Power256(n)
    ensures FromLittle(Little(v, n)) == v
  {
    if n > 0 {
      FromLittleOf(v / 256, n - 1);
      assert Little(v, n)[1..] == Little(v / 256, n - 1);
    }
  }

  function Zeros(n: nat): (r: seq<nat>)
    ensures |r| == n && Bytewise(r)
  {
    seq(n, _ => 0)
  }

  /** nkfs_btree_key_by_u64 on a machine that has the low byte first. */
  function KeyBytes(v: nat): (r: seq<nat>)
    ensures |r| == 16 && Bytewise(r)
  {
    Little(v, 8) + Zeros(8)
  }

  /** nkfs_btree_key_to_u64. */
  function BytesToU64(key: seq<nat>): nat
    requires |key| == 16
  {
    FromLittle(key[..8])
  }

  lemma KeyRoundTrip(v: nat)
    requires v < U64
    ensures BytesToU64(KeyBytes(v)) == v
  {
    assert Power256(4) == 0x1_0000_0000;
    assert Power256(8) == U64;
    assert KeyBytes(v)[..8] == Little(v, 8);
    FromLittleOf(v, 8);
  }

  /** The low byte is the first byte of the key, and so the one that counts most in the order of keys. */
  lemma {:induction false} KeyIs(b: seq<nat>, v: nat)
    requires |b| == 8 && Bytewise(b) && v == FromLittle(b)
    ensures KeyBytes(v) == b + [0, 0, 0, 0, 0, 0, 0, 0]
  {
    LittleIs(b);
    assert Zeros(8) == [0, 0, 0, 0, 0, 0, 0, 0];
  }

  lemma {:induction false} LittleIs(b: seq<nat>)
    requires Bytewise(b)
    ensures Little(FromLittle(b), |b|) == b
  {
    if b != [] {
      LittleIs(b[1..]);
      LowDigit(b[0], FromLittle(b[1..]));
      assert b == [b[0]] + b[1..];
    }
  }

  lemma LowDigit(a: nat, rest: nat)
    requires a < 256
    ensures (a + 256 * rest) % 256 == a && (a + 256 * rest) / 256 == rest
  {
  }

  function KeyOf(v: nat): int {
    Number(KeyBytes(v))
  }

  lemma KeyInRange(v: nat)
    ensures 0 <= KeyOf(v) < KEY_LIMIT
  {
    NumberBound(KeyBytes(v));
    SixteenBytes();
  }

  lemma KeyInjective(v: nat, w: nat)
    requires v < U64 && w < U64 && KeyOf(v) == KeyOf(w)
    ensures v == w
  {
    NumberInjective(KeyBytes(v), KeyBytes(w));
    KeyRoundTrip(v);
    KeyRoundTrip(w);
  }
}
