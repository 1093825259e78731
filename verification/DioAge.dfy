/** The 64-bit age of a cluster (core/dio.c:245-249, 837-842): touching sets the top bit, and every tick shifts. */
module DioAge {
  import opened Common

  const TOP: nat := 0x8000_0000_0000_0000

  /** age | 1 << 63 */
  function Touch(age: nat): nat {
    if age < TOP then age + TOP else age
  }

  /** age >> 1 */
  function Tick(age: nat): nat {
    age / 2
  }

  /** The age after a history: h[j] says whether there was a touch j ticks ago. */
  function AgeOf(h: seq<bool>): (a: nat)
    ensures a < 2 * TOP
  {
    if h == [] then 0 else AgeOf(h[1..]) / 2 + if h[0] then TOP else 0
  }

  function Touched(h: seq<bool>): seq<bool>
    requires h != []
  {
    [true] + h[1..]
  }

  function Ticked(h: seq<bool>): seq<bool> {
    [false] + h
  }

  lemma TouchAge(h: seq<bool>)
    requires h != []
    ensures AgeOf(Touched(h)) == Touch(AgeOf(h))
  {
    assert Touched(h)[1..] == h[1..];
  }

  lemma TickAge(h: seq<bool>)
    ensures AgeOf(Ticked(h)) == Tick(AgeOf(h))
  {
    assert Ticked(h)[1..] == h;
  }

  /** How many ticks ago the last touch was; |h| if there was none. */
  function LastTouch(h: seq<bool>): (j: nat)
    ensures j <= |h|
  {
    if h == [] || h[0] then 0 else 1 + LastTouch(h[1..])
  }

  lemma {:induction false} PowerAdd(a: nat, b: nat)
    ensures Power2(a + b) == Power2(a) * Power2(b)
  {
    if b > 0 {
      PowerAdd(a, b - 1);
      assert Power2(a) * Power2(b) == 2 * (Power2(a) * Power2(b - 1));
    }
  }

  lemma TopIsPower()
    ensures Power2(63) == TOP
  {
    assert Power2(16) == 0x1_0000;
    PowerAdd(16, 16);
    PowerAdd(32, 16);
    PowerAdd(48, 15);
    assert Power2(15) == 0x8000;
  }

  lemma {:induction false} AgeLower(h: seq<bool>)
    requires LastTouch(h) < |h| && LastTouch(h) <= 63
    ensures AgeOf(h) >= Power2(63 - LastTouch(h))
  {
    if h[0] {
      TopIsPower();
    } else {
      AgeLower(h[1..]);
    }
  }

  lemma {:induction false} AgeUpper(h: seq<bool>, j: nat)
    requires j <= 63 && (LastTouch(h) > j || LastTouch(h) == |h|)
    ensures AgeOf(h) < Power2(63 - j)
    decreases j
  {
    if h == [] {
      PowerPositive(63 - j);
    } else if j == 0 {
      TopIsPower();
    } else {
      AgeUpper(h[1..], j - 1);
    }
  }

  lemma {:induction false} PowerPositive(n: nat)
    ensures Power2(n) > 0
  {
    if n > 0 {
      PowerPositive(n - 1);
    }
  }

  /** What was touched in a later tick, within the last 63, has the greater age. */
  lemma LaterTouchIsGreater(h: seq<bool>, g: seq<bool>)
    requires LastTouch(h) < |h| && LastTouch(h) <= 63
    requires LastTouch(g) > LastTouch(h) || LastTouch(g) == |g|
    ensures AgeOf(h) > AgeOf(g)
  {
    AgeLower(h);
    AgeUpper(g, LastTouch(h));
  }
}
