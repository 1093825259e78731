/** The sum of "abc" by section 6.2.2 of FIPS 180-4, eight words and eight rounds at a time, and the start values of SHA-224
    from section 5.3.2. */
module Sha256Known {
  import opened Stripes
  import opened Sha256
  import opened Sha256Stream
  import opened Sha256Words

  /** "abc" and its padding. */
  const BLOCK: Bytes := [97, 98, 99, 0x80] + Zeros(59) + [0x18]

  function Expand(a: bv32, b: bv32, c: bv32, d: bv32): bv32 {
    STANDARD.add(STANDARD.add(STANDARD.add(STANDARD.small1(a), b), STANDARD.small0(c)), d)
  }

  function Wt(t: nat): bv32 {
    Schedule(STANDARD, BLOCK, t)
  }

  lemma WtNext(t: nat)
    requires t >= 16
    ensures Wt(t) == Expand(Wt(t - 2), Wt(t - 7), Wt(t - 15), Wt(t - 16))
  {
    hide Schedule;
    Unfolded(STANDARD, BLOCK, t);
  }

  lemma Unfolded<W>(o: Ops<W>, block: Bytes, t: nat)
    requires t >= 16 && |block| == 64
    ensures Schedule(o, block, t) == o.add(o.add(o.add(o.small1(Schedule(o, block, t - 2)), Schedule(o, block, t - 7)),
      o.small0(Schedule(o, block, t - 15))), Schedule(o, block, t - 16))
  {
  }

  lemma FirstWords(t: nat)
    requires t < 16
    ensures Wt(t) == if t == 0 then 0x61626380 else if t == 15 then 0x00000018 else 0
  {
    var w := BLOCK[4 * t..4 * t + 4];
    if t == 0 {
      assert w == [97, 98, 99, 0x80];
    } else if t == 15 {
      assert w == [0, 0, 0, 0x18];
    } else {
      assert w == [0, 0, 0, 0];
    }
  }

  lemma Expand16()
    ensures Expand(0x00000000, 0x00000000, 0x00000000, 0x61626380) == 0x61626380
    ensures Expand(0x00000018, 0x00000000, 0x00000000, 0x00000000) == 0x000F0000
    ensures Expand(0x61626380, 0x00000000, 0x00000000, 0x00000000) == 0x7DA86405
    ensures Expand(0x000F0000, 0x00000000, 0x00000000, 0x00000000) == 0x600003C6
    ensures Expand(0x7DA86405, 0x00000000, 0x00000000, 0x00000000) == 0x3E9D7B78
    ensures Expand(0x600003C6, 0x00000000, 0x00000000, 0x00000000) == 0x0183FC00
    ensures Expand(0x3E9D7B78, 0x00000018, 0x00000000, 0x00000000) == 0x12DCBFDB
    ensures Expand(0x0183FC00, 0x61626380, 0x00000000, 0x00000000) == 0xE2E2C38E
  {
  }

  lemma Expand24()
    ensures Expand(0x12DCBFDB, 0x000F0000, 0x00000000, 0x00000000) == 0xC8215C1A
    ensures Expand(0xE2E2C38E, 0x7DA86405, 0x00000000, 0x00000000) == 0xB73679A2
    ensures Expand(0xC8215C1A, 0x600003C6, 0x00000000, 0x00000000) == 0xE5BC3909
    ensures Expand(0xB73679A2, 0x3E9D7B78, 0x00000000, 0x00000000) == 0x32663C5B
    ensures Expand(0xE5BC3909, 0x0183FC00, 0x00000000, 0x00000000) == 0x9D209D67
    ensures Expand(0x32663C5B, 0x12DCBFDB, 0x00000000, 0x00000000) == 0xEC8726CB
    ensures Expand(0x9D209D67, 0xE2E2C38E, 0x00000018, 0x00000000) == 0x702138A4
    ensures Expand(0xEC8726CB, 0xC8215C1A, 0x61626380, 0x00000018) == 0xD3B7973B
  {
  }

  lemma Expand32()
    ensures Expand(0x702138A4, 0xB73679A2, 0x000F0000, 0x61626380) == 0x93F5997F
    ensures Expand(0xD3B7973B, 0xE5BC3909, 0x7DA86405, 0x000F0000) == 0x3B68BA73
    ensures Expand(0x93F5997F, 0x32663C5B, 0x600003C6, 0x7DA86405) == 0xAFF4FFC1
    ensures Expand(0x3B68BA73, 0x9D209D67, 0x3E9D7B78, 0x600003C6) == 0xF10A5C62
    ensures Expand(0xAFF4FFC1, 0xEC8726CB, 0x0183FC00, 0x3E9D7B78) == 0x0A8B3996
    ensures Expand(0xF10A5C62, 0x702138A4, 0x12DCBFDB, 0x0183FC00) == 0x72AF830A
    ensures Expand(0x0A8B3996, 0xD3B7973B, 0xE2E2C38E, 0x12DCBFDB) == 0x9409E33E
    ensures Expand(0x72AF830A, 0x93F5997F, 0xC8215C1A, 0xE2E2C38E) == 0x24641522
  {
  }

  lemma Expand40()
    ensures Expand(0x9409E33E, 0x3B68BA73, 0xB73679A2, 0xC8215C1A) == 0x9F47BF94
    ensures Expand(0x24641522, 0xAFF4FFC1, 0xE5BC3909, 0xB73679A2) == 0xF0A64F5A
    ensures Expand(0x9F47BF94, 0xF10A5C62, 0x32663C5B, 0xE5BC3909) == 0x3E246A79
    ensures Expand(0xF0A64F5A, 0x0A8B3996, 0x9D209D67, 0x32663C5B) == 0x27333BA3
    ensures Expand(0x3E246A79, 0x72AF830A, 0xEC8726CB, 0x9D209D67) == 0x0C4763F2
    ensures Expand(0x27333BA3, 0x9409E33E, 0x702138A4, 0xEC8726CB) == 0x840ABF27
    ensures Expand(0x0C4763F2, 0x24641522, 0xD3B7973B, 0x702138A4) == 0x7A290D5D
    ensures Expand(0x840ABF27, 0x9F47BF94, 0x93F5997F, 0xD3B7973B) == 0x065C43DA
  {
  }

  lemma Expand48()
    ensures Expand(0x7A290D5D, 0xF0A64F5A, 0x3B68BA73, 0x93F5997F) == 0xFB3E89CB
    ensures Expand(0x065C43DA, 0x3E246A79, 0xAFF4FFC1, 0x3B68BA73) == 0xCC7617DB
    ensures Expand(0xFB3E89CB, 0x27333BA3, 0xF10A5C62, 0xAFF4FFC1) == 0xB9E66C34
    ensures Expand(0xCC7617DB, 0x0C4763F2, 0x0A8B3996, 0xF10A5C62) == 0xA9993667
    ensures Expand(0xB9E66C34, 0x840ABF27, 0x72AF830A, 0x0A8B3996) == 0x84BADEDD
    ensures Expand(0xA9993667, 0x7A290D5D, 0x9409E33E, 0x72AF830A) == 0xC21462BC
    ensures Expand(0x84BADEDD, 0x065C43DA, 0x24641522, 0x9409E33E) == 0x1487472C
    ensures Expand(0xC21462BC, 0xFB3E89CB, 0x9F47BF94, 0x24641522) == 0xB20F7A99
  {
  }

  lemma Expand56()
    ensures Expand(0x1487472C, 0xCC7617DB, 0xF0A64F5A, 0x9F47BF94) == 0xEF57B9CD
    ensures Expand(0xB20F7A99, 0xB9E66C34, 0x3E246A79, 0xF0A64F5A) == 0xEBE6B238
    ensures Expand(0xEF57B9CD, 0xA9993667, 0x27333BA3, 0x3E246A79) == 0x9FE3095E
    ensures Expand(0xEBE6B238, 0x84BADEDD, 0x0C4763F2, 0x27333BA3) == 0x78BC8D4B
    ensures Expand(0x9FE3095E, 0xC21462BC, 0x840ABF27, 0x0C4763F2) == 0xA43FCF15
    ensures Expand(0x78BC8D4B, 0x1487472C, 0x7A290D5D, 0x840ABF27) == 0x668B2FF8
    ensures Expand(0xA43FCF15, 0xB20F7A99, 0x065C43DA, 0x7A290D5D) == 0xEEABA2CC
    ensures Expand(0x668B2FF8, 0xEF57B9CD, 0xFB3E89CB, 0x065C43DA) == 0x12B1EDEB
  {
  }

  lemma Words0()
    ensures Wt(0) == 0x61626380 && Wt(1) == 0x00000000 && Wt(2) == 0x00000000 && Wt(3) == 0x00000000
    ensures Wt(4) == 0x00000000 && Wt(5) == 0x00000000 && Wt(6) == 0x00000000 && Wt(7) == 0x00000000
  {
    hide Wt;
    forall t: nat | t < 16
      ensures Wt(t) == if t == 0 then 0x61626380 else if t == 15 then 0x00000018 else 0
    {
      FirstWords(t);
    }
  }

  lemma Words8()
    ensures Wt(8) == 0x00000000 && Wt(9) == 0x00000000 && Wt(10) == 0x00000000 && Wt(11) == 0x00000000
    ensures Wt(12) == 0x00000000 && Wt(13) == 0x00000000 && Wt(14) == 0x00000000 && Wt(15) == 0x00000018
  {
    hide Wt;
    forall t: nat | t < 16
      ensures Wt(t) == if t == 0 then 0x61626380 else if t == 15 then 0x00000018 else 0
    {
      FirstWords(t);
    }
  }

  lemma Words16()
    ensures Wt(16) == 0x61626380 && Wt(17) == 0x000F0000 && Wt(18) == 0x7DA86405 && Wt(19) == 0x600003C6
    ensures Wt(20) == 0x3E9D7B78 && Wt(21) == 0x0183FC00 && Wt(22) == 0x12DCBFDB && Wt(23) == 0xE2E2C38E
  {
    hide Wt, Expand;
    Words0();
    Words8();
    Expand16();
    WtNext(16); WtNext(17); WtNext(18); WtNext(19); WtNext(20); WtNext(21); WtNext(22); WtNext(23);
  }

  lemma Words24()
    ensures Wt(24) == 0xC8215C1A && Wt(25) == 0xB73679A2 && Wt(26) == 0xE5BC3909 && Wt(27) == 0x32663C5B
    ensures Wt(28) == 0x9D209D67 && Wt(29) == 0xEC8726CB && Wt(30) == 0x702138A4 && Wt(31) == 0xD3B7973B
  {
    hide Wt, Expand;
    Words8();
    Words16();
    Expand24();
    WtNext(24); WtNext(25); WtNext(26); WtNext(27); WtNext(28); WtNext(29); WtNext(30); WtNext(31);
  }

  lemma Words32()
    ensures Wt(32) == 0x93F5997F && Wt(33) == 0x3B68BA73 && Wt(34) == 0xAFF4FFC1 && Wt(35) == 0xF10A5C62
    ensures Wt(36) == 0x0A8B3996 && Wt(37) == 0x72AF830A && Wt(38) == 0x9409E33E && Wt(39) == 0x24641522
  {
    hide Wt, Expand;
    Words16();
    Words24();
    Expand32();
    WtNext(32); WtNext(33); WtNext(34); WtNext(35); WtNext(36); WtNext(37); WtNext(38); WtNext(39);
  }

  lemma Words40()
    ensures Wt(40) == 0x9F47BF94 && Wt(41) == 0xF0A64F5A && Wt(42) == 0x3E246A79 && Wt(43) == 0x27333BA3
    ensures Wt(44) == 0x0C4763F2 && Wt(45) == 0x840ABF27 && Wt(46) == 0x7A290D5D && Wt(47) == 0x065C43DA
  {
    hide Wt, Expand;
    Words24();
    Words32();
    Expand40();
    WtNext(40); WtNext(41); WtNext(42); WtNext(43); WtNext(44); WtNext(45); WtNext(46); WtNext(47);
  }

  lemma Words48()
    ensures Wt(48) == 0xFB3E89CB && Wt(49) == 0xCC7617DB && Wt(50) == 0xB9E66C34 && Wt(51) == 0xA9993667
    ensures Wt(52) == 0x84BADEDD && Wt(53) == 0xC21462BC && Wt(54) == 0x1487472C && Wt(55) == 0xB20F7A99
  {
    hide Wt, Expand;
    Words32();
    Words40();
    Expand48();
    WtNext(48); WtNext(49); WtNext(50); WtNext(51); WtNext(52); WtNext(53); WtNext(54); WtNext(55);
  }

  lemma Words56()
    ensures Wt(56) == 0xEF57B9CD && Wt(57) == 0xEBE6B238 && Wt(58) == 0x9FE3095E && Wt(59) == 0x78BC8D4B
    ensures Wt(60) == 0xA43FCF15 && Wt(61) == 0x668B2FF8 && Wt(62) == 0xEEABA2CC && Wt(63) == 0x12B1EDEB
  {
    hide Wt, Expand;
    Words40();
    Words48();
    Expand56();
    WtNext(56); WtNext(57); WtNext(58); WtNext(59); WtNext(60); WtNext(61); WtNext(62); WtNext(63);
  }

  // ---------------------------------------------------------------- rounds

  function Step(s: Regs<bv32>, k: bv32, w: bv32): Regs<bv32> {
    RoundStep(STANDARD, s, k, w)
  }

  lemma NextRound(s: Regs<bv32>, t: nat)
    ensures Rounds(STANDARD, s, BLOCK, t + 1) == Step(Rounds(STANDARD, s, BLOCK, t), K(t), Wt(t))
  {
    hide Schedule, RoundStep, K;
  }

  lemma NextRounds(s: Regs<bv32>, t: nat)
    ensures forall u: nat :: t <= u < t + 8 ==>
      Rounds(STANDARD, s, BLOCK, u + 1) == Step(Rounds(STANDARD, s, BLOCK, u), K(u), Wt(u))
  {
    hide Rounds, Step, K, Wt;
    forall u: nat | t <= u < t + 8
      ensures Rounds(STANDARD, s, BLOCK, u + 1) == Step(Rounds(STANDARD, s, BLOCK, u), K(u), Wt(u))
    {
      NextRound(s, u);
    }
  }

  lemma Steps0()
    ensures Step(Regs(0x6A09E667, 0xBB67AE85, 0x3C6EF372, 0xA54FF53A, 0x510E527F, 0x9B05688C, 0x1F83D9AB, 0x5BE0CD19),
      0x428A2F98, 0x61626380) == Regs(0x5D6AEBCD, 0x6A09E667, 0xBB67AE85, 0x3C6EF372, 0xFA2A4622, 0x510E527F, 0x9B05688C, 0x1F83D9AB)
    ensures Step(Regs(0x5D6AEBCD, 0x6A09E667, 0xBB67AE85, 0x3C6EF372, 0xFA2A4622, 0x510E527F, 0x9B05688C, 0x1F83D9AB),
      0x71374491, 0x00000000) == Regs(0x5A6AD9AD, 0x5D6AEBCD, 0x6A09E667, 0xBB67AE85, 0x78CE7989, 0xFA2A4622, 0x510E527F, 0x9B05688C)
    ensures Step(Regs(0x5A6AD9AD, 0x5D6AEBCD, 0x6A09E667, 0xBB67AE85, 0x78CE7989, 0xFA2A4622, 0x510E527F, 0x9B05688C),
      0xB5C0FBCF, 0x00000000) == Regs(0xC8C347A7, 0x5A6AD9AD, 0x5D6AEBCD, 0x6A09E667, 0xF92939EB, 0x78CE7989, 0xFA2A4622, 0x510E527F)
    ensures Step(Regs(0xC8C347A7, 0x5A6AD9AD, 0x5D6AEBCD, 0x6A09E667, 0xF92939EB, 0x78CE7989, 0xFA2A4622, 0x510E527F),
      0xE9B5DBA5, 0x00000000) == Regs(0xD550F666, 0xC8C347A7, 0x5A6AD9AD, 0x5D6AEBCD, 0x24E00850, 0xF92939EB, 0x78CE7989, 0xFA2A4622)
    ensures Step(Regs(0xD550F666, 0xC8C347A7, 0x5A6AD9AD, 0x5D6AEBCD, 0x24E00850, 0xF92939EB, 0x78CE7989, 0xFA2A4622),
      0x3956C25B, 0x00000000) == Regs(0x04409A6A, 0xD550F666, 0xC8C347A7, 0x5A6AD9AD, 0x43ADA245, 0x24E00850, 0xF92939EB, 0x78CE7989)
    ensures Step(Regs(0x04409A6A, 0xD550F666, 0xC8C347A7, 0x5A6AD9AD, 0x43ADA245, 0x24E00850, 0xF92939EB, 0x78CE7989),
      0x59F111F1, 0x00000000) == Regs(0x2B4209F5, 0x04409A6A, 0xD550F666, 0xC8C347A7, 0x714260AD, 0x43ADA245, 0x24E00850, 0xF92939EB)
    ensures Step(Regs(0x2B4209F5, 0x04409A6A, 0xD550F666, 0xC8C347A7, 0x714260AD, 0x43ADA245, 0x24E00850, 0xF92939EB),
      0x923F82A4, 0x00000000) == Regs(0xE5030380, 0x2B4209F5, 0x04409A6A, 0xD550F666, 0x9B27A401, 0x714260AD, 0x43ADA245, 0x24E00850)
    ensures Step(Regs(0xE5030380, 0x2B4209F5, 0x04409A6A, 0xD550F666, 0x9B27A401, 0x714260AD, 0x43ADA245, 0x24E00850),
      0xAB1C5ED5, 0x00000000) == Regs(0x85A07B5F, 0xE5030380, 0x2B4209F5, 0x04409A6A, 0x0C657A79, 0x9B27A401, 0x714260AD, 0x43ADA245)
  {
  }

  lemma Constants0()
    ensures K(0) == 0x428A2F98 && K(1) == 0x71374491 && K(2) == 0xB5C0FBCF && K(3) == 0xE9B5DBA5
    ensures K(4) == 0x3956C25B && K(5) == 0x59F111F1 && K(6) == 0x923F82A4 && K(7) == 0xAB1C5ED5
  {
  }

  lemma Steps8()
    ensures Step(Regs(0x85A07B5F, 0xE5030380, 0x2B4209F5, 0x04409A6A, 0x0C657A79, 0x9B27A401, 0x714260AD, 0x43ADA245),
      0xD807AA98, 0x00000000) == Regs(0x8E04ECB9, 0x85A07B5F, 0xE5030380, 0x2B4209F5, 0x32CA2D8C, 0x0C657A79, 0x9B27A401, 0x714260AD)
    ensures Step(Regs(0x8E04ECB9, 0x85A07B5F, 0xE5030380, 0x2B4209F5, 0x32CA2D8C, 0x0C657A79, 0x9B27A401, 0x714260AD),
      0x12835B01, 0x00000000) == Regs(0x8C87346B, 0x8E04ECB9, 0x85A07B5F, 0xE5030380, 0x1CC92596, 0x32CA2D8C, 0x0C657A79, 0x9B27A401)
    ensures Step(Regs(0x8C87346B, 0x8E04ECB9, 0x85A07B5F, 0xE5030380, 0x1CC92596, 0x32CA2D8C, 0x0C657A79, 0x9B27A401),
      0x243185BE, 0x00000000) == Regs(0x4798A3F4, 0x8C87346B, 0x8E04ECB9, 0x85A07B5F, 0x436B23E8, 0x1CC92596, 0x32CA2D8C, 0x0C657A79)
    ensures Step(Regs(0x4798A3F4, 0x8C87346B, 0x8E04ECB9, 0x85A07B5F, 0x436B23E8, 0x1CC92596, 0x32CA2D8C, 0x0C657A79),
      0x550C7DC3, 0x00000000) == Regs(0xF71FC5A9, 0x4798A3F4, 0x8C87346B, 0x8E04ECB9, 0x816FD6E9, 0x436B23E8, 0x1CC92596, 0x32CA2D8C)
    ensures Step(Regs(0xF71FC5A9, 0x4798A3F4, 0x8C87346B, 0x8E04ECB9, 0x816FD6E9, 0x436B23E8, 0x1CC92596, 0x32CA2D8C),
      0x72BE5D74, 0x00000000) == Regs(0x87912990, 0xF71FC5A9, 0x4798A3F4, 0x8C87346B, 0x1E578218, 0x816FD6E9, 0x436B23E8, 0x1CC92596)
    ensures Step(Regs(0x87912990, 0xF71FC5A9, 0x4798A3F4, 0x8C87346B, 0x1E578218, 0x816FD6E9, 0x436B23E8, 0x1CC92596),
      0x80DEB1FE, 0x00000000) == Regs(0xD932EB16, 0x87912990, 0xF71FC5A9, 0x4798A3F4, 0x745A48DE, 0x1E578218, 0x816FD6E9, 0x436B23E8)
    ensures Step(Regs(0xD932EB16, 0x87912990, 0xF71FC5A9, 0x4798A3F4, 0x745A48DE, 0x1E578218, 0x816FD6E9, 0x436B23E8),
      0x9BDC06A7, 0x00000000) == Regs(0xC0645FDE, 0xD932EB16, 0x87912990, 0xF71FC5A9, 0x0B92F20C, 0x745A48DE, 0x1E578218, 0x816FD6E9)
    ensures Step(Regs(0xC0645FDE, 0xD932EB16, 0x87912990, 0xF71FC5A9, 0x0B92F20C, 0x745A48DE, 0x1E578218, 0x816FD6E9),
      0xC19BF174, 0x00000018) == Regs(0xB0FA238E, 0xC0645FDE, 0xD932EB16, 0x87912990, 0x07590DCD, 0x0B92F20C, 0x745A48DE, 0x1E578218)
  {
  }

  lemma Constants8()
    ensures K(8) == 0xD807AA98 && K(9) == 0x12835B01 && K(10) == 0x243185BE && K(11) == 0x550C7DC3
    ensures K(12) == 0x72BE5D74 && K(13) == 0x80DEB1FE && K(14) == 0x9BDC06A7 && K(15) == 0xC19BF174
  {
  }

  lemma Steps16()
    ensures Step(Regs(0xB0FA238E, 0xC0645FDE, 0xD932EB16, 0x87912990, 0x07590DCD, 0x0B92F20C, 0x745A48DE, 0x1E578218),
      0xE49B69C1, 0x61626380) == Regs(0x21DA9A9B, 0xB0FA238E, 0xC0645FDE, 0xD932EB16, 0x8034229C, 0x07590DCD, 0x0B92F20C, 0x745A48DE)
    ensures Step(Regs(0x21DA9A9B, 0xB0FA238E, 0xC0645FDE, 0xD932EB16, 0x8034229C, 0x07590DCD, 0x0B92F20C, 0x745A48DE),
      0xEFBE4786, 0x000F0000) == Regs(0xC2FBD9D1, 0x21DA9A9B, 0xB0FA238E, 0xC0645FDE, 0x846EE454, 0x8034229C, 0x07590DCD, 0x0B92F20C)
    ensures Step(Regs(0xC2FBD9D1, 0x21DA9A9B, 0xB0FA238E, 0xC0645FDE, 0x846EE454, 0x8034229C, 0x07590DCD, 0x0B92F20C),
      0x0FC19DC6, 0x7DA86405) == Regs(0xFE777BBF, 0xC2FBD9D1, 0x21DA9A9B, 0xB0FA238E, 0xCC899961, 0x846EE454, 0x8034229C, 0x07590DCD)
    ensures Step(Regs(0xFE777BBF, 0xC2FBD9D1, 0x21DA9A9B, 0xB0FA238E, 0xCC899961, 0x846EE454, 0x8034229C, 0x07590DCD),
      0x240CA1CC, 0x600003C6) == Regs(0xE1F20C33, 0xFE777BBF, 0xC2FBD9D1, 0x21DA9A9B, 0xB0638179, 0xCC899961, 0x846EE454, 0x8034229C)
    ensures Step(Regs(0xE1F20C33, 0xFE777BBF, 0xC2FBD9D1, 0x21DA9A9B, 0xB0638179, 0xCC899961, 0x846EE454, 0x8034229C),
      0x2DE92C6F, 0x3E9D7B78) == Regs(0x9DC68B63, 0xE1F20C33, 0xFE777BBF, 0xC2FBD9D1, 0x8ADA8930, 0xB0638179, 0xCC899961, 0x846EE454)
    ensures Step(Regs(0x9DC68B63, 0xE1F20C33, 0xFE777BBF, 0xC2FBD9D1, 0x8ADA8930, 0xB0638179, 0xCC899961, 0x846EE454),
      0x4A7484AA, 0x0183FC00) == Regs(0xC2606D6D, 0x9DC68B63, 0xE1F20C33, 0xFE777BBF, 0xE1257970, 0x8ADA8930, 0xB0638179, 0xCC899961)
    ensures Step(Regs(0xC2606D6D, 0x9DC68B63, 0xE1F20C33, 0xFE777BBF, 0xE1257970, 0x8ADA8930, 0xB0638179, 0xCC899961),
      0x5CB0A9DC, 0x12DCBFDB) == Regs(0xA7A3623F, 0xC2606D6D, 0x9DC68B63, 0xE1F20C33, 0x49F5114A, 0xE1257970, 0x8ADA8930, 0xB0638179)
    ensures Step(Regs(0xA7A3623F, 0xC2606D6D, 0x9DC68B63, 0xE1F20C33, 0x49F5114A, 0xE1257970, 0x8ADA8930, 0xB0638179),
      0x76F988DA, 0xE2E2C38E) == Regs(0xC5D53D8D, 0xA7A3623F, 0xC2606D6D, 0x9DC68B63, 0xAA47C347, 0x49F5114A, 0xE1257970, 0x8ADA8930)
  {
  }

  lemma Constants16()
    ensures K(16) == 0xE49B69C1 && K(17) == 0xEFBE4786 && K(18) == 0x0FC19DC6 && K(19) == 0x240CA1CC
    ensures K(20) == 0x2DE92C6F && K(21) == 0x4A7484AA && K(22) == 0x5CB0A9DC && K(23) == 0x76F988DA
  {
  }

  lemma Steps24()
    ensures Step(Regs(0xC5D53D8D, 0xA7A3623F, 0xC2606D6D, 0x9DC68B63, 0xAA47C347, 0x49F5114A, 0xE1257970, 0x8ADA8930),
      0x983E5152, 0xC8215C1A) == Regs(0x1C2C2838, 0xC5D53D8D, 0xA7A3623F, 0xC2606D6D, 0x2823EF91, 0xAA47C347, 0x49F5114A, 0xE1257970)
    ensures Step(Regs(0x1C2C2838, 0xC5D53D8D, 0xA7A3623F, 0xC2606D6D, 0x2823EF91, 0xAA47C347, 0x49F5114A, 0xE1257970),
      0xA831C66D, 0xB73679A2) == Regs(0xCDE8037D, 0x1C2C2838, 0xC5D53D8D, 0xA7A3623F, 0x14383D8E, 0x2823EF91, 0xAA47C347, 0x49F5114A)
    ensures Step(Regs(0xCDE8037D, 0x1C2C2838, 0xC5D53D8D, 0xA7A3623F, 0x14383D8E, 0x2823EF91, 0xAA47C347, 0x49F5114A),
      0xB00327C8, 0xE5BC3909) == Regs(0xB62EC4BC, 0xCDE8037D, 0x1C2C2838, 0xC5D53D8D, 0xC74C6516, 0x14383D8E, 0x2823EF91, 0xAA47C347)
    ensures Step(Regs(0xB62EC4BC, 0xCDE8037D, 0x1C2C2838, 0xC5D53D8D, 0xC74C6516, 0x14383D8E, 0x2823EF91, 0xAA47C347),
      0xBF597FC7, 0x32663C5B) == Regs(0x77D37528, 0xB62EC4BC, 0xCDE8037D, 0x1C2C2838, 0xEDFFBFF8, 0xC74C6516, 0x14383D8E, 0x2823EF91)
    ensures Step(Regs(0x77D37528, 0xB62EC4BC, 0xCDE8037D, 0x1C2C2838, 0xEDFFBFF8, 0xC74C6516, 0x14383D8E, 0x2823EF91),
      0xC6E00BF3, 0x9D209D67) == Regs(0x363482C9, 0x77D37528, 0xB62EC4BC, 0xCDE8037D, 0x6112A3B7, 0xEDFFBFF8, 0xC74C6516, 0x14383D8E)
    ensures Step(Regs(0x363482C9, 0x77D37528, 0xB62EC4BC, 0xCDE8037D, 0x6112A3B7, 0xEDFFBFF8, 0xC74C6516, 0x14383D8E),
      0xD5A79147, 0xEC8726CB) == Regs(0xA0060B30, 0x363482C9, 0x77D37528, 0xB62EC4BC, 0xADE79437, 0x6112A3B7, 0xEDFFBFF8, 0xC74C6516)
    ensures Step(Regs(0xA0060B30, 0x363482C9, 0x77D37528, 0xB62EC4BC, 0xADE79437, 0x6112A3B7, 0xEDFFBFF8, 0xC74C6516),
      0x06CA6351, 0x702138A4) == Regs(0xEA992A22, 0xA0060B30, 0x363482C9, 0x77D37528, 0x0109AB3A, 0xADE79437, 0x6112A3B7, 0xEDFFBFF8)
    ensures Step(Regs(0xEA992A22, 0xA0060B30, 0x363482C9, 0x77D37528, 0x0109AB3A, 0xADE79437, 0x6112A3B7, 0xEDFFBFF8),
      0x14292967, 0xD3B7973B) == Regs(0x73B33BF5, 0xEA992A22, 0xA0060B30, 0x363482C9, 0xBA591112, 0x0109AB3A, 0xADE79437, 0x6112A3B7)
  {
  }

  lemma Constants24()
    ensures K(24) == 0x983E5152 && K(25) == 0xA831C66D && K(26) == 0xB00327C8 && K(27) == 0xBF597FC7
    ensures K(28) == 0xC6E00BF3 && K(29) == 0xD5A79147 && K(30) == 0x06CA6351 && K(31) == 0x14292967
  {
  }

  lemma Steps32()
    ensures Step(Regs(0x73B33BF5, 0xEA992A22, 0xA0060B30, 0x363482C9, 0xBA591112, 0x0109AB3A, 0xADE79437, 0x6112A3B7),
      0x27B70A85, 0x93F5997F) == Regs(0x98E12507, 0x73B33BF5, 0xEA992A22, 0xA0060B30, 0x9CD9F5F6, 0xBA591112, 0x0109AB3A, 0xADE79437)
    ensures Step(Regs(0x98E12507, 0x73B33BF5, 0xEA992A22, 0xA0060B30, 0x9CD9F5F6, 0xBA591112, 0x0109AB3A, 0xADE79437),
      0x2E1B2138, 0x3B68BA73) == Regs(0xFE604DF5, 0x98E12507, 0x73B33BF5, 0xEA992A22, 0x59249DD3, 0x9CD9F5F6, 0xBA591112, 0x0109AB3A)
    ensures Step(Regs(0xFE604DF5, 0x98E12507, 0x73B33BF5, 0xEA992A22, 0x59249DD3, 0x9CD9F5F6, 0xBA591112, 0x0109AB3A),
      0x4D2C6DFC, 0xAFF4FFC1) == Regs(0xA9A7738C, 0xFE604DF5, 0x98E12507, 0x73B33BF5, 0x085F3833, 0x59249DD3, 0x9CD9F5F6, 0xBA591112)
    ensures Step(Regs(0xA9A7738C, 0xFE604DF5, 0x98E12507, 0x73B33BF5, 0x085F3833, 0x59249DD3, 0x9CD9F5F6, 0xBA591112),
      0x53380D13, 0xF10A5C62) == Regs(0x65A0CFE4, 0xA9A7738C, 0xFE604DF5, 0x98E12507, 0xF4B002D6, 0x085F3833, 0x59249DD3, 0x9CD9F5F6)
    ensures Step(Regs(0x65A0CFE4, 0xA9A7738C, 0xFE604DF5, 0x98E12507, 0xF4B002D6, 0x085F3833, 0x59249DD3, 0x9CD9F5F6),
      0x650A7354, 0x0A8B3996) == Regs(0x41A65CB1, 0x65A0CFE4, 0xA9A7738C, 0xFE604DF5, 0x0772A26B, 0xF4B002D6, 0x085F3833, 0x59249DD3)
    ensures Step(Regs(0x41A65CB1, 0x65A0CFE4, 0xA9A7738C, 0xFE604DF5, 0x0772A26B, 0xF4B002D6, 0x085F3833, 0x59249DD3),
      0x766A0ABB, 0x72AF830A) == Regs(0x34DF1604, 0x41A65CB1, 0x65A0CFE4, 0xA9A7738C, 0xA507A53D, 0x0772A26B, 0xF4B002D6, 0x085F3833)
    ensures Step(Regs(0x34DF1604, 0x41A65CB1, 0x65A0CFE4, 0xA9A7738C, 0xA507A53D, 0x0772A26B, 0xF4B002D6, 0x085F3833),
      0x81C2C92E, 0x9409E33E) == Regs(0x6DC57A8A, 0x34DF1604, 0x41A65CB1, 0x65A0CFE4, 0xF0781BC8, 0xA507A53D, 0x0772A26B, 0xF4B002D6)
    ensures Step(Regs(0x6DC57A8A, 0x34DF1604, 0x41A65CB1, 0x65A0CFE4, 0xF0781BC8, 0xA507A53D, 0x0772A26B, 0xF4B002D6),
      0x92722C85, 0x24641522) == Regs(0x79EA687A, 0x6DC57A8A, 0x34DF1604, 0x41A65CB1, 0x1EFBC0A0, 0xF0781BC8, 0xA507A53D, 0x0772A26B)
  {
  }

  lemma Constants32()
    ensures K(32) == 0x27B70A85 && K(33) == 0x2E1B2138 && K(34) == 0x4D2C6DFC && K(35) == 0x53380D13
    ensures K(36) == 0x650A7354 && K(37) == 0x766A0ABB && K(38) == 0x81C2C92E && K(39) == 0x92722C85
  {
  }

  lemma Steps40()
    ensures Step(Regs(0x79EA687A, 0x6DC57A8A, 0x34DF1604, 0x41A65CB1, 0x1EFBC0A0, 0xF0781BC8, 0xA507A53D, 0x0772A26B),
      0xA2BFE8A1, 0x9F47BF94) == Regs(0xD6670766, 0x79EA687A, 0x6DC57A8A, 0x34DF1604, 0x26352D63, 0x1EFBC0A0, 0xF0781BC8, 0xA507A53D)
    ensures Step(Regs(0xD6670766, 0x79EA687A, 0x6DC57A8A, 0x34DF1604, 0x26352D63, 0x1EFBC0A0, 0xF0781BC8, 0xA507A53D),
      0xA81A664B, 0xF0A64F5A) == Regs(0xDF46652F, 0xD6670766, 0x79EA687A, 0x6DC57A8A, 0x838B2711, 0x26352D63, 0x1EFBC0A0, 0xF0781BC8)
    ensures Step(Regs(0xDF46652F, 0xD6670766, 0x79EA687A, 0x6DC57A8A, 0x838B2711, 0x26352D63, 0x1EFBC0A0, 0xF0781BC8),
      0xC24B8B70, 0x3E246A79) == Regs(0x17AA0DFE, 0xDF46652F, 0xD6670766, 0x79EA687A, 0xDECD4715, 0x838B2711, 0x26352D63, 0x1EFBC0A0)
    ensures Step(Regs(0x17AA0DFE, 0xDF46652F, 0xD6670766, 0x79EA687A, 0xDECD4715, 0x838B2711, 0x26352D63, 0x1EFBC0A0),
      0xC76C51A3, 0x27333BA3) == Regs(0x9D4BAF93, 0x17AA0DFE, 0xDF46652F, 0xD6670766, 0xFDA24C2E, 0xDECD4715, 0x838B2711, 0x26352D63)
    ensures Step(Regs(0x9D4BAF93, 0x17AA0DFE, 0xDF46652F, 0xD6670766, 0xFDA24C2E, 0xDECD4715, 0x838B2711, 0x26352D63),
      0xD192E819, 0x0C4763F2) == Regs(0x26628815, 0x9D4BAF93, 0x17AA0DFE, 0xDF46652F, 0xA80F11F0, 0xFDA24C2E, 0xDECD4715, 0x838B2711)
    ensures Step(Regs(0x26628815, 0x9D4BAF93, 0x17AA0DFE, 0xDF46652F, 0xA80F11F0, 0xFDA24C2E, 0xDECD4715, 0x838B2711),
      0xD6990624, 0x840ABF27) == Regs(0x72AB4B91, 0x26628815, 0x9D4BAF93, 0x17AA0DFE, 0xB7755DA1, 0xA80F11F0, 0xFDA24C2E, 0xDECD4715)
    ensures Step(Regs(0x72AB4B91, 0x26628815, 0x9D4BAF93, 0x17AA0DFE, 0xB7755DA1, 0xA80F11F0, 0xFDA24C2E, 0xDECD4715),
      0xF40E3585, 0x7A290D5D) == Regs(0xA14C14B0, 0x72AB4B91, 0x26628815, 0x9D4BAF93, 0xD57B94A9, 0xB7755DA1, 0xA80F11F0, 0xFDA24C2E)
    ensures Step(Regs(0xA14C14B0, 0x72AB4B91, 0x26628815, 0x9D4BAF93, 0xD57B94A9, 0xB7755DA1, 0xA80F11F0, 0xFDA24C2E),
      0x106AA070, 0x065C43DA) == Regs(0x4172328D, 0xA14C14B0, 0x72AB4B91, 0x26628815, 0xFECF0BC6, 0xD57B94A9, 0xB7755DA1, 0xA80F11F0)
  {
  }

  lemma Constants40()
    ensures K(40) == 0xA2BFE8A1 && K(41) == 0xA81A664B && K(42) == 0xC24B8B70 && K(43) == 0xC76C51A3
    ensures K(44) == 0xD192E819 && K(45) == 0xD6990624 && K(46) == 0xF40E3585 && K(47) == 0x106AA070
  {
  }

  lemma Steps48()
    ensures Step(Regs(0x4172328D, 0xA14C14B0, 0x72AB4B91, 0x26628815, 0xFECF0BC6, 0xD57B94A9, 0xB7755DA1, 0xA80F11F0),
      0x19A4C116, 0xFB3E89CB) == Regs(0x05757CEB, 0x4172328D, 0xA14C14B0, 0x72AB4B91, 0xBD714038, 0xFECF0BC6, 0xD57B94A9, 0xB7755DA1)
    ensures Step(Regs(0x05757CEB, 0x4172328D, 0xA14C14B0, 0x72AB4B91, 0xBD714038, 0xFECF0BC6, 0xD57B94A9, 0xB7755DA1),
      0x1E376C08, 0xCC7617DB) == Regs(0xF11BFAA8, 0x05757CEB, 0x4172328D, 0xA14C14B0, 0x6E5C390C, 0xBD714038, 0xFECF0BC6, 0xD57B94A9)
    ensures Step(Regs(0xF11BFAA8, 0x05757CEB, 0x4172328D, 0xA14C14B0, 0x6E5C390C, 0xBD714038, 0xFECF0BC6, 0xD57B94A9),
      0x2748774C, 0xB9E66C34) == Regs(0x7A0508A1, 0xF11BFAA8, 0x05757CEB, 0x4172328D, 0x52F1CCF7, 0x6E5C390C, 0xBD714038, 0xFECF0BC6)
    ensures Step(Regs(0x7A0508A1, 0xF11BFAA8, 0x05757CEB, 0x4172328D, 0x52F1CCF7, 0x6E5C390C, 0xBD714038, 0xFECF0BC6),
      0x34B0BCB5, 0xA9993667) == Regs(0x886E7A22, 0x7A0508A1, 0xF11BFAA8, 0x05757CEB, 0x49231C1E, 0x52F1CCF7, 0x6E5C390C, 0xBD714038)
    ensures Step(Regs(0x886E7A22, 0x7A0508A1, 0xF11BFAA8, 0x05757CEB, 0x49231C1E, 0x52F1CCF7, 0x6E5C390C, 0xBD714038),
      0x391C0CB3, 0x84BADEDD) == Regs(0x101FD28F, 0x886E7A22, 0x7A0508A1, 0xF11BFAA8, 0x529E7D00, 0x49231C1E, 0x52F1CCF7, 0x6E5C390C)
    ensures Step(Regs(0x101FD28F, 0x886E7A22, 0x7A0508A1, 0xF11BFAA8, 0x529E7D00, 0x49231C1E, 0x52F1CCF7, 0x6E5C390C),
      0x4ED8AA4A, 0xC21462BC) == Regs(0xF5702FDB, 0x101FD28F, 0x886E7A22, 0x7A0508A1, 0x9F4787C3, 0x529E7D00, 0x49231C1E, 0x52F1CCF7)
    ensures Step(Regs(0xF5702FDB, 0x101FD28F, 0x886E7A22, 0x7A0508A1, 0x9F4787C3, 0x529E7D00, 0x49231C1E, 0x52F1CCF7),
      0x5B9CCA4F, 0x1487472C) == Regs(0x3EC45CDB, 0xF5702FDB, 0x101FD28F, 0x886E7A22, 0xE50E1B4F, 0x9F4787C3, 0x529E7D00, 0x49231C1E)
    ensures Step(Regs(0x3EC45CDB, 0xF5702FDB, 0x101FD28F, 0x886E7A22, 0xE50E1B4F, 0x9F4787C3, 0x529E7D00, 0x49231C1E),
      0x682E6FF3, 0xB20F7A99) == Regs(0x38CC9913, 0x3EC45CDB, 0xF5702FDB, 0x101FD28F, 0x54CB266B, 0xE50E1B4F, 0x9F4787C3, 0x529E7D00)
  {
  }

  lemma Constants48()
    ensures K(48) == 0x19A4C116 && K(49) == 0x1E376C08 && K(50) == 0x2748774C && K(51) == 0x34B0BCB5
    ensures K(52) == 0x391C0CB3 && K(53) == 0x4ED8AA4A && K(54) == 0x5B9CCA4F && K(55) == 0x682E6FF3
  {
  }

  lemma Steps56()
    ensures Step(Regs(0x38CC9913, 0x3EC45CDB, 0xF5702FDB, 0x101FD28F, 0x54CB266B, 0xE50E1B4F, 0x9F4787C3, 0x529E7D00),
      0x748F82EE, 0xEF57B9CD) == Regs(0xFCD1887B, 0x38CC9913, 0x3EC45CDB, 0xF5702FDB, 0x9B5E906C, 0x54CB266B, 0xE50E1B4F, 0x9F4787C3)
    ensures Step(Regs(0xFCD1887B, 0x38CC9913, 0x3EC45CDB, 0xF5702FDB, 0x9B5E906C, 0x54CB266B, 0xE50E1B4F, 0x9F4787C3),
      0x78A5636F, 0xEBE6B238) == Regs(0xC062D46F, 0xFCD1887B, 0x38CC9913, 0x3EC45CDB, 0x7E44008E, 0x9B5E906C, 0x54CB266B, 0xE50E1B4F)
    ensures Step(Regs(0xC062D46F, 0xFCD1887B, 0x38CC9913, 0x3EC45CDB, 0x7E44008E, 0x9B5E906C, 0x54CB266B, 0xE50E1B4F),
      0x84C87814, 0x9FE3095E) == Regs(0xFFB70472, 0xC062D46F, 0xFCD1887B, 0x38CC9913, 0x6D83BFC6, 0x7E44008E, 0x9B5E906C, 0x54CB266B)
    ensures Step(Regs(0xFFB70472, 0xC062D46F, 0xFCD1887B, 0x38CC9913, 0x6D83BFC6, 0x7E44008E, 0x9B5E906C, 0x54CB266B),
      0x8CC70208, 0x78BC8D4B) == Regs(0xB6AE8FFF, 0xFFB70472, 0xC062D46F, 0xFCD1887B, 0xB21BAD3D, 0x6D83BFC6, 0x7E44008E, 0x9B5E906C)
    ensures Step(Regs(0xB6AE8FFF, 0xFFB70472, 0xC062D46F, 0xFCD1887B, 0xB21BAD3D, 0x6D83BFC6, 0x7E44008E, 0x9B5E906C),
      0x90BEFFFA, 0xA43FCF15) == Regs(0xB85E2CE9, 0xB6AE8FFF, 0xFFB70472, 0xC062D46F, 0x961F4894, 0xB21BAD3D, 0x6D83BFC6, 0x7E44008E)
    ensures Step(Regs(0xB85E2CE9, 0xB6AE8FFF, 0xFFB70472, 0xC062D46F, 0x961F4894, 0xB21BAD3D, 0x6D83BFC6, 0x7E44008E),
      0xA4506CEB, 0x668B2FF8) == Regs(0x04D24D6C, 0xB85E2CE9, 0xB6AE8FFF, 0xFFB70472, 0x948D25B6, 0x961F4894, 0xB21BAD3D, 0x6D83BFC6)
    ensures Step(Regs(0x04D24D6C, 0xB85E2CE9, 0xB6AE8FFF, 0xFFB70472, 0x948D25B6, 0x961F4894, 0xB21BAD3D, 0x6D83BFC6),
      0xBEF9A3F7, 0xEEABA2CC) == Regs(0xD39A2165, 0x04D24D6C, 0xB85E2CE9, 0xB6AE8FFF, 0xFB121210, 0x948D25B6, 0x961F4894, 0xB21BAD3D)
    ensures Step(Regs(0xD39A2165, 0x04D24D6C, 0xB85E2CE9, 0xB6AE8FFF, 0xFB121210, 0x948D25B6, 0x961F4894, 0xB21BAD3D),
      0xC67178F2, 0x12B1EDEB) == Regs(0x506E3058, 0xD39A2165, 0x04D24D6C, 0xB85E2CE9, 0x5EF50F24, 0xFB121210, 0x948D25B6, 0x961F4894)
  {
  }

  lemma Constants56()
    ensures K(56) == 0x748F82EE && K(57) == 0x78A5636F && K(58) == 0x84C87814 && K(59) == 0x8CC70208
    ensures K(60) == 0x90BEFFFA && K(61) == 0xA4506CEB && K(62) == 0xBEF9A3F7 && K(63) == 0xC67178F2
  {
  }

  lemma Rounds8()
    ensures Rounds(STANDARD, IV256, BLOCK, 8) == Regs(0x85A07B5F, 0xE5030380, 0x2B4209F5, 0x04409A6A, 0x0C657A79, 0x9B27A401, 0x714260AD, 0x43ADA245)
  {
    hide Wt, K, Step;
    Words0();
    Constants0();
    Steps0();
    NextRounds(IV256, 0);
  }

  lemma Rounds16()
    ensures Rounds(STANDARD, IV256, BLOCK, 16) == Regs(0xB0FA238E, 0xC0645FDE, 0xD932EB16, 0x87912990, 0x07590DCD, 0x0B92F20C, 0x745A48DE, 0x1E578218)
  {
    hide Wt, K, Step, Rounds;
    Rounds8();
    Words8();
    Constants8();
    Steps8();
    NextRounds(IV256, 8);
  }

  lemma Rounds24()
    ensures Rounds(STANDARD, IV256, BLOCK, 24) == Regs(0xC5D53D8D, 0xA7A3623F, 0xC2606D6D, 0x9DC68B63, 0xAA47C347, 0x49F5114A, 0xE1257970, 0x8ADA8930)
  {
    hide Wt, K, Step, Rounds;
    Rounds16();
    Words16();
    Constants16();
    Steps16();
    NextRounds(IV256, 16);
  }

  lemma Rounds32()
    ensures Rounds(STANDARD, IV256, BLOCK, 32) == Regs(0x73B33BF5, 0xEA992A22, 0xA0060B30, 0x363482C9, 0xBA591112, 0x0109AB3A, 0xADE79437, 0x6112A3B7)
  {
    hide Wt, K, Step, Rounds;
    Rounds24();
    Words24();
    Constants24();
    Steps24();
    NextRounds(IV256, 24);
  }

  lemma Rounds40()
    ensures Rounds(STANDARD, IV256, BLOCK, 40) == Regs(0x79EA687A, 0x6DC57A8A, 0x34DF1604, 0x41A65CB1, 0x1EFBC0A0, 0xF0781BC8, 0xA507A53D, 0x0772A26B)
  {
    hide Wt, K, Step, Rounds;
    Rounds32();
    Words32();
    Constants32();
    Steps32();
    NextRounds(IV256, 32);
  }

  lemma Rounds48()
    ensures Rounds(STANDARD, IV256, BLOCK, 48) == Regs(0x4172328D, 0xA14C14B0, 0x72AB4B91, 0x26628815, 0xFECF0BC6, 0xD57B94A9, 0xB7755DA1, 0xA80F11F0)
  {
    hide Wt, K, Step, Rounds;
    Rounds40();
    Words40();
    Constants40();
    Steps40();
    NextRounds(IV256, 40);
  }

  lemma Rounds56()
    ensures Rounds(STANDARD, IV256, BLOCK, 56) == Regs(0x38CC9913, 0x3EC45CDB, 0xF5702FDB, 0x101FD28F, 0x54CB266B, 0xE50E1B4F, 0x9F4787C3, 0x529E7D00)
  {
    hide Wt, K, Step, Rounds;
    Rounds48();
    Words48();
    Constants48();
    Steps48();
    NextRounds(IV256, 48);
  }

  lemma Rounds64()
    ensures Rounds(STANDARD, IV256, BLOCK, 64) == Regs(0x506E3058, 0xD39A2165, 0x04D24D6C, 0xB85E2CE9, 0x5EF50F24, 0xFB121210, 0x948D25B6, 0x961F4894)
  {
    hide Wt, K, Step, Rounds;
    Rounds56();
    Words56();
    Constants56();
    Steps56();
    NextRounds(IV256, 56);
  }

  // ---------------------------------------------------------------- the sum

  lemma Compressed()
    ensures Compress(STANDARD, IV256, BLOCK) == Regs(0xBA7816BF, 0x8F01CFEA, 0x414140DE, 0x5DAE2223, 0xB00361A3, 0x96177A9C, 0xB410FF61, 0xF20015AD)
  {
    hide Rounds;
    Rounds64();
  }

  lemma BytesOfSum()
    ensures BytesOf(0xBA7816BF) == [0xba, 0x78, 0x16, 0xbf]
    ensures BytesOf(0x8F01CFEA) == [0x8f, 0x01, 0xcf, 0xea]
    ensures BytesOf(0x414140DE) == [0x41, 0x41, 0x40, 0xde]
    ensures BytesOf(0x5DAE2223) == [0x5d, 0xae, 0x22, 0x23]
    ensures BytesOf(0xB00361A3) == [0xb0, 0x03, 0x61, 0xa3]
    ensures BytesOf(0x96177A9C) == [0x96, 0x17, 0x7a, 0x9c]
    ensures BytesOf(0xB410FF61) == [0xb4, 0x10, 0xff, 0x61]
    ensures BytesOf(0xF20015AD) == [0xf2, 0x00, 0x15, 0xad]
  {
  }

  lemma PaddedAbc()
    ensures [97, 98, 99] + Padding(3) == BLOCK
  {
    hide Byte;
    SmallBytes();
    assert ZeroCount(3) == 52 && Big64(24) == [0, 0, 0, 0, 0, 0, 0, 0x18];
  }

  lemma SmallBytes()
    ensures Byte(0) == 0 && Byte(24) == 0x18
  {
    assert 24 % 256 == 24;
    assert 24 as bv8 == 0x18;
  }

  lemma OneBlock<W>(o: Ops<W>, start: Regs<W>, d: Bytes)
    requires |d| == 64
    ensures After(o, start, d) == Compress(o, start, d)
  {
    hide Compress;
    assert d[..64] == d && d[64..] == [];
    assert Fold(Stepper(o), 64, Compress(o, start, d), []) == Compress(o, start, d);
  }

  lemma SumOfAbc()
    ensures Sum(STANDARD, StartOf(false), false, [97, 98, 99]) ==
      [0xba, 0x78, 0x16, 0xbf, 0x8f, 0x01, 0xcf, 0xea, 0x41, 0x41, 0x40, 0xde, 0x5d, 0xae, 0x22, 0x23,
       0xb0, 0x03, 0x61, 0xa3, 0x96, 0x17, 0x7a, 0x9c, 0xb4, 0x10, 0xff, 0x61, 0xf2, 0x00, 0x15, 0xad]
  {
    hide Compress, BytesOf, Padding, After;
    PaddedAbc();
    OneBlock(STANDARD, IV256, BLOCK);
    Compressed();
    BytesOfSum();
  }

  // ---------------------------------------------------------------- SHA-224

  /** The square root of p times 2^64, without what comes after the point. */
  ghost predicate RootOf(p: nat, r: nat) {
    r * r <= p * 0x1_0000_0000_0000_0000_0000_0000_0000_0000 < (r + 1) * (r + 1)
  }

  /** w is the last word of that. */
  ghost predicate RootWord(p: nat, w: bv32) {
    exists r: nat :: RootOf(p, r) && r % 0x1_0000_0000 == w as nat
  }

  /** The ninth to the sixteenth prime. */
  lemma StartOf224()
    ensures RootWord(23, IV224.a) && RootWord(29, IV224.b) && RootWord(31, IV224.c) && RootWord(37, IV224.d)
    ensures RootWord(41, IV224.e) && RootWord(43, IV224.f) && RootWord(47, IV224.g) && RootWord(53, IV224.h)
  {
    assert RootOf(23, 0x4CBBB9D5DC1059ED8);
    assert RootOf(29, 0x5629A292A367CD507);
    assert RootOf(31, 0x59159015A3070DD17);
    assert RootOf(37, 0x6152FECD8F70E5939);
    assert RootOf(41, 0x667332667FFC00B31);
    assert RootOf(43, 0x68EB44A8768581511);
    assert RootOf(47, 0x6DB0C2E0D64F98FA7);
    assert RootOf(53, 0x747B5481DBEFA4FA4);
  }
}
