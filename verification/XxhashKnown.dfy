/** What XXH64 and XXH32 answer for messages that go through every step of theirs: the published values for no bytes and for
    "abc", and with a seed the values for no bytes and for the bytes 0, 1, 2, ... as far as one stripe, and after it one turn of
    each of the loops for the last bytes, need them. */
module Xxh64Known {
  import opened Stripes
  import opened Xxhash
  import opened Xxh64

  const SEED: bv64 := 2654435761

  lemma Empty64()
    ensures Hash(XXH64, 0, []) == 0xEF46DB3751D8E999
  {
  }

  lemma EmptySeeded64()
    ensures Hash(XXH64, SEED, []) == 0xAC75FDA2929B17EF
  {
  }

  // ---------------------------------------------------------------- "abc"

  lemma ThreeMore64(h: bv64)
    ensures AddLength(h, 3) == h + 3
  {
    assert 3 % 0x1_0000_0000_0000_0000 == 3;
    assert 3 as bv64 == 3;
  }

  lemma AbcStart64()
    ensures AddLength(P5, 3) == 0x27D4EB2F165667C8
  {
    hide AddLength;
    ThreeMore64(P5);
  }

  lemma AbcMixed64()
    ensures Mix1(0x27D4EB2F165667C8, 97) == 0x0E6D11BDC91F0215
    ensures Mix1(0x0E6D11BDC91F0215, 98) == 0x791983E9AB307069
    ensures Mix1(0x791983E9AB307069, 99) == 0xE87A46F8B9A4C39E
  {
  }

  lemma AbcLast64()
    ensures Avalanche(0xE87A46F8B9A4C39E) == 0x44BC2CF5AD770999
  {
  }

  lemma Abc64()
    ensures Hash(XXH64, 0, [97, 98, 99]) == 0x44BC2CF5AD770999
  {
    hide Mix1, Avalanche, AddLength;
    var d: Bytes := [97, 98, 99];
    assert d[1..] == [98, 99] && [98, 99][1..] == [99] && [99][1..] == [];
    AbcStart64();
    AbcMixed64();
    AbcLast64();
    assert Singles(XXH64, 0xE87A46F8B9A4C39E, []) == 0xE87A46F8B9A4C39E;
    assert Singles(XXH64, 0x791983E9AB307069, [99]) == 0xE87A46F8B9A4C39E;
    assert Singles(XXH64, 0x0E6D11BDC91F0215, [98, 99]) == 0xE87A46F8B9A4C39E;
    assert Singles(XXH64, 0x27D4EB2F165667C8, d) == 0xE87A46F8B9A4C39E;
    assert Tail(XXH64, 0x27D4EB2F165667C8, d) == 0xE87A46F8B9A4C39E;
  }

  // ---------------------------------------------------------------- 45 bytes: 32, then 8, 4 and 1

  const STRIPE: Bytes := [0, 1, 2, 3, 4, 5, 6, 7, 8, 9, 10, 11, 12, 13, 14, 15, 16, 17, 18, 19, 20, 21, 22, 23, 24, 25, 26, 27, 28, 29, 30, 31]

  lemma Word0()
    ensures Read64(STRIPE, 0) == 0x0706050403020100
  {
  }

  lemma Word1()
    ensures Read64(STRIPE, 8) == 0x0F0E0D0C0B0A0908
  {
  }

  lemma Word2()
    ensures Read64(STRIPE, 16) == 0x1716151413121110
  {
  }

  lemma Word3()
    ensures Read64(STRIPE, 24) == 0x1F1E1D1C1B1A1918
  {
  }

  lemma LastWords45()
    ensures Read64([32, 33, 34, 35, 36, 37, 38, 39], 0) == 0x2726252423222120 && Read32([40, 41, 42, 43], 0) == 0x000000002B2A2928
  {
  }

  lemma Stripe45()
    ensures Stripe(Start(SEED), STRIPE) == Acc(0xE4962682C06B5E99, 0xB3B4367C9FC32561, 0xBB07AB3348A1553F, 0x8A25BB2D27F91C07)
  {
    hide Read64;
    Word0();
    Word1();
    Word2();
    Word3();
  }

  lemma Merge45()
    ensures Merge(Acc(0xE4962682C06B5E99, 0xB3B4367C9FC32561, 0xBB07AB3348A1553F, 0x8A25BB2D27F91C07)) == 0x7279FC8728D114AF
  {
    hide MergeOne;
    MergeSteps45();
  }

  lemma MergeSteps45()
    ensures MergeOne(0x0AAF5FC3E7DB9252, 0xE4962682C06B5E99) == 0xAF982571BEC7C4C7
    ensures MergeOne(0xAF982571BEC7C4C7, 0xB3B4367C9FC32561) == 0x00A9FD881ACE0DE1
    ensures MergeOne(0x00A9FD881ACE0DE1, 0xBB07AB3348A1553F) == 0x23ED8D871B6446D6
    ensures MergeOne(0x23ED8D871B6446D6, 0x8A25BB2D27F91C07) == 0x7279FC8728D114AF
  {
  }

  lemma Length45(h: bv64)
    ensures AddLength(h, 45) == h + 45
  {
    assert 45 % 0x1_0000_0000_0000_0000 == 45;
    assert 45 as bv64 == 45;
  }

  lemma Last45()
    ensures AddLength(0x7279FC8728D114AF, 45) == 0x7279FC8728D114DC
    ensures Mix8(0x7279FC8728D114DC, [32, 33, 34, 35, 36, 37, 38, 39]) == 0xCFB6A5F9AA69B007
    ensures Mix4(0xCFB6A5F9AA69B007, [40, 41, 42, 43]) == 0x4B4E6184E3B9F229
    ensures Mix1(0x4B4E6184E3B9F229, 44) == 0x31B5398971D2B352
    ensures Avalanche(0x31B5398971D2B352) == 0x24D78F5C6AC00307
  {
    hide Read64, Read32, AddLength;
    Length45(0x7279FC8728D114AF);
    LastWords45();
  }

  lemma Hash45()
    ensures Hash(XXH64, SEED, STRIPE + [32, 33, 34, 35, 36, 37, 38, 39, 40, 41, 42, 43, 44]) == 0x24D78F5C6AC00307
  {
    hide Start, Stripe, Merge, Mix8, Mix4, Mix1, Avalanche, AddLength;
    var d, rest: Bytes := STRIPE + [32, 33, 34, 35, 36, 37, 38, 39, 40, 41, 42, 43, 44], [32, 33, 34, 35, 36, 37, 38, 39, 40, 41, 42, 43, 44];
    assert d[..32] == STRIPE && d[32..] == rest;
    Stripe45();
    Merge45();
    Last45();
    assert Fold(XXH64.step, 32, Start(SEED), d) == Fold(XXH64.step, 32, Stripe(Start(SEED), STRIPE), rest);
    assert Rest(32, d) == Rest(32, rest) == rest;
    var five: Bytes := [40, 41, 42, 43, 44];
    assert rest[..8] == [32, 33, 34, 35, 36, 37, 38, 39] && rest[8..] == five;
    assert five[..4] == [40, 41, 42, 43] && five[4..] == [44] && [44][1..] == [];
    assert Singles(XXH64, 0x31B5398971D2B352, []) == 0x31B5398971D2B352;
    assert Singles(XXH64, 0x4B4E6184E3B9F229, [44]) == 0x31B5398971D2B352;
    assert Tail(XXH64, 0xCFB6A5F9AA69B007, five) == 0x31B5398971D2B352;
    assert Tail(XXH64, 0x7279FC8728D114DC, rest) == 0x31B5398971D2B352;
  }
}

module Xxh32Known {
  import opened Stripes
  import opened Xxhash
  import opened Xxh32

  const SEED: bv32 := 2654435761

  lemma Empty32()
    ensures Hash(XXH32, 0, []) == 0x02CC5D05
  {
  }

  lemma EmptySeeded32()
    ensures Hash(XXH32, SEED, []) == 0x36B78AE7
  {
  }

  // ---------------------------------------------------------------- "abc"

  lemma ThreeMore32(h: bv32)
    ensures AddLength(h, 3) == h + 3
  {
    assert 3 % 0x1_0000_0000 == 3;
    assert 3 as bv32 == 3;
  }

  lemma AbcStart32()
    ensures AddLength(P5, 3) == 0x165667B4
  {
    hide AddLength;
    ThreeMore32(P5);
  }

  lemma AbcMixed32()
    ensures Mix1(0x165667B4, 97) == 0xDCA1DBE8
    ensures Mix1(0xDCA1DBE8, 98) == 0x4F80FD3D
    ensures Mix1(0x4F80FD3D, 99) == 0x760A1E67
  {
  }

  lemma AbcLast32()
    ensures Avalanche(0x760A1E67) == 0x32D153FF
  {
  }

  lemma Abc32()
    ensures Hash(XXH32, 0, [97, 98, 99]) == 0x32D153FF
  {
    hide Mix1, Avalanche, AddLength;
    var d: Bytes := [97, 98, 99];
    assert d[1..] == [98, 99] && [98, 99][1..] == [99] && [99][1..] == [];
    AbcStart32();
    AbcMixed32();
    AbcLast32();
    assert Singles(XXH32, 0x760A1E67, []) == 0x760A1E67;
    assert Singles(XXH32, 0x4F80FD3D, [99]) == 0x760A1E67;
    assert Singles(XXH32, 0xDCA1DBE8, [98, 99]) == 0x760A1E67;
    assert Singles(XXH32, 0x165667B4, d) == 0x760A1E67;
    assert Tail(XXH32, 0x165667B4, d) == 0x760A1E67;
  }

  // ---------------------------------------------------------------- 21 bytes: 16, then 4 and 1

  const STRIPE: Bytes := [0, 1, 2, 3, 4, 5, 6, 7, 8, 9, 10, 11, 12, 13, 14, 15]

  lemma Words21()
    ensures Read32(STRIPE, 0) == 0x03020100 && Read32(STRIPE, 4) == 0x07060504
    ensures Read32(STRIPE, 8) == 0x0B0A0908 && Read32(STRIPE, 12) == 0x0F0E0D0C
    ensures Read32([16, 17, 18, 19], 0) == 0x13121110
  {
  }

  lemma Stripe21()
    ensures Stripe(Start(SEED), STRIPE) == Acc(0xECCB9862, 0xF6D64D32, 0xDA2E7C3B, 0x4601B75A)
  {
    hide Read32;
    Words21();
  }

  lemma Length21(h: bv32)
    ensures AddLength(h, 21) == h + 21
  {
    assert 21 % 0x1_0000_0000 == 21;
    assert 21 as bv32 == 21;
  }

  lemma Last21()
    ensures Merge(Acc(0xECCB9862, 0xF6D64D32, 0xDA2E7C3B, 0x4601B75A)) == 0x09EA9FE8
    ensures AddLength(0x09EA9FE8, 21) == 0x09EA9FFD
    ensures Mix4(0x09EA9FFD, [16, 17, 18, 19]) == 0xA6B367AD
    ensures Mix1(0xA6B367AD, 20) == 0x85D80BBB
    ensures Avalanche(0x85D80BBB) == 0x19418DF9
  {
    hide Read32, AddLength;
    Length21(0x09EA9FE8);
    Words21();
  }

  lemma Hash21()
    ensures Hash(XXH32, SEED, STRIPE + [16, 17, 18, 19, 20]) == 0x19418DF9
  {
    hide Start, Stripe, Merge, Mix4, Mix1, Avalanche, AddLength;
    var d, rest: Bytes := STRIPE + [16, 17, 18, 19, 20], [16, 17, 18, 19, 20];
    assert d[..16] == STRIPE && d[16..] == rest;
    Stripe21();
    Last21();
    assert Fold(XXH32.step, 16, Start(SEED), d) == Fold(XXH32.step, 16, Stripe(Start(SEED), STRIPE), rest);
    assert Rest(16, d) == Rest(16, rest) == rest;
    assert rest[..4] == [16, 17, 18, 19] && rest[4..] == [20] && [20][1..] == [];
    assert Singles(XXH32, 0x85D80BBB, []) == 0x85D80BBB;
    assert Singles(XXH32, 0xA6B367AD, [20]) == 0x85D80BBB;
    assert Tail(XXH32, 0xA6B367AD, [20]) == 0x85D80BBB;
    assert Tail(XXH32, 0x09EA9FFD, rest) == 0x85D80BBB;
  }
}
