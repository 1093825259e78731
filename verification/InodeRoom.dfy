/** How many blocks writing to an object can take. */
module InodeRoom {
  import opened Common
  import opened InodeMap

  ghost function Span(p: nat, n: nat): (r: set<nat>)
    ensures forall x :: x in r <==> p <= x < p + n
  {
    if n == 0 then {} else Span(p, n - 1) + {p + n - 1}
  }

  /** The blocks of the object that have a byte of off..off + len. */
  ghost function Touched(off: nat, len: nat): (r: set<nat>)
    ensures forall v :: v in r <==> len > 0 && off / 65536 <= v <= (off + len - 1) / 65536
  {
    if len == 0 then {} else Span(off / 65536, (off + len - 1) / 65536 - off / 65536 + 1)
  }

  /** What c new blocks take at most, for trees with h levels: a block, a block for sums and the splits of both trees,
      each of which may get a level more. */
  function Cost(c: nat, h: nat): nat {
    c * (5 + h + c)
  }

  lemma CostAdd(c: nat, d: nat, h: nat)
    ensures Cost(c + d, h) == Cost(c, h) + Cost(d, h + 2 * c)
  {
    assert (c + d) * (5 + h + c + d) == c * (5 + h + c) + c * d + d * (5 + h + c) + d * d;
  }

  lemma CostOfOne(h: nat)
    ensures Cost(1, h) == h + 6
  {
  }

  lemma CostOrder(c: nat, d: nat, h: nat, g: nat)
    requires c <= d && h <= g
    ensures Cost(c, h) <= Cost(d, g)
  {
    MulOrder(c, d, 5 + h + c);
    MulOrder(5 + h + c, 5 + g + d, d);
  }

  lemma MulOrder(a: nat, b: nat, x: nat)
    requires a <= b
    ensures a * x <= b * x && x * a <= x * b
  {
  }

  /** The blocks that were mapped on the way from s to s'. */
  ghost function Mapped(s: Shape, s': Shape): set<nat> {
    s'.bM.Keys - s.bM.Keys
  }

  /** The blocks that are not mapped yet. */
  ghost function Missing(s: Shape, blocks: set<nat>): set<nat> {
    blocks - s.bM.Keys
  }

  /** On the way from s to s' no more blocks were taken than the newly mapped ones cost. */
  ghost predicate Charged(s: Shape, used: int, s': Shape, used': int) {
    && s.bM.Keys <= s'.bM.Keys && s.sM.Keys <= s'.sM.Keys && Levels(s') <= Levels(s) + 2 * |Mapped(s, s')|
    && used' <= used + Cost(|Mapped(s, s')|, Levels(s))
  }

  lemma ChargedNothing(s: Shape, used: int)
    ensures Charged(s, used, s, used)
  {
    assert Mapped(s, s) == {};
  }

  lemma ChargedOne(s: Shape, used: int, s': Shape, used': int, v: nat)
    requires v !in s.bM && s'.bM.Keys == s.bM.Keys + {v} && Levels(s') <= Levels(s) + 2 && used' <= used + Levels(s) + 6
    requires s.sM.Keys <= s'.sM.Keys
    ensures Charged(s, used, s', used')
  {
    hide Cost, Levels;
    assert Mapped(s, s') == {v};
    CostOfOne(Levels(s));
  }

  lemma MappedTwice(s0: Shape, s: Shape, s': Shape)
    requires s0.bM.Keys <= s.bM.Keys <= s'.bM.Keys
    ensures Mapped(s0, s') == Mapped(s0, s) + Mapped(s, s') && |Mapped(s0, s')| == |Mapped(s0, s)| + |Mapped(s, s')|
  {
    assert Mapped(s0, s') == Mapped(s0, s) + Mapped(s, s') && Mapped(s0, s) !! Mapped(s, s');
  }

  lemma MissingParts(s0: Shape, s: Shape, part: set<nat>, all: set<nat>)
    requires s0.bM.Keys <= s.bM.Keys && part <= all && Mapped(s0, s) <= all
    ensures |Mapped(s0, s)| + |Missing(s, part)| <= |Missing(s0, all)|
  {
    var X, M := Mapped(s0, s), part - s.bM.Keys;
    assert X !! M && X + M <= all - s0.bM.Keys;
    SubsetSize(X + M, all - s0.bM.Keys);
  }

  lemma ChargedTwice(s0: Shape, u0: int, s: Shape, u: int, s': Shape, u': int)
    requires Charged(s0, u0, s, u) && Charged(s, u, s', u')
    ensures Charged(s0, u0, s', u') && Mapped(s0, s') == Mapped(s0, s) + Mapped(s, s')
  {
    hide Cost, Levels, Mapped;
    var c, d := |Mapped(s0, s)|, |Mapped(s, s')|;
    MappedTwice(s0, s, s');
    CostAdd(c, d, Levels(s0));
    CostOrder(d, d, Levels(s), Levels(s0) + 2 * c);
  }

  /** What it takes at most to write to off..off + len. */
  ghost function Needs(s: Shape, off: nat, len: nat): nat {
    Cost(|Missing(s, Touched(off, len))|, Levels(s))
  }

  lemma RefusedCount(c: nat, d: nat, e: nat, h0: nat, h: nat, u0: int, u: int, nr: int)
    requires u <= u0 + Cost(c, h0) && h <= h0 + 2 * c && c + d <= e && u + Cost(d, h) > nr
    ensures u0 + Cost(e, h0) > nr
  {
    hide Cost;
    CostAdd(c, d, h0);
    CostOrder(d, d, h, h0 + 2 * c);
    CostOrder(c + d, e, h0, h0);
  }

  /** Too little room for a part is too little for the whole. */
  lemma Refused(s0: Shape, u0: int, s: Shape, u: int, part: set<nat>, all: set<nat>, nr: int)
    requires Charged(s0, u0, s, u) && part <= all && Mapped(s0, s) <= all
    requires u + Cost(|Missing(s, part)|, Levels(s)) > nr
    ensures u0 + Cost(|Missing(s0, all)|, Levels(s0)) > nr
  {
    hide Cost, Levels, Mapped, Missing;
    MissingParts(s0, s, part, all);
    RefusedCount(|Mapped(s0, s)|, |Missing(s, part)|, |Missing(s0, all)|, Levels(s0), Levels(s), u0, u, nr);
  }

  /** Blocks of a part are blocks of the whole. */
  lemma TouchedPart(off: nat, len: nat, at: nat, n: nat)
    requires off <= at && at + n <= off + len
    ensures Touched(at, n) <= Touched(off, len)
  {
  }

  lemma TouchedOne(v: nat, off: nat, n: nat)
    requires off + n <= 65536 && n > 0
    ensures Touched(65536 * v + off, n) == {v}
  {
    assert (65536 * v + off) / 65536 == v && (65536 * v + off + n - 1) / 65536 == v;
  }

  /** The block of a piece is one of the blocks of the whole. */
  lemma TouchedBlock(off: nat, len: nat, at: nat, n: nat, v: nat, loff: nat)
    requires off <= at && at + n <= off + len && n > 0 && at == 65536 * v + loff && loff + n <= 65536
    ensures v in Touched(off, len)
  {
    TouchedPart(off, len, at, n);
    TouchedOne(v, loff, n);
  }

  lemma MappedNothing(s: Shape)
    ensures Mapped(s, s) == {}
  {
  }

  lemma ChargedNext(s0: Shape, u0: int, s: Shape, u: int, s': Shape, u': int, v: nat, all: set<nat>)
    requires Charged(s0, u0, s, u) && Charged(s, u, s', u') && s'.bM.Keys == s.bM.Keys + {v}
    requires Mapped(s0, s) <= all && v in all
    ensures Charged(s0, u0, s', u') && Mapped(s0, s') <= all
  {
    hide Charged;
    ChargedTwice(s0, u0, s, u, s', u');
  }

  lemma RefusedOne(s0: Shape, u0: int, s: Shape, u: int, v: nat, off: nat, len: nat, nr: int)
    requires Charged(s0, u0, s, u) && v !in s.bM && v in Touched(off, len) && Mapped(s0, s) <= Touched(off, len)
    requires u + Levels(s) + 6 > nr
    ensures u0 + Needs(s0, off, len) > nr
  {
    hide Cost, Charged, Levels, Touched, Mapped;
    assert Missing(s, {v}) == {v};
    CostOfOne(Levels(s));
    Refused(s0, u0, s, u, {v}, Touched(off, len), nr);
  }

  /** Writing over blocks that are there takes none. */
  lemma NeedsNothing(s: Shape, off: nat, len: nat)
    requires Touched(off, len) <= s.bM.Keys
    ensures Needs(s, off, len) == 0
  {
    assert Missing(s, Touched(off, len)) == {};
  }

  lemma RefusedPart(s0: Shape, u0: int, s: Shape, u: int, off: nat, len: nat, at: nat, n: nat, nr: int)
    requires Charged(s0, u0, s, u) && Mapped(s0, s) <= Touched(off, len) && off <= at && at + n <= off + len
    requires u + Needs(s, at, n) > nr
    ensures u0 + Needs(s0, off, len) > nr
  {
    hide Cost, Charged, Levels, Touched, Mapped;
    TouchedPart(off, len, at, n);
    Refused(s0, u0, s, u, Touched(at, n), Touched(off, len), nr);
  }

  lemma ChargedPart(s0: Shape, u0: int, s: Shape, u: int, s': Shape, u': int, off: nat, len: nat, at: nat, n: nat)
    requires Charged(s0, u0, s, u) && Charged(s, u, s', u') && off <= at && at + n <= off + len
    requires Mapped(s0, s) <= Touched(off, len) && Mapped(s, s') <= Touched(at, n)
    ensures Charged(s0, u0, s', u') && Mapped(s0, s') <= Touched(off, len)
  {
    hide Cost, Charged, Levels, Touched, Mapped;
    TouchedPart(off, len, at, n);
    ChargedTwice(s0, u0, s, u, s', u');
  }

  /** No more is taken than if all the blocks were new. */
  lemma ChargedAtMost(s: Shape, used: int, s': Shape, used': int, off: nat, len: nat)
    requires Charged(s, used, s', used') && Mapped(s, s') <= Touched(off, len)
    ensures Levels(s') <= Levels(s) + 2 * |Touched(off, len)| && used' <= used + Cost(|Touched(off, len)|, Levels(s))
  {
    hide Cost, Levels, Mapped, Touched;
    SubsetSize(Mapped(s, s'), Touched(off, len));
    CostOrder(|Mapped(s, s')|, |Touched(off, len)|, Levels(s), Levels(s));
  }

  lemma NeedsAtMost(s: Shape, off: nat, len: nat)
    ensures Needs(s, off, len) <= Cost(|Touched(off, len)|, Levels(s))
  {
    hide Cost, Levels, Touched;
    SubsetSize(Missing(s, Touched(off, len)), Touched(off, len));
    CostOrder(|Missing(s, Touched(off, len))|, |Touched(off, len)|, Levels(s), Levels(s));
  }

  // ---------------------------------------------------------------- what will become of a write

  /** There are blocks enough, and these are the trees and the blocks in use then; or there are too few, and, as written,
      the rollback faults or not. */
  datatype Fate = Enough(room: Room) | Short(stuck: bool)

  /** Block v of the object is found or made, on a device of nr blocks. */
  ghost function MakeBlock(r: Room, v: nat, nr: int): Fate {
    if v in r.s.bM then Enough(r)
    else if |r.used| + AllocTakes(r.s, v) <= nr then Enough(Allocated(r, v))
    else Short(AllocFaults(r.s, v, |r.used|, nr))
  }

  /** The n blocks from v on, one after the other. */
  ghost function MakeBlocks(r: Room, v: nat, n: nat, nr: int): Fate
    decreases n
  {
    if n == 0 then Enough(r)
    else
      var f := MakeBlock(r, v, nr);
      if f.Short? then f else MakeBlocks(f.room, v + 1, n - 1, nr)
  }

  function BlocksIn(off: nat, len: nat): nat {
    if len == 0 then 0 else (off + len - 1) / 65536 - off / 65536 + 1
  }

  /** Writing to off..off + len. */
  ghost function WriteFate(r: Room, off: nat, len: nat, nr: int): Fate {
    MakeBlocks(r, off / 65536, BlocksIn(off, len), nr)
  }

  /** What a method has made of it. */
  ghost predicate Fated(f: Fate, ok: bool, fault: bool, asWritten: bool, s': Shape, used': set<nat>) {
    (ok <==> f.Enough?) && (ok ==> f.room == Room(s', used')) && (fault <==> asWritten && f == Short(true))
  }

  lemma {:induction false} MakeMore(r: Room, v: nat, n: nat, m: nat, nr: int)
    ensures var f := MakeBlocks(r, v, n, nr);
      MakeBlocks(r, v, n + m, nr) == if f.Short? then f else MakeBlocks(f.room, v + n, m, nr)
    decreases n
  {
    hide MakeBlock;
    if n > 0 {
      var f := MakeBlock(r, v, nr);
      if f.Enough? {
        MakeMore(f.room, v + 1, n - 1, m, nr);
      }
    }
  }

  /** What was made is there. */
  lemma MadeIsThere(r: Room, v: nat, nr: int)
    requires MakeBlock(r, v, nr).Enough?
    ensures v in MakeBlock(r, v, nr).room.s.bM
    ensures r.s.sM.Keys <= MakeBlock(r, v, nr).room.s.sM.Keys && r.s.bM.Keys <= MakeBlock(r, v, nr).room.s.bM.Keys
  {
  }

  lemma LastIsThere(r: Room, v: nat, n: nat, nr: int)
    requires n > 0 && MakeBlocks(r, v, n, nr).Enough?
    ensures v + n - 1 in MakeBlocks(r, v, n, nr).room.s.bM
  {
    hide MakeBlock;
    MakeMore(r, v, n - 1, 1, nr);
    var q := MakeBlocks(r, v, n - 1, nr).room;
    assert MakeBlocks(q, v + n - 1, 1, nr) == MakeBlock(q, v + n - 1, nr) by {
      OneBlock(q, v + n - 1, nr);
    }
    MadeIsThere(q, v + n - 1, nr);
  }

  lemma OneBlock(r: Room, v: nat, nr: int)
    ensures MakeBlocks(r, v, 1, nr) == MakeBlock(r, v, nr)
  {
    hide MakeBlock;
    var f := MakeBlock(r, v, nr);
    if f.Enough? {
      assert MakeBlocks(f.room, v + 1, 0, nr) == f;
    }
  }

  lemma ThereAlready(r: Room, v: nat, n: nat, nr: int)
    requires n > 0 && v in r.s.bM
    ensures MakeBlocks(r, v, n, nr) == MakeBlocks(r, v + 1, n - 1, nr)
  {
  }

  /** One write after another is one write. */
  lemma WriteTwice(r: Room, off: nat, n: nat, m: nat, nr: int)
    ensures var f := WriteFate(r, off, n, nr);
      WriteFate(r, off, n + m, nr) == if f.Short? then f else WriteFate(f.room, off + n, m, nr)
  {
    hide MakeBlocks;
    if n == 0 {
      NothingMade(r, off / 65536, nr);
    } else if m == 0 {
      var f := WriteFate(r, off, n, nr);
      if f.Enough? {
        NothingMade(f.room, (off + n) / 65536, nr);
      }
    } else {
      var a, c, d := off / 65536, BlocksIn(off, n), BlocksIn(off + n, m);
      var f := MakeBlocks(r, a, c, nr);
      if (off + n) / 65536 == a + c {
        MakeMore(r, a, c, d, nr);
      } else {
        MakeMore(r, a, c, d - 1, nr);
        if f.Enough? {
          LastIsThere(r, a, c, nr);
          ThereAlready(f.room, a + c - 1, d, nr);
        }
      }
    }
  }

  lemma NothingMade(r: Room, v: nat, nr: int)
    ensures MakeBlocks(r, v, 0, nr) == Enough(r)
  {
  }

  /** A piece inside one block. */
  lemma WriteOne(r: Room, v: nat, loff: nat, n: nat, nr: int)
    requires loff + n <= 65536 && n > 0
    ensures WriteFate(r, 65536 * v + loff, n, nr) == MakeBlock(r, v, nr)
  {
    hide MakeBlock, MakeBlocks;
    TouchedOne(v, loff, n);
    assert (65536 * v + loff) / 65536 == v && (65536 * v + loff + n - 1) / 65536 == v;
    OneBlock(r, v, nr);
  }

  /** A write that begins with such a piece. */
  lemma WritePieceFate(r: Room, v: nat, loff: nat, at: nat, n: nat, len: nat, nr: int)
    requires at == 65536 * v + loff && loff + n <= 65536 && 0 < n <= len
    ensures var f := MakeBlock(r, v, nr);
      WriteFate(r, at, len, nr) == if f.Short? then f else WriteFate(f.room, at + n, len - n, nr)
  {
    hide MakeBlock, WriteFate;
    WriteOne(r, v, loff, n, nr);
    WriteTwice(r, at, n, len - n, nr);
    assert n + (len - n) == len;
  }

  lemma WriteNothing(r: Room, at: nat, nr: int)
    ensures WriteFate(r, at, 0, nr) == Enough(r)
  {
  }

  /** Where the sum blocks are there, no rollback faults. */
  lemma {:induction false} SumsThere(r: Room, v: nat, n: nat, nr: int)
    requires forall j :: v <= j < v + n && j !in r.s.bM ==> SumBlockOf(j) in r.s.sM
    ensures MakeBlocks(r, v, n, nr) != Short(true)
    decreases n
  {
    hide SumBlockOf, AllocTakes, Allocated, MakeBlock;
    if n > 0 {
      var f := MakeBlock(r, v, nr);
      if f.Enough? {
        MadeIsThere(r, v, nr);
        SumsThere(f.room, v + 1, n - 1, nr);
      } else {
        NotStuckHere(r, v, nr);
      }
    }
  }

  lemma NotStuckHere(r: Room, v: nat, nr: int)
    requires v in r.s.bM || SumBlockOf(v) in r.s.sM
    ensures MakeBlock(r, v, nr) != Short(true)
  {
  }
}
