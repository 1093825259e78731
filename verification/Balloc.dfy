/** The block bitmap of core/balloc.c: one bit per block of the device, kept in the bitmap blocks.

    Every device is opened with NKFS_BLOCK_SIZE = 65536 bytes a block (core/dev.c:170), 16 pages of 4096,
    so a bitmap block is 8192 words of 64 bits; the numbers are written out where they are divided by. */
module Balloc {

  datatype Err = Ok | EINVAL | ENOSPC

  /** Where the bit of a block is: bitmap block, byte offset of its word there, bit of that word. */
  datatype Pos = Pos(bmBlock: nat, longOff: nat, bit: nat)

  /** A word of the bitmap, seen as its 64 bits. */
  type Word = s: seq<bool> | |s| == 64 witness seq(64, _ => false)

  function BmBit(bmBlock: nat, block: nat): Pos {
    var longNum := block / 64;
    Pos(bmBlock + longNum * 8 / 65536, longNum * 8 % 65536, block % 64)
  }

  function BlockOf(bmBlock: nat, p: Pos): nat
    requires p.bmBlock >= bmBlock
  {
    8 * (p.bmBlock - bmBlock) * 65536 + 8 * p.longOff + p.bit
  }

  predicate IsPos(bmBlock: nat, p: Pos) {
    p.bmBlock >= bmBlock && p.longOff < 65536 && p.longOff % 8 == 0 && p.bit < 64
  }

  /** Bit position and block number determine each other. */
  lemma PositionOfBlock(bmBlock: nat, block: nat)
    ensures IsPos(bmBlock, BmBit(bmBlock, block))
    ensures BlockOf(bmBlock, BmBit(bmBlock, block)) == block
  {
  }

  lemma BlockOfPosition(bmBlock: nat, p: Pos)
    requires IsPos(bmBlock, p)
    ensures BmBit(bmBlock, BlockOf(bmBlock, p)) == p
  {
    var q, e := p.bmBlock - bmBlock, p.longOff / 8;
    assert BlockOf(bmBlock, p) == (q * 8192 + e) * 64 + p.bit;
    assert (q * 8192 + e) * 8 == q * 65536 + p.longOff;
  }

  function DivRoundUp(x: nat, y: nat): nat
    requires y > 0
  {
    (x + y - 1) / y
  }

  lemma RoundUpCovers(x: nat, y: nat)
    requires y > 0
    ensures x <= DivRoundUp(x, y) * y
    ensures x > 0 ==> (DivRoundUp(x, y) - 1) * y < x
  {
    var t := x + y - 1;
    assert t == t / y * y + t % y;
    assert (t / y - 1) * y == t / y * y - y;
  }

  datatype Layout = Layout(bsize: nat, nrBlocks: nat, bmBlock: nat, bmBlocks: nat)

  /** Sizes of a device of `size` bytes; None stands for -EINVAL. */
  datatype Header = NoHeader | Header(layout: Layout)

  function GenHeader(size: nat, bsize: nat): (h: Header)
    requires bsize > 0
    ensures h.Header? <==>
      size % bsize == 0 && size > bsize && size > (1 + DivRoundUp(DivRoundUp(size / bsize, 8), bsize)) * bsize
    ensures h.Header? ==> Sound(h.layout) && h.layout.bsize == bsize && h.layout.nrBlocks * bsize == size
    // no bitmap block is there for nothing
    ensures h.Header? ==> 8 * ((h.layout.bmBlocks - 1) * bsize) < h.layout.nrBlocks
  {
    if size % bsize != 0 || size <= bsize then NoHeader
    else
      var n := size / bsize;
      var bmBlocks := DivRoundUp(DivRoundUp(n, 8), bsize);
      if size <= (1 + bmBlocks) * bsize then NoHeader
      else
        HeaderCovers(n, bsize, size);
        Header(Layout(bsize, n, 1, bmBlocks))
  }

  /** The bitmap has a bit for every block, and it and the header leave room for more. */
  predicate Sound(l: Layout) {
    && l.bsize > 0 && l.bmBlock == 1
    && l.nrBlocks <= 8 * (l.bmBlocks * l.bsize)
    && l.bmBlock + l.bmBlocks < l.nrBlocks
  }

  lemma HeaderCovers(n: nat, bsize: nat, size: nat)
    requires bsize > 0 && n == size / bsize && size % bsize == 0 && n > 0
    ensures var k := DivRoundUp(DivRoundUp(n, 8), bsize);
      && n <= 8 * (k * bsize)
      && 8 * ((k - 1) * bsize) < n
      && n * bsize == size
      && (size > (1 + k) * bsize ==> n > 1 + k)
  {
    var bytes := DivRoundUp(n, 8);
    var k := DivRoundUp(bytes, bsize);
    RoundUpCovers(n, 8);
    RoundUpCovers(bytes, bsize);
    LessFactor(n, 1 + k, bsize);
  }

  lemma LessFactor(x: nat, y: nat, d: nat)
    ensures x <= y ==> x * d <= y * d
  {
  }

  ghost predicate Bitmap(bm: seq<seq<Word>>) {
    forall i :: 0 <= i < |bm| ==> |bm[i]| == 8192
  }

  ghost predicate Bit(bm: seq<seq<Word>>, block: nat)
    requires Bitmap(bm)
  {
    block / 524288 < |bm| && bm[block / 524288][block % 524288 / 64][block % 64]
  }

  /** Every one of the `nr` blocks that is below `n` is taken. */
  ghost predicate FullBelow(bm: seq<seq<Word>>, nr: nat, n: nat)
    requires Bitmap(bm)
  {
    forall b: nat {:trigger Bit(bm, b)} :: b < n && b < nr ==> Bit(bm, b)
  }

  lemma BitOfWord(bm: seq<seq<Word>>, i: nat, w: nat, x: nat)
    requires Bitmap(bm) && i < |bm| && w < 8192 && x < 64
    ensures Bit(bm, 524288 * i + 64 * w + x) == bm[i][w][x]
  {
    BlockDigits(i, w, x);
  }

  lemma BlockDigits(i: nat, w: nat, x: nat)
    requires w < 8192 && x < 64
    ensures var b := 524288 * i + 64 * w + x;
      b / 524288 == i && b % 524288 / 64 == w && b % 64 == x
  {
    assert 524288 * i + 64 * w + x == 64 * (8192 * i + w) + x;
  }

  lemma WordFull(bm: seq<seq<Word>>, nr: nat, i: nat, w: nat, n: nat)
    requires Bitmap(bm) && i < |bm| && w < 8192 && n <= 64
    requires FullBelow(bm, nr, 524288 * i + 64 * w)
    requires forall x :: 0 <= x < n ==> bm[i][w][x]
    ensures FullBelow(bm, nr, 524288 * i + 64 * w + n)
  {
    var start := 524288 * i + 64 * w;
    forall b: nat | b < start + n && b < nr
      ensures Bit(bm, b)
    {
      if b >= start {
        BitOfWord(bm, i, w, b - start);
      }
    }
  }

  lemma SameDigits(b: nat, c: nat)
    requires b / 524288 == c / 524288 && b % 524288 / 64 == c % 524288 / 64 && b % 64 == c % 64
    ensures b == c
  {
    assert b % 524288 % 64 == b % 64 && c % 524288 % 64 == c % 64;
  }

  function WithBit(bm: seq<seq<Word>>, i: nat, w: nat, x: nat, use: bool): seq<seq<Word>>
    requires i < |bm| && w < |bm[i]| && x < 64
  {
    bm[i := bm[i][w := bm[i][w][x := use]]]
  }

  lemma OneBit(bm: seq<seq<Word>>, block: nat, use: bool, b: nat)
    requires Bitmap(bm) && block / 524288 < |bm|
    ensures var bm' := WithBit(bm, block / 524288, block % 524288 / 64, block % 64, use);
      Bitmap(bm') && |bm'| == |bm| && Bit(bm', b) == if b == block then use else Bit(bm, b)
  {
    if b / 524288 == block / 524288 && b % 524288 / 64 == block % 524288 / 64 && b % 64 == block % 64 {
      SameDigits(b, block);
    }
  }

  lemma {:induction false} CountBelow(n: nat, used: set<nat>)
    requires forall b :: b in used ==> b < n
    ensures |used| <= n && (|used| == n <==> forall b: nat :: b < n ==> b in used)
  {
    if n > 0 {
      var u := used - {n - 1};
      CountBelow(n - 1, u);
      if n - 1 in used {
        assert forall b: nat :: b < n - 1 ==> (b in used <==> b in u);
      } else {
        assert u == used;
      }
    } else {
      assert used == {};
    }
  }

  datatype Scan = Found(bit: nat) | NoSpace | Full

  /** The first clear bit of a word whose first bit stands for `block`, unless the device ends before it. */
  method FirstFreeBit(word: Word, block: nat, nr: nat) returns (r: Scan)
    requires block < nr
    ensures r.Found? ==> r.bit < 64 && !word[r.bit] && block + r.bit < nr && forall x :: 0 <= x < r.bit ==> word[x]
    ensures r.NoSpace? ==> nr < block + 64 && forall x :: 0 <= x < nr - block ==> word[x]
    ensures r.Full? ==> forall x :: 0 <= x < 64 ==> word[x]
  {
    if forall x :: 0 <= x < 64 ==> word[x] {
      return Full;
    }
    var bit := 0;
    while bit < 64
      invariant bit <= 64 && block + bit <= nr
      invariant forall x :: 0 <= x < bit ==> word[x]
    {
      if block + bit >= nr {
        return NoSpace;
      }
      if !word[bit] {
        return Found(bit);
      }
      bit := bit + 1;
    }
    r := Full;
  }

  class Space {
    const layout: Layout
    /** The bitmap blocks, as words. */
    var bm: seq<seq<Word>>
    var usedBlocks: int
    /** The blocks whose bit is set. */
    ghost var used: set<nat>

    ghost predicate Shaped()
      reads this
    {
      && Sound(layout) && layout.bsize == 65536
      && |bm| == layout.bmBlocks && Bitmap(bm)
    }

    ghost predicate Valid()
      reads this
    {
      && Shaped()
      && (forall b: nat {:trigger Bit(bm, b)} :: b in used <==> b < layout.nrBlocks && Bit(bm, b))
      && usedBlocks == |used|
    }

    lemma InRange(b: nat)
      requires Valid() && b in used
      ensures b < layout.nrBlocks
    {
      assert Bit(bm, b);
    }

    /** The counter tells how many blocks are left, and whether any is. */
    lemma Counted()
      requires Valid()
      ensures 0 <= usedBlocks <= layout.nrBlocks
      ensures usedBlocks == layout.nrBlocks <==> forall b: nat :: b < layout.nrBlocks ==> b in used
    {
      forall b | b in used
        ensures b < layout.nrBlocks
      {
        InRange(b);
      }
      CountBelow(layout.nrBlocks, used);
    }

    /** The bit the source addresses for a block is the one `Bit` reads. */
    lemma BitIsAt(block: nat)
      requires Shaped() && block < layout.nrBlocks
      ensures var p := BmBit(layout.bmBlock, block);
        && p.bmBlock - layout.bmBlock == block / 524288 < |bm|
        && p.longOff / 8 == block % 524288 / 64 && p.bit == block % 64
    {
    }

    constructor (l: Layout)
      requires Sound(l) && l.bsize == 65536
      ensures Valid() && layout == l && used == {} && usedBlocks == 0
    {
      layout := l;
      bm := seq(l.bmBlocks, _ => seq(8192, _ => seq(64, _ => false)));
      usedBlocks := 0;
      used := {};
    }

    method BmClear()
      requires Valid()
      modifies this
      ensures Valid() && used == {} && usedBlocks == 0
    {
      var i := 0;
      while i < layout.bmBlocks
        invariant Shaped() && i <= |bm|
        invariant forall x, w, b :: 0 <= x < i && 0 <= w < 8192 && 0 <= b < 64 ==> !bm[x][w][b]
      {
        bm := bm[i := seq(8192, _ => seq(64, _ => false))];
        i := i + 1;
      }
      usedBlocks := 0;
      used := {};
    }

    /** Writes one bit and leaves the others alone. */
    method SetBit(block: nat, use: bool)
      requires Shaped() && block < layout.nrBlocks
      modifies this`bm
      ensures Shaped()
      ensures Bit(bm, block) == use
      ensures forall b: nat {:trigger Bit(bm, b)} :: b < layout.nrBlocks && b != block ==> Bit(bm, b) == Bit(old(bm), b)
    {
      var p := BmBit(layout.bmBlock, block);
      BitIsAt(block);
      forall b: nat {:trigger Bit(bm, b)} {
        OneBit(bm, block, use, b);
      }
      bm := WithBit(bm, p.bmBlock - layout.bmBlock, p.longOff / 8, p.bit, use);
    }

    /** Marking a used block, or freeing a free one, stops the machine. */
    method BlockMark(block: nat, use: bool) returns (err: Err)
      requires Valid()
      requires block < layout.nrBlocks ==> (block in used) != use
      modifies this
      ensures Valid()
      ensures err == if block < layout.nrBlocks then Ok else EINVAL
      ensures used == if err != Ok then old(used) else if use then old(used) + {block} else old(used) - {block}
      ensures usedBlocks == old(usedBlocks) + if err != Ok then 0 else if use then 1 else -1
    {
      if block >= layout.nrBlocks {
        return EINVAL;
      }
      SetBit(block, use);
      if use {
        usedBlocks := usedBlocks + 1;
        used := used + {block};
      } else {
        usedBlocks := usedBlocks - 1;
        used := used - {block};
      }
      err := Ok;
    }

    method Free(block: nat) returns (err: Err)
      requires Valid()
      requires block < layout.nrBlocks ==> block in used
      modifies this
      ensures Valid()
      ensures err == if block < layout.nrBlocks then Ok else EINVAL
      ensures used == if err == Ok then old(used) - {block} else old(used)
      ensures usedBlocks == if err == Ok then old(usedBlocks) - 1 else old(usedBlocks)
    {
      err := BlockMark(block, false);
    }

    /** Takes a block whose bit is clear and below which all are taken. */
    method Take(block: nat)
      requires Valid() && block < layout.nrBlocks && !Bit(bm, block) && FullBelow(bm, layout.nrBlocks, block)
      modifies this
      ensures Valid() && block !in old(used) && used == old(used) + {block}
      ensures forall b: nat :: b < block ==> b in old(used)
    {
      TakenBelow(block);
      SetBit(block, true);
      usedBlocks := usedBlocks + 1;
      used := used + {block};
    }

    /** Looks for a clear bit in one word of bitmap block `i`, and sets the first. */
    method TakeInWord(i: nat, w: nat) returns (r: Scan)
      requires Valid() && i < |bm| && w < 8192
      requires FullBelow(bm, layout.nrBlocks, 524288 * i + 64 * w)
      modifies this
      ensures Valid()
      ensures r.Found? ==>
        var block := 524288 * i + 64 * w + r.bit;
        && block < layout.nrBlocks && block !in old(used) && used == old(used) + {block}
        && (forall b: nat :: b < block ==> b in old(used))
      ensures !r.Found? ==> used == old(used) && bm == old(bm)
      ensures r.NoSpace? ==> FullBelow(bm, layout.nrBlocks, layout.nrBlocks)
      ensures r.Full? ==> FullBelow(bm, layout.nrBlocks, 524288 * i + 64 * w + 64)
    {
      var block := 524288 * i + 64 * w;
      if block >= layout.nrBlocks {
        return NoSpace;
      }
      r := FirstFreeBit(bm[i][w], block, layout.nrBlocks);
      match r {
        case Found(x) =>
          WordFull(bm, layout.nrBlocks, i, w, x);
          BitOfWord(bm, i, w, x);
          Take(block + x);
        case NoSpace =>
          WordFull(bm, layout.nrBlocks, i, w, layout.nrBlocks - block);
        case Full =>
          WordFull(bm, layout.nrBlocks, i, w, 64);
      }
    }

    /** Scans bitmap block `i` page by page, word by word, for the first clear bit, and sets it. */
    method FindSetFreeBit(i: nat) returns (found: bool, longOff: nat, bit: nat)
      requires Valid() && i < |bm|
      requires FullBelow(bm, layout.nrBlocks, 524288 * i)
      modifies this
      ensures Valid()
      ensures found ==>
        var block := 8 * i * 65536 + 8 * longOff + bit;
        && block < layout.nrBlocks && block !in old(used) && used == old(used) + {block}
        && (forall b: nat :: b < block ==> b in old(used))
      ensures !found ==> used == old(used) && FullBelow(bm, layout.nrBlocks, 524288 * (i + 1))
    {
      found, longOff, bit := false, 0, 0;
      var page := 0;
      while page < 16
        invariant page <= 16 && longOff == page * 4096
        invariant Valid() && used == old(used) && bm == old(bm)
        invariant FullBelow(bm, layout.nrBlocks, 524288 * i + 8 * longOff)
      {
        var j := 0;
        while j < 4096
          invariant j <= 4096 && j % 8 == 0 && longOff == page * 4096 + j
          invariant Valid() && used == old(used) && bm == old(bm)
          invariant FullBelow(bm, layout.nrBlocks, 524288 * i + 8 * longOff)
        {
          var scan := TakeInWord(i, longOff / 8);
          match scan {
            case Found(x) =>
              found, bit := true, x;
              return;
            case NoSpace =>
              return;
            case Full =>
              j, longOff := j + 8, longOff + 8;
          }
        }
        page := page + 1;
      }
    }

    lemma TakenBelow(n: nat)
      requires Valid() && FullBelow(bm, layout.nrBlocks, n) && n <= layout.nrBlocks
      ensures forall b: nat :: b < n ==> b in used
    {
      forall b: nat | b < n
        ensures b in used
      {
        assert Bit(bm, b);
      }
    }

    /** The least free block, or -ENOSPC exactly when there is none. */
    method BlockAlloc() returns (err: Err, block: nat)
      requires Valid()
      modifies this
      ensures Valid()
      ensures err == Ok ==>
        && block < layout.nrBlocks && block !in old(used) && used == old(used) + {block}
        && (forall b: nat :: b < block ==> b in old(used))
      ensures err != Ok ==> err == ENOSPC && used == old(used) && block == 0
      ensures err != Ok <==> forall b: nat :: b < layout.nrBlocks ==> b in old(used)
      ensures err != Ok <==> old(usedBlocks) == layout.nrBlocks
      ensures usedBlocks == if err == Ok then old(usedBlocks) + 1 else old(usedBlocks)
    {
      Counted();
      block := 0;
      var i := 0;
      while i < layout.bmBlocks
        invariant i <= layout.bmBlocks && Valid() && used == old(used)
        invariant FullBelow(bm, layout.nrBlocks, 524288 * i)
      {
        var found, longOff, bit := FindSetFreeBit(i);
        if found {
          block := 8 * i * 65536 + 8 * longOff + bit;
          return Ok, block;
        }
        i := i + 1;
      }
      TakenBelow(layout.nrBlocks);
      err := ENOSPC;
    }
  }
}
