/** Reading and writing an object through pages: nkfs_inode_io_pages, core/inode.c:797-838. */
module InodePages {
  import opened Common
  import opened Stripes
  import opened Pages
  import opened Balloc
  import opened InodeMap
  import opened InodeRoom
  import opened InodeData

  /** What a 32-bit number cannot hold. */
  const U32: nat := 0x1_0000_0000

  /** How much one turn takes of a page, with the 32-bit sum of the code. */
  function Chunk(left: nat, po: nat): (n: nat)
    requires po < 4096
    ensures n <= left || n + po == 4096
  {
    if (left + po) % U32 > 4096 then 4096 - po else left
  }

  /** It stays in the page if and only if the sum is a 32-bit number. */
  lemma ChunkFits(left: nat, po: nat)
    requires po < 4096 && left < U32
    ensures po + Chunk(left, po) <= 4096 <==> left + po < U32
    ensures left + po < U32 ==> Chunk(left, po) == if left + po > 4096 then 4096 - po else left
  {
    if left + po >= U32 {
      assert (left + po) % U32 == left + po - U32;
    } else {
      assert (left + po) % U32 == left + po;
    }
  }

  /** The bytes of the last page that is used. */
  function Tail(pgOff: nat, len: nat): (r: nat)
    ensures r <= 4096
  {
    if len == 0 then 0 else (pgOff + len - 1) % 4096 + 1
  }

  lemma TailIs(pgOff: nat, len: nat, done: nat, k: nat, po: nat, n: nat)
    requires done < len && pgOff + done == 4096 * k + po && n == len - done && po + n <= 4096
    ensures Tail(pgOff, len) == po + n
  {
    assert pgOff + len - 1 == 4096 * k + (po + n - 1);
  }

  /** The pages before the last one. */
  lemma TailRest(pgOff: nat, len: nat, done: nat, k: nat, n: nat)
    requires done + n < len && pgOff + done + n == 4096 * k
    ensures done + n + Tail(pgOff, len) <= len
  {
    var q := (pgOff + len - 1) / 4096;
    assert q >= k;
    assert Tail(pgOff, len) == pgOff + len - 4096 * q;
  }

  /** The size after `done` bytes of a write. */
  function SizeSoFar(size: nat, off: nat, pgOff: nat, len: nat, done: nat): nat {
    if done < len then Grown(size, off, done) else SizeAfter(size, off, len, Tail(pgOff, len))
  }

  lemma SizeNext(size: nat, off: nat, pgOff: nat, len: nat, done: nat, k: nat, po: nat, n: nat, size1: nat, size2: nat)
    requires done < len && off + len <= U64 && pgOff + done == 4096 * k + po && 0 < n <= len - done && po + n <= 4096
    requires (done > 0 ==> po == 0) && size1 == SizeSoFar(size, off, pgOff, len, done)
    requires size2 == if off + done + n < U64 then Grown(size1, off + done, n) else size1
    ensures size2 == SizeSoFar(size, off, pgOff, len, done + n)
  {
    if n == len - done {
      TailIs(pgOff, len, done, k, po, n);
    }
  }

  // ---------------------------------------------------------------- writing

  /** The bytes that a call is about: `len` of them from pgOff on, or fewer if there are not so many. */
  function Region(flat: Bytes, pgOff: nat, len: nat): (r: Bytes)
    ensures |r| <= len && (r != [] ==> pgOff + |r| <= |flat| && r == flat[pgOff..pgOff + |r|])
  {
    if pgOff + len <= |flat| then flat[pgOff..pgOff + len] else if pgOff <= |flat| then flat[pgOff..] else []
  }

  lemma RegionLength(pages: seq<Bytes>, pgOff: nat, len: nat)
    requires Paged(pages)
    ensures |Region(Concat(pages), pgOff, len)| ==
      if pgOff + len <= 4096 * |pages| then len else if pgOff <= 4096 * |pages| then 4096 * |pages| - pgOff else 0
  {
    ConcatLength(pages);
  }

  lemma SliceOfSlice(b: Bytes, o: nat, len: nat, at: nat, n: nat)
    requires o + len <= |b| && at + n <= len
    ensures b[o..o + len][at..at + n] == b[o + at..o + at + n]
  {
    var l, r := b[o..o + len][at..at + n], b[o + at..o + at + n];
    forall j | 0 <= j < n
      ensures l[j] == r[j]
    {
      assert l[j] == b[o..o + len][at + j];
    }
  }

  lemma OverOn(w0: map<nat, bv8>, w: map<nat, bv8>, w': map<nat, bv8>, off: nat, buf: Bytes, done: nat, piece: Bytes, d: nat, at: nat)
    requires IsOver(w, w0, off, buf, done) && at == off + done && IsOver(w', w, at, piece, d)
    requires done + |piece| <= |buf| && piece == buf[done..done + |piece|]
    ensures IsOver(w', w0, off, buf, done + d)
  {
    forall j | 0 <= j < d
      ensures piece[j] == buf[done + j]
    {
    }
  }

  /** One write after another is one write. */
  lemma WroteOn(i0: Ino, dev0: seq<Bytes>, w0: map<nat, bv8>, i: Ino, dev: seq<Bytes>, w: map<nat, bv8>,
      i': Ino, dev': seq<Bytes>, w': map<nat, bv8>, off: nat, buf: Bytes, done: nat, piece: Bytes, d: nat, at: nat, rest: set<nat>)
    requires Wrote(i0, dev0, w0, i, dev, w, off, buf, done, rest) && at == off + done
    requires Wrote(i, dev, w, i', dev', w', at, piece, d, rest)
    requires done + |piece| <= |buf| && piece == buf[done..done + |piece|] && off + |buf| <= U64
    ensures Wrote(i0, dev0, w0, i', dev', w', off, buf, done + d, rest)
  {
    OverOn(w0, w, w', off, buf, done, piece, d, at);
  }

  /** The size grows to the end of what was written if and only if that end is a 64-bit number. */
  lemma WroteSome(i0: Ino, dev0: seq<Bytes>, w0: map<nat, bv8>, i: Ino, dev: seq<Bytes>, w: map<nat, bv8>,
      off: nat, buf: Bytes, done: nat, rest: set<nat>)
    requires Wrote(i0, dev0, w0, i, dev, w, off, buf, done, rest) && i0.size < U64
    ensures done > 0 ==> (i.size == Max(i0.size, off + done) <==> off + done < U64)
  {
    if done > 0 {
      GrewExactly(i0.size, off, done, i.size);
    }
  }

  datatype WriteErr = Written | NoRoom | FewPages

  /** Writing: page by page. The last page does not count for the size if it ends at 2^64. */
  method WriteFromPages(i: Ino, ghost s: Shape, space: Space, dev: seq<Bytes>, csum: Csum, ghost w: map<nat, bv8>,
      off: nat, pgOff: nat, len: nat, pages: seq<Bytes>, asWritten: bool, ghost rest: set<nat>)
    returns (i': Ino, ghost s': Shape, dev': seq<Bytes>, err: WriteErr, done: nat,
      ghost w': map<nat, bv8>, fault: bool)
    requires space.Valid() && Good(i, s, dev, csum, w, rest, space.used) && |dev| == space.layout.nrBlocks
    requires off + len <= U64 && Paged(pages) && pgOff < 4096 && len + pgOff < U32
    modifies space
    ensures space.Valid() && (err != NoRoom ==> !fault)
    ensures Fated(WriteFate(Room(s, old(space.used)), off, |Region(Concat(pages), pgOff, len)|, space.layout.nrBlocks),
      err != NoRoom, fault, asWritten, s', space.used)
    ensures !fault ==> |dev'| == |dev| && Good(i', s', dev', csum, w', rest, space.used)
    ensures !fault ==> Wrote(i, dev, w, i', dev', w', off, Region(Concat(pages), pgOff, len), done, rest)
    ensures err == Written ==> i'.size == SizeAfter(i.size, off, len, Tail(pgOff, len))
    ensures var data := Region(Concat(pages), pgOff, len);
      && (err == Written ==> done == |data| == len)
      && (err == FewPages ==> done == |data| < len)
      && (err == NoRoom ==> done < |data|)
      && (err == NoRoom ==> old(space.usedBlocks) + Needs(s, off, |data|) > space.layout.nrBlocks)
      && (Touched(off, |data|) <= s.bM.Keys ==> err != NoRoom)
      && (err != NoRoom ==> Charged(s, old(space.usedBlocks), s', space.usedBlocks) && Mapped(s, s') <= Touched(off, |data|))
    ensures !fault && Backed(s, w) ==> Backed(s', w')
  {
    hide Good, Wrote, Charged, Needs, Mapped, Touched, WriteFate, Region, Concat, Underway, Backed;
    ghost var data, u0, nr := Region(Concat(pages), pgOff, len), space.usedBlocks, space.layout.nrBlocks;
    ghost var fate := WriteFate(Room(s, space.used), off, |data|, nr);
    space.Counted();
    if Touched(off, |data|) <= s.bM.Keys {
      NeedsNothing(s, off, |data|);
    }
    i', s', dev', err, done, w', fault := i, s, dev, Written, 0, w, false;
    UnderwayStart(i, dev, w, s, space.used, off, pgOff, len, data, rest, nr);
    RegionLength(pages, pgOff, len);
    var k: nat, po: nat := 0, pgOff;
    while done < len
      invariant 0 <= done <= len && po < 4096 && (done < len ==> pgOff + done == 4096 * k + po) && done <= |data| && k <= |pages|
      invariant !fault && space.Valid() && |dev'| == |dev| && Good(i', s', dev', csum, w', rest, space.used)
      invariant Underway(i, dev, w, s, u0, i', dev', w', s', space.used, off, pgOff, len, data, done, rest, fate, nr)
      invariant (0 < done < len ==> po == 0) && (Backed(s, w) ==> Backed(s', w'))
    {
      if k >= |pages| {
        err := FewPages;
        UnderwayEnd(i, dev, w, s, u0, i', dev', w', s', space.used, off, pgOff, len, data, done, rest, fate, nr, asWritten);
        return;
      }
      var ok, d;
      i', s', dev', ok, d, w', fault := TurnPage(i, dev, w, s, u0, i', s', space, dev', csum, w', off, pgOff, len, pages, k, po,
        done, asWritten, rest, fate);
      done := done + d;
      if !ok {
        err := NoRoom;
        return;
      }
      po, k := 0, k + 1;
    }
    UnderwayEnd(i, dev, w, s, u0, i', dev', w', s', space.used, off, pgOff, len, data, done, rest, fate, nr, asWritten);
  }

  /** What is true after `done` bytes of a write, if the room did not run out. */
  ghost predicate Underway(i0: Ino, dev0: seq<Bytes>, w0: map<nat, bv8>, s0: Shape, u0: int, i: Ino, dev: seq<Bytes>,
      w: map<nat, bv8>, s: Shape, used: set<nat>, off: nat, pgOff: nat, len: nat, data: Bytes, done: nat, rest: set<nat>,
      fate: Fate, nr: int)
  {
    && Wrote(i0, dev0, w0, i, dev, w, off, data, done, rest) && i.size == SizeSoFar(i0.size, off, pgOff, len, done)
    && Charged(s0, u0, s, |used|) && Mapped(s0, s) <= Touched(off, |data|)
    && done <= |data| && fate == WriteFate(Room(s, used), off + done, |data| - done, nr)
  }

  lemma UnderwayStart(i: Ino, dev: seq<Bytes>, w: map<nat, bv8>, s: Shape, used: set<nat>, off: nat, pgOff: nat, len: nat,
      data: Bytes, rest: set<nat>, nr: int)
    ensures Underway(i, dev, w, s, |used|, i, dev, w, s, used, off, pgOff, len, data, 0, rest,
      WriteFate(Room(s, used), off, |data|, nr), nr)
  {
    hide Charged, Touched, WriteFate;
    WroteStart(i, dev, w, off, data, rest);
    ChargedNothing(s, |used|);
    MappedNothing(s);
    SizeAtEnd(i.size, off, pgOff, len);
  }

  lemma UnderwayEnd(i0: Ino, dev0: seq<Bytes>, w0: map<nat, bv8>, s0: Shape, u0: int, i: Ino, dev: seq<Bytes>,
      w: map<nat, bv8>, s: Shape, used: set<nat>, off: nat, pgOff: nat, len: nat, data: Bytes, done: nat, rest: set<nat>,
      fate: Fate, nr: int, asWritten: bool)
    requires Underway(i0, dev0, w0, s0, u0, i, dev, w, s, used, off, pgOff, len, data, done, rest, fate, nr) && done == |data|
    ensures Fated(fate, true, false, asWritten, s, used) && Wrote(i0, dev0, w0, i, dev, w, off, data, done, rest)
    ensures Charged(s0, u0, s, |used|) && Mapped(s0, s) <= Touched(off, |data|)
    ensures done == len ==> i.size == SizeAfter(i0.size, off, len, Tail(pgOff, len))
  {
    hide Charged, Touched, WriteFate, Wrote, Mapped;
    WriteNothing(Room(s, used), off + done, nr);
    SizeAtEnd(i0.size, off, pgOff, len);
  }

  /** One turn of the loop: what comes next in page k. */
  method TurnPage(ghost i0: Ino, ghost dev0: seq<Bytes>, ghost w0: map<nat, bv8>, ghost s0: Shape, ghost u0: int,
      i: Ino, ghost s: Shape, space: Space, dev: seq<Bytes>, csum: Csum, ghost w: map<nat, bv8>, off: nat, ghost pgOff: nat,
      len: nat, pages: seq<Bytes>, k: nat, po: nat, done: nat, asWritten: bool, ghost rest: set<nat>, ghost fate: Fate)
    returns (i': Ino, ghost s': Shape, dev': seq<Bytes>, ok: bool, d: nat,
      ghost w': map<nat, bv8>, fault: bool)
    requires space.Valid() && Good(i, s, dev, csum, w, rest, space.used) && |dev| == space.layout.nrBlocks
    requires Paged(pages) && off + len <= U64 && len + pgOff < U32 && done < len && k < |pages|
    requires pgOff + done == 4096 * k + po && po < 4096 && (done > 0 ==> po == 0)
    requires Underway(i0, dev0, w0, s0, u0, i, dev, w, s, space.used, off, pgOff, len, Region(Concat(pages), pgOff, len), done, rest,
      fate, space.layout.nrBlocks)
    modifies space
    ensures space.Valid() && (ok ==> !fault && d == if len - done + po > 4096 then 4096 - po else len - done)
    ensures done + d <= |Region(Concat(pages), pgOff, len)| && (!ok ==> done + d < |Region(Concat(pages), pgOff, len)|)
    ensures !fault ==> |dev'| == |dev| && Good(i', s', dev', csum, w', rest, space.used)
    ensures !fault ==> Wrote(i0, dev0, w0, i', dev', w', off, Region(Concat(pages), pgOff, len), done + d, rest)
    ensures ok ==> Underway(i0, dev0, w0, s0, u0, i', dev', w', s', space.used, off, pgOff, len, Region(Concat(pages), pgOff, len),
      done + d, rest, fate, space.layout.nrBlocks)
    ensures !ok ==> Fated(fate, ok, fault, asWritten, s', space.used)
    ensures !ok ==> u0 + Needs(s0, off, |Region(Concat(pages), pgOff, len)|) > space.layout.nrBlocks
    ensures !fault && Backed(s, w) ==> Backed(s', w')
  {
    hide Good, Wrote, Charged, Needs, Mapped, Touched, WriteFate, Chunk, Region, Concat, SizeSoFar, Grown, Backed;
    ghost var data := Region(Concat(pages), pgOff, len);
    var n := Chunk(len - done, po);
    ChunkFits(len - done, po);
    RegionPage(pages, pgOff, len, done, k, po, n);
    WriteTwice(Room(s, space.used), off + done, n, |data| - done - n, space.layout.nrBlocks);
    assert n + (|data| - done - n) == |data| - done;
    i', s', dev', ok, d, w', fault := WritePage(i0, dev0, w0, s0, u0, i, s, space, dev, csum, w, off, off + done, data, done,
      pages[k][po..po + n], asWritten, rest);
    if ok {
      SizeNext(i0.size, off, pgOff, len, done, k, po, n, i.size, i'.size);
    }
  }

  lemma SizeAtEnd(size: nat, off: nat, pgOff: nat, len: nat)
    ensures SizeSoFar(size, off, pgOff, len, 0) == size && SizeSoFar(size, off, pgOff, len, len) == SizeAfter(size, off, len, Tail(pgOff, len))
  {
  }

  /** One turn: a piece of one page, which is what comes next of data. */
  method WritePage(ghost i0: Ino, ghost dev0: seq<Bytes>, ghost w0: map<nat, bv8>, ghost s0: Shape, ghost u0: int,
      i: Ino, ghost s: Shape, space: Space, dev: seq<Bytes>, csum: Csum, ghost w: map<nat, bv8>,
      ghost off: nat, at: nat, ghost data: Bytes, ghost done: nat, piece: Bytes, asWritten: bool, ghost rest: set<nat>)
    returns (i': Ino, ghost s': Shape, dev': seq<Bytes>, ok: bool, d: nat,
      ghost w': map<nat, bv8>, fault: bool)
    requires space.Valid() && Good(i, s, dev, csum, w, rest, space.used) && |dev| == space.layout.nrBlocks
    requires Wrote(i0, dev0, w0, i, dev, w, off, data, done, rest)
    requires Charged(s0, u0, s, space.usedBlocks) && Mapped(s0, s) <= Touched(off, |data|)
    requires at == off + done && |piece| <= 4096 && off + |data| <= U64
    requires done + |piece| <= |data| && piece == data[done..done + |piece|]
    modifies space
    ensures space.Valid() && d <= |piece| && (ok <==> d == |piece|)
    ensures ok ==> !fault
    ensures Fated(WriteFate(Room(s, old(space.used)), at, |piece|, space.layout.nrBlocks), ok, fault, asWritten, s', space.used)
    ensures !fault ==> |dev'| == |dev| && Good(i', s', dev', csum, w', rest, space.used)
    ensures !fault ==> Wrote(i0, dev0, w0, i', dev', w', off, data, done + d, rest)
    ensures ok ==> Charged(s0, u0, s', space.usedBlocks) && Mapped(s0, s') <= Touched(off, |data|)
    ensures !ok ==> u0 + Needs(s0, off, |data|) > space.layout.nrBlocks
    ensures ok ==> i'.size == if at + |piece| < U64 then Grown(i.size, at, |piece|) else i.size
    ensures !fault && Backed(s, w) ==> Backed(s', w')
  {
    hide Good, Wrote, Charged, Needs, Mapped, Touched, WriteFate, Backed;
    ghost var u1 := space.usedBlocks;
    i', s', dev', ok, d, w', fault := WriteBuf(i, s, space, dev, csum, w, at, piece, asWritten, rest);
    if !fault {
      WroteOn(i0, dev0, w0, i, dev, w, i', dev', w', off, data, done, piece, d, at, rest);
    }
    if ok {
      ChargedPart(s0, u0, s, u1, s', space.usedBlocks, off, |data|, at, |piece|);
    } else {
      RefusedPart(s0, u0, s, u1, off, |data|, at, |piece|, space.layout.nrBlocks);
    }
  }

  /** What a turn of the loop takes from page k is what comes next. */
  lemma RegionPage(pages: seq<Bytes>, pgOff: nat, len: nat, done: nat, k: nat, po: nat, n: nat)
    requires Paged(pages) && k < |pages| && po + n <= 4096 && pgOff + done == 4096 * k + po && done + n <= len
    ensures var data := Region(Concat(pages), pgOff, len);
      done + n <= |data| && pages[k][po..po + n] == data[done..done + n]
  {
    ConcatLength(pages);
    PageRange(pages, k, po, n);
    var data := Region(Concat(pages), pgOff, len);
    var flat := Concat(pages);
    if data != [] {
      SliceOfSlice(flat, pgOff, |data|, done, n);
    }
  }

  // ---------------------------------------------------------------- reading

  datatype PagesErr = Got | Failed(why: ReadErr) | OutOfPages

  /** The first bytes of the object from off on, as many as data has, are in the pages from pgOff on, and the rest of the
      pages is as it was. */
  ghost predicate Filled(s: Shape, dev: seq<Bytes>, off: nat, pages: seq<Bytes>, pgOff: nat, data: Bytes, pages': seq<Bytes>) {
    && Paged(pages') && |pages'| == |pages| && pgOff + |data| <= |Concat(pages)|
    && Concat(pages') == Splice(Concat(pages), pgOff, data) && AreBytes(s, dev, off, data)
  }

  lemma FilledMore(s: Shape, dev: seq<Bytes>, off: nat, pages: seq<Bytes>, pgOff: nat, data: Bytes, pages': seq<Bytes>,
      k: nat, po: nat, more: Bytes, at: nat)
    requires Paged(pages) && Filled(s, dev, off, pages, pgOff, data, pages') && at == off + |data| && AreBytes(s, dev, at, more)
    requires k < |pages| && pgOff + |data| == 4096 * k + po && po + |more| <= 4096
    ensures Filled(s, dev, off, pages, pgOff, data + more, pages'[k := Splice(pages'[k], po, more)])
  {
    ConcatLength(pages);
    SplicePage(pages', k, po, more);
    SpliceTwice(Concat(pages), pgOff, data, more);
    MoreBytes(s, dev, off, data, at, more);
  }

  lemma FilledStart(s: Shape, dev: seq<Bytes>, off: nat, pages: seq<Bytes>, pgOff: nat)
    requires Paged(pages) && pgOff <= |Concat(pages)|
    ensures Filled(s, dev, off, pages, pgOff, [], pages)
  {
    assert Concat(pages) == Splice(Concat(pages), pgOff, []);
  }

  /** One turn: the bytes for page k, or why there are none. */
  method ReadPage(i: Ino, ghost s: Shape, dev: seq<Bytes>, csum: Csum, ghost w: map<nat, bv8>, ghost off: nat, at: nat,
      ghost pages0: seq<Bytes>, ghost pgOff: nat, ghost data: Bytes, pages: seq<Bytes>, k: nat, po: nat, n: nat,
      ghost rest: set<nat>, ghost used: set<nat>)
    returns (i': Ino, err: PagesErr, eof: bool, count: nat, ghost data': Bytes, pages': seq<Bytes>)
    requires Good(i, s, dev, csum, w, rest, used) && Paged(pages0) && Filled(s, dev, off, pages0, pgOff, data, pages)
    requires at == off + |data| && at + n <= U64 && 0 < n && po + n <= 4096
    requires k < |pages0| && pgOff + |data| == 4096 * k + po
    ensures Good(i', s, dev, csum, w, rest, used) && SameRoots(i, i')
    ensures at > i.size ==> err == Failed(ERANGE)
    ensures at <= i.size && err != Got ==> err == Failed(NoBlock) && exists q :: at <= q < at + Available(i.size, at, n) && q / 65536 !in s.bM
    ensures at <= i.size && err == Got ==> count == ReadCount(i.size, at, n, 4096) && |data'| == |data| + count
    ensures at <= i.size && err == Got ==> (eof <==> at + count == i.size)
    ensures at <= i.size && err == Got ==> Filled(s, dev, off, pages0, pgOff, data', pages')
  {
    hide Good;
    var e, buf;
    i', e, buf, eof := ReadBuf(i, s, dev, csum, w, at, n, rest, used);
    err, count, data', pages' := Got, |buf|, data, pages;
    if e != Fine {
      err := Failed(e);
    } else if |buf| <= n {
      if at <= i.size {
        FilledMore(s, dev, off, pages0, pgOff, data, pages, k, po, buf, at);
      }
      data' := data + buf;
      pages' := pages[k := Splice(pages[k], po, buf)];
    }
  }

  /** Of the n bytes from off on, one is in a block that is not there. */
  ghost predicate Hole(blocks: set<nat>, off: nat, n: nat) {
    exists q :: off <= q < off + n && q / 65536 !in blocks
  }

  /** What a read of an object with this size and these blocks is answered. It comes to a block that is not there only if there
      are pages for the bytes up to it. */
  ghost function ReadAnswer(size: nat, blocks: set<nat>, off: nat, pgOff: nat, len: nat, nrPages: nat): PagesErr
    requires pgOff < 4096
  {
    if len == 0 then Got
    else if nrPages == 0 then OutOfPages
    else if off > size then Failed(ERANGE)
    else
      var n, room := Available(size, off, len), 4096 * nrPages - pgOff;
      if Hole(blocks, off, if n < room then n else room) then Failed(NoBlock)
      else if n > room then OutOfPages
      else Got
  }

  lemma AnswerMissing(size: nat, blocks: set<nat>, off: nat, pgOff: nat, len: nat, nrPages: nat, q: nat)
    requires pgOff < 4096 && len > 0 && nrPages > 0 && off <= size && q / 65536 !in blocks
    requires off <= q < off + Available(size, off, len) && pgOff + q < off + 4096 * nrPages
    ensures ReadAnswer(size, blocks, off, pgOff, len, nrPages) == Failed(NoBlock)
  {
    var n, room := Available(size, off, len), 4096 * nrPages - pgOff;
    assert Hole(blocks, off, if n < room then n else room);
  }

  /** Everything that was to be read was there. */
  lemma AnswerThere(s: Shape, dev: seq<Bytes>, size: nat, off: nat, pgOff: nat, len: nat, nrPages: nat, data: Bytes)
    requires pgOff < 4096 && len > 0 && nrPages > 0 && off <= size && AreBytes(s, dev, off, data)
    requires pgOff + |data| <= 4096 * nrPages && (|data| < Available(size, off, len) ==> pgOff + |data| == 4096 * nrPages)
    ensures ReadAnswer(size, s.bM.Keys, off, pgOff, len, nrPages) == if |data| < Available(size, off, len) then OutOfPages else Got
  {
    forall q | off <= q < off + |data|
      ensures q / 65536 in s.bM.Keys
    {
      assert ByteIs(s, dev, off + (q - off), data[q - off]);
    }
  }

  lemma AnswerPlain(size: nat, blocks: set<nat>, off: nat, pgOff: nat, len: nat, nrPages: nat)
    requires pgOff < 4096
    ensures len == 0 ==> ReadAnswer(size, blocks, off, pgOff, len, nrPages) == Got
    ensures len > 0 && nrPages == 0 ==> ReadAnswer(size, blocks, off, pgOff, len, nrPages) == OutOfPages
    ensures len > 0 && nrPages > 0 && off > size ==> ReadAnswer(size, blocks, off, pgOff, len, nrPages) == Failed(ERANGE)
  {
  }

  lemma FilledBytes(s: Shape, dev: seq<Bytes>, off: nat, pages: seq<Bytes>, pgOff: nat, data: Bytes, pages': seq<Bytes>)
    requires Paged(pages) && Filled(s, dev, off, pages, pgOff, data, pages')
    ensures AreBytes(s, dev, off, data) && pgOff + |data| <= 4096 * |pages|
  {
    ConcatLength(pages);
  }

  /** The loop: the pages are filled one after the other. */
  method FillPages(i: Ino, ghost s: Shape, dev: seq<Bytes>, csum: Csum, ghost w: map<nat, bv8>,
      off: nat, pgOff: nat, len: nat, pages: seq<Bytes>, ghost rest: set<nat>, ghost used: set<nat>)
    returns (i': Ino, err: PagesErr, count: nat, ghost data: Bytes, pages': seq<Bytes>)
    requires Good(i, s, dev, csum, w, rest, used)
    requires off + len <= U64 && Paged(pages) && pgOff < 4096 && len + pgOff < U32
    ensures Good(i', s, dev, csum, w, rest, used) && SameRoots(i, i')
    ensures len == 0 ==> err == Got
    ensures len > 0 && pages == [] ==> err == OutOfPages
    ensures len > 0 && pages != [] && off > i.size ==> err == Failed(ERANGE)
    ensures off <= i.size && err == Got && len > 0 ==>
      && pages != [] && count == |data| == ReadCount(i.size, off, len, Tail(pgOff, len))
      && Filled(s, dev, off, pages, pgOff, data, pages')
    ensures err == OutOfPages && pages != [] ==>
      && off <= i.size && Filled(s, dev, off, pages, pgOff, data, pages')
      && pgOff + |data| == 4096 * |pages| && |data| < Available(i.size, off, len)
    ensures off <= i.size && err.Failed? ==>
      && err.why == NoBlock && len > 0 && pages != []
      && exists q :: off <= q < off + Available(i.size, off, len) && pgOff + q < off + 4096 * |pages| && q / 65536 !in s.bM
  {
    hide Good, Filled, Chunk, Tail;
    i', err, count, data, pages' := i, Got, 0, [], pages;
    var k: nat, po: nat := 0, pgOff;
    ConcatLength(pages);
    if pages != [] {
      FilledStart(s, dev, off, pages, pgOff);
    }
    while count < len
      invariant count <= len && count == |data| && po < 4096 && (count < len ==> pgOff + count == 4096 * k + po) && k <= |pages|
      invariant Good(i', s, dev, csum, w, rest, used) && SameRoots(i, i') && err == Got
      invariant pages != [] ==> Filled(s, dev, off, pages, pgOff, data, pages')
      invariant count > 0 ==> pages != [] && off < i.size && (off + count < U64 ==> off + count < i.size) && (count < len ==> po == 0)
      invariant count > 0 && off + count == U64 ==> count == len && i.size > Max(off, U64 - Tail(pgOff, len))
    {
      if k >= |pages| {
        err := OutOfPages;
        return;
      }
      var n := Chunk(len - count, po);
      ChunkFits(len - count, po);
      if n == len - count {
        TailIs(pgOff, len, count, k, po, n);
      } else {
        TailRest(pgOff, len, count, k + 1, n);
      }
      var eof, c;
      i', err, eof, c, data, pages' :=
        ReadPage(i', s, dev, csum, w, off, off + count, pages, pgOff, data, pages', k, po, n, rest, used);
      if err != Got {
        return;
      }
      count := count + c;
      if eof {
        break;
      }
      po, k := 0, k + 1;
    }
  }

  /** As many bytes as there are up to the size of the object end up in the pages, unless the end is 2^64. */
  method ReadIntoPages(i: Ino, ghost s: Shape, dev: seq<Bytes>, csum: Csum, ghost w: map<nat, bv8>,
      off: nat, pgOff: nat, len: nat, pages: seq<Bytes>, ghost rest: set<nat>, ghost used: set<nat>)
    returns (i': Ino, err: PagesErr, count: nat, ghost data: Bytes, pages': seq<Bytes>)
    requires Good(i, s, dev, csum, w, rest, used)
    requires off + len <= U64 && Paged(pages) && pgOff < 4096 && len + pgOff < U32
    ensures Good(i', s, dev, csum, w, rest, used) && SameRoots(i, i')
    ensures err == ReadAnswer(i.size, s.bM.Keys, off, pgOff, len, |pages|)
    ensures off <= i.size && err == Got && len > 0 ==>
      count == |data| == ReadCount(i.size, off, len, Tail(pgOff, len)) && Filled(s, dev, off, pages, pgOff, data, pages')
  {
    hide Good, Filled, Tail, ReadAnswer, AreBytes;
    AnswerPlain(i.size, s.bM.Keys, off, pgOff, len, |pages|);
    i', err, count, data, pages' := FillPages(i, s, dev, csum, w, off, pgOff, len, pages, rest, used);
    if len > 0 && pages != [] && off <= i.size {
      if err.Failed? {
        ghost var q :| off <= q < off + Available(i.size, off, len) && pgOff + q < off + 4096 * |pages| && q / 65536 !in s.bM;
        AnswerMissing(i.size, s.bM.Keys, off, pgOff, len, |pages|, q);
      } else {
        FilledBytes(s, dev, off, pages, pgOff, data, pages');
        AnswerThere(s, dev, i.size, off, pgOff, len, |pages|, data);
      }
    }
  }
}
