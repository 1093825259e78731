/** Reading and writing an object's blocks with their checksums: core/inode.c:454-795. */
module InodeData {
  import opened Common
  import opened Stripes
  import opened Pages
  import opened Balloc
  import opened IndexTree
  import opened InodeMap
  import opened InodeRoom

  // ---------------------------------------------------------------- what the blocks hold

  /** The checksum of a block, as it is stored. */
  type Csum = Bytes -> Bytes

  ghost predicate EightBytes(csum: Csum) {
    forall b :: |csum(b)| == 8
  }

  ghost predicate Device(dev: seq<Bytes>, used: set<nat>) {
    (forall b :: 0 <= b < |dev| ==> |dev[b]| == 65536) && forall b :: b in used ==> b < |dev|
  }

  /** The stored sum of block v of the object is that of its data. */
  ghost predicate SumOk(s: Shape, dev: seq<Bytes>, csum: Csum, v: nat) {
    && v in s.bM && SumBlockOf(v) in s.sM && s.bM[v] < |dev| && s.sM[SumBlockOf(v)] < |dev|
    && SumOffOf(v) + 8 <= |dev[s.sM[SumBlockOf(v)]]|
    && dev[s.sM[SumBlockOf(v)]][SumOffOf(v)..SumOffOf(v) + 8] == csum(dev[s.bM[v]])
  }

  ghost predicate SumsOk(s: Shape, dev: seq<Bytes>, csum: Csum, but: set<nat>) {
    forall v {:trigger SumOk(s, dev, csum, v)} :: v in s.bM && v !in but ==> SumOk(s, dev, csum, v)
  }

  /** Byte p of the object is x. */
  ghost predicate ByteIs(s: Shape, dev: seq<Bytes>, p: nat, x: bv8) {
    p / 65536 in s.bM && s.bM[p / 65536] < |dev| && p % 65536 < |dev[s.bM[p / 65536]]| && dev[s.bM[p / 65536]][p % 65536] == x
  }

  /** w: the bytes that were ever written, with their last values. */
  ghost predicate Remembers(s: Shape, dev: seq<Bytes>, w: map<nat, bv8>) {
    forall p {:trigger ByteIs(s, dev, p, w[p])} :: p in w ==> ByteIs(s, dev, p, w[p])
  }

  /** The blocks of the object that have a byte of w. */
  ghost function WrittenBlocks(w: map<nat, bv8>): set<nat> {
    set p | p in w :: p / 65536
  }

  /** A block of the object is there exactly if a byte of it was written. */
  ghost predicate Backed(s: Shape, w: map<nat, bv8>) {
    s.bM.Keys == WrittenBlocks(w)
  }

  ghost predicate Good(i: Ino, s: Shape, dev: seq<Bytes>, csum: Csum, w: map<nat, bv8>, rest: set<nat>, used: set<nat>) {
    && Owns(i, s, rest, used) && Device(dev, used) && EightBytes(csum)
    && SumsOk(s, dev, csum, {}) && Remembers(s, dev, w) && i.size < U64
  }

  /** The blocks of dev that `rest` names are the same in dev'. */
  ghost predicate SameFor(rest: set<nat>, dev: seq<Bytes>, dev': seq<Bytes>) {
    |dev'| == |dev| && forall b :: b in rest && b < |dev| ==> dev'[b] == dev[b]
  }

  // ---------------------------------------------------------------- nkfs_inode_block_write

  /** The sums when data and sum of block u have been written. */
  function WithSum(dev: seq<Bytes>, csum: Csum, b: nat, sb: nat, off: nat): seq<Bytes>
    requires b < |dev| && sb < |dev| && off + |csum(dev[b])| <= |dev[sb]|
  {
    dev[sb := Splice(dev[sb], off, csum(dev[b]))]
  }

  /** The data blocks and the sum blocks of an object have nothing in common. */
  ghost predicate Separate(s: Shape) {
    Injective(s.bM) && Injective(s.sM) && Range(s.bM) !! Range(s.sM)
  }

  lemma DifferentBlocks(s: Shape, v: nat, u: nat)
    requires Separate(s) && v in s.bM && u in s.bM
    ensures v != u ==> s.bM[v] != s.bM[u]
    ensures SumBlockOf(u) in s.sM ==> s.bM[v] != s.sM[SumBlockOf(u)]
    ensures SumBlockOf(u) in s.sM && SumBlockOf(v) in s.sM && SumBlockOf(u) != SumBlockOf(v) ==> s.sM[SumBlockOf(v)] != s.sM[SumBlockOf(u)]
  {
    assert s.bM[v] in Range(s.bM);
    if SumBlockOf(u) in s.sM {
      assert s.sM[SumBlockOf(u)] in Range(s.sM);
    }
  }

  lemma OtherSum(s: Shape, dev: seq<Bytes>, csum: Csum, u: nat, dev1: seq<Bytes>, v: nat)
    requires Separate(s) && EightBytes(csum) && v != u && u in s.bM && SumOk(s, dev, csum, v) && SumBlockOf(u) in s.sM
    requires |dev1| == |dev| && (forall b :: 0 <= b < |dev| && b != s.bM[u] ==> dev1[b] == dev[b])
    requires s.bM[u] < |dev| && s.sM[SumBlockOf(u)] < |dev| && |dev1[s.sM[SumBlockOf(u)]]| == 65536
    requires SumOffOf(u) + 8 <= 65536
    ensures SumOk(s, WithSum(dev1, csum, s.bM[u], s.sM[SumBlockOf(u)], SumOffOf(u)), csum, v)
  {
    DifferentBlocks(s, v, u);
    DifferentBlocks(s, u, v);
    SlotsApart(v, u);
    var sb := s.sM[SumBlockOf(u)];
    var dev2 := WithSum(dev1, csum, s.bM[u], sb, SumOffOf(u));
    assert dev2[s.bM[v]] == dev[s.bM[v]];
    if SumBlockOf(v) == SumBlockOf(u) {
      SpliceBeside(dev1[sb], SumOffOf(u), csum(dev1[s.bM[u]]), SumOffOf(v), 8);
    }
  }

  /** A write changes nothing beside itself. */
  lemma SpliceBeside(b: Bytes, off: nat, x: Bytes, at: nat, n: nat)
    requires off + |x| <= |b| && at + n <= |b| && (at + n <= off || off + |x| <= at)
    ensures Splice(b, off, x)[at..at + n] == b[at..at + n]
  {
  }

  lemma SpliceAt(b: Bytes, off: nat, x: Bytes)
    requires off + |x| <= |b|
    ensures Splice(b, off, x)[off..off + |x|] == x
  {
  }

  /** After block u's data has changed and its sum is stored again, every sum is right. */
  lemma SumsAfter(s: Shape, dev: seq<Bytes>, csum: Csum, u: nat, dev1: seq<Bytes>, used: set<nat>)
    requires Separate(s) && EightBytes(csum) && SumsOk(s, dev, csum, {u}) && u in s.bM && SumBlockOf(u) in s.sM
    requires |dev1| == |dev| && (forall b :: 0 <= b < |dev| && b != s.bM[u] ==> dev1[b] == dev[b])
    requires s.bM[u] < |dev| && s.sM[SumBlockOf(u)] < |dev| && Device(dev1, used)
    ensures SumOffOf(u) + 8 <= 65536
    ensures var dev2 := WithSum(dev1, csum, s.bM[u], s.sM[SumBlockOf(u)], SumOffOf(u));
      SumsOk(s, dev2, csum, {}) && Device(dev2, used) && dev2[s.bM[u]] == dev1[s.bM[u]]
  {
    SlotsApart(u, u);
    var sb := s.sM[SumBlockOf(u)];
    var dev2 := WithSum(dev1, csum, s.bM[u], sb, SumOffOf(u));
    DifferentBlocks(s, u, u);
    SpliceAt(dev1[sb], SumOffOf(u), csum(dev1[s.bM[u]]));
    forall v | v in s.bM
      ensures SumOk(s, dev2, csum, v)
    {
      if v != u {
        assert SumOk(s, dev, csum, v);
        OtherSum(s, dev, csum, u, dev1, v);
      }
    }
  }

  // ---------------------------------------------------------------- finding and making blocks

  const VLIMIT: nat := 0x1_0000_0000_0000

  lemma IsSeparate(i: Ino, s: Shape, rest: set<nat>, used: set<nat>)
    requires Owns(i, s, rest, used)
    ensures Separate(s)
    ensures forall v :: v in s.bM ==> s.bM[v] in used && s.bM[v] !in rest
    ensures forall v :: v in s.sM ==> s.sM[v] in used && s.sM[v] !in rest
  {
    forall v | v in s.bM
      ensures s.bM[v] in used && s.bM[v] !in rest
    {
      assert s.bM[v] in Range(s.bM);
    }
    forall v | v in s.sM
      ensures s.sM[v] in used && s.sM[v] !in rest
    {
      assert s.sM[v] in Range(s.sM);
    }
  }

  ghost predicate IsBlock(s: Shape, v: nat, ib: IBlock) {
    v in s.bM && SumBlockOf(v) in s.sM && ib == IBlock(s.bM[v], s.sM[SumBlockOf(v)], SumOffOf(v))
  }

  /** nkfs_inode_block_read: where block v is, if it is anywhere. */
  method BlockRead(i: Ino, ghost s: Shape, v: nat, ghost rest: set<nat>, ghost used: set<nat>)
    returns (i': Ino, found: bool, ib: IBlock)
    requires Owns(i, s, rest, used) && v < VLIMIT && (v in s.bM ==> SumBlockOf(v) in s.sM)
    ensures Owns(i', s, rest, used) && SameRoots(i, i')
    ensures (found <==> v in s.bM) && (found ==> IsBlock(s, v, ib))
  {
    ib := IBlock(0, 0, 0);
    var b, sb;
    i', found, b := FindData(i, s, v, rest, used);
    if found {
      i', found, sb := FindSum(i', s, SumBlockOf(v), rest, used);
      ib := IBlock(b, sb, SumOffOf(v));
    }
  }

  /** nkfs_inode_block_check_sum. */
  method CheckSum(dev: seq<Bytes>, csum: Csum, ib: IBlock) returns (ok: bool)
    requires ib.block < |dev| && ib.sumBlock < |dev| && ib.sumOff + 8 <= |dev[ib.sumBlock]|
    ensures ok <==> dev[ib.sumBlock][ib.sumOff..ib.sumOff + 8] == csum(dev[ib.block])
  {
    ok := dev[ib.sumBlock][ib.sumOff..ib.sumOff + 8] == csum(dev[ib.block]);
  }

  /** A new block v does not disturb the sums of the others. */
  lemma SumsCarried(s: Shape, dev: seq<Bytes>, csum: Csum, v: nat, b: nat, sb: nat, s': Shape)
    requires SumsOk(s, dev, csum, {}) && v !in s.bM && s'.bM == s.bM[v := b] && s'.sM == s.sM[SumBlockOf(v) := sb]
    requires SumBlockOf(v) in s.sM ==> sb == s.sM[SumBlockOf(v)]
    ensures SumsOk(s', dev, csum, {v})
  {
    forall u | u in s'.bM && u !in {v}
      ensures SumOk(s', dev, csum, u)
    {
      assert SumOk(s, dev, csum, u);
    }
  }

  /** What was written is still there when the data blocks are as before. */
  lemma StillRemembers(s: Shape, dev: seq<Bytes>, w: map<nat, bv8>, s': Shape, dev': seq<Bytes>)
    requires Remembers(s, dev, w) && |dev'| == |dev|
    requires forall v :: v in s.bM ==> v in s'.bM && s'.bM[v] == s.bM[v] && (s.bM[v] < |dev| ==> dev'[s.bM[v]] == dev[s.bM[v]])
    ensures Remembers(s', dev', w)
  {
    forall p | p in w
      ensures ByteIs(s', dev', p, w[p])
    {
      assert ByteIs(s, dev, p, w[p]);
    }
  }

  lemma DeviceOf(space: Space, dev: seq<Bytes>, used: set<nat>)
    requires space.Valid() && Device(dev, used) && |dev| == space.layout.nrBlocks
    ensures Device(dev, space.used)
  {
    forall b | b in space.used
      ensures b < |dev|
    {
      space.InRange(b);
    }
  }

  /** Stores the sum of a block that was just mapped. */
  lemma NewBlockData(s: Shape, dev: seq<Bytes>, csum: Csum, w: map<nat, bv8>, used: set<nat>, rest: set<nat>,
      v: nat, ib: IBlock, s': Shape)
    requires EightBytes(csum) && SumsOk(s, dev, csum, {}) && Remembers(s, dev, w) && Separate(s') && Device(dev, used)
    requires v !in s.bM && s'.bM == s.bM[v := ib.block] && s'.sM == s.sM[SumBlockOf(v) := ib.sumBlock] && ib.sumOff == SumOffOf(v)
    requires SumBlockOf(v) in s.sM ==> ib.sumBlock == s.sM[SumBlockOf(v)]
    requires ib.block in used && ib.sumBlock in used && ib.sumBlock !in rest
    ensures ib.block < |dev| && ib.sumBlock < |dev| && |csum(dev[ib.block])| == 8 && ib.sumOff + 8 <= |dev[ib.sumBlock]|
    ensures var dev2 := WithSum(dev, csum, ib.block, ib.sumBlock, ib.sumOff);
      SumsOk(s', dev2, csum, {}) && Remembers(s', dev2, w) && Device(dev2, used) && SameFor(rest, dev, dev2)
  {
    SumsCarried(s, dev, csum, v, ib.block, ib.sumBlock, s');
    SumsAfter(s', dev, csum, v, dev, used);
    var dev2 := WithSum(dev, csum, ib.block, ib.sumBlock, ib.sumOff);
    forall u | u in s.bM
      ensures u in s'.bM && s'.bM[u] == s.bM[u] && (s.bM[u] < |dev| ==> dev2[s.bM[u]] == dev[s.bM[u]])
    {
      DifferentBlocks(s', u, v);
    }
    StillRemembers(s, dev, w, s', dev2);
  }

  lemma NewBlockGood(i: Ino, s: Shape, dev: seq<Bytes>, csum: Csum, w: map<nat, bv8>, rest: set<nat>, used: set<nat>,
      v: nat, ib: IBlock, i': Ino, s': Shape, used': set<nat>)
    requires Good(i, s, dev, csum, w, rest, used) && v !in s.bM && Owns(i', s', rest, used') && Device(dev, used') && i'.size == i.size
    requires s'.bM == s.bM[v := ib.block] && s'.sM == s.sM[SumBlockOf(v) := ib.sumBlock] && ib.sumOff == SumOffOf(v)
    requires SumBlockOf(v) in s.sM ==> ib.sumBlock == s.sM[SumBlockOf(v)]
    ensures ib.block < |dev| && ib.sumBlock < |dev| && |csum(dev[ib.block])| == 8 && ib.sumOff + 8 <= |dev[ib.sumBlock]|
    ensures var dev2 := WithSum(dev, csum, ib.block, ib.sumBlock, ib.sumOff);
      Good(i', s', dev2, csum, w, rest, used') && SameFor(rest, dev, dev2) && IsBlock(s', v, ib)
  {
    IsSeparate(i', s', rest, used');
    assert v in s'.bM && SumBlockOf(v) in s'.sM;
    NewBlockData(s, dev, csum, w, used', rest, v, ib, s');
  }

  /** nkfs_inode_block_read_create. */
  method BlockReadCreate(i: Ino, ghost s: Shape, space: Space, dev: seq<Bytes>, csum: Csum, ghost w: map<nat, bv8>, v: nat,
      asWritten: bool, ghost rest: set<nat>)
    returns (i': Ino, ghost s': Shape, dev': seq<Bytes>, ok: bool, ib: IBlock, fault: bool)
    requires space.Valid() && Good(i, s, dev, csum, w, rest, space.used) && |dev| == space.layout.nrBlocks && v < VLIMIT
    modifies space
    ensures space.Valid() && (ok ==> !fault)
    ensures Fated(MakeBlock(Room(s, old(space.used)), v, space.layout.nrBlocks), ok, fault, asWritten, s', space.used)
    ensures !fault ==> Good(i', s', dev', csum, w, rest, space.used) && SameRoots(i, i') && SameFor(rest, dev, dev')
    ensures ok ==> IsBlock(s', v, ib)
    ensures ok ==> s'.bM.Keys == s.bM.Keys + {v} && Charged(s, old(space.usedBlocks), s', space.usedBlocks)
    ensures !ok && !fault ==> s'.bM == s.bM && s'.sM == s.sM
    ensures !ok ==> v !in s.bM && old(space.usedBlocks) + Levels(s) + 6 > space.layout.nrBlocks
  {
    hide Charged, Levels, Owns, AllocTakes, Allocated, AllocFaults;
    s', dev', fault := s, dev, false;
    assert v in s.bM ==> SumOk(s, dev, csum, v);
    i', ok, ib := BlockRead(i, s, v, rest, space.used);
    if ok {
      // the sum is right, so this never fails
      IsSeparate(i', s, rest, space.used);
      var right := CheckSum(dev, csum, ib);
      ok := right;
      ChargedNothing(s, space.usedBlocks);
      KeysKnown(s.bM, v);
    } else {
      i', s', dev', ok, ib, fault := BlockMake(i', s, space, dev, csum, w, v, asWritten, rest);
    }
  }

  lemma KeysKnown(M: map<nat, nat>, v: nat)
    requires v in M
    ensures M.Keys + {v} == M.Keys
  {
  }

  /** The other half of nkfs_inode_block_read_create: a block that is not there is made. */
  method BlockMake(i: Ino, ghost s: Shape, space: Space, dev: seq<Bytes>, csum: Csum, ghost w: map<nat, bv8>, v: nat,
      asWritten: bool, ghost rest: set<nat>)
    returns (i': Ino, ghost s': Shape, dev': seq<Bytes>, ok: bool, ib: IBlock, fault: bool)
    requires space.Valid() && Good(i, s, dev, csum, w, rest, space.used) && |dev| == space.layout.nrBlocks && v < VLIMIT
    requires v !in s.bM
    modifies space
    ensures space.Valid() && (ok ==> !fault)
    ensures Fated(MakeBlock(Room(s, old(space.used)), v, space.layout.nrBlocks), ok, fault, asWritten, s', space.used)
    ensures !fault ==> Good(i', s', dev', csum, w, rest, space.used) && SameRoots(i, i') && SameFor(rest, dev, dev')
    ensures ok ==> IsBlock(s', v, ib)
    ensures ok ==> s'.bM.Keys == s.bM.Keys + {v} && Charged(s, old(space.usedBlocks), s', space.usedBlocks)
    ensures !ok && !fault ==> s'.bM == s.bM && s'.sM == s.sM
    ensures !ok ==> old(space.usedBlocks) + Levels(s) + 6 > space.layout.nrBlocks
  {
    hide Charged, Levels, Parted, TreeOk, AllocTakes, Allocated, AllocFaults;
    dev' := dev;
    ghost var used := space.used;
    i', s', ok, ib, fault := BlockAllocFor(i, s, space, v, asWritten, rest);
    DeviceOf(space, dev, used);
    if ok {
      ChargedOne(s, old(space.usedBlocks), s', space.usedBlocks, v);
      NewBlockGood(i, s, dev, csum, w, rest, used, v, ib, i', s', space.used);
      dev' := WithSum(dev, csum, ib.block, ib.sumBlock, ib.sumOff);
    } else if !fault {
      SameSums(s, s', dev, csum, w);
    }
  }

  lemma SameSums(s: Shape, s': Shape, dev: seq<Bytes>, csum: Csum, w: map<nat, bv8>)
    requires SumsOk(s, dev, csum, {}) && Remembers(s, dev, w) && s'.bM == s.bM && s'.sM == s.sM
    ensures SumsOk(s', dev, csum, {}) && Remembers(s', dev, w)
  {
    forall u | u in s'.bM
      ensures SumOk(s', dev, csum, u)
    {
      assert SumOk(s, dev, csum, u);
    }
    StillRemembers(s, dev, w, s', dev);
  }

  // ---------------------------------------------------------------- one block

  /** The bytes of buf written at p over w. */
  ghost function Over(w: map<nat, bv8>, p: nat, buf: Bytes): (r: map<nat, bv8>)
    ensures forall q :: q in r <==> q in w || p <= q < p + |buf|
    ensures forall q :: q in r ==> r[q] == if p <= q < p + |buf| then buf[q - p] else w[q]
  {
    map q | q in w.Keys + Span(p, |buf|) :: if p <= q < p + |buf| then buf[q - p] else w[q]
  }

  /** Byte q of the object is in block v just when it is one of that block's. */
  lemma InBlock(q: nat, v: nat)
    ensures q / 65536 == v <==> 65536 * v <= q < 65536 * v + 65536
    ensures q / 65536 == v ==> q % 65536 == q - 65536 * v
  {
  }

  /** Block v has been written at off, and the other data blocks are as before. */
  ghost predicate Rewritten(s: Shape, dev: seq<Bytes>, v: nat, off: nat, buf: Bytes, dev': seq<Bytes>) {
    && v in s.bM && s.bM[v] < |dev| == |dev'| && off + |buf| <= |dev[s.bM[v]]| == 65536
    && dev'[s.bM[v]] == Splice(dev[s.bM[v]], off, buf)
    && forall u :: u in s.bM && u != v && s.bM[u] < |dev| ==> dev'[s.bM[u]] == dev[s.bM[u]]
  }

  lemma NewByte(s: Shape, dev: seq<Bytes>, v: nat, off: nat, buf: Bytes, dev': seq<Bytes>, k: nat)
    requires Rewritten(s, dev, v, off, buf, dev') && k < |buf|
    ensures ByteIs(s, dev', 65536 * v + off + k, buf[k])
  {
    InBlock(65536 * v + off + k, v);
  }

  lemma OldByte(s: Shape, dev: seq<Bytes>, v: nat, off: nat, buf: Bytes, dev': seq<Bytes>, q: nat, x: bv8)
    requires Rewritten(s, dev, v, off, buf, dev') && ByteIs(s, dev, q, x)
    requires q < 65536 * v + off || 65536 * v + off + |buf| <= q
    ensures ByteIs(s, dev', q, x)
  {
    InBlock(q, v);
  }

  lemma WrittenBytes(s: Shape, dev: seq<Bytes>, w: map<nat, bv8>, v: nat, off: nat, buf: Bytes, dev': seq<Bytes>)
    requires Remembers(s, dev, w) && Rewritten(s, dev, v, off, buf, dev')
    ensures Remembers(s, dev', Over(w, 65536 * v + off, buf))
  {
    var p := 65536 * v + off;
    var w' := Over(w, p, buf);
    forall q | q in w'
      ensures ByteIs(s, dev', q, w'[q])
    {
      if p <= q < p + |buf| {
        NewByte(s, dev, v, off, buf, dev', q - p);
      } else {
        assert ByteIs(s, dev, q, w[q]);
        OldByte(s, dev, v, off, buf, dev', q, w[q]);
      }
    }
  }

  lemma WrittenMore(w: map<nat, bv8>, v: nat, off: nat, buf: Bytes)
    requires 0 < |buf| && off + |buf| <= 65536
    ensures WrittenBlocks(Over(w, 65536 * v + off, buf)) == WrittenBlocks(w) + {v}
  {
    var p := 65536 * v + off;
    var w' := Over(w, p, buf);
    forall q | q in w'
      ensures q / 65536 in WrittenBlocks(w) + {v}
    {
      if p <= q < p + |buf| {
        InBlock(q, v);
      }
    }
    InBlock(p, v);
    assert p in w';
    forall u | u in WrittenBlocks(w)
      ensures u in WrittenBlocks(w')
    {
      var q :| q in w && q / 65536 == u;
      assert q in w';
    }
  }

  /** Writing into block v and storing its sum. */
  lemma WriteData(s: Shape, dev: seq<Bytes>, csum: Csum, w: map<nat, bv8>, used: set<nat>, rest: set<nat>,
      v: nat, ib: IBlock, off: nat, buf: Bytes)
    requires EightBytes(csum) && SumsOk(s, dev, csum, {}) && Remembers(s, dev, w) && Separate(s) && Device(dev, used)
    requires IsBlock(s, v, ib) && ib.block in used && ib.sumBlock in used && ib.block !in rest && ib.sumBlock !in rest
    requires off + |buf| <= 65536
    ensures ib.block < |dev| && ib.sumBlock < |dev| && |dev[ib.block]| == |dev[ib.sumBlock]| == 65536 && ib.sumOff + 8 <= 65536
    ensures var dev1 := dev[ib.block := Splice(dev[ib.block], off, buf)];
      && |csum(dev1[ib.block])| == 8
      && ib.sumBlock < |dev1| && |dev1[ib.sumBlock]| == 65536
      && var dev2 := WithSum(dev1, csum, ib.block, ib.sumBlock, ib.sumOff);
      && SumsOk(s, dev2, csum, {}) && Remembers(s, dev2, Over(w, 65536 * v + off, buf))
      && Device(dev2, used) && SameFor(rest, dev, dev2)
  {
    var dev1 := dev[ib.block := Splice(dev[ib.block], off, buf)];
    assert SumsOk(s, dev, csum, {v}) by {
      forall u | u in s.bM && u !in {v}
        ensures SumOk(s, dev, csum, u)
      {
      }
    }
    SumsAfter(s, dev, csum, v, dev1, used);
    var dev2 := WithSum(dev1, csum, ib.block, ib.sumBlock, ib.sumOff);
    forall u | u in s.bM && u != v && s.bM[u] < |dev|
      ensures dev2[s.bM[u]] == dev[s.bM[u]]
    {
      DifferentBlocks(s, u, v);
    }
    WrittenBytes(s, dev, w, v, off, buf, dev2);
  }

  function Max(a: nat, b: nat): nat {
    if a >= b then a else b
  }

  /** The end of what is written, as a 64-bit sum. */
  function DataEnd(v: nat, off: nat, n: nat): (r: nat)
    ensures r < U64
  {
    (65536 * v + off + n) % U64
  }

  lemma EndWraps(v: nat, off: nat, n: nat, size: nat)
    requires v < VLIMIT && off + n <= 65536 && size < U64
    ensures Max(size, DataEnd(v, off, n)) == Max(size, 65536 * v + off + n) <==> 65536 * v + off + n < U64
    ensures 65536 * v + off + n == U64 ==> DataEnd(v, off, n) == 0
  {
  }

  lemma GoodSize(i: Ino, s: Shape, dev: seq<Bytes>, csum: Csum, w: map<nat, bv8>, rest: set<nat>, used: set<nat>)
    requires Good(i, s, dev, csum, w, rest, used)
    ensures i.size < U64
  {
  }

  /** The second half of nkfs_inode_write_block_buf: the data, its sum, and the size. */
  method StoreBlock(i: Ino, ghost s: Shape, dev: seq<Bytes>, csum: Csum, ghost w: map<nat, bv8>, v: nat, ib: IBlock,
      off: nat, buf: Bytes, ghost rest: set<nat>, ghost used: set<nat>) returns (i': Ino, dev': seq<Bytes>)
    requires Good(i, s, dev, csum, w, rest, used) && IsBlock(s, v, ib) && off + |buf| <= 65536
    ensures Good(i', s, dev', csum, Over(w, 65536 * v + off, buf), rest, used) && SameFor(rest, dev, dev')
    ensures i' == i.(size := Max(i.size, DataEnd(v, off, |buf|)), dirty := i'.dirty)
  {
    hide Parted, TreeOk, DataEnd;
    var end := DataEnd(v, off, |buf|);
    IsSeparate(i, s, rest, used);
    WriteData(s, dev, csum, w, used, rest, v, ib, off, buf);
    dev' := dev[ib.block := Splice(dev[ib.block], off, buf)];
    dev' := WithSum(dev', csum, ib.block, ib.sumBlock, ib.sumOff);
    i' := i;
    if end > i.size {
      i' := i'.(size := end, dirty := true);
      // nkfs_inode_write_dirty
      i' := i'.(dirty := false);
    }
  }

  /** nkfs_inode_write_block_buf: part of one block. It fails only for want of space, and then nothing was written. The size
      grows to the end of what was written if and only if that end is a 64-bit number. */
  method WriteBlockBuf(i: Ino, ghost s: Shape, space: Space, dev: seq<Bytes>, csum: Csum, ghost w: map<nat, bv8>,
      v: nat, off: nat, buf: Bytes, asWritten: bool, ghost rest: set<nat>)
    returns (i': Ino, ghost s': Shape, dev': seq<Bytes>, ok: bool, fault: bool)
    requires space.Valid() && Good(i, s, dev, csum, w, rest, space.used) && |dev| == space.layout.nrBlocks
    requires v < VLIMIT && off + |buf| <= 65536
    modifies space
    ensures space.Valid() && (ok ==> !fault)
    ensures Fated(MakeBlock(Room(s, old(space.used)), v, space.layout.nrBlocks), ok, fault, asWritten, s', space.used)
    ensures !fault ==> SameFor(rest, dev, dev') && SameHome(i, i')
    ensures ok ==> Good(i', s', dev', csum, Over(w, 65536 * v + off, buf), rest, space.used)
    ensures !ok && !fault ==> Good(i', s', dev', csum, w, rest, space.used)
    ensures !fault ==> i'.size == if ok then Max(i.size, DataEnd(v, off, |buf|)) else i.size
    ensures ok ==> (i'.size == Max(i.size, 65536 * v + off + |buf|) <==> 65536 * v + off + |buf| < U64)
    ensures ok ==> s'.bM.Keys == s.bM.Keys + {v} && Charged(s, old(space.usedBlocks), s', space.usedBlocks)
    ensures !ok ==> v !in s.bM && old(space.usedBlocks) + Levels(s) + 6 > space.layout.nrBlocks
    ensures !ok && !fault ==> s'.bM == s.bM
  {
    hide Good, Charged, Levels, Fated, MakeBlock, IsBlock;
    var ib;
    i', s', dev', ok, ib, fault := BlockReadCreate(i, s, space, dev, csum, w, v, asWritten, rest);
    GoodSize(i, s, dev, csum, w, rest, old(space.used));
    EndWraps(v, off, |buf|, i.size);
    if ok {
      i', dev' := StoreBlock(i', s', dev', csum, w, v, ib, off, buf, rest, space.used);
    }
  }

  /** The inode and the roots of its trees are where they were. */
  ghost predicate SameHome(i: Ino, i': Ino) {
    i'.block == i.block && SameRoot(i.bt, i'.bt) && SameRoot(i.st, i'.st)
  }

  /** A read of one block stops at the size, unless the end of the block read is 2^64, which the sum does not show. */
  predicate Stops(size: nat, at: nat, len: nat) {
    at == size || size <= at + len < U64
  }

  function Taken(size: nat, at: nat, len: nat): (n: nat)
    requires at <= size < U64
    ensures at + len < U64 ==> n == Available(size, at, len)
  {
    if Stops(size, at, len) then size - at else len
  }

  datatype ReadErr = Fine | ERANGE | NoBlock | BadSum

  /** An object whose data or sums may be damaged. */
  ghost predicate Placed(i: Ino, s: Shape, dev: seq<Bytes>, csum: Csum, rest: set<nat>, used: set<nat>) {
    && Owns(i, s, rest, used) && Device(dev, used) && EightBytes(csum) && i.size < U64
    && forall v :: v in s.bM ==> SumBlockOf(v) in s.sM
  }

  lemma GoodIsPlaced(i: Ino, s: Shape, dev: seq<Bytes>, csum: Csum, w: map<nat, bv8>, rest: set<nat>, used: set<nat>)
    requires Good(i, s, dev, csum, w, rest, used)
    ensures Placed(i, s, dev, csum, rest, used) && forall v :: v in s.bM ==> SumOk(s, dev, csum, v)
  {
    forall v | v in s.bM
      ensures SumOk(s, dev, csum, v)
    {
    }
  }

  /** nkfs_inode_read_block_buf: part of one block, up to the size of the object. A block whose sum is not that of its data is
      refused. */
  method ReadBlockBuf(i: Ino, ghost s: Shape, dev: seq<Bytes>, csum: Csum, v: nat, off: nat, len: nat,
      ghost rest: set<nat>, ghost used: set<nat>) returns (i': Ino, err: ReadErr, buf: Bytes, eof: bool)
    requires Placed(i, s, dev, csum, rest, used) && v < VLIMIT && off + len <= 65536
    ensures Placed(i', s, dev, csum, rest, used) && SameRoots(i, i')
    ensures var at := 65536 * v + off;
      && (at > i.size ==> err == ERANGE) && (at == i.size ==> err == Fine && eof && buf == [])
      && (at < i.size ==> err == if v !in s.bM then NoBlock else if SumOk(s, dev, csum, v) then Fine else BadSum)
      && (at < i.size && err == Fine ==>
        && |buf| == Taken(i.size, at, len) && (eof <==> Stops(i.size, at, len)) && AreBytes(s, dev, at, buf))
  {
    hide Owns;
    i', err, buf, eof := i, Fine, [], false;
    var at := 65536 * v + off;
    if at > i.size {
      err := ERANGE;
      return;
    } else if at == i.size {
      eof := true;
      return;
    }
    var found, ib;
    i', found, ib := BlockRead(i, s, v, rest, used);
    if !found {
      err := NoBlock;
      return;
    }
    IsSeparate(i', s, rest, used);
    SlotsApart(v, v);
    var right := CheckSum(dev, csum, ib);
    if !right {
      err := BadSum;
      return;
    }
    var n := len;
    // a 64-bit sum
    if (at + len) % U64 >= i.size {
      n, eof := i.size - at, true;
    }
    buf := BytesOf(s, dev, v, ib, off, n, used);
  }

  method BytesOf(ghost s: Shape, dev: seq<Bytes>, ghost v: nat, ib: IBlock, off: nat, n: nat, ghost used: set<nat>) returns (buf: Bytes)
    requires IsBlock(s, v, ib) && Device(dev, used) && ib.block < |dev| && off + n <= 65536
    ensures |buf| == n && AreBytes(s, dev, 65536 * v + off, buf)
  {
    buf := dev[ib.block][off..off + n];
    forall k | 0 <= k < n
      ensures ByteIs(s, dev, 65536 * v + off + k, buf[k])
    {
      InBlock(65536 * v + off + k, v);
    }
  }

  // ---------------------------------------------------------------- nkfs_inode_io_buf

  /** The size after the bytes off..off + n have been written. */
  function Grown(size: nat, off: nat, n: nat): nat {
    if n == 0 then size else Max(size, off + n)
  }

  /** What the code makes of the size: it is that, unless the end is no 64-bit number. */
  ghost predicate Grew(size: nat, off: nat, n: nat, size': nat) {
    if n == 0 || off + n < U64 then size' == Grown(size, off, n) else size <= size' <= Max(size, U64 - 1)
  }

  /** The same exactly, when the last piece that is written has at most `tail` bytes: a piece that ends at 2^64 does not
      count. */
  function SizeAfter(size: nat, off: nat, n: nat, tail: nat): nat
    requires tail <= U64
  {
    if n == 0 then size
    else if off + n < U64 then Max(size, off + n)
    else if off < U64 - tail then Max(size, U64 - tail)
    else size
  }

  lemma GrewExactly(size: nat, off: nat, n: nat, size': nat)
    requires Grew(size, off, n, size') && size < U64 && n > 0
    ensures size' == Max(size, off + n) <==> off + n < U64
  {
  }

  /** w is w0 with the first n bytes of buf written over it. */
  ghost predicate IsOver(w: map<nat, bv8>, w0: map<nat, bv8>, off: nat, buf: Bytes, n: nat) {
    && n <= |buf| && (forall q :: q in w <==> q in w0 || off <= q < off + n)
    && forall q :: q in w ==> w[q] == if off <= q < off + n then buf[q - off] else w0[q]
  }

  lemma MoreOver(w: map<nat, bv8>, w0: map<nat, bv8>, off: nat, buf: Bytes, n: nat, m: nat, at: nat)
    requires IsOver(w, w0, off, buf, n) && n + m <= |buf| && at == off + n
    ensures IsOver(Over(w, at, buf[n..n + m]), w0, off, buf, n + m)
  {
  }

  /** The first `done` bytes of buf have been written, and nothing of others. */
  ghost predicate Wrote(i0: Ino, dev0: seq<Bytes>, w0: map<nat, bv8>, i: Ino, dev: seq<Bytes>, w: map<nat, bv8>,
      off: nat, buf: Bytes, done: nat, rest: set<nat>)
  {
    && IsOver(w, w0, off, buf, done)
    && SameFor(rest, dev0, dev) && SameHome(i0, i) && Grew(i0.size, off, done, i.size)
  }

  lemma WroteStart(i: Ino, dev: seq<Bytes>, w: map<nat, bv8>, off: nat, data: Bytes, rest: set<nat>)
    ensures Wrote(i, dev, w, i, dev, w, off, data, 0, rest)
  {
  }

  lemma WroteNothing(i0: Ino, dev0: seq<Bytes>, w0: map<nat, bv8>, i: Ino, dev: seq<Bytes>, w: map<nat, bv8>,
      off: nat, buf: Bytes, done: nat, rest: set<nat>, i': Ino, dev': seq<Bytes>)
    requires Wrote(i0, dev0, w0, i, dev, w, off, buf, done, rest)
    requires SameFor(rest, dev, dev') && SameHome(i, i') && i'.size == i.size
    ensures Wrote(i0, dev0, w0, i', dev', w, off, buf, done, rest)
  {
  }

  lemma WroteMore(i0: Ino, dev0: seq<Bytes>, w0: map<nat, bv8>, i: Ino, dev: seq<Bytes>, w: map<nat, bv8>,
      off: nat, buf: Bytes, done: nat, rest: set<nat>, i': Ino, dev': seq<Bytes>, n: nat, at: nat)
    requires Wrote(i0, dev0, w0, i, dev, w, off, buf, done, rest) && 0 < n <= |buf| - done && at == off + done && at + n <= U64
    requires SameFor(rest, dev, dev') && SameHome(i, i')
    requires i'.size == if at + n < U64 then Max(i.size, at + n) else i.size
    ensures Wrote(i0, dev0, w0, i', dev', Over(w, at, buf[done..done + n]), off, buf, done + n, rest)
  {
    MoreOver(w, w0, off, buf, done, n, at);
  }

  /** One turn of the writing loop. */
  method WritePiece(ghost i0: Ino, ghost dev0: seq<Bytes>, ghost w0: map<nat, bv8>, i: Ino, ghost s: Shape, space: Space,
      dev: seq<Bytes>, csum: Csum, ghost w: map<nat, bv8>, ghost off: nat, buf: Bytes, done: nat, v: nat, loff: nat, n: nat,
      asWritten: bool, ghost rest: set<nat>)
    returns (i': Ino, ghost s': Shape, dev': seq<Bytes>, ok: bool,
      ghost w': map<nat, bv8>, fault: bool)
    requires space.Valid() && Good(i, s, dev, csum, w, rest, space.used) && |dev| == space.layout.nrBlocks
    requires Wrote(i0, dev0, w0, i, dev, w, off, buf, done, rest)
    requires 0 < n <= |buf| - done && off + done == 65536 * v + loff && loff + n <= 65536 && v < VLIMIT
    modifies space
    ensures space.Valid() && (ok ==> !fault)
    ensures Fated(MakeBlock(Room(s, old(space.used)), v, space.layout.nrBlocks), ok, fault, asWritten, s', space.used)
    ensures !fault ==> |dev'| == |dev| && Good(i', s', dev', csum, w', rest, space.used)
    ensures ok ==> Wrote(i0, dev0, w0, i', dev', w', off, buf, done + n, rest)
    ensures !ok && !fault ==> Wrote(i0, dev0, w0, i', dev', w', off, buf, done, rest)
    ensures !fault ==> i'.size == if ok && off + done + n < U64 then Max(i.size, off + done + n) else i.size
    ensures ok ==> s'.bM.Keys == s.bM.Keys + {v} && Charged(s, old(space.usedBlocks), s', space.usedBlocks)
    ensures !ok ==> v !in s.bM && old(space.usedBlocks) + Levels(s) + 6 > space.layout.nrBlocks
    ensures !fault && Backed(s, w) ==> Backed(s', w')
  {
    hide Good, Wrote, Charged, Levels, Fated, MakeBlock, WrittenBlocks;
    var piece := buf[done..done + n];
    i', s', dev', ok, fault := WriteBlockBuf(i, s, space, dev, csum, w, v, loff, piece, asWritten, rest);
    GoodSize(i, s, dev, csum, w, rest, old(space.used));
    EndWraps(v, loff, n, i.size);
    w' := w;
    if ok {
      WroteMore(i0, dev0, w0, i, dev, w, off, buf, done, rest, i', dev', n, 65536 * v + loff);
      WrittenMore(w, v, loff, piece);
      w' := Over(w, 65536 * v + loff, piece);
    } else if !fault {
      WroteNothing(i0, dev0, w0, i, dev, w, off, buf, done, rest, i', dev');
    }
  }

  /** Writing: block by block. If space runs out, the first `done` bytes have been written. */
  method WriteBuf(i: Ino, ghost s: Shape, space: Space, dev: seq<Bytes>, csum: Csum, ghost w: map<nat, bv8>,
      off: nat, buf: Bytes, asWritten: bool, ghost rest: set<nat>)
    returns (i': Ino, ghost s': Shape, dev': seq<Bytes>, ok: bool, done: nat,
      ghost w': map<nat, bv8>, fault: bool)
    requires space.Valid() && Good(i, s, dev, csum, w, rest, space.used) && |dev| == space.layout.nrBlocks
    requires off + |buf| <= U64 && off % 65536 + |buf| < 0x1_0000_0000
    modifies space
    ensures space.Valid() && done <= |buf| && (ok <==> done == |buf|)
    ensures ok ==> !fault
    ensures Fated(WriteFate(Room(s, old(space.used)), off, |buf|, space.layout.nrBlocks), ok, fault, asWritten, s', space.used)
    ensures !fault ==> |dev'| == |dev| && Good(i', s', dev', csum, w', rest, space.used)
    ensures !fault ==> Wrote(i, dev, w, i', dev', w', off, buf, done, rest)
    ensures ok ==> Charged(s, old(space.usedBlocks), s', space.usedBlocks) && Mapped(s, s') <= Touched(off, |buf|)
    ensures !ok ==> old(space.usedBlocks) + Needs(s, off, |buf|) > space.layout.nrBlocks
    ensures Touched(off, |buf|) <= s.bM.Keys ==> ok
    ensures ok ==> i'.size == SizeAfter(i.size, off, |buf|, 65536)
    ensures !fault && Backed(s, w) ==> Backed(s', w')
  {
    hide Good, Charged, Levels, Needs, Mapped, Touched, Wrote, WriteFate, MakeBlock, Backed;
    space.Counted();
    if Touched(off, |buf|) <= s.bM.Keys {
      NeedsNothing(s, off, |buf|);
    }
    ChargedNothing(s, space.usedBlocks);
    MappedNothing(s);
    i', s', dev', ok, done, w', fault := i, s, dev, true, 0, w, false;
    ghost var nr := space.layout.nrBlocks;
    ghost var fate := WriteFate(Room(s, space.used), off, |buf|, nr);
    WroteStart(i, dev, w, off, buf, rest);
    var vblock: nat, loff: nat := off / 65536, off % 65536;
    while done < |buf| && ok
      invariant done <= |buf| && loff < 65536 && (done < |buf| ==> off + done == 65536 * vblock + loff) && (!ok ==> done < |buf|)
      invariant space.Valid() && (ok ==> !fault && fate == WriteFate(Room(s', space.used), off + done, |buf| - done, nr))
      invariant !ok ==> Fated(fate, ok, fault, asWritten, s', space.used)
      invariant !fault ==> |dev'| == |dev| && Good(i', s', dev', csum, w', rest, space.used)
      invariant !fault ==> Wrote(i, dev, w, i', dev', w', off, buf, done, rest) && (Backed(s, w) ==> Backed(s', w'))
      invariant ok ==> Charged(s, old(space.usedBlocks), s', space.usedBlocks) && Mapped(s, s') <= Touched(off, |buf|)
      invariant !ok ==> old(space.usedBlocks) + Needs(s, off, |buf|) > space.layout.nrBlocks
      invariant ok ==> i'.size == (if done < |buf| then Grown(i.size, off, done) else SizeAfter(i.size, off, |buf|, 65536))
      invariant ok && 0 < done < |buf| ==> loff == 0
      decreases |buf| - done, ok
    {
      var n := if |buf| - done + loff > 65536 then 65536 - loff else |buf| - done;
      ghost var s1, u1 := s', space.usedBlocks;
      TouchedBlock(off, |buf|, off + done, n, vblock, loff);
      WritePieceFate(Room(s', space.used), vblock, loff, off + done, n, |buf| - done, nr);
      i', s', dev', ok, w', fault :=
        WritePiece(i, dev, w, i', s', space, dev', csum, w', off, buf, done, vblock, loff, n, asWritten, rest);
      if ok {
        ChargedNext(s, old(space.usedBlocks), s1, u1, s', space.usedBlocks, vblock, Touched(off, |buf|));
        done, loff, vblock := done + n, 0, vblock + 1;
      } else {
        RefusedOne(s, old(space.usedBlocks), s1, u1, vblock, off, |buf|, space.layout.nrBlocks);
      }
    }
    if ok {
      WriteNothing(Room(s', space.used), off + done, nr);
    }
  }

  /** How many bytes there are to read. */
  function Available(size: nat, off: nat, len: nat): nat
    requires off <= size
  {
    if off + len >= size then size - off else len
  }

  ghost predicate AreBytes(s: Shape, dev: seq<Bytes>, off: nat, buf: Bytes) {
    forall k :: 0 <= k < |buf| ==> ByteIs(s, dev, off + k, buf[k])
  }

  lemma MoreBytes(s: Shape, dev: seq<Bytes>, off: nat, a: Bytes, at: nat, b: Bytes)
    requires AreBytes(s, dev, off, a) && at == off + |a| && AreBytes(s, dev, at, b)
    ensures AreBytes(s, dev, off, a + b)
  {
    forall k | 0 <= k < |a + b|
      ensures ByteIs(s, dev, off + k, (a + b)[k])
    {
      if k >= |a| {
        assert ByteIs(s, dev, at + (k - |a|), b[k - |a|]);
      }
    }
  }

  /** One turn of the reading loop: the bytes at `at`, or what is missing there. */
  method ReadPiece(i: Ino, ghost s: Shape, dev: seq<Bytes>, csum: Csum, ghost w: map<nat, bv8>, ghost off: nat, buf: Bytes,
      v: nat, loff: nat, n: nat, ghost rest: set<nat>, ghost used: set<nat>)
    returns (i': Ino, err: ReadErr, buf': Bytes, eof: bool)
    requires Good(i, s, dev, csum, w, rest, used) && v < VLIMIT && loff + n <= 65536
    requires AreBytes(s, dev, off, buf) && 65536 * v + loff == off + |buf|
    ensures Good(i', s, dev, csum, w, rest, used) && SameRoots(i, i') && AreBytes(s, dev, off, buf') && i'.size == i.size
    ensures var at := off + |buf|;
      && (at > i.size ==> err == ERANGE)
      && (at <= i.size && err == Fine ==> |buf'| == |buf| + Taken(i.size, at, n) && (eof <==> Stops(i.size, at, n)))
      && (at <= i.size && err != Fine ==> at < i.size && err == NoBlock && v !in s.bM)
  {
    hide Owns;
    var piece;
    GoodIsPlaced(i, s, dev, csum, w, rest, used);
    i', err, piece, eof := ReadBlockBuf(i, s, dev, csum, v, loff, n, rest, used);
    buf' := buf;
    if err == Fine {
      MoreBytes(s, dev, off, buf, 65536 * v + loff, piece);
      buf' := buf + piece;
    }
  }

  /** How many bytes are read, when the last piece has at most `tail` bytes: a piece that ends at 2^64 is read as a whole. */
  function ReadCount(size: nat, off: nat, len: nat, tail: nat): (n: nat)
    requires off <= size && tail <= U64
    ensures Available(size, off, len) <= n <= len
  {
    if off + len < U64 || size <= Max(off, U64 - tail) then Available(size, off, len) else len
  }

  /** Reading: block by block, up to the size, unless the end is 2^64. A block that was never written ends it with an error. */
  method ReadBuf(i: Ino, ghost s: Shape, dev: seq<Bytes>, csum: Csum, ghost w: map<nat, bv8>, off: nat, len: nat,
      ghost rest: set<nat>, ghost used: set<nat>) returns (i': Ino, err: ReadErr, buf: Bytes, eof: bool)
    requires Good(i, s, dev, csum, w, rest, used) && off + len <= U64 && off % 65536 + len < 0x1_0000_0000
    ensures Good(i', s, dev, csum, w, rest, used) && SameRoots(i, i')
    ensures off > i.size && len > 0 ==> err == ERANGE
    ensures off <= i.size && err == Fine ==> |buf| == ReadCount(i.size, off, len, 65536) && AreBytes(s, dev, off, buf)
    ensures off <= i.size && err == Fine && len > 0 ==> (eof <==> off + |buf| == i.size)
    ensures off <= i.size && err != Fine ==> err == NoBlock && exists q :: off <= q < off + Available(i.size, off, len) && q / 65536 !in s.bM
  {
    hide Owns;
    i', err, buf, eof := i, Fine, [], false;
    var vblock: nat, loff: nat := off / 65536, off % 65536;
    while |buf| < len
      invariant |buf| <= len && loff < 65536 && (|buf| < len ==> off + |buf| == 65536 * vblock + loff)
      invariant Good(i', s, dev, csum, w, rest, used) && SameRoots(i, i') && !eof && err == Fine && i'.size == i.size
      invariant AreBytes(s, dev, off, buf) && (buf != [] && off + |buf| < U64 ==> off + |buf| < i.size)
      invariant buf != [] ==> off < i.size && (|buf| < len ==> loff == 0)
      invariant buf != [] && off + |buf| == U64 ==> |buf| == len && i.size > Max(off, U64 - 65536)
      decreases len - |buf|
    {
      var n := if len - |buf| + loff > 65536 then 65536 - loff else len - |buf|;
      ghost var at := off + |buf|;
      i', err, buf, eof := ReadPiece(i', s, dev, csum, w, off, buf, vblock, loff, n, rest, used);
      if err != Fine {
        InBlock(at, vblock);
        return;
      }
      if eof {
        break;
      }
      loff, vblock := 0, vblock + 1;
    }
  }

  /** What was written is what is read. */
  lemma LastWritten(s: Shape, dev: seq<Bytes>, w: map<nat, bv8>, off: nat, buf: Bytes, k: nat)
    requires Remembers(s, dev, w) && AreBytes(s, dev, off, buf) && k < |buf| && off + k in w
    ensures buf[k] == w[off + k]
  {
    assert ByteIs(s, dev, off + k, w[off + k]);
    assert ByteIs(s, dev, off + k, buf[k]);
  }

  /** Over bytes that have all been written, a read returns their last values, as many as there are up to the size. */
  method ReadWritten(i: Ino, ghost s: Shape, dev: seq<Bytes>, csum: Csum, ghost w: map<nat, bv8>, off: nat, len: nat,
      ghost rest: set<nat>, ghost used: set<nat>) returns (i': Ino, err: ReadErr, buf: Bytes)
    requires Good(i, s, dev, csum, w, rest, used) && off + len < U64 && off % 65536 + len < 0x1_0000_0000 && off <= i.size
    requires forall q :: off <= q < off + Available(i.size, off, len) ==> q in w
    ensures Good(i', s, dev, csum, w, rest, used) && SameRoots(i, i')
    ensures err == Fine && |buf| == Available(i.size, off, len) && forall k :: 0 <= k < |buf| ==> buf[k] == w[off + k]
  {
    var eof;
    i', err, buf, eof := ReadBuf(i, s, dev, csum, w, off, len, rest, used);
    forall q | off <= q < off + Available(i.size, off, len)
      ensures q / 65536 in s.bM
    {
      assert ByteIs(s, dev, q, w[q]);
    }
    forall k | 0 <= k < |buf|
      ensures buf[k] == w[off + k]
    {
      LastWritten(s, dev, w, off, buf, k);
    }
  }
}
