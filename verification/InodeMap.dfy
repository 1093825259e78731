/** The blocks of an object: core/inode.c:414-546. */
module InodeMap {
  import opened Common
  import opened BtreeShape
  import opened Balloc
  import opened Btree
  import opened BtreePath
  import opened BtreeAsWritten
  import opened IndexTree
  import opened KeyOrder

  /** struct nkfs_inode with its two trees: from blocks of the object to data blocks, and from blocks of checksums to
      the blocks that hold those. */
  datatype Ino = Ino(block: nat, size: nat, dirty: bool, bt: Mem, st: Mem)

  /** What the two trees stand for. */
  datatype Shape = Shape(bT: Tree, bM: map<nat, nat>, sT: Tree, sM: map<nat, nat>)

  // ---------------------------------------------------------------- who owns what

  /** Every used block is the inode's, a node of one of its trees, a data block, a sum block, or not the object's. */
  ghost predicate Parted(b: nat, N: set<nat>, P: set<nat>, D: set<nat>, S: set<nat>, rest: set<nat>, used: set<nat>) {
    && used == rest + {b} + N + P + D + S && 0 in rest
    && b !in rest + N + P + D + S
    && N !! rest + P + D + S && P !! rest + D + S && D !! rest + S && S !! rest
  }

  ghost predicate Owns(i: Ino, s: Shape, rest: set<nat>, used: set<nat>) {
    && TreeOk(i.bt, s.bT, s.bM) && TreeOk(i.st, s.sT, s.sM) && Injective(s.bM) && Injective(s.sM)
    && i.bt.t >= 2 && i.st.t >= 2
    && Parted(i.block, i.bt.store.Keys, i.st.store.Keys, Range(s.bM), Range(s.sM), rest, used)
  }

  /** The blocks of an object. */
  ghost function Owned(i: Ino, s: Shape): set<nat> {
    {i.block} + i.bt.store.Keys + i.st.store.Keys + Range(s.bM) + Range(s.sM)
  }

  lemma OwnsExactly(i: Ino, s: Shape, rest: set<nat>, used: set<nat>)
    requires Owns(i, s, rest, used)
    ensures used == rest + Owned(i, s) && Owned(i, s) !! rest
  {
  }

  lemma PartTake(b: nat, N: set<nat>, P: set<nat>, D: set<nat>, S: set<nat>, rest: set<nat>, used: set<nat>, x: nat)
    requires Parted(b, N, P, D, S, rest, used) && x !in used
    ensures Parted(b, N, P, D, S, rest + {x}, used + {x})
  {
  }

  lemma PartGive(b: nat, N: set<nat>, P: set<nat>, D: set<nat>, S: set<nat>, rest: set<nat>, used: set<nat>, x: nat)
    requires Parted(b, N, P, D, S, rest, used) && x in rest && x != 0
    ensures Parted(b, N, P, D, S, rest - {x}, used - {x})
  {
  }

  /** The nodes of the first tree have become N'. */
  lemma PartN(b: nat, N: set<nat>, P: set<nat>, D: set<nat>, S: set<nat>, rest: set<nat>, used: set<nat>, N': set<nat>, used': set<nat>)
    requires Parted(b, N, P, D, S, rest, used) && used' == (used - N) + N' && used - N !! N'
    ensures Parted(b, N', P, D, S, rest, used')
  {
    assert used - N == rest + {b} + P + D + S;
  }

  lemma PartP(b: nat, N: set<nat>, P: set<nat>, D: set<nat>, S: set<nat>, rest: set<nat>, used: set<nat>, P': set<nat>, used': set<nat>)
    requires Parted(b, N, P, D, S, rest, used) && used' == (used - P) + P' && used - P !! P'
    ensures Parted(b, N, P', D, S, rest, used')
  {
    assert used - P == rest + {b} + N + D + S;
  }

  lemma PartD(b: nat, N: set<nat>, P: set<nat>, D: set<nat>, S: set<nat>, rest: set<nat>, used: set<nat>, x: nat)
    requires Parted(b, N, P, D, S, rest, used) && x in rest && x != 0
    ensures Parted(b, N, P, D + {x}, S, rest - {x}, used)
  {
  }

  lemma PartS(b: nat, N: set<nat>, P: set<nat>, D: set<nat>, S: set<nat>, rest: set<nat>, used: set<nat>, x: nat)
    requires Parted(b, N, P, D, S, rest, used) && x in rest && x != 0
    ensures Parted(b, N, P, D, S + {x}, rest - {x}, used)
  {
  }

  lemma PartBackS(b: nat, N: set<nat>, P: set<nat>, D: set<nat>, S: set<nat>, rest: set<nat>, used: set<nat>, x: nat)
    requires Parted(b, N, P, D, S, rest, used) && x in S
    ensures Parted(b, N, P, D, S - {x}, rest + {x}, used)
  {
  }

  lemma TakeBlock(i: Ino, s: Shape, rest: set<nat>, used: set<nat>, b: nat)
    requires Owns(i, s, rest, used) && b !in used
    ensures Owns(i, s, rest + {b}, used + {b}) && b != 0
  {
    PartTake(i.block, i.bt.store.Keys, i.st.store.Keys, Range(s.bM), Range(s.sM), rest, used, b);
  }

  lemma GiveBlock(i: Ino, s: Shape, rest: set<nat>, used: set<nat>, b: nat)
    requires Owns(i, s, rest + {b}, used) && b !in rest && b != 0
    ensures Owns(i, s, rest, used - {b})
  {
    PartGive(i.block, i.bt.store.Keys, i.st.store.Keys, Range(s.bM), Range(s.sM), rest + {b}, used, b);
    assert rest + {b} - {b} == rest;
  }

  lemma RangePut(M: map<nat, nat>, v: nat, b: nat)
    requires v !in M && Injective(M) && b !in Range(M)
    ensures Range(M[v := b]) == Range(M) + {b} && Injective(M[v := b])
  {
    forall x | x in Range(M) + {b}
      ensures x in Range(M[v := b])
    {
      if x == b {
        assert M[v := b][v] == b;
      } else {
        var w :| w in M && M[w] == x;
        assert M[v := b][w] == x;
      }
    }
  }

  lemma RangeDrop(M: map<nat, nat>, v: nat)
    requires v in M && Injective(M)
    ensures Range(M - {v}) == Range(M) - {M[v]} && Injective(M - {v})
  {
    forall x | x in Range(M) - {M[v]}
      ensures x in Range(M - {v})
    {
      var w :| w in M && M[w] == x;
      assert (M - {v})[w] == x;
    }
  }

  // ---------------------------------------------------------------- checksum slots

  /** nkfs_inode_block_to_sum_block: eight bytes for each block. */
  function SumBlockOf(v: nat): nat {
    8 * v / 65536
  }

  function SumOffOf(v: nat): nat {
    8 * v % 65536
  }

  /** The slots follow each other from the start of the first sum block on; none straddles a block, and no two blocks share a
      byte of one. */
  lemma SlotsApart(v: nat, w: nat)
    ensures 65536 * SumBlockOf(v) + SumOffOf(v) == 8 * v && SumOffOf(v) + 8 <= 65536
    ensures v != w && SumBlockOf(v) == SumBlockOf(w) ==> SumOffOf(v) + 8 <= SumOffOf(w) || SumOffOf(w) + 8 <= SumOffOf(v)
  {
  }

  lemma SumBlockSmall(v: nat)
    requires 8 * v < U64
    ensures v < U64 && SumBlockOf(v) < U64
  {
  }

  // ---------------------------------------------------------------- what nkfs_inode_block_alloc will do

  /** The trees of an object, and the blocks in use. */
  datatype Room = Room(s: Shape, used: set<nat>)

  /** The blocks that a place for the sums of block vs takes. */
  ghost function SumTakes(s: Shape, vs: nat): nat {
    if vs in s.sM then 0 else 1 + Takes(s.sT, KeyOf(vs))
  }

  ghost function SumMade(r: Room, vs: nat): Room {
    if vs in r.s.sM then r
    else
      var sb := Least(r.used);
      var T := Inserted(r.s.sT, KeyOf(vs), sb, r.used + {sb});
      Room(r.s.(sT := T, sM := r.s.sM[vs := sb]), r.used + {sb} + T.store.Keys)
  }

  /** The blocks that block v of the object takes: itself, a place for its sum, and the splits in both trees. */
  ghost function AllocTakes(s: Shape, v: nat): nat {
    1 + SumTakes(s, SumBlockOf(v)) + Takes(s.bT, KeyOf(v))
  }

  ghost function DataMade(r: Room, v: nat, b: nat): Room {
    var T := Inserted(r.s.bT, KeyOf(v), b, r.used);
    Room(r.s.(bT := T, bM := r.s.bM[v := b]), r.used + T.store.Keys)
  }

  /** After it. */
  ghost function Allocated(r: Room, v: nat): Room {
    var b := Least(r.used);
    DataMade(SumMade(Room(r.s, r.used + {b}), SumBlockOf(v)), v, b)
  }

  /** As written it faults: there are blocks for a new sum block but then not for the data, and the sum tree cannot lose the
      key again without borrowing or merging. */
  ghost predicate AllocFaults(s: Shape, v: nat, used: int, nr: int) {
    && SumBlockOf(v) !in s.sM && used + 1 + SumTakes(s, SumBlockOf(v)) <= nr < used + AllocTakes(s, v)
    && StuckAfter(s.sT, KeyOf(SumBlockOf(v)))
  }

  lemma AllocAtMost(s: Shape, v: nat)
    ensures AllocTakes(s, v) <= Levels(s) + 6
  {
    TakesAtMost(s.sT, KeyOf(SumBlockOf(v)));
    TakesAtMost(s.bT, KeyOf(v));
  }

  // ---------------------------------------------------------------- nkfs_inode_block_alloc

  /** The levels of the two trees. */
  ghost function Levels(s: Shape): nat {
    Height(s.bT) + Height(s.sT)
  }

  /** The sum tree among the other blocks, and back. */
  lemma SumTreeAmong(i: Ino, s: Shape, rest: set<nat>, used: set<nat>)
    requires Owns(i, s, rest, used)
    ensures Among(i.st, used, used - i.st.store.Keys)
  {
  }

  lemma SumTreeChanged(i: Ino, s: Shape, rest: set<nat>, used: set<nat>, m: Mem, T: Tree, used': set<nat>)
    requires Owns(i, s, rest, used) && TreeOk(m, T, s.sM) && Among(m, used', used - i.st.store.Keys)
    ensures Owns(i.(st := m), s.(sT := T), rest, used')
  {
    PartP(i.block, i.bt.store.Keys, i.st.store.Keys, Range(s.bM), Range(s.sM), rest, used, m.store.Keys, used');
  }

  lemma SumMapped(i: Ino, s: Shape, rest: set<nat>, used: set<nat>, m: Mem, T: Tree, used': set<nat>, vs: nat, b: nat)
    requires Owns(i, s, rest + {b}, used) && b !in rest && b != 0 && vs !in s.sM
    requires TreeOk(m, T, s.sM[vs := b]) && Among(m, used', used - i.st.store.Keys)
    ensures Owns(i.(st := m), s.(sT := T, sM := s.sM[vs := b]), rest, used')
  {
    var N, D, S := i.bt.store.Keys, Range(s.bM), Range(s.sM);
    PartP(i.block, N, i.st.store.Keys, D, S, rest + {b}, used, m.store.Keys, used');
    PartS(i.block, N, m.store.Keys, D, S, rest + {b}, used', b);
    assert rest + {b} - {b} == rest;
    RangePut(s.sM, vs, b);
  }

  /** Takes a block that belongs to nothing yet. */
  method NewBlock(ghost i: Ino, ghost s: Shape, space: Space, ghost rest: set<nat>) returns (ok: bool, b: nat)
    requires space.Valid() && Owns(i, s, rest, space.used)
    modifies space
    ensures space.Valid() && (ok ==> Owns(i, s, rest + {b}, space.used) && b !in old(space.used) && b !in rest && b != 0)
    ensures ok ==> b < space.layout.nrBlocks
    ensures !ok ==> space.used == old(space.used)
    ensures ok <==> old(space.usedBlocks) < space.layout.nrBlocks
    ensures space.usedBlocks == old(space.usedBlocks) + if ok then 1 else 0
    ensures ok ==> b == Least(old(space.used)) && space.used == old(space.used) + {b}
  {
    space.Counted();
    var err;
    err, b := space.BlockAlloc();
    ok := err == Balloc.Ok;
    if ok {
      LeastIs(old(space.used), b);
      TakeBlock(i, s, rest, old(space.used), b);
    }
  }

  /** Gives back a block that belongs to nothing. */
  method DropBlock(ghost i: Ino, ghost s: Shape, space: Space, b: nat, ghost rest: set<nat>)
    requires space.Valid() && Owns(i, s, rest + {b}, space.used) && b !in rest && b != 0
    modifies space
    ensures space.Valid() && Owns(i, s, rest, space.used) && space.used == old(space.used) - {b}
    ensures space.usedBlocks == old(space.usedBlocks) - 1
  {
    GiveBlock(i, s, rest, space.used, b);
    space.InRange(b);
    var e := space.Free(b);
  }

  method InsertSum(i: Ino, ghost s: Shape, space: Space, vs: nat, b: nat, ghost rest: set<nat>)
    returns (i': Ino, ghost s': Shape, ok: bool)
    requires space.Valid() && Owns(i, s, rest + {b}, space.used) && b !in rest && b != 0 && vs < U64 && vs !in s.sM
    modifies space
    ensures space.Valid() && Owns(i', s', if ok then rest else rest + {b}, space.used)
    ensures i' == i.(st := i'.st) && SameRoot(i.st, i'.st) && s'.bM == s.bM
    ensures s'.sM == if ok then s.sM[vs := b] else s.sM
    ensures s'.bT == s.bT && Height(s'.sT) <= Height(s.sT) + 1
    ensures ok <==> old(space.usedBlocks) + Takes(s.sT, KeyOf(vs)) <= space.layout.nrBlocks
    ensures ok ==> space.usedBlocks == old(space.usedBlocks) + Takes(s.sT, KeyOf(vs))
    ensures ok ==> s'.sT == Inserted(s.sT, KeyOf(vs), b, old(space.used)) && space.used == old(space.used) + s'.sT.store.Keys
    ensures ok ==> (Clean(s'.sT, KeyOf(vs)) <==> !StuckAfter(s.sT, KeyOf(vs)))
  {
    hide Clean, StuckAfter, Takes, Inserted, Settled;
    ghost var used := space.used;
    SumTreeAmong(i, s, rest + {b}, used);
    var m, e;
    ghost var T, M;
    m, T, M, e := IndexTree.Insert(i.st, s.sT, s.sM, space, vs, b, used - i.st.store.Keys);
    i', s', ok := i.(st := m), s.(sT := T, sM := M), e == Done;
    if ok {
      SumMapped(i, s, rest, used, m, T, space.used, vs, b);
    } else {
      SumTreeChanged(i, s, rest + {b}, used, m, T, space.used);
    }
  }

  /** A new block for sums, in the tree. */
  method AddSumBlock(i: Ino, ghost s: Shape, space: Space, vs: nat, ghost rest: set<nat>)
    returns (i': Ino, ghost s': Shape, ok: bool, b: nat)
    requires space.Valid() && Owns(i, s, rest, space.used) && vs < U64 && vs !in s.sM
    modifies space
    ensures space.Valid() && Owns(i', s', rest, space.used) && i' == i.(st := i'.st) && SameRoot(i.st, i'.st) && s'.bM == s.bM
    ensures s'.sM == if ok then s.sM[vs := b] else s.sM
    ensures s'.bT == s.bT && Height(s'.sT) <= Height(s.sT) + 1
    ensures ok <==> old(space.usedBlocks) + SumTakes(s, vs) <= space.layout.nrBlocks
    ensures ok ==> space.usedBlocks == old(space.usedBlocks) + SumTakes(s, vs)
    ensures ok ==> Room(s', space.used) == SumMade(Room(s, old(space.used)), vs)
    ensures ok ==> (Clean(s'.sT, KeyOf(vs)) <==> !StuckAfter(s.sT, KeyOf(vs)))
  {
    hide Clean, StuckAfter, Takes, Inserted;
    i', s' := i, s;
    ok, b := NewBlock(i, s, space, rest);
    if ok {
      i', s', ok := InsertSum(i, s, space, vs, b, rest);
      if !ok {
        DropBlock(i', s', space, b, rest);
      }
    }
  }

  lemma SumUnmapped(i: Ino, s: Shape, rest: set<nat>, used: set<nat>, m: Mem, T: Tree, used': set<nat>, vs: nat)
    requires Owns(i, s, rest, used) && vs in s.sM
    requires TreeOk(m, T, s.sM - {vs}) && Among(m, used', used - i.st.store.Keys)
    ensures Owns(i.(st := m), s.(sT := T, sM := s.sM - {vs}), rest + {s.sM[vs]}, used') && s.sM[vs] !in rest && s.sM[vs] != 0
  {
    var N, D, S := i.bt.store.Keys, Range(s.bM), Range(s.sM);
    assert s.sM[vs] in S;
    PartP(i.block, N, i.st.store.Keys, D, S, rest, used, m.store.Keys, used');
    PartBackS(i.block, N, m.store.Keys, D, S, rest, used', s.sM[vs]);
    RangeDrop(s.sM, vs);
  }

  method DeleteSum(i: Ino, ghost s: Shape, space: Space, vs: nat, asWritten: bool, ghost rest: set<nat>)
    returns (i': Ino, ghost s': Shape, fault: bool)
    requires space.Valid() && Owns(i, s, rest, space.used) && vs < U64 && vs in s.sM
    modifies space
    ensures space.Valid() && (fault <==> asWritten && !Clean(s.sT, KeyOf(vs)))
    ensures !fault ==> Owns(i', s', rest + {s.sM[vs]}, space.used) && s.sM[vs] !in rest && s.sM[vs] != 0
    ensures !fault ==> i' == i.(st := i'.st) && SameRoot(i.st, i'.st) && s'.bM == s.bM && s'.sM == s.sM - {vs}
  {
    hide Clean;
    ghost var used := space.used;
    SumTreeAmong(i, s, rest, used);
    var m;
    ghost var T;
    m, T, fault := IndexTree.Delete(i.st, s.sT, s.sM, space, vs, asWritten, used - i.st.store.Keys);
    i', s' := i.(st := m), s.(sT := T, sM := s.sM - {vs});
    if !fault {
      SumUnmapped(i, s, rest, used, m, T, space.used, vs);
    }
  }

  /** Undoes AddSumBlock. */
  method DropSumBlock(i: Ino, ghost s: Shape, space: Space, vs: nat, b: nat, asWritten: bool, ghost rest: set<nat>)
    returns (i': Ino, ghost s': Shape, fault: bool)
    requires space.Valid() && Owns(i, s, rest, space.used) && vs < U64 && vs in s.sM && s.sM[vs] == b
    modifies space
    ensures space.Valid() && (fault <==> asWritten && !Clean(s.sT, KeyOf(vs)))
    ensures !fault ==> Owns(i', s', rest, space.used) && i' == i.(st := i'.st) && SameRoot(i.st, i'.st)
    ensures !fault ==> s'.bM == s.bM && s'.sM == s.sM - {vs}
  {
    hide Clean;
    i', s', fault := DeleteSum(i, s, space, vs, asWritten, rest);
    if !fault {
      DropBlock(i', s', space, b, rest);
    }
  }

  lemma DataTreeAmong(i: Ino, s: Shape, rest: set<nat>, used: set<nat>)
    requires Owns(i, s, rest, used)
    ensures Among(i.bt, used, used - i.bt.store.Keys)
  {
  }

  lemma DataTreeChanged(i: Ino, s: Shape, rest: set<nat>, used: set<nat>, m: Mem, T: Tree, used': set<nat>)
    requires Owns(i, s, rest, used) && TreeOk(m, T, s.bM) && Among(m, used', used - i.bt.store.Keys)
    ensures Owns(i.(bt := m), s.(bT := T), rest, used')
  {
    PartN(i.block, i.bt.store.Keys, i.st.store.Keys, Range(s.bM), Range(s.sM), rest, used, m.store.Keys, used');
  }

  lemma DataMapped(i: Ino, s: Shape, rest: set<nat>, used: set<nat>, m: Mem, T: Tree, used': set<nat>, v: nat, b: nat)
    requires Owns(i, s, rest + {b}, used) && b !in rest && b != 0 && v !in s.bM
    requires TreeOk(m, T, s.bM[v := b]) && Among(m, used', used - i.bt.store.Keys)
    ensures Owns(i.(bt := m), s.(bT := T, bM := s.bM[v := b]), rest, used')
  {
    var P, D, S := i.st.store.Keys, Range(s.bM), Range(s.sM);
    PartN(i.block, i.bt.store.Keys, P, D, S, rest + {b}, used, m.store.Keys, used');
    PartD(i.block, m.store.Keys, P, D, S, rest + {b}, used', b);
    assert rest + {b} - {b} == rest;
    RangePut(s.bM, v, b);
  }

  /** Maps block v of the object to b, a block that was just taken. */
  method MapBlock(i: Ino, ghost s: Shape, space: Space, v: nat, b: nat, ghost rest: set<nat>)
    returns (i': Ino, ghost s': Shape, ok: bool)
    requires space.Valid() && Owns(i, s, rest + {b}, space.used) && b !in rest && b != 0 && v < U64 && v !in s.bM
    modifies space
    ensures space.Valid() && Owns(i', s', if ok then rest else rest + {b}, space.used)
    ensures i' == i.(bt := i'.bt) && SameRoot(i.bt, i'.bt) && s'.sM == s.sM
    ensures s'.bM == if ok then s.bM[v := b] else s.bM
    ensures s'.sT == s.sT && Height(s'.bT) <= Height(s.bT) + 1
    ensures ok <==> old(space.usedBlocks) + Takes(s.bT, KeyOf(v)) <= space.layout.nrBlocks
    ensures ok ==> space.usedBlocks == old(space.usedBlocks) + Takes(s.bT, KeyOf(v))
    ensures ok ==> Room(s', space.used) == DataMade(Room(s, old(space.used)), v, b)
  {
    hide Clean, StuckAfter, Takes, Inserted, Settled;
    ghost var used := space.used;
    DataTreeAmong(i, s, rest + {b}, used);
    var m, e;
    ghost var T, M;
    m, T, M, e := IndexTree.Insert(i.bt, s.bT, s.bM, space, v, b, used - i.bt.store.Keys);
    i', s', ok := i.(bt := m), s.(bT := T, bM := M), e == Done;
    if ok {
      DataMapped(i, s, rest, used, m, T, space.used, v, b);
    } else {
      DataTreeChanged(i, s, rest + {b}, used, m, T, space.used);
    }
  }

  /** struct inode_block. */
  datatype IBlock = IBlock(block: nat, sumBlock: nat, sumOff: nat)

  /** Between two states of an object: the roots have stayed where they were. */
  ghost predicate SameRoots(i: Ino, i': Ino) {
    i'.block == i.block && i'.size == i.size && i'.dirty == i.dirty && SameRoot(i.bt, i'.bt) && SameRoot(i.st, i'.st)
  }

  lemma PutSame(M: map<nat, nat>, v: nat)
    requires v in M
    ensures M[v := M[v]] == M
  {
  }

  lemma PutDrop(M: map<nat, nat>, v: nat, b: nat)
    requires v !in M
    ensures M[v := b] - {v} == M
  {
  }

  method FindSum(i: Ino, ghost s: Shape, vs: nat, ghost rest: set<nat>, ghost used: set<nat>)
    returns (i': Ino, found: bool, b: nat)
    requires Owns(i, s, rest, used) && vs < U64
    ensures Owns(i', s, rest, used) && i' == i.(st := i'.st) && SameTree(i.st, i'.st)
    ensures (found <==> vs in s.sM) && (found ==> b == s.sM[vs])
  {
    var m, e;
    m, e, b := IndexTree.Find(i.st, s.sT, s.sM, vs);
    i', found := i.(st := m), e == Done;
  }

  method FindData(i: Ino, ghost s: Shape, v: nat, ghost rest: set<nat>, ghost used: set<nat>)
    returns (i': Ino, found: bool, b: nat)
    requires Owns(i, s, rest, used) && v < U64
    ensures Owns(i', s, rest, used) && i' == i.(bt := i'.bt) && SameTree(i.bt, i'.bt)
    ensures (found <==> v in s.bM) && (found ==> b == s.bM[v])
  {
    var m, e;
    m, e, b := IndexTree.Find(i.bt, s.bT, s.bM, v);
    i', found := i.(bt := m), e == Done;
  }

  /** The block of sums for v: the one there is, or a new one. */
  method FindOrAddSum(i: Ino, ghost s: Shape, space: Space, vs: nat, ghost rest: set<nat>)
    returns (i': Ino, ghost s': Shape, ok: bool, added: bool, b: nat)
    requires space.Valid() && Owns(i, s, rest, space.used) && vs < U64
    modifies space
    ensures space.Valid() && Owns(i', s', rest, space.used) && SameRoots(i, i') && s'.bM == s.bM
    ensures ok ==> (added <==> vs !in s.sM) && s'.sM == s.sM[vs := b]
    ensures ok && added ==> (Clean(s'.sT, KeyOf(vs)) <==> !StuckAfter(s.sT, KeyOf(vs)))
    ensures ok && !added ==> b == s.sM[vs] && s'.sM == s.sM
    ensures !ok ==> !added && s'.sM == s.sM && vs !in s.sM
    ensures s'.bT == s.bT && Height(s'.sT) <= Height(s.sT) + 1
    ensures ok <==> old(space.usedBlocks) + SumTakes(s, vs) <= space.layout.nrBlocks
    ensures ok ==> space.usedBlocks == old(space.usedBlocks) + SumTakes(s, vs)
    ensures ok ==> Room(s', space.used) == SumMade(Room(s, old(space.used)), vs)
  {
    hide Clean, StuckAfter, Takes, Inserted, Owns;
    space.Counted();
    s', added := s, false;
    i', ok, b := FindSum(i, s, vs, rest, space.used);
    if !ok {
      i', s', ok, b := AddSumBlock(i', s, space, vs, rest);
      added := ok;
    } else {
      PutSame(s.sM, vs);
    }
  }

  /** After the first block is taken: a place for the sum, and the two mappings. The rollback is as written or as meant. */
  method MapBoth(i: Ino, ghost s: Shape, space: Space, v: nat, b: nat, asWritten: bool, ghost rest: set<nat>)
    returns (i': Ino, ghost s': Shape, ok: bool, sb: nat, fault: bool)
    requires space.Valid() && Owns(i, s, rest + {b}, space.used) && b !in rest && b != 0 && 8 * v < U64 && v !in s.bM
    modifies space
    ensures space.Valid() && (fault <==> asWritten && AllocFaults(s, v, old(space.usedBlocks) - 1, space.layout.nrBlocks))
    ensures ok <==> old(space.usedBlocks) - 1 + AllocTakes(s, v) <= space.layout.nrBlocks
    ensures ok ==> space.usedBlocks == old(space.usedBlocks) - 1 + AllocTakes(s, v)
    ensures ok ==> Room(s', space.used) == DataMade(SumMade(Room(s, old(space.used)), SumBlockOf(v)), v, b)
    ensures !fault ==> Owns(i', s', if ok then rest else rest + {b}, space.used) && SameRoots(i, i')
    ensures ok ==> s'.bM == s.bM[v := b] && s'.sM == s.sM[SumBlockOf(v) := sb] && Levels(s') <= Levels(s) + 2
    ensures ok && SumBlockOf(v) in s.sM ==> sb == s.sM[SumBlockOf(v)]
    ensures !ok && !fault ==> s'.bM == s.bM && s'.sM == s.sM
  {
    hide Clean, StuckAfter, Takes, Inserted, SumMade, DataMade;
    var vs := SumBlockOf(v);
    SumBlockSmall(v);
    var added;
    fault := false;
    i', s', ok, added, sb := FindOrAddSum(i, s, space, vs, rest + {b});
    if ok {
      i', s', ok := MapBlock(i', s', space, v, b, rest);
      if !ok && added {
        i', s', fault := DropSumBlock(i', s', space, vs, sb, asWritten, rest + {b});
        PutDrop(s.sM, vs, sb);
      }
    }
  }

  /** nkfs_inode_block_alloc: block v of the object gets a block and a place for its sum, or nothing changes hands. It fails
      exactly if fewer blocks are free than it takes; as written it faults exactly as AllocFaults says. */
  method BlockAllocFor(i: Ino, ghost s: Shape, space: Space, v: nat, asWritten: bool, ghost rest: set<nat>)
    returns (i': Ino, ghost s': Shape, ok: bool, ib: IBlock, fault: bool)
    requires space.Valid() && Owns(i, s, rest, space.used) && 8 * v < U64 && v !in s.bM
    modifies space
    ensures space.Valid() && (fault <==> asWritten && AllocFaults(s, v, old(space.usedBlocks), space.layout.nrBlocks))
    ensures (ok <==> old(space.usedBlocks) + AllocTakes(s, v) <= space.layout.nrBlocks) && (ok ==> !fault)
    ensures ok ==> space.usedBlocks == old(space.usedBlocks) + AllocTakes(s, v)
    ensures ok ==> Room(s', space.used) == Allocated(Room(s, old(space.used)), v)
    ensures !fault ==> Owns(i', s', rest, space.used) && SameRoots(i, i')
    ensures ok ==> s'.bM == s.bM[v := ib.block] && s'.sM == s.sM[SumBlockOf(v) := ib.sumBlock] && ib.sumOff == SumOffOf(v)
    ensures ok && SumBlockOf(v) in s.sM ==> ib.sumBlock == s.sM[SumBlockOf(v)]
    ensures !ok && !fault ==> s'.bM == s.bM && s'.sM == s.sM
    ensures ok ==> Levels(s') <= Levels(s) + 2 && space.usedBlocks <= old(space.usedBlocks) + Levels(s) + 6
    ensures !ok ==> old(space.usedBlocks) + Levels(s) + 6 > space.layout.nrBlocks
  {
    hide StuckAfter, SumMade, DataMade, Levels, Takes, Owns;
    AllocAtMost(s, v);
    space.Counted();
    ib := IBlock(0, 0, 0);
    i', s', fault := i, s, false;
    var b;
    ok, b := NewBlock(i, s, space, rest);
    if ok {
      var sb;
      i', s', ok, sb, fault := MapBoth(i, s, space, v, b, asWritten, rest);
      ib := IBlock(b, sb, SumOffOf(v));
      if !ok && !fault {
        DropBlock(i', s', space, b, rest);
      }
    }
  }

  /** While the sum tree is a root only, the rollback never faults. */
  lemma RootOnlyNotStuck(T: Tree, k: int)
    requires Height(T) == 0
    ensures !StuckAfter(T, k)
  {
  }
}
