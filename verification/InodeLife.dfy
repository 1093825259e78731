/** Making and deleting objects: nkfs_inode_create and nkfs_inode_delete, core/inode.c:279-303 and 353-412. */
module InodeLife {
  import opened Common
  import opened Stripes
  import opened BtreeShape
  import opened Balloc
  import opened Btree
  import opened IndexTree
  import opened InodeMap
  import opened InodeData

  // ---------------------------------------------------------------- trees

  /** What the callback of nkfs_btree_erase does with each value. */
  method FreeAll(blocks: seq<nat>, space: Space)
    requires space.Valid() && (forall i, j :: 0 <= i < j < |blocks| ==> blocks[i] != blocks[j])
    requires forall b :: b in blocks ==> b in space.used
    modifies space
    ensures space.Valid() && space.used == old(space.used) - (set b | b in blocks)
  {
    var i := 0;
    assert space.used == old(space.used) - (set b | b in blocks[..0]);
    while i < |blocks|
      invariant i <= |blocks| && space.Valid() && space.used == old(space.used) - (set b | b in blocks[..i])
    {
      assert blocks[i] in blocks && blocks[i] !in blocks[..i];
      assert blocks[..i + 1] == blocks[..i] + [blocks[i]];
      space.InRange(blocks[i]);
      var e := space.Free(blocks[i]);
      i := i + 1;
    }
    assert blocks[..i] == blocks;
  }

  /** Erases a tree and frees the blocks that it names. */
  method EraseIndex(m: Mem, ghost T: Tree, ghost M: map<nat, nat>, space: Space, ghost rest: set<nat>)
    requires space.Valid() && TreeOk(m, T, M) && Injective(M) && m.t >= 2 && 0 in rest
    requires space.used == rest + m.store.Keys + Range(M) && m.store.Keys !! rest + Range(M) && Range(M) !! rest
    modifies space
    ensures space.Valid() && space.used == rest
  {
    hide TreeOk, Range;
    AmongNamed(m, rest, Range(M), space.used);
    var blocks := IndexTree.Erase(m, T, M, space, rest + Range(M));
    FreeNamed(blocks, space, rest, Range(M));
  }

  lemma AmongNamed(m: Mem, rest: set<nat>, named: set<nat>, used: set<nat>)
    requires used == rest + m.store.Keys + named && m.store.Keys !! rest + named && 0 in rest && m.t >= 2
    ensures Among(m, used, rest + named)
  {
  }

  method FreeNamed(blocks: seq<nat>, space: Space, ghost rest: set<nat>, ghost named: set<nat>)
    requires space.Valid() && space.used == rest + named && rest !! named
    requires (set b | b in blocks) == named && forall i, j :: 0 <= i < j < |blocks| ==> blocks[i] != blocks[j]
    modifies space
    ensures space.Valid() && space.used == rest
  {
    forall b | b in blocks
      ensures b in space.used
    {
      assert b in (set x | x in blocks);
    }
    FreeAll(blocks, space);
    assert rest + named - named == rest;
  }

  // ---------------------------------------------------------------- nkfs_inode_delete

  lemma PartFirst(b: nat, N: set<nat>, P: set<nat>, D: set<nat>, S: set<nat>, rest: set<nat>, used: set<nat>)
    requires Parted(b, N, P, D, S, rest, used)
    ensures var r := rest + {b} + P + S;
      && used == r + N + D && N !! r + D && D !! r
      && var r2 := rest + {b}; r == r2 + P + S && P !! r2 + S && S !! r2 && b !in rest && b != 0 && r2 - {b} == rest
  {
  }

  /** Every block of the object is given back, and no other. */
  method InodeDelete(i: Ino, ghost s: Shape, space: Space, ghost rest: set<nat>)
    requires space.Valid() && Owns(i, s, rest, space.used)
    modifies space
    ensures space.Valid() && space.used == rest && space.usedBlocks <= old(space.usedBlocks)
  {
    SubsetSize(rest, space.used);
    PartFirst(i.block, i.bt.store.Keys, i.st.store.Keys, Range(s.bM), Range(s.sM), rest, space.used);
    EraseIndex(i.bt, s.bT, s.bM, space, rest + {i.block} + i.st.store.Keys + Range(s.sM));
    EraseIndex(i.st, s.sT, s.sM, space, rest + {i.block});
    space.InRange(i.block);
    var e := space.Free(i.block);
  }

  // ---------------------------------------------------------------- nkfs_inode_create

  lemma NewParts(b: nat, N: set<nat>, P: set<nat>, rest: set<nat>)
    requires b !in rest && 0 in rest && N !! rest + {b} && P !! rest + {b} + N
    ensures Parted(b, N, P, {}, {}, rest, rest + {b} + N + P)
  {
  }

  lemma EmptyIndex(T: Tree)
    requires T.m == map[]
    ensures Indexed(T.m, map[]) && Range(map[]) == {}
  {
  }

  /** An object without a byte. */
  lemma NewGood(i: Ino, s: Shape, dev: seq<Bytes>, csum: Csum, rest: set<nat>, used: set<nat>)
    requires Owns(i, s, rest, used) && Device(dev, used) && EightBytes(csum) && s.bM == map[] && i.size == 0
    ensures Good(i, s, dev, csum, map[], rest, used)
  {
  }

  /** A new object, or nothing has changed. */
  method InodeCreate(t: nat, space: Space) returns (ok: bool, i: Ino, ghost s: Shape)
    requires t >= 2 && space.Valid() && 0 in space.used
    modifies space
    ensures space.Valid() && (!ok ==> space.used == old(space.used))
    ensures ok ==> Owns(i, s, old(space.used), space.used) && i.size == 0 && s.bM == map[] && s.sM == map[] && i.block != 0 && Levels(s) == 0
    ensures ok ==> i.bt.t == i.st.t == t
    ensures ok <==> old(space.usedBlocks) + 3 <= space.layout.nrBlocks
    ensures space.usedBlocks == old(space.usedBlocks) + if ok then 3 else 0
  {
    var none := Mem(t, 0, map[], multiset{}, {}, 0);
    ghost var no := Tree(t, 0, map[], map[], map[]);
    i, s := Ino(0, 0, false, none, none), Shape(no, map[], no, map[]);
    ghost var rest := space.used;
    var err, b := space.BlockAlloc();
    ok := err == Balloc.Ok;
    if !ok {
      return;
    }
    var bt, st;
    ghost var bT, sT;
    ok, bt, bT := NewTree(t, space);
    if !ok {
      var e := space.Free(b);
      assert rest + {b} - {b} == rest;
      return;
    }
    EmptyIndex(bT);
    ghost var used2 := space.used;
    ok, st, sT := NewTree(t, space);
    if !ok {
      EraseIndex(bt, bT, map[], space, rest + {b});
      var e := space.Free(b);
      assert rest + {b} - {b} == rest;
      return;
    }
    EmptyIndex(sT);
    i, s := Ino(b, 0, false, bt, st), Shape(bT, map[], sT, map[]);
    NewParts(b, bt.store.Keys, st.store.Keys, rest);
  }
}
