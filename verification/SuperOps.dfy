/** Creating, writing, reading and deleting objects: core/super.c:532-663. */
module SuperOps {
  import opened Common
  import opened Stripes
  import opened Pages
  import opened BtreeShape
  import opened Balloc
  import opened Btree
  import opened BtreeDelete
  import opened BtreeDeleteKey
  import opened BtreeClass
  import opened BtreePath
  import opened BtreeAsWritten
  import opened InodeMap
  import opened InodeRoom
  import opened InodeData
  import opened InodePages
  import opened InodeLife
  import opened Ownership
  import opened SuperState

  // ---------------------------------------------------------------- what a device stands for

  /** An object: its size, the bytes that were written to it, and the blocks it holds. */
  datatype Data = Data(size: nat, bytes: map<nat, bv8>, blocks: set<nat>)

  ghost function DataOf(i: Ino, s: Shape, w: map<nat, bv8>): Data {
    Data(i.size, w, Owned(i, s))
  }

  ghost function Objects(fs: Fs, v: View): map<int, Data>
    requires Listed(fs.objs, v.tree.m) && fs.objs.Keys == v.shapes.Keys == v.written.Keys
  {
    map k | k in v.tree.m :: DataOf(fs.objs[v.tree.m[k]].ino, v.shapes[v.tree.m[k]], v.written[v.tree.m[k]])
  }

  lemma ObjectsKeys(fs: Fs, v: View)
    requires Listed(fs.objs, v.tree.m) && fs.objs.Keys == v.shapes.Keys == v.written.Keys
    ensures Objects(fs, v).Keys == v.tree.m.Keys
  {
  }

  lemma ObjectsPut(fs: Fs, v: View, id: int, o: Obj, dev: seq<Bytes>, s: Shape, w: map<nat, bv8>)
    requires Listed(fs.objs, v.tree.m) && fs.objs.Keys == v.shapes.Keys == v.written.Keys && id in v.tree.m
    requires o.id == id && o.ino.block == v.tree.m[id]
    ensures var fs', v' := WithObj(fs, v.tree.m[id], o, dev), WithView(v, v.tree.m[id], s, w);
      && Listed(fs'.objs, v'.tree.m) && fs'.objs.Keys == v'.shapes.Keys == v'.written.Keys
      && Objects(fs', v') == Objects(fs, v)[id := DataOf(o.ino, s, w)]
  {
    hide DataOf;
    ListedPut(fs.objs, v.tree.m, v.tree.m[id], o);
    var fs', v' := WithObj(fs, v.tree.m[id], o, dev), WithView(v, v.tree.m[id], s, w);
    var after, before := Objects(fs', v'), Objects(fs, v);
    forall k | k in v.tree.m
      ensures after[k] == before[id := DataOf(o.ino, s, w)][k]
    {
      assert fs.objs[v.tree.m[k]].id == k;
    }
    assert after.Keys == before.Keys + {id};
  }

  lemma ObjectsAdd(fs: Fs, v: View, o: Obj, s: Shape, m': Mem, T': Tree)
    requires Listed(fs.objs, v.tree.m) && fs.objs.Keys == v.shapes.Keys == v.written.Keys
    requires o.id !in v.tree.m && o.ino.block !in fs.objs && T'.m == v.tree.m[o.id := o.ino.block]
    ensures var fs', v' := WithObj(fs, o.ino.block, o, fs.dev).(inodes := m'), WithView(v, o.ino.block, s, map[]).(tree := T');
      && Listed(fs'.objs, v'.tree.m) && fs'.objs.Keys == v'.shapes.Keys == v'.written.Keys
      && Objects(fs', v') == Objects(fs, v)[o.id := DataOf(o.ino, s, map[])]
  {
    hide DataOf, Objects, Listed;
    ListedAdd(fs.objs, v.tree.m, o);
    var fs', v' := WithObj(fs, o.ino.block, o, fs.dev).(inodes := m'), WithView(v, o.ino.block, s, map[]).(tree := T');
    var after, before := Objects(fs', v'), Objects(fs, v);
    ObjectsKeys(fs, v);
    ObjectsKeys(fs', v');
    AddedItself(fs, v, o, s, m', T');
    forall k | k in v.tree.m && k != o.id
      ensures after[k] == before[k]
    {
      BesideAdded(fs, v, o, s, m', T', k);
    }
    assert after.Keys == before.Keys + {o.id};
  }

  lemma AddedItself(fs: Fs, v: View, o: Obj, s: Shape, m': Mem, T': Tree)
    requires Listed(fs.objs, v.tree.m) && fs.objs.Keys == v.shapes.Keys == v.written.Keys
    requires o.id !in v.tree.m && o.ino.block !in fs.objs && T'.m == v.tree.m[o.id := o.ino.block]
    ensures var fs', v' := WithObj(fs, o.ino.block, o, fs.dev).(inodes := m'), WithView(v, o.ino.block, s, map[]).(tree := T');
      && Listed(fs'.objs, v'.tree.m) && fs'.objs.Keys == v'.shapes.Keys == v'.written.Keys && o.id in v'.tree.m
      && Objects(fs', v')[o.id] == DataOf(o.ino, s, map[])
  {
    hide DataOf;
    ListedAdd(fs.objs, v.tree.m, o);
  }

  lemma BesideAdded(fs: Fs, v: View, o: Obj, s: Shape, m': Mem, T': Tree, k: int)
    requires Listed(fs.objs, v.tree.m) && fs.objs.Keys == v.shapes.Keys == v.written.Keys && k in v.tree.m && k != o.id
    requires o.id !in v.tree.m && o.ino.block !in fs.objs && T'.m == v.tree.m[o.id := o.ino.block]
    ensures var fs', v' := WithObj(fs, o.ino.block, o, fs.dev).(inodes := m'), WithView(v, o.ino.block, s, map[]).(tree := T');
      && Listed(fs'.objs, v'.tree.m) && fs'.objs.Keys == v'.shapes.Keys == v'.written.Keys && k in v'.tree.m
      && Objects(fs', v')[k] == Objects(fs, v)[k]
  {
    hide DataOf;
    ListedAdd(fs.objs, v.tree.m, o);
    assert v.tree.m[k] in fs.objs;
  }

  lemma ObjectsDrop(fs: Fs, v: View, id: int, m': Mem, T': Tree)
    requires Listed(fs.objs, v.tree.m) && fs.objs.Keys == v.shapes.Keys == v.written.Keys
    requires id in v.tree.m && T'.m == v.tree.m - {id}
    ensures var b := v.tree.m[id];
      var fs', v' := Without(fs, b).(inodes := m'), ViewWithout(v, b).(tree := T');
      && Listed(fs'.objs, v'.tree.m) && fs'.objs.Keys == v'.shapes.Keys == v'.written.Keys
      && Objects(fs', v') == Objects(fs, v) - {id}
  {
    hide DataOf;
    ListedDrop(fs.objs, v.tree.m, id);
    var b := v.tree.m[id];
    var fs', v' := Without(fs, b).(inodes := m'), ViewWithout(v, b).(tree := T');
    var after, before := Objects(fs', v'), Objects(fs, v);
    forall k | k in v'.tree.m
      ensures after[k] == before[k]
    {
      assert v'.tree.m[k] in fs'.objs;
    }
    assert after.Keys == before.Keys - {id};
  }

  // ---------------------------------------------------------------- the inode tree

  lemma GrewMoved(m: Mem, used: set<nat>, m': Mem, used': set<nat>)
    requires m.store.Keys <= used && OnlyGrew(m.store.Keys, used, m'.store.Keys, used') && m'.t == m.t
    ensures TreeMoved(m, used, m', used')
  {
  }

  lemma ShrankMoved(m: Mem, used: set<nat>, m': Mem, used': set<nat>)
    requires m.store.Keys <= used && OnlyShrank(m.store.Keys, used, m'.store.Keys, used') && m'.t == m.t
    ensures TreeMoved(m, used, m', used')
  {
  }

  /** What a create is answered, with so many blocks in use of nr. */
  ghost function CreateErr(T: Tree, id: int, used: int, nr: int): SbErr {
    if used + 3 > nr then SbTree(ENOMEM)
    else
      var e := InsertErr(T, id, false, used + 3, nr);
      if e == Done then SbOk else SbTree(e)
  }

  method InsertId(m: Mem, ghost T: Tree, space: Space, id: int, b: nat) returns (m': Mem, ghost T': Tree, err: TreeErr)
    requires space.Valid() && InodesOk(m, T) && Owning(m, space.used) && 0 <= id < KEY_LIMIT
    modifies space
    ensures space.Valid() && InodesOk(m', T') && TreeMoved(m, old(space.used), m', space.used)
    ensures T'.m == if err == Done then T.m[id := b] else T.m
    ensures err == InsertErr(T, id, false, old(space.usedBlocks), space.layout.nrBlocks)
    ensures OutOfBlocks(err) || err == if id in T.m then EEXIST else Done
    ensures OutOfBlocks(err) <==> old(space.usedBlocks) + Takes(T, id) > space.layout.nrBlocks
    ensures !OutOfBlocks(err) ==> space.usedBlocks == old(space.usedBlocks) + Takes(T, id)
    ensures OutOfBlocks(err) ==> old(space.usedBlocks) + Height(T) + 2 > space.layout.nrBlocks
    ensures space.usedBlocks <= old(space.usedBlocks) + Height(T) + 2 && Height(T') <= Height(T) + 1
  {
    hide Clean, StuckAfter, Takes, Inserted, Settled, InsertErr;
    m', T', err := TreeInsert(m, T, space, id, b, false);
    GrewMoved(m, old(space.used), m', space.used);
  }

  /** As it is written or as it is meant. */
  method DeleteId(m: Mem, ghost T: Tree, space: Space, id: int, asWritten: bool) returns (m': Mem, ghost T': Tree, fault: bool)
    requires space.Valid() && InodesOk(m, T) && Owning(m, space.used) && 0 <= id < KEY_LIMIT
    modifies space
    ensures space.Valid() && (fault <==> asWritten && !Clean(T, id))
    ensures !fault ==> InodesOk(m', T') && TreeMoved(m, old(space.used), m', space.used) && T'.m == T.m - {id}
    ensures !fault ==> Height(T') <= Height(T) && space.usedBlocks <= old(space.usedBlocks)
  {
    hide Clean;
    ghost var used := space.used;
    fault := false;
    if asWritten {
      var r;
      m', T', r := DeleteAsWritten(m, T, id);
      fault := r == Fault;
      if !fault {
        NothingMoved(m, used, m');
      }
    } else {
      var err;
      m', T', err := NodeDeleteKey(m, T, space, id);
      SubsetSize(space.used, used);
      ShrankMoved(m, old(space.used), m', space.used);
    }
  }

  lemma NothingMoved(m: Mem, used: set<nat>, m': Mem)
    requires m'.store.Keys == m.store.Keys && m.store.Keys <= used && m'.t == m.t
    ensures TreeMoved(m, used, m', used)
  {
  }

  /** The inode of the object with this id. */
  method LookUp(fs: Fs, ghost v: View, csum: Csum, id: int, ghost meta: set<nat>, ghost used: set<nat>)
    returns (fs': Fs, found: bool, b: int)
    requires Whole(fs, v, csum, meta, used) && 0 <= id < KEY_LIMIT
    ensures Whole(fs', v, csum, meta, used) && fs' == fs.(inodes := fs'.inodes) && fs'.inodes.t == fs.inodes.t
    ensures Objects(fs', v) == Objects(fs, v)
    ensures (found <==> id in v.tree.m) && (found ==> b == v.tree.m[id] && b in fs.objs && fs.objs[b].id == id)
  {
    hide Healthy, Partition;
    var m, err;
    m, err, b := NodeFindKey(fs.inodes, v.tree, id);
    fs', found := fs.(inodes := m), err == Done;
    assert OwnMap(fs'.objs, v.shapes) == OwnMap(fs.objs, v.shapes);
    assert Objects(fs', v) == Objects(fs, v);
  }

  datatype SbErr = SbOk | SbAgain | SbTree(e: TreeErr) | SbWrite(w: WriteErr) | SbRead(r: PagesErr)

  // ---------------------------------------------------------------- what an operation takes

  /** The levels of the trees of an object. */
  ghost function LevelsAt(v: View, id: int): nat {
    if id in v.tree.m && v.tree.m[id] in v.shapes then Levels(v.shapes[v.tree.m[id]]) else 0
  }

  ghost predicate ShapesGrew(v: View, v': View, n: nat) {
    forall b :: b in v'.shapes ==> Levels(v'.shapes[b]) <= 2 * n + if b in v.shapes then Levels(v.shapes[b]) else 0
  }

  /** An operation on object id that touched n blocks of it, or (c == 1) was to create it, took no more blocks than this. */
  ghost predicate Spent(v: View, used: int, v': View, used': int, id: int, n: nat, c: nat) {
    && Height(v'.tree) <= Height(v.tree) + c && ShapesGrew(v, v', n)
    && used' <= used + Cost(n, LevelsAt(v, id)) + c * (Height(v.tree) + 5)
  }

  // ---------------------------------------------------------------- nkfs_sb_create_obj

  /** A device of the right size. */
  ghost predicate Sized(fs: Fs, space: Space)
    reads space
  {
    space.Valid() && |fs.dev| == space.layout.nrBlocks
  }

  /** An object that could not be put in the tree is deleted again. */
  method Unmake(fs: Fs, ghost v: View, space: Space, csum: Csum, i: Ino, ghost s: Shape, ghost meta: set<nat>,
      ghost rest0: set<nat>, ghost used0: set<nat>)
    requires Sized(fs, space) && Whole(fs, v, csum, meta + Owned(i, s), space.used)
    requires Owned(i, s) !! meta && 0 in meta && Owns(i, s, rest0, used0)
    modifies space
    ensures Sized(fs, space) && Whole(fs, v, csum, meta, space.used) && space.usedBlocks <= old(space.usedBlocks)
  {
    hide Healthy, InodesOk, Owned, Owns;
    ghost var used := space.used;
    assert Owned(i, s) <= used && 0 in used;
    OwnsAmong(i, s, rest0, used0, used);
    InodeDelete(i, s, space, used - Owned(i, s));
    DeviceOf(space, fs.dev, used);
    FreedStep(fs, v, csum, meta, used, Owned(i, s), space.used);
  }

  method CreateObj(fs: Fs, ghost v: View, space: Space, csum: Csum, t: nat, id: int, ghost meta: set<nat>)
    returns (fs': Fs, ghost v': View, err: SbErr, ghost blocks: set<nat>)
    requires Sized(fs, space) && Whole(fs, v, csum, meta, space.used) && t == fs.inodes.t && t >= 2 && 0 <= id < KEY_LIMIT
    modifies space
    ensures Sized(fs', space) && Whole(fs', v', csum, meta, space.used) && fs'.dev == fs.dev && fs'.inodes.t == t
    ensures err == SbOk ==> space.usedBlocks == old(space.usedBlocks) + 3 + Takes(v.tree, id)
    ensures err == CreateErr(v.tree, id, old(space.usedBlocks), space.layout.nrBlocks)
    ensures err == SbOk ==> Objects(fs', v') == Objects(fs, v)[id := Data(0, map[], blocks)]
    ensures err != SbOk ==> Objects(fs', v') == Objects(fs, v)
    ensures err == (if id in v.tree.m then SbTree(EEXIST) else SbOk) || (err.SbTree? && OutOfBlocks(err.e))
    ensures err.SbTree? && OutOfBlocks(err.e) <==> old(space.usedBlocks) + 3 + Takes(v.tree, id) > space.layout.nrBlocks
    ensures err.SbTree? && OutOfBlocks(err.e) ==> old(space.usedBlocks) + Height(v.tree) + 5 > space.layout.nrBlocks
    ensures !(err.SbTree? && OutOfBlocks(err.e)) ==> Spent(v, old(space.usedBlocks), v', space.usedBlocks, id, 0, 1)
  {
    hide Whole, Owned, Owns, Good, Levels, Listed, InodesOk, Takes, InsertErr;
    fs', v', blocks := fs, v, {};
    ghost var used := space.used;
    WholeHas(fs, v, csum, meta, used);
    var ok, i;
    ghost var s;
    ok, i, s := InodeCreate(t, space);
    if !ok {
      return fs', v', SbTree(ENOMEM), {};
    }
    ghost var used1 := space.used;
    NewPlace(i, s, used, used1, meta);
    DeviceOf(space, fs.dev, used);
    UnclaimedStep(fs, v, csum, meta, used, Owned(i, s), used1);
    NewGood(i, s, fs.dev, csum, used, used1);
    fs', v', err, blocks := Enlist(fs, v, space, csum, id, i, s, meta, used);
  }

  /** The second half: a new object, whose blocks nobody has claimed, gets its place in the inode tree or is deleted. */
  method Enlist(fs: Fs, ghost v: View, space: Space, csum: Csum, id: int, i: Ino, ghost s: Shape, ghost meta: set<nat>,
      ghost rest: set<nat>) returns (fs': Fs, ghost v': View, err: SbErr, ghost blocks: set<nat>)
    requires Sized(fs, space) && Whole(fs, v, csum, meta + Owned(i, s), space.used) && Owned(i, s) !! meta && 0 in meta
    requires Good(i, s, fs.dev, csum, map[], rest, space.used) && i.size == 0 && Levels(s) == 0 && 0 <= id < KEY_LIMIT
    requires s.bM == map[] && i.bt.t == i.st.t == fs.inodes.t
    modifies space
    ensures Sized(fs', space) && Whole(fs', v', csum, meta, space.used) && fs'.dev == fs.dev && fs'.inodes.t == fs.inodes.t
    ensures err == SbOk ==> space.usedBlocks == old(space.usedBlocks) + Takes(v.tree, id)
    ensures var e := InsertErr(v.tree, id, false, old(space.usedBlocks), space.layout.nrBlocks);
      err == if e == Done then SbOk else SbTree(e)
    ensures err == SbOk ==> Objects(fs', v') == Objects(fs, v)[id := Data(0, map[], blocks)]
    ensures err != SbOk ==> Objects(fs', v') == Objects(fs, v)
    ensures err == (if id in v.tree.m then SbTree(EEXIST) else SbOk) || (err.SbTree? && OutOfBlocks(err.e))
    ensures err.SbTree? && OutOfBlocks(err.e) <==> old(space.usedBlocks) + Takes(v.tree, id) > space.layout.nrBlocks
    ensures err.SbTree? && OutOfBlocks(err.e) ==> old(space.usedBlocks) + Height(v.tree) + 2 > space.layout.nrBlocks
    ensures space.usedBlocks <= old(space.usedBlocks) + Height(v.tree) + 2
    ensures Height(v'.tree) <= Height(v.tree) + 1 && ShapesGrew(v, v', 0)
  {
    hide Whole, Owned, Good, Levels, InodesOk, Listed, TreeMoved, Objects, ShapesGrew, Device, Takes, InsertErr;
    ghost var used := space.used;
    blocks := {};
    WholeHas(fs, v, csum, meta + Owned(i, s), used);
    var m, e;
    ghost var T;
    m, T, e := InsertId(fs.inodes, v.tree, space, id, i.block);
    DeviceOf(space, fs.dev, used);
    MovedDegree(fs.inodes, used, m, space.used);
    if e == Done {
      AddStep(fs, v, csum, meta, used, i, s, rest, used, id, m, T, space.used);
      ObjectsAdd(fs, v, Obj(id, i), s, m, T);
      fs', v' := WithObj(fs, i.block, Obj(id, i), fs.dev).(inodes := m), WithView(v, i.block, s, map[]).(tree := T);
      GrewBy(v, i.block, s, map[], T);
      err, blocks := SbOk, Owned(i, s);
    } else {
      TreeStep(fs, v, csum, meta + Owned(i, s), used, m, T, space.used);
      fs', v' := fs.(inodes := m), v.(tree := T);
      GoodOwns(i, s, fs.dev, csum, map[], rest, used);
      Unmake(fs', v', space, csum, i, s, meta, rest, used);
      ObjectsTree(fs, v, m, T);
      err := SbTree(e);
    }
  }

  lemma ObjectsTree(fs: Fs, v: View, m: Mem, T: Tree)
    requires Listed(fs.objs, v.tree.m) && fs.objs.Keys == v.shapes.Keys == v.written.Keys && T.m == v.tree.m
    ensures Objects(fs.(inodes := m), v.(tree := T)) == Objects(fs, v) && ShapesGrew(v, v.(tree := T), 0)
  {
  }

  lemma GrewBy(v: View, b: int, s: Shape, w: map<nat, bv8>, T: Tree)
    requires Levels(s) == 0
    ensures ShapesGrew(v, WithView(v, b, s, w).(tree := T), 0)
  {
  }

  lemma GoodOwns(i: Ino, s: Shape, dev: seq<Bytes>, csum: Csum, w: map<nat, bv8>, rest: set<nat>, used: set<nat>)
    requires Good(i, s, dev, csum, w, rest, used)
    ensures Owns(i, s, rest, used)
  {
  }

  lemma WholeHas(fs: Fs, v: View, csum: Csum, meta: set<nat>, used: set<nat>)
    requires Whole(fs, v, csum, meta, used)
    ensures InodesOk(fs.inodes, v.tree) && Listed(fs.objs, v.tree.m) && fs.objs.Keys == v.shapes.Keys == v.written.Keys
    ensures Device(fs.dev, used) && EightBytes(csum) && Owning(fs.inodes, used) && 0 in used && 0 in meta && meta <= used
  {
  }

  /** The blocks of a new object were free. */
  lemma NewPlace(i: Ino, s: Shape, used: set<nat>, used': set<nat>, meta: set<nat>)
    requires Owns(i, s, used, used') && meta <= used
    ensures Owned(i, s) !! used && used' == used + Owned(i, s) && Owned(i, s) !! meta
  {
    OwnsExactly(i, s, used, used');
  }

  // ---------------------------------------------------------------- nkfs_sb_put_obj

  /** What the first n bytes of buf, written at off, make of an object, if the last page has `tail` of them. */
  ghost predicate Updated(d: Data, d': Data, off: nat, buf: Bytes, n: nat, tail: nat)
    requires tail <= U64
  {
    d'.size == SizeAfter(d.size, off, n, tail) && IsOver(d'.bytes, d.bytes, off, buf, n)
  }

  lemma UpdatedBy(i0: Ino, dev0: seq<Bytes>, w0: map<nat, bv8>, i: Ino, dev: seq<Bytes>, w: map<nat, bv8>,
      off: nat, buf: Bytes, n: nat, rest: set<nat>, tail: nat, s0: Shape, s: Shape)
    requires Wrote(i0, dev0, w0, i, dev, w, off, buf, n, rest) && tail <= 4096
    requires off + n == U64 ==> i.size == SizeAfter(i0.size, off, n, tail)
    requires off + n <= U64
    ensures Updated(DataOf(i0, s0, w0), DataOf(i, s, w), off, buf, n, tail)
    ensures SameFor(rest, dev0, dev) && i.block == i0.block && SameHome(i0, i)
  {
  }

  /** An object the inode tree names. */
  lemma ObjectAt(fs: Fs, v: View, csum: Csum, meta: set<nat>, used: set<nat>, id: int)
    requires Whole(fs, v, csum, meta, used) && id in v.tree.m
    ensures var b := v.tree.m[id];
      && b in fs.objs && b in v.shapes && b in v.written && fs.objs[b].ino.block == b && fs.objs[b].id == id
      && Good(fs.objs[b].ino, v.shapes[b], fs.dev, csum, v.written[b], used - Owned(fs.objs[b].ino, v.shapes[b]), used)
      && Objects(fs, v)[id] == DataOf(fs.objs[b].ino, v.shapes[b], v.written[b]) && Backed(v.shapes[b], v.written[b])
  {
    hide Backed, Good, Owned, Partition;
    var b := v.tree.m[id];
    assert Healthy(fs.objs[b].ino, v.shapes[b], fs.dev, csum, v.written[b], used);
  }

  /** The blocks that a write to an object takes at most: none where it was written before. */
  ghost function PutNeeds(v: View, id: int, off: nat, len: nat): nat {
    if id in v.tree.m && v.tree.m[id] in v.shapes then Needs(v.shapes[v.tree.m[id]], off, len) else 0
  }

  /** A write to an object will run out of blocks. */
  ghost predicate PutShort(v: View, id: int, off: nat, len: nat, used: set<nat>, nr: int) {
    id in v.tree.m && v.tree.m[id] in v.shapes && WriteFate(Room(v.shapes[v.tree.m[id]], used), off, len, nr).Short?
  }

  /** And, as written, its rollback will fault. */
  ghost predicate PutStuck(v: View, id: int, off: nat, len: nat, used: set<nat>, nr: int) {
    id in v.tree.m && v.tree.m[id] in v.shapes && WriteFate(Room(v.shapes[v.tree.m[id]], used), off, len, nr) == Short(true)
  }

  /** The first `done` bytes of the pages have been written to the object; all of them unless something was missing. It runs
      out of blocks, and as written faults, exactly as the trees of the object and the blocks in use before it say. */
  method PutObj(fs: Fs, ghost v: View, space: Space, csum: Csum, id: int, off: nat, pgOff: nat, len: nat, pages: seq<Bytes>,
      asWritten: bool, ghost meta: set<nat>)
    returns (fs': Fs, ghost v': View, err: SbErr, done: nat, ghost d: Data, fault: bool)
    requires Sized(fs, space) && Whole(fs, v, csum, meta, space.used) && 0 <= id < KEY_LIMIT
    requires off + len <= U64 && Paged(pages) && pgOff < 4096 && len + pgOff < U32
    modifies space
    ensures err != SbWrite(NoRoom) ==> !fault
    ensures err == SbWrite(NoRoom) <==>
      PutShort(v, id, off, |Region(Concat(pages), pgOff, len)|, old(space.used), space.layout.nrBlocks)
    ensures fault <==>
      asWritten && PutStuck(v, id, off, |Region(Concat(pages), pgOff, len)|, old(space.used), space.layout.nrBlocks)
    ensures err == SbWrite(NoRoom) ==>
      old(space.usedBlocks) + PutNeeds(v, id, off, |Region(Concat(pages), pgOff, len)|) > space.layout.nrBlocks
    ensures !fault ==> Sized(fs', space) && Whole(fs', v', csum, meta, space.used) && fs'.inodes.t == fs.inodes.t
    ensures err == SbTree(ENOENT) <==> id !in v.tree.m
    ensures id !in v.tree.m ==> Objects(fs', v') == Objects(fs, v)
    ensures id in v.tree.m && !fault ==>
      var data := Region(Concat(pages), pgOff, len);
      && Objects(fs', v') == Objects(fs, v)[id := d] && Updated(Objects(fs, v)[id], d, off, data, done, Tail(pgOff, len))
      && (done > 0 ==> (d.size == Max(Objects(fs, v)[id].size, off + done) <==> off + done < U64))
      && (err == SbOk ==> done == |data| == len)
      && (err == SbWrite(FewPages) ==> done == |data| < len)
      && (err == SbWrite(NoRoom) ==> done < |data|)
      && (err == SbOk || err == SbWrite(FewPages) || err == SbWrite(NoRoom))
    ensures err != SbWrite(NoRoom) ==>
      Spent(v, old(space.usedBlocks), v', space.usedBlocks, id, |Touched(off, |Region(Concat(pages), pgOff, len)|)|, 0)
  {
    hide Whole, Owned, Good, IsOver, Needs, Levels, Cost, Touched, Charged, WriteFate, Wrote, Updated, Tail, Region, Backed, SameHome;
    hide Objects, Listed;
    done, d, fault := 0, Data(0, map[], {}), false;
    v' := v;
    var found, b;
    fs', found, b := LookUp(fs, v, csum, id, meta, space.used);
    WholeHas(fs', v, csum, meta, space.used);
    if !found {
      err := SbTree(ENOENT);
      return;
    }
    ghost var used := space.used;
    ObjectAt(fs', v, csum, meta, used, id);
    var o := fs'.objs[b];
    ghost var rest := used - Owned(o.ino, v.shapes[b]);
    var i, dev, e, n;
    ghost var s, w;
    i, s, dev, e, n, w, fault :=
      WriteFromPages(o.ino, v.shapes[b], space, fs'.dev, csum, v.written[b], off, pgOff, len, pages, asWritten, rest);
    err := if e == Written then SbOk else SbWrite(e);
    if fault {
      return;
    }
    GoodSize(o.ino, v.shapes[b], fs'.dev, csum, v.written[b], rest, used);
    WroteSome(o.ino, fs'.dev, v.written[b], i, dev, w, off, Region(Concat(pages), pgOff, len), n, rest);
    UpdatedBy(o.ino, fs'.dev, v.written[b], i, dev, w, off, Region(Concat(pages), pgOff, len), n, rest, Tail(pgOff, len), v.shapes[b], s);
    ChangedStep(fs', v, csum, meta, used, b, i, s, dev, w, space.used);
    ObjectsPut(fs', v, id, o.(ino := i), dev, s, w);
    if e != NoRoom {
      ChargedAtMost(v.shapes[b], old(space.usedBlocks), s, space.usedBlocks, off, |Region(Concat(pages), pgOff, len)|);
    }
    fs', v', done, d := WithObj(fs', b, o.(ino := i), dev), WithView(v, b, s, w), n, DataOf(i, s, w);
  }

  // ---------------------------------------------------------------- nkfs_sb_get_obj

  /** Where buf has a byte that was written, it has the last value written there. */
  ghost predicate Shows(buf: Bytes, off: nat, bytes: map<nat, bv8>) {
    forall k :: 0 <= k < |buf| && off + k in bytes ==> buf[k] == bytes[off + k]
  }

  lemma BytesShow(i: Ino, s: Shape, dev: seq<Bytes>, csum: Csum, w: map<nat, bv8>, rest: set<nat>, used: set<nat>, off: nat, buf: Bytes)
    requires Good(i, s, dev, csum, w, rest, used) && AreBytes(s, dev, off, buf)
    ensures Shows(buf, off, w)
  {
    forall k | 0 <= k < |buf| && off + k in w
      ensures buf[k] == w[off + k]
    {
      LastWritten(s, dev, w, off, buf, k);
    }
  }

  lemma SameBlocks(i: Ino, i': Ino, s: Shape, dev: seq<Bytes>, csum: Csum, w: map<nat, bv8>, rest: set<nat>, used: set<nat>)
    requires Good(i, s, dev, csum, w, rest, used) && Good(i', s, dev, csum, w, rest, used)
    ensures Owned(i', s) == Owned(i, s)
  {
    hide Owned, Owns;
    OwnedIs(i, s, rest, used);
    OwnedIs(i', s, rest, used);
  }

  /** What a get is answered, given what was written to the object. */
  ghost function GetAnswer(size: nat, bytes: map<nat, bv8>, off: nat, pgOff: nat, len: nat, nrPages: nat): SbErr
    requires pgOff < 4096
  {
    var e := ReadAnswer(size, WrittenBlocks(bytes), off, pgOff, len, nrPages);
    if e == Got then SbOk else SbRead(e)
  }

  /** Inside the size and with pages enough, a get is refused exactly if it comes to a block without a byte that was written. */
  lemma GetAnswered(size: nat, bytes: map<nat, bv8>, off: nat, pgOff: nat, len: nat, nrPages: nat)
    requires pgOff < 4096 && 0 < len && off <= size && pgOff + len <= 4096 * nrPages
    ensures GetAnswer(size, bytes, off, pgOff, len, nrPages) ==
      if exists q :: off <= q < off + Available(size, off, len) && q / 65536 !in WrittenBlocks(bytes)
      then SbRead(Failed(NoBlock)) else SbOk
    ensures (forall q :: off <= q < off + Available(size, off, len) ==> q in bytes) ==>
      GetAnswer(size, bytes, off, pgOff, len, nrPages) == SbOk
  {
    var n, blocks := Available(size, off, len), WrittenBlocks(bytes);
    assert Hole(blocks, off, n) <==> exists q :: off <= q < off + n && q / 65536 !in blocks;
    assert n <= 4096 * nrPages - pgOff;
    forall q | q in bytes
      ensures q / 65536 in blocks
    {
    }
  }

  /** The state does not change, and the bytes end up in the pages. */
  method GetObj(fs: Fs, ghost v: View, csum: Csum, id: int, off: nat, pgOff: nat, len: nat, pages: seq<Bytes>,
      ghost meta: set<nat>, ghost used: set<nat>)
    returns (fs': Fs, ghost v': View, err: SbErr, count: nat, ghost data: Bytes, pages': seq<Bytes>)
    requires Whole(fs, v, csum, meta, used) && 0 <= id < KEY_LIMIT
    requires off + len <= U64 && Paged(pages) && pgOff < 4096 && len + pgOff < U32
    ensures Whole(fs', v', csum, meta, used) && fs'.dev == fs.dev && Objects(fs', v') == Objects(fs, v)
    ensures fs'.inodes.t == fs.inodes.t
    ensures err != SbAgain && !err.SbWrite? && (err.SbTree? ==> err.e == ENOENT)
    ensures v'.tree == v.tree && ShapesGrew(v, v', 0)
    ensures err == SbTree(ENOENT) <==> id !in v.tree.m
    ensures id in v.tree.m ==>
      var d := Objects(fs, v)[id];
      && err == GetAnswer(d.size, d.bytes, off, pgOff, len, |pages|)
      && (off <= d.size && len > 0 && err == SbOk ==>
        && count == |data| == ReadCount(d.size, off, len, Tail(pgOff, len)) && Shows(data, off, d.bytes)
        && Paged(pages') && |pages'| == |pages| && pgOff + |data| <= |Concat(pages)|
        && Concat(pages') == Splice(Concat(pages), pgOff, data))
  {
    hide Whole, Owned, Good, ReadAnswer, WrittenBlocks;
    v', count, data, pages' := v, 0, [], pages;
    var found, b;
    fs', found, b := LookUp(fs, v, csum, id, meta, used);
    WholeHas(fs', v, csum, meta, used);
    if !found {
      err := SbTree(ENOENT);
      return;
    }
    ObjectAt(fs', v, csum, meta, used, id);
    var o := fs'.objs[b];
    if o.id != id {
      err := SbTree(ENOENT);
      return;
    }
    ghost var rest, s, w := used - Owned(o.ino, v.shapes[b]), v.shapes[b], v.written[b];
    var i, e;
    i, e, count, data, pages' := ReadIntoPages(o.ino, s, fs'.dev, csum, w, off, pgOff, len, pages, rest, used);
    if off <= i.size && e == Got && len > 0 {
      BytesShow(i, s, fs'.dev, csum, w, rest, used, off, data);
    }
    SameBlocks(o.ino, i, s, fs'.dev, csum, w, rest, used);
    ChangedStep(fs', v, csum, meta, used, b, i, s, fs'.dev, w, used);
    ObjectsPut(fs', v, id, o.(ino := i), fs'.dev, s, w);
    fs', v' := WithObj(fs', b, o.(ino := i), fs'.dev), WithView(v, b, s, w);
    err := if e == Got then SbOk else SbRead(e);
  }

  // ---------------------------------------------------------------- nkfs_sb_delete_obj

  /** The object is gone and so is all that it had. With the deletion from the inode tree as it is written, this faults if and
      only if the inode tree cannot lose the id without borrowing or merging. */
  method DeleteObj(fs: Fs, ghost v: View, space: Space, csum: Csum, id: int, asWritten: bool, ghost meta: set<nat>)
    returns (fs': Fs, ghost v': View, err: SbErr, fault: bool)
    requires Sized(fs, space) && Whole(fs, v, csum, meta, space.used) && 0 <= id < KEY_LIMIT
    modifies space
    ensures fault <==> asWritten && id in v.tree.m && !Clean(v.tree, id)
    ensures !fault ==> Sized(fs', space) && Whole(fs', v', csum, meta, space.used) && fs'.dev == fs.dev
    ensures !fault ==> fs'.inodes.t == fs.inodes.t
    ensures err == if id in v.tree.m then SbOk else SbTree(ENOENT)
    ensures !fault ==> Objects(fs', v') == Objects(fs, v) - {id}
    ensures !fault ==> space.usedBlocks <= old(space.usedBlocks) && Height(v'.tree) <= Height(v.tree) && ShapesGrew(v, v', 0)
  {
    hide Whole, Owned, Good, Owns, Clean;
    v', fault := v, false;
    var found, b;
    fs', found, b := LookUp(fs, v, csum, id, meta, space.used);
    WholeHas(fs', v, csum, meta, space.used);
    if !found {
      err := SbTree(ENOENT);
      assert Objects(fs, v) - {id} == Objects(fs, v);
      return;
    }
    err := SbOk;
    ghost var used := space.used;
    var o := fs'.objs[b];
    ghost var s := v.shapes[b];
    var m;
    ghost var T;
    m, T, fault := DeleteId(fs'.inodes, v.tree, space, o.id, asWritten);
    if fault {
      return;
    }
    DeviceOf(space, fs'.dev, used);
    DropStep(fs', v, csum, meta, used, id, m, T, space.used);
    ObjectsDrop(fs', v, id, m, T);
    fs', v' := Without(fs', b).(inodes := m), ViewWithout(v, b).(tree := T);
    ghost var used1 := space.used;
    InodeDelete(o.ino, s, space, used1 - Owned(o.ino, s));
    DeviceOf(space, fs'.dev, used1);
    FreedStep(fs', v', csum, meta, used1, Owned(o.ino, s), space.used);
  }
}
