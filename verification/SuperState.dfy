/** The objects of a device: the inode tree, the objects it names, and the blocks each of them owns. */
module SuperState {
  import opened Stripes
  import opened BtreeShape
  import opened Btree
  import opened IndexTree
  import opened InodeMap
  import opened InodeData
  import opened Ownership

  /** An inode with the object id that is stored in it. */
  datatype Obj = Obj(id: int, ino: Ino)

  /** What is on the device: the inode tree, the inode in each inode block, and the other blocks. */
  datatype Fs = Fs(inodes: Mem, objs: map<int, Obj>, dev: seq<Bytes>)

  /** What it stands for: the map from ids to inode blocks, the maps of each object, the bytes written to each. */
  datatype View = View(tree: Tree, shapes: map<int, Shape>, written: map<int, map<nat, bv8>>)

  /** The inode tree and the inodes name each other. */
  ghost predicate Listed(objs: map<int, Obj>, m: map<int, int>) {
    && (forall k :: k in m ==> m[k] in objs && objs[m[k]].id == k)
    && forall b :: b in objs ==> objs[b].id in m && m[objs[b].id] == b && objs[b].ino.block == b
  }

  ghost function OwnMap(objs: map<int, Obj>, shapes: map<int, Shape>): map<int, set<nat>>
    requires objs.Keys <= shapes.Keys
  {
    map b | b in objs :: Owned(objs[b].ino, shapes[b])
  }

  /** The state of one object when all used blocks but its own are other people's. */
  ghost predicate Healthy(i: Ino, s: Shape, dev: seq<Bytes>, csum: Csum, w: map<nat, bv8>, used: set<nat>) {
    Good(i, s, dev, csum, w, used - Owned(i, s), used) && Backed(s, w)
  }

  /** All trees have the same degree. */
  ghost predicate SameDegree(objs: map<int, Obj>, t: nat) {
    forall b :: b in objs ==> objs[b].ino.bt.t == objs[b].ino.st.t == t
  }

  ghost predicate AllHealthy(fs: Fs, v: View, csum: Csum, used: set<nat>)
    requires fs.objs.Keys == v.shapes.Keys == v.written.Keys
  {
    forall b :: b in fs.objs ==> Healthy(fs.objs[b].ino, v.shapes[b], fs.dev, csum, v.written[b], used)
  }

  ghost predicate InodesOk(m: Mem, T: Tree) {
    Quiet(m) && Spells(m, T) && BtreeShape.Valid(T) && m.t >= 2
  }

  ghost predicate Whole(fs: Fs, v: View, csum: Csum, meta: set<nat>, used: set<nat>) {
    && InodesOk(fs.inodes, v.tree) && Listed(fs.objs, v.tree.m)
    && fs.objs.Keys == v.shapes.Keys == v.written.Keys
    && Partition(meta, fs.inodes.store.Keys, OwnMap(fs.objs, v.shapes), used)
    && Device(fs.dev, used) && EightBytes(csum) && AllHealthy(fs, v, csum, used) && SameDegree(fs.objs, fs.inodes.t)
  }

  // ---------------------------------------------------------------- one object among others

  lemma PartOther(b: nat, N: set<nat>, P: set<nat>, D: set<nat>, S: set<nat>, rest: set<nat>, used: set<nat>, used': set<nat>)
    requires Parted(b, N, P, D, S, rest, used) && 0 in used'
    requires var all := {b} + N + P + D + S; all <= used'
    ensures var all := {b} + N + P + D + S; Parted(b, N, P, D, S, used' - all, used')
  {
  }

  lemma OwnsAmong(i: Ino, s: Shape, rest: set<nat>, used: set<nat>, used': set<nat>)
    requires Owns(i, s, rest, used) && Owned(i, s) <= used' && 0 in used'
    ensures Owns(i, s, used' - Owned(i, s), used')
  {
    PartOther(i.block, i.bt.store.Keys, i.st.store.Keys, Range(s.bM), Range(s.sM), rest, used, used');
  }

  lemma OwnedBlocks(i: Ino, s: Shape)
    ensures forall v :: v in s.bM ==> s.bM[v] in Owned(i, s)
    ensures forall v :: v in s.sM ==> s.sM[v] in Owned(i, s)
  {
    forall v | v in s.bM
      ensures s.bM[v] in Owned(i, s)
    {
      assert s.bM[v] in Range(s.bM);
    }
    forall v | v in s.sM
      ensures s.sM[v] in Owned(i, s)
    {
      assert s.sM[v] in Range(s.sM);
    }
  }

  lemma SumsKept(i: Ino, s: Shape, dev: seq<Bytes>, csum: Csum, w: map<nat, bv8>, dev': seq<Bytes>)
    requires SumsOk(s, dev, csum, {}) && Remembers(s, dev, w) && SameFor(Owned(i, s), dev, dev')
    ensures SumsOk(s, dev', csum, {}) && Remembers(s, dev', w)
  {
    OwnedBlocks(i, s);
    forall v | v in s.bM
      ensures SumOk(s, dev', csum, v)
    {
      assert SumOk(s, dev, csum, v);
    }
    StillRemembers(s, dev, w, s, dev');
  }

  /** What others do to their own blocks does not matter to an object. */
  lemma Undisturbed(i: Ino, s: Shape, dev: seq<Bytes>, csum: Csum, w: map<nat, bv8>, rest: set<nat>, used: set<nat>,
      dev': seq<Bytes>, used': set<nat>)
    requires Good(i, s, dev, csum, w, rest, used) && Owned(i, s) <= used' && 0 in used'
    requires SameFor(Owned(i, s), dev, dev') && Device(dev', used') && Backed(s, w)
    ensures Healthy(i, s, dev', csum, w, used')
  {
    OwnsAmong(i, s, rest, used, used');
    SumsKept(i, s, dev, csum, w, dev');
  }

  lemma OwnedIs(i: Ino, s: Shape, rest: set<nat>, used: set<nat>)
    requires Owns(i, s, rest, used)
    ensures used - rest == Owned(i, s) && rest == used - Owned(i, s) && 0 in rest && i.block in Owned(i, s)
  {
    OwnsExactly(i, s, rest, used);
  }

  /** The objects other than b0 are as before, and so are their blocks. */
  ghost predicate Others(fs: Fs, v: View, fs': Fs, v': View, b0: int, used': set<nat>)
    requires fs.objs.Keys == v.shapes.Keys == v.written.Keys && fs'.objs.Keys == v'.shapes.Keys == v'.written.Keys
  {
    forall b :: b in fs'.objs && b != b0 ==>
      && b in fs.objs && fs'.objs[b] == fs.objs[b] && v'.shapes[b] == v.shapes[b] && v'.written[b] == v.written[b]
      && Owned(fs.objs[b].ino, v.shapes[b]) <= used' && SameFor(Owned(fs.objs[b].ino, v.shapes[b]), fs.dev, fs'.dev)
  }

  lemma StillHealthy(fs: Fs, v: View, csum: Csum, used: set<nat>, fs': Fs, v': View, b0: int, used': set<nat>)
    requires fs.objs.Keys == v.shapes.Keys == v.written.Keys && fs'.objs.Keys == v'.shapes.Keys == v'.written.Keys
    requires AllHealthy(fs, v, csum, used) && Others(fs, v, fs', v', b0, used')
    requires Device(fs'.dev, used') && 0 in used'
    requires b0 in fs'.objs ==> Healthy(fs'.objs[b0].ino, v'.shapes[b0], fs'.dev, csum, v'.written[b0], used')
    ensures AllHealthy(fs', v', csum, used')
  {
    forall b | b in fs'.objs
      ensures Healthy(fs'.objs[b].ino, v'.shapes[b], fs'.dev, csum, v'.written[b], used')
    {
      if b != b0 {
        var i, s := fs.objs[b].ino, v.shapes[b];
        Undisturbed(i, s, fs.dev, csum, v.written[b], used - Owned(i, s), used, fs'.dev, used');
      }
    }
  }

  // ---------------------------------------------------------------- steps

  /** The nodes of the inode tree have become those of m', in blocks that were free or its own; the degree is the same. */
  ghost predicate TreeMoved(m: Mem, used: set<nat>, m': Mem, used': set<nat>) {
    used' == used - m.store.Keys + m'.store.Keys && used - m.store.Keys !! m'.store.Keys && m'.t == m.t
  }

  lemma MovedDegree(m: Mem, used: set<nat>, m': Mem, used': set<nat>)
    requires TreeMoved(m, used, m', used')
    ensures m'.t == m.t
  {
  }

  lemma OwnMapPut(objs: map<int, Obj>, shapes: map<int, Shape>, b: int, o: Obj, s: Shape)
    requires objs.Keys <= shapes.Keys
    ensures objs[b := o].Keys <= shapes[b := s].Keys
    ensures OwnMap(objs[b := o], shapes[b := s]) == OwnMap(objs, shapes)[b := Owned(o.ino, s)]
  {
  }

  lemma OwnMapDrop(objs: map<int, Obj>, shapes: map<int, Shape>, b: int)
    requires objs.Keys <= shapes.Keys
    ensures (objs - {b}).Keys <= (shapes - {b}).Keys && OwnMap(objs - {b}, shapes - {b}) == OwnMap(objs, shapes) - {b}
  {
  }

  /** What the partition says about one object. */
  lemma OwnedPart(meta: set<nat>, nodes: set<nat>, objs: map<int, Obj>, shapes: map<int, Shape>, used: set<nat>, b: int)
    requires objs.Keys <= shapes.Keys && Partition(meta, nodes, OwnMap(objs, shapes), used) && b in objs
    ensures Owned(objs[b].ino, shapes[b]) <= used && Owned(objs[b].ino, shapes[b]) !! meta + nodes && 0 in used
  {
    assert OwnMap(objs, shapes)[b] == Owned(objs[b].ino, shapes[b]);
    OwnPart(meta, nodes, OwnMap(objs, shapes), used, b);
  }

  lemma AllOwnedPart(meta: set<nat>, nodes: set<nat>, objs: map<int, Obj>, shapes: map<int, Shape>, used: set<nat>)
    requires objs.Keys <= shapes.Keys && Partition(meta, nodes, OwnMap(objs, shapes), used)
    ensures forall b :: b in objs ==> Owned(objs[b].ino, shapes[b]) <= used
    ensures 0 in used
  {
    forall b | b in objs
      ensures Owned(objs[b].ino, shapes[b]) <= used
    {
      OwnedPart(meta, nodes, objs, shapes, used, b);
    }
  }

  /** Only the shape of the inode tree changes. */
  lemma TreeStep(fs: Fs, v: View, csum: Csum, meta: set<nat>, used: set<nat>, m': Mem, T': Tree, used': set<nat>)
    requires Whole(fs, v, csum, meta, used) && InodesOk(m', T') && T'.m == v.tree.m && TreeMoved(fs.inodes, used, m', used')
    requires Device(fs.dev, used')
    ensures Whole(fs.(inodes := m'), v.(tree := T'), csum, meta, used')
  {
    hide Healthy, InodesOk, Partition;
    NodesChanged(meta, fs.inodes.store.Keys, OwnMap(fs.objs, v.shapes), used, m'.store.Keys, used');
    AllOwnedPart(meta, m'.store.Keys, fs.objs, v.shapes, used');
    StillHealthy(fs, v, csum, used, fs.(inodes := m'), v.(tree := T'), -1, used');
  }

  /** Blocks taken for something that is not in the tree yet. */
  lemma UnclaimedStep(fs: Fs, v: View, csum: Csum, meta: set<nat>, used: set<nat>, S: set<nat>, used': set<nat>)
    requires Whole(fs, v, csum, meta, used) && S !! used && used' == used + S && Device(fs.dev, used')
    ensures Whole(fs, v, csum, meta + S, used')
  {
    hide Healthy, InodesOk, Partition;
    Unclaimed(meta, fs.inodes.store.Keys, OwnMap(fs.objs, v.shapes), used, S);
    AllOwnedPart(meta + S, fs.inodes.store.Keys, fs.objs, v.shapes, used');
    StillHealthy(fs, v, csum, used, fs, v, -1, used');
  }

  lemma FreedStep(fs: Fs, v: View, csum: Csum, meta: set<nat>, used: set<nat>, S: set<nat>, used': set<nat>)
    requires Whole(fs, v, csum, meta + S, used) && S !! meta && 0 in meta && used' == used - S && Device(fs.dev, used')
    ensures Whole(fs, v, csum, meta, used')
  {
    hide Healthy, InodesOk, Partition;
    Freed(meta, fs.inodes.store.Keys, OwnMap(fs.objs, v.shapes), used, S);
    AllOwnedPart(meta, fs.inodes.store.Keys, fs.objs, v.shapes, used');
    StillHealthy(fs, v, csum, used, fs, v, -1, used');
  }

  /** Object b is now i', with shape s' and the bytes w' written. */
  function WithObj(fs: Fs, b: int, o: Obj, dev: seq<Bytes>): Fs {
    fs.(objs := fs.objs[b := o], dev := dev)
  }

  ghost function WithView(v: View, b: int, s: Shape, w: map<nat, bv8>): View {
    v.(shapes := v.shapes[b := s], written := v.written[b := w])
  }

  lemma ListedPut(objs: map<int, Obj>, m: map<int, int>, b: int, o: Obj)
    requires Listed(objs, m) && b in objs && o.id == objs[b].id && o.ino.block == b
    ensures Listed(objs[b := o], m)
  {
  }

  lemma ListedAdd(objs: map<int, Obj>, m: map<int, int>, o: Obj)
    requires Listed(objs, m) && o.id !in m && o.ino.block !in objs
    ensures Listed(objs[o.ino.block := o], m[o.id := o.ino.block])
  {
  }

  lemma ListedDrop(objs: map<int, Obj>, m: map<int, int>, id: int)
    requires Listed(objs, m) && id in m
    ensures Listed(objs - {m[id]}, m - {id})
  {
  }

  /** The blocks of other objects are among those that one object must not touch. */
  lemma OthersKept(fs: Fs, v: View, meta: set<nat>, used: set<nat>, b: int, dev': seq<Bytes>)
    requires fs.objs.Keys == v.shapes.Keys && Partition(meta, fs.inodes.store.Keys, OwnMap(fs.objs, v.shapes), used)
    requires b in fs.objs && SameFor(used - Owned(fs.objs[b].ino, v.shapes[b]), fs.dev, dev')
    ensures forall c :: c in fs.objs && c != b ==> SameFor(Owned(fs.objs[c].ino, v.shapes[c]), fs.dev, dev')
  {
    var own := OwnMap(fs.objs, v.shapes);
    forall c | c in fs.objs && c != b
      ensures SameFor(Owned(fs.objs[c].ino, v.shapes[c]), fs.dev, dev')
    {
      OwnPart(meta, fs.inodes.store.Keys, own, used, c);
      assert own[c] !! own[b] && own[c] == Owned(fs.objs[c].ino, v.shapes[c]) && own[b] == Owned(fs.objs[b].ino, v.shapes[b]);
    }
  }

  lemma ChangedStep(fs: Fs, v: View, csum: Csum, meta: set<nat>, used: set<nat>, b: int,
      i': Ino, s': Shape, dev': seq<Bytes>, w': map<nat, bv8>, used': set<nat>)
    requires Whole(fs, v, csum, meta, used) && b in fs.objs && i'.block == b
    requires var rest := used - Owned(fs.objs[b].ino, v.shapes[b]);
      Good(i', s', dev', csum, w', rest, used') && SameFor(rest, fs.dev, dev')
    requires Backed(s', w') && SameHome(fs.objs[b].ino, i')
    ensures Whole(WithObj(fs, b, fs.objs[b].(ino := i'), dev'), WithView(v, b, s', w'), csum, meta, used')
  {
    hide Healthy, InodesOk, Partition, Owned, SameFor;
    var o' := fs.objs[b].(ino := i');
    var fs', v' := WithObj(fs, b, o', dev'), WithView(v, b, s', w');
    var own, nodes := OwnMap(fs.objs, v.shapes), fs.inodes.store.Keys;
    OthersKept(fs, v, meta, used, b, dev');
    ListedPut(fs.objs, v.tree.m, b, o');
    ChangedParts(fs, v, meta, used, b, i', s', used');
    GoodIsHealthy(i', s', dev', csum, w', used - Owned(fs.objs[b].ino, v.shapes[b]), used');
    AllOwnedPart(meta, nodes, fs'.objs, v'.shapes, used');
    ViewsAgree(fs, v, b, i', s', dev', w', used');
    StillHealthy(fs, v, csum, used, fs', v', b, used');
  }

  lemma ViewsAgree(fs: Fs, v: View, b: int, i': Ino, s': Shape, dev': seq<Bytes>, w': map<nat, bv8>, used': set<nat>)
    requires fs.objs.Keys == v.shapes.Keys == v.written.Keys && b in fs.objs
    requires forall c :: c in fs.objs && c != b ==> SameFor(Owned(fs.objs[c].ino, v.shapes[c]), fs.dev, dev')
    requires var fs', v' := WithObj(fs, b, fs.objs[b].(ino := i'), dev'), WithView(v, b, s', w');
      forall c :: c in fs'.objs ==> c in v'.shapes && Owned(fs'.objs[c].ino, v'.shapes[c]) <= used'
    ensures var fs', v' := WithObj(fs, b, fs.objs[b].(ino := i'), dev'), WithView(v, b, s', w');
      fs'.objs.Keys == v'.shapes.Keys == v'.written.Keys && Others(fs, v, fs', v', b, used')
  {
    hide SameFor, Owned;
    var fs', v' := WithObj(fs, b, fs.objs[b].(ino := i'), dev'), WithView(v, b, s', w');
    forall c | c in fs'.objs && c != b
      ensures c in fs.objs && fs'.objs[c] == fs.objs[c] && v'.shapes[c] == v.shapes[c] && v'.written[c] == v.written[c]
      ensures Owned(fs.objs[c].ino, v.shapes[c]) <= used'
    {
      assert Owned(fs'.objs[c].ino, v'.shapes[c]) <= used';
    }
  }

  lemma GoodIsHealthy(i: Ino, s: Shape, dev: seq<Bytes>, csum: Csum, w: map<nat, bv8>, rest: set<nat>, used: set<nat>)
    requires Good(i, s, dev, csum, w, rest, used) && Backed(s, w)
    ensures Healthy(i, s, dev, csum, w, used) && rest == used - Owned(i, s)
  {
    OwnedIs(i, s, rest, used);
  }

  lemma ChangedParts(fs: Fs, v: View, meta: set<nat>, used: set<nat>, b: int, i': Ino, s': Shape, used': set<nat>)
    requires fs.objs.Keys == v.shapes.Keys && Partition(meta, fs.inodes.store.Keys, OwnMap(fs.objs, v.shapes), used)
    requires b in fs.objs && Owns(i', s', used - Owned(fs.objs[b].ino, v.shapes[b]), used')
    ensures fs.objs[b := fs.objs[b].(ino := i')].Keys <= v.shapes[b := s'].Keys
    ensures Partition(meta, fs.inodes.store.Keys, OwnMap(fs.objs[b := fs.objs[b].(ino := i')], v.shapes[b := s']), used')
  {
    var own := OwnMap(fs.objs, v.shapes);
    assert own[b] == Owned(fs.objs[b].ino, v.shapes[b]);
    OwnsExactly(i', s', used - own[b], used');
    Resized(meta, fs.inodes.store.Keys, own, used, b, Owned(i', s'), used');
    OwnMapPut(fs.objs, v.shapes, b, fs.objs[b].(ino := i'), s');
  }

  lemma AddedParts(fs: Fs, v: View, meta: set<nat>, used: set<nat>, i: Ino, s: Shape, m': Mem, used': set<nat>, id: int)
    requires fs.objs.Keys == v.shapes.Keys && Listed(fs.objs, v.tree.m)
    requires Partition(meta + Owned(i, s), fs.inodes.store.Keys, OwnMap(fs.objs, v.shapes), used)
    requires Owned(i, s) !! meta && 0 in meta && TreeMoved(fs.inodes, used, m', used')
    ensures i.block !in fs.objs && fs.objs[i.block := Obj(id, i)].Keys <= v.shapes[i.block := s].Keys
    ensures Partition(meta, m'.store.Keys, OwnMap(fs.objs[i.block := Obj(id, i)], v.shapes[i.block := s]), used')
  {
    var own := OwnMap(fs.objs, v.shapes);
    if i.block in fs.objs {
      OwnedPart(meta + Owned(i, s), fs.inodes.store.Keys, fs.objs, v.shapes, used, i.block);
    }
    NodesChanged(meta + Owned(i, s), fs.inodes.store.Keys, own, used, m'.store.Keys, used');
    Claimed(meta, m'.store.Keys, own, used', i.block, Owned(i, s));
    OwnMapPut(fs.objs, v.shapes, i.block, Obj(id, i), s);
  }

  /** The new object gets its place in the inode tree. */
  lemma AddStep(fs: Fs, v: View, csum: Csum, meta: set<nat>, used: set<nat>, i: Ino, s: Shape, rest0: set<nat>, used0: set<nat>,
      id: int, m': Mem, T': Tree, used': set<nat>)
    requires Whole(fs, v, csum, meta + Owned(i, s), used) && Owned(i, s) !! meta && 0 in meta
    requires Good(i, s, fs.dev, csum, map[], rest0, used0) && s.bM == map[] && i.bt.t == i.st.t == fs.inodes.t
    requires InodesOk(m', T') && id !in v.tree.m && T'.m == v.tree.m[id := i.block] && TreeMoved(fs.inodes, used, m', used')
    requires Device(fs.dev, used')
    ensures i.block !in fs.objs
    ensures Whole(WithObj(fs, i.block, Obj(id, i), fs.dev).(inodes := m'), WithView(v, i.block, s, map[]).(tree := T'), csum, meta, used')
  {
    hide Healthy, InodesOk, Partition, Owned, Good, TreeMoved, Listed, Others;
    var fs', v' := WithObj(fs, i.block, Obj(id, i), fs.dev).(inodes := m'), WithView(v, i.block, s, map[]).(tree := T');
    AddedParts(fs, v, meta, used, i, s, m', used', id);
    ListedAdd(fs.objs, v.tree.m, Obj(id, i));
    assert Backed(s, map[]);
    MovedDegree(fs.inodes, used, m', used');
    AllOwnedPart(meta, m'.store.Keys, fs'.objs, v'.shapes, used');
    OwnedPart(meta, m'.store.Keys, fs'.objs, v'.shapes, used', i.block);
    Undisturbed(i, s, fs.dev, csum, map[], rest0, used0, fs.dev, used');
    AddedBeside(fs, v, i, s, id, m', T', used');
    StillHealthy(fs, v, csum, used, fs', v', i.block, used');
  }

  lemma AddedBeside(fs: Fs, v: View, i: Ino, s: Shape, id: int, m': Mem, T': Tree, used': set<nat>)
    requires fs.objs.Keys == v.shapes.Keys == v.written.Keys && i.block !in fs.objs
    requires var fs', v' := WithObj(fs, i.block, Obj(id, i), fs.dev).(inodes := m'), WithView(v, i.block, s, map[]).(tree := T');
      forall b :: b in fs'.objs ==> b in v'.shapes && Owned(fs'.objs[b].ino, v'.shapes[b]) <= used'
    ensures var fs', v' := WithObj(fs, i.block, Obj(id, i), fs.dev).(inodes := m'), WithView(v, i.block, s, map[]).(tree := T');
      fs'.objs.Keys == v'.shapes.Keys == v'.written.Keys && Others(fs, v, fs', v', i.block, used')
  {
    hide Owned;
    var fs', v' := WithObj(fs, i.block, Obj(id, i), fs.dev).(inodes := m'), WithView(v, i.block, s, map[]).(tree := T');
    forall c | c in fs'.objs && c != i.block
      ensures Owned(fs.objs[c].ino, v.shapes[c]) <= used'
    {
      assert Owned(fs'.objs[c].ino, v'.shapes[c]) <= used';
    }
  }

  lemma DroppedParts(fs: Fs, v: View, meta: set<nat>, used: set<nat>, b: int, m': Mem, used': set<nat>)
    requires fs.objs.Keys == v.shapes.Keys && Partition(meta, fs.inodes.store.Keys, OwnMap(fs.objs, v.shapes), used)
    requires b in fs.objs && TreeMoved(fs.inodes, used, m', used')
    ensures (fs.objs - {b}).Keys <= (v.shapes - {b}).Keys
    ensures Partition(meta + Owned(fs.objs[b].ino, v.shapes[b]), m'.store.Keys, OwnMap(fs.objs - {b}, v.shapes - {b}), used')
    ensures Owned(fs.objs[b].ino, v.shapes[b]) !! meta && Owned(fs.objs[b].ino, v.shapes[b]) <= used' && 0 in meta && 0 in used'
  {
    var own := OwnMap(fs.objs, v.shapes);
    assert own[b] == Owned(fs.objs[b].ino, v.shapes[b]);
    NodesChanged(meta, fs.inodes.store.Keys, own, used, m'.store.Keys, used');
    OwnPart(meta, m'.store.Keys, own, used', b);
    Abandoned(meta, m'.store.Keys, own, used', b);
    OwnMapDrop(fs.objs, v.shapes, b);
  }

  function Without(fs: Fs, b: int): Fs {
    fs.(objs := fs.objs - {b})
  }

  ghost function ViewWithout(v: View, b: int): View {
    v.(shapes := v.shapes - {b}, written := v.written - {b})
  }

  /** The inode tree no longer names the object; its blocks are still to be given back. */
  lemma DropStep(fs: Fs, v: View, csum: Csum, meta: set<nat>, used: set<nat>, id: int, m': Mem, T': Tree, used': set<nat>)
    requires Whole(fs, v, csum, meta, used) && id in v.tree.m
    requires InodesOk(m', T') && T'.m == v.tree.m - {id} && TreeMoved(fs.inodes, used, m', used') && Device(fs.dev, used')
    ensures var b := v.tree.m[id];
      && b in fs.objs && b in v.shapes
      && var i, s := fs.objs[b].ino, v.shapes[b];
      && Whole(Without(fs, b).(inodes := m'), ViewWithout(v, b).(tree := T'), csum, meta + Owned(i, s), used')
      && Owns(i, s, used' - Owned(i, s), used') && Owned(i, s) !! meta && 0 in meta
  {
    hide InodesOk, Partition, Owned, Owns, TreeMoved;
    var b := v.tree.m[id];
    var i, s := fs.objs[b].ino, v.shapes[b];
    var fs', v' := Without(fs, b).(inodes := m'), ViewWithout(v, b).(tree := T');
    assert Healthy(i, s, fs.dev, csum, v.written[b], used);
    DroppedParts(fs, v, meta, used, b, m', used');
    MovedDegree(fs.inodes, used, m', used');
    ListedDrop(fs.objs, v.tree.m, id);
    OwnsAmong(i, s, used - Owned(i, s), used, used');
    AllOwnedPart(meta + Owned(i, s), m'.store.Keys, fs'.objs, v'.shapes, used');
    assert Others(fs, v, fs', v', -1, used') by {
      forall c | c in fs'.objs
        ensures Owned(fs.objs[c].ino, v.shapes[c]) <= used'
      {
        assert Owned(fs'.objs[c].ino, v'.shapes[c]) <= used';
      }
    }
    StillHealthy(fs, v, csum, used, fs', v', -1, used');
  }
}
