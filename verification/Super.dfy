/** struct nkfs_sb: formatting a device and its operations on objects, core/super.c:401-465 and 532-663. */
module Super {
  import opened Common
  import opened Stripes
  import opened Pages
  import opened BtreeShape
  import opened Balloc
  import opened Btree
  import BtreeClass
  import opened BtreePath
  import opened BtreeAsWritten
  import opened InodeMap
  import opened InodeData
  import opened InodeRoom
  import opened InodePages
  import opened Ownership
  import opened SuperState
  import opened SuperOps

  /** The blocks before n. */
  ghost function Below(n: nat): (r: set<nat>)
    ensures |r| == n && forall b: nat :: b in r <==> b < n
  {
    if n == 0 then {} else Below(n - 1) + {n - 1}
  }

  /** The header and the bitmap. */
  ghost function Meta(l: Layout): (r: set<nat>) {
    Below(l.bmBlock + l.bmBlocks)
  }

  lemma NewWhole(m: Mem, T: Tree, dev: seq<Bytes>, csum: Csum, meta: set<nat>, used: set<nat>)
    requires InodesOk(m, T) && T.m == map[] && 0 in meta && meta !! m.store.Keys && used == meta + m.store.Keys
    requires Device(dev, used) && EightBytes(csum)
    ensures Whole(Fs(m, map[], dev), View(T, map[], map[]), csum, meta, used)
    ensures Objects(Fs(m, map[], dev), View(T, map[], map[])) == map[]
  {
    assert OwnMap(map[], map[]) == map[];
    assert AllOwned(map[]) == {};
  }

  /** The marking loop of nkfs_sb_format. */
  method MarkMeta(space: Space)
    requires space.Valid() && space.used == {}
    modifies space
    ensures space.Valid() && space.used == Meta(space.layout)
  {
    var i: nat := 0;
    while i < space.layout.bmBlock + space.layout.bmBlocks
      invariant 0 <= i <= space.layout.bmBlock + space.layout.bmBlocks
      invariant space.Valid() && space.used == Below(i)
    {
      var e := space.BlockMark(i, true);
      i := i + 1;
    }
  }

  // ---------------------------------------------------------------- the plain model

  /** An object, as its users see it. */
  datatype File = File(size: nat, bytes: map<nat, bv8>)

  datatype Op =
    | Create(id: int)
    | Put(id: int, off: nat, pgOff: nat, len: nat, pages: seq<Bytes>)
    | Get(id: int, off: nat, pgOff: nat, len: nat, pages: seq<Bytes>)
    | Delete(id: int)

  ghost predicate CanDo(op: Op) {
    && 0 <= op.id < KEY_LIMIT
    && (op.Put? || op.Get? ==> op.off + op.len <= U64 && Paged(op.pages) && op.pgOff < 4096 && op.len + op.pgOff < U32)
  }

  ghost function Apply(files: map<int, File>, op: Op): map<int, File> {
    match op
    case Create(id) => if id in files then files else files[id := File(0, map[])]
    case Put(id, off, pgOff, len, pages) =>
      if id !in files then files
      else
        var data := Region(Concat(pages), pgOff, len);
        files[id := File(SizeAfter(files[id].size, off, |data|, Tail(pgOff, len)), Over(files[id].bytes, off, data))]
    case Get(_, _, _, _, _) => files
    case Delete(id) => files - {id}
  }

  ghost function Replay(files: map<int, File>, ops: seq<Op>): map<int, File> {
    if ops == [] then files else Apply(Replay(files, ops[..|ops| - 1]), ops[|ops| - 1])
  }

  ghost function FilesOf(objects: map<int, Data>): map<int, File> {
    map k | k in objects :: File(objects[k].size, objects[k].bytes)
  }

  ghost function BlocksOf(objects: map<int, Data>): map<int, set<nat>> {
    map k | k in objects :: objects[k].blocks
  }

  lemma FilesPut(objects: map<int, Data>, id: int, d: Data)
    ensures FilesOf(objects[id := d]) == FilesOf(objects)[id := File(d.size, d.bytes)]
    ensures BlocksOf(objects[id := d]) == BlocksOf(objects)[id := d.blocks]
  {
  }

  lemma FilesDrop(objects: map<int, Data>, id: int)
    ensures FilesOf(objects - {id}) == FilesOf(objects) - {id}
    ensures BlocksOf(objects - {id}) == BlocksOf(objects) - {id}
  {
  }

  lemma OverIs(w: map<nat, bv8>, w0: map<nat, bv8>, off: nat, buf: Bytes)
    requires IsOver(w, w0, off, buf, |buf|)
    ensures w == Over(w0, off, buf)
  {
    assert w.Keys == Over(w0, off, buf).Keys;
  }

  /** The blocks that the objects own are those of the inodes that the inode tree names. */
  lemma SameOwners(fs: Fs, v: View)
    requires Listed(fs.objs, v.tree.m) && fs.objs.Keys == v.shapes.Keys == v.written.Keys
    ensures AllOwned(OwnMap(fs.objs, v.shapes)) == AllOwned(BlocksOf(Objects(fs, v)))
  {
    var own, held := OwnMap(fs.objs, v.shapes), BlocksOf(Objects(fs, v));
    forall x | x in AllOwned(own)
      ensures x in AllOwned(held)
    {
      var b :| b in own && x in own[b];
      assert x in held[fs.objs[b].id];
    }
    forall x | x in AllOwned(held)
      ensures x in AllOwned(own)
    {
      var k :| k in held && x in held[k];
      assert x in own[v.tree.m[k]];
    }
  }

  lemma BlocksAre(fs: Fs, v: View, k: int)
    requires Listed(fs.objs, v.tree.m) && fs.objs.Keys == v.shapes.Keys == v.written.Keys && k in v.tree.m
    ensures v.tree.m[k] in fs.objs && fs.objs[v.tree.m[k]].id == k
    ensures Objects(fs, v)[k].blocks == OwnMap(fs.objs, v.shapes)[v.tree.m[k]]
  {
  }

  lemma Owners(fs: Fs, v: View, csum: Csum, meta: set<nat>, used: set<nat>)
    requires Whole(fs, v, csum, meta, used)
    ensures used == meta + fs.inodes.store.Keys + AllOwned(BlocksOf(Objects(fs, v))) && meta !! fs.inodes.store.Keys
    ensures forall k :: k in Objects(fs, v) ==> Objects(fs, v)[k].blocks !! meta + fs.inodes.store.Keys
    ensures forall k, l :: k in Objects(fs, v) && l in Objects(fs, v) && k != l ==>
      Objects(fs, v)[k].blocks !! Objects(fs, v)[l].blocks
  {
    hide AllHealthy, InodesOk, Device, EightBytes, Objects, OwnMap, AllOwned;
    SameOwners(fs, v);
    var objects := Objects(fs, v);
    assert objects.Keys == v.tree.m.Keys by {
      ObjectsKeys(fs, v);
    }
    forall k | k in objects
      ensures objects[k].blocks !! meta + fs.inodes.store.Keys
    {
      OwnedBy(fs, v, meta, used, k);
    }
    forall k, l | k in objects && l in objects && k != l
      ensures objects[k].blocks !! objects[l].blocks
    {
      OwnedApart(fs, v, meta, used, k, l);
    }
  }

  lemma OwnedBy(fs: Fs, v: View, meta: set<nat>, used: set<nat>, k: int)
    requires Listed(fs.objs, v.tree.m) && fs.objs.Keys == v.shapes.Keys == v.written.Keys && k in v.tree.m
    requires Partition(meta, fs.inodes.store.Keys, OwnMap(fs.objs, v.shapes), used)
    ensures Objects(fs, v)[k].blocks !! meta + fs.inodes.store.Keys
  {
    BlocksAre(fs, v, k);
    OwnedPart(meta, fs.inodes.store.Keys, fs.objs, v.shapes, used, v.tree.m[k]);
  }

  lemma OwnedApart(fs: Fs, v: View, meta: set<nat>, used: set<nat>, k: int, l: int)
    requires Listed(fs.objs, v.tree.m) && fs.objs.Keys == v.shapes.Keys == v.written.Keys
    requires k in v.tree.m && l in v.tree.m && k != l
    requires Partition(meta, fs.inodes.store.Keys, OwnMap(fs.objs, v.shapes), used)
    ensures Objects(fs, v)[k].blocks !! Objects(fs, v)[l].blocks
  {
    BlocksAre(fs, v, k);
    BlocksAre(fs, v, l);
    var own := OwnMap(fs.objs, v.shapes);
    assert v.tree.m[k] in own && v.tree.m[l] in own && v.tree.m[k] != v.tree.m[l];
    assert own[v.tree.m[k]] !! own[v.tree.m[l]];
  }

  /** What an operation answers: for Put and Get how many bytes, for Get the pages with them. */
  datatype Result = Result(err: SbErr, count: nat, pages: seq<Bytes>)

  /** The bytes of pages' from pgOff on are the object's, and the other bytes are those of pages. */
  ghost predicate Delivered(f: File, off: nat, pgOff: nat, pages: seq<Bytes>, pages': seq<Bytes>, count: nat) {
    && Paged(pages') && |pages'| == |pages| && |Concat(pages')| == |Concat(pages)| && pgOff + count <= |Concat(pages)|
    && var data := Concat(pages')[pgOff..pgOff + count];
      Concat(pages') == Splice(Concat(pages), pgOff, data) && Shows(data, off, f.bytes)
  }

  /** The answers there can be to an operation on these objects. */
  ghost predicate Answers(files: map<int, File>, op: Op, r: Result) {
    match op
    case Create(id) => r.err == if id in files then SbTree(EEXIST) else SbOk
    case Delete(id) => r.err == if id in files then SbOk else SbTree(ENOENT)
    case Put(id, off, pgOff, len, pages) =>
      if id !in files then r.err == SbTree(ENOENT)
      else
        && r.count == |Region(Concat(pages), pgOff, len)|
        && r.err == if r.count == len then SbOk else SbWrite(FewPages)
    case Get(id, off, pgOff, len, pages) =>
      if id !in files then r.err == SbTree(ENOENT)
      else
        var f := files[id];
        && pgOff < 4096 && r.err == GetAnswer(f.size, f.bytes, off, pgOff, len, |pages|)
        && (off <= f.size && len > 0 && r.err == SbOk ==>
          r.count == ReadCount(f.size, off, len, Tail(pgOff, len)) && Delivered(f, off, pgOff, pages, r.pages, r.count))
  }

  /** An operation that could not get the blocks it needed. */
  predicate OutOfRoom(r: Result) {
    r.err == SbWrite(NoRoom) || (r.err.SbTree? && OutOfBlocks(r.err.e))
  }

  /** A refused Put has written a part, a refused Create nothing. */
  ghost predicate Partly(files: map<int, File>, op: Op, r: Result, files': map<int, File>) {
    match op
    case Create(id) => files' == files
    case Put(id, off, pgOff, len, pages) =>
      var data := Region(Concat(pages), pgOff, len);
      && id in files && id in files' && files' == files[id := files'[id]] && r.count < |data|
      && files'[id] == File(SizeAfter(files[id].size, off, r.count, Tail(pgOff, len)), Over(files[id].bytes, off, data[..r.count]))
    case _ => false
  }

  /** The blocks that an operation takes at most. */
  ghost function OpNeeds(v: View, op: Op): nat {
    match op
    case Create(_) => Height(v.tree) + 5
    case Put(id, off, pgOff, len, pages) => PutNeeds(v, id, off, |Region(Concat(pages), pgOff, len)|)
    case _ => 0
  }

  /** The blocks of the object that an operation may have to make, and whether it is to make an object. */
  ghost function TouchedBy(op: Op): nat {
    if op.Put? then |Touched(op.off, |Region(Concat(op.pages), op.pgOff, op.len)|)| else 0
  }

  function CreatesBy(op: Op): nat {
    if op.Create? then 1 else 0
  }

  lemma OpNeedsAtMost(v: View, op: Op)
    ensures OpNeeds(v, op) <= Cost(TouchedBy(op), LevelsAt(v, op.id)) + CreatesBy(op) * (Height(v.tree) + 5)
  {
    hide Cost, Touched, Levels, Needs;
    if op.Put? && op.id in v.tree.m && v.tree.m[op.id] in v.shapes {
      NeedsAtMost(v.shapes[v.tree.m[op.id]], op.off, |Region(Concat(op.pages), op.pgOff, op.len)|);
    }
  }

  /** One operation: it does what it does to the plain model and answers so, or it needed more blocks than were free. */
  ghost predicate Step(files: map<int, File>, op: Op, r: Result, files': map<int, File>, used: int, needs: nat, nr: nat) {
    if OutOfRoom(r) then Partly(files, op, r, files') && used + needs > nr
    else Answers(files, op, r) && files' == Apply(files, op)
  }

  /** Only the blocks of these objects have changed. */
  ghost predicate OnlyFor(ids: set<int>, before: map<int, Data>, after: map<int, Data>) {
    BlocksOf(after) - ids == BlocksOf(before) - ids
  }

  lemma PutFiles(before: map<int, Data>, after: map<int, Data>, id: int, off: nat, data: Bytes, done: nat, tail: nat)
    requires id in before && id in after && after == before[id := after[id]] && tail <= U64
    requires Updated(before[id], after[id], off, data, done, tail)
    ensures done <= |data| && OnlyFor({id}, before, after)
    ensures FilesOf(after) == FilesOf(before)[id := File(SizeAfter(before[id].size, off, done, tail), Over(before[id].bytes, off, data[..done]))]
  {
    FilesPut(before, id, after[id]);
    CutOver(after[id].bytes, before[id].bytes, off, data, done);
    OverIs(after[id].bytes, before[id].bytes, off, data[..done]);
  }

  lemma CutOver(w: map<nat, bv8>, w0: map<nat, bv8>, off: nat, buf: Bytes, n: nat)
    requires IsOver(w, w0, off, buf, n)
    ensures n <= |buf| && IsOver(w, w0, off, buf[..n], n)
  {
  }

  /** An operation will run out of blocks. */
  ghost predicate OpShort(v: View, used: set<nat>, op: Op, nr: nat) {
    match op
    case Create(id) => |used| + 3 + Takes(v.tree, id) > nr
    case Put(id, off, pgOff, len, pages) => PutShort(v, id, off, |Region(Concat(pages), pgOff, len)|, used, nr)
    case _ => false
  }

  /** One operation with trees v and the blocks `used` in use: a step, which is refused exactly if it runs out of blocks. */
  ghost predicate Happened(files: map<int, File>, v: View, used: set<nat>, op: Op, r: Result, files': map<int, File>, nr: nat) {
    && (OutOfRoom(r) <==> OpShort(v, used, op, nr))
    && Step(files, op, r, files', |used|, OpNeeds(v, op), nr)
    && (op.Create? ==> r.err == CreateErr(v.tree, op.id, |used|, nr))
  }

  /** As written it will fault: a deletion that the inode tree does not bear, or a put whose rollback is stuck. */
  ghost predicate Faults(v: View, used: set<nat>, op: Op, nr: nat) {
    match op
    case Delete(id) => id in v.tree.m && !Clean(v.tree, id)
    case Put(id, off, pgOff, len, pages) => PutStuck(v, id, off, |Region(Concat(pages), pgOff, len)|, used, nr)
    case _ => false
  }

  /** The objects, wherever the inode tree and the inodes name each other. */
  ghost function ContentsOf(fs: Fs, v: View): map<int, Data> {
    if Listed(fs.objs, v.tree.m) && fs.objs.Keys == v.shapes.Keys == v.written.Keys then Objects(fs, v) else map[]
  }

  // ---------------------------------------------------------------- struct nkfs_sb

  class Sb {
    const space: Space
    const csum: Csum
    /** The degree of the trees. */
    const t: nat
    var stopping: bool
    var fs: Fs
    ghost var view: View

    ghost predicate Valid()
      reads this, space
    {
      Sized(fs, space) && t >= 2 && fs.inodes.t == t && Whole(fs, view, csum, Meta(space.layout), space.used)
    }

    ghost function Contents(): map<int, Data>
      reads this
    {
      ContentsOf(fs, view)
    }

    ghost function Nodes(): set<nat>
      reads this
    {
      fs.inodes.store.Keys
    }

    constructor (space: Space, csum: Csum, t: nat, m: Mem, dev: seq<Bytes>, ghost T: Tree)
      requires space.Valid() && t >= 2 && m.t == t && |dev| == space.layout.nrBlocks && Device(dev, space.used) && EightBytes(csum)
      requires InodesOk(m, T) && T.m == map[] && Meta(space.layout) !! m.store.Keys
      requires space.used == Meta(space.layout) + m.store.Keys && 0 in Meta(space.layout)
      ensures Valid() && Contents() == map[] && !stopping && view == View(T, map[], map[])
      ensures this.space == space && this.csum == csum && this.t == t && Nodes() == m.store.Keys && fs.dev == dev
    {
      this.space, this.csum, this.t := space, csum, t;
      stopping := false;
      fs := Fs(m, map[], dev);
      view := View(T, map[], map[]);
      NewWhole(m, T, dev, csum, Meta(space.layout), space.used);
    }

    /** Formatting works for every device that has room for a header, a bitmap and one more block. */
    static method Format(size: nat, t: nat, csum: Csum, dev: seq<Bytes>) returns (r: Sb?)
      requires t >= 2 && EightBytes(csum) && |dev| == size / 65536 && forall b :: 0 <= b < |dev| ==> |dev[b]| == 65536
      ensures r == null <==> GenHeader(size, 65536).NoHeader?
      ensures r != null ==>
        && fresh(r) && fresh(r.space) && r.Valid() && r.Contents() == map[] && !r.stopping && r.csum == csum
        && r.space.layout == GenHeader(size, 65536).layout
        && r.space.usedBlocks == r.space.layout.bmBlock + r.space.layout.bmBlocks + 1
        && Height(r.view.tree) == 0 && r.view.shapes == map[]
        && r.t == t && r.view.tree.t == t && r.fs.inodes.t == t && r.fs.dev == dev
    {
      var h := GenHeader(size, 65536);
      if h.NoHeader? {
        return null;
      }
      var space := new Space(h.layout);
      space.BmClear();
      MarkMeta(space);
      assert 0 in Meta(h.layout);
      var ok, m;
      ghost var T;
      ok, m, T := NewTree(t, space);
      assert forall b :: b in space.used ==> b < |dev| by {
        forall b | b in space.used
          ensures b < |dev|
        {
          space.InRange(b);
        }
      }
      r := new Sb(space, csum, t, m, dev, T);
    }

    /** The inode tree and the trees of all objects have the degree of the device. */
    lemma OneDegree()
      requires Valid()
      ensures view.tree.t == t && forall b :: b in fs.objs ==> fs.objs[b].ino.bt.t == fs.objs[b].ino.st.t == t
    {
    }

    /** With fewer than 2T-1 objects the inode tree is a root with room for one more. */
    lemma FewObjects(id: int)
      requires Valid() && |Contents()| < 2 * t - 1 && 0 <= id < KEY_LIMIT
      ensures Height(view.tree) == 0 && Takes(view.tree, id) == 0
    {
      hide Healthy, Partition, Takes;
      KnownIds(fs, view, csum, Meta(space.layout), space.used);
      assert |Contents().Keys| == |Contents()| && |view.tree.m.Keys| == |view.tree.m|;
      BtreeClass.FewKeys(view.tree, id);
    }

    /** Every set bit has one owner: the header and bitmap, the inode tree, or one object. */
    lemma OneOwner()
      requires Valid()
      ensures space.used == Meta(space.layout) + Nodes() + AllOwned(BlocksOf(Contents())) && Meta(space.layout) !! Nodes()
      ensures forall k :: k in Contents() ==> Contents()[k].blocks !! Meta(space.layout) + Nodes()
      ensures forall k, l :: k in Contents() && l in Contents() && k != l ==> Contents()[k].blocks !! Contents()[l].blocks
    {
      hide Whole, Listed;
      WholeHas(fs, view, csum, Meta(space.layout), space.used);
      Owners(fs, view, csum, Meta(space.layout), space.used);
    }

    /** The id is what nkfs_obj_id_gen has drawn. */
    method CreateObj(id: int) returns (err: SbErr, ghost blocks: set<nat>)
      requires Valid() && 0 <= id < KEY_LIMIT
      modifies this, space
      ensures Valid() && stopping == old(stopping) && (err == SbAgain <==> stopping)
      ensures err == SbOk ==> Contents() == old(Contents())[id := Data(0, map[], blocks)]
      ensures err != SbOk ==> Contents() == old(Contents())
      ensures err == SbOk ==> space.usedBlocks == old(space.usedBlocks + 3 + Takes(view.tree, id))
      ensures !stopping ==> err == old(CreateErr(view.tree, id, space.usedBlocks, space.layout.nrBlocks))
      ensures !stopping ==>
        err == (if id in old(Contents()) then SbTree(EEXIST) else SbOk) || (err.SbTree? && OutOfBlocks(err.e))
      ensures !stopping ==>
        (err.SbTree? && OutOfBlocks(err.e) <==> old(space.usedBlocks + 3 + Takes(view.tree, id)) > space.layout.nrBlocks)
      ensures err.SbTree? && OutOfBlocks(err.e) ==> old(space.usedBlocks + Height(view.tree)) + 5 > space.layout.nrBlocks
      ensures !stopping && !(err.SbTree? && OutOfBlocks(err.e)) ==>
        Spent(old(view), old(space.usedBlocks), view, space.usedBlocks, id, 0, 1)
    {
      hide Whole, Listed, Spent, Height, DataOf, InodesOk, Device, Takes, CreateErr;
      WholeHas(fs, view, csum, Meta(space.layout), space.used);
      if stopping {
        return SbAgain, {};
      }
      var fs1;
      ghost var v1;
      fs1, v1, err, blocks := SuperOps.CreateObj(fs, view, space, csum, t, id, Meta(space.layout));
      fs, view := fs1, v1;
      WholeHas(fs, view, csum, Meta(space.layout), space.used);
    }

    /** The bytes of the pages are written over those of the object, up to where something was missing. */
    method PutObj(id: int, off: nat, pgOff: nat, len: nat, pages: seq<Bytes>, asWritten: bool)
      returns (err: SbErr, done: nat, fault: bool)
      requires Valid() && 0 <= id < KEY_LIMIT && off + len <= U64 && Paged(pages) && pgOff < 4096 && len + pgOff < U32
      modifies this, space
      ensures fault ==> err == SbWrite(NoRoom)
      ensures err == SbWrite(NoRoom) <==>
        !stopping && PutShort(old(view), id, off, |Region(Concat(pages), pgOff, len)|, old(space.used), space.layout.nrBlocks)
      ensures fault <==>
        asWritten && !stopping && PutStuck(old(view), id, off, |Region(Concat(pages), pgOff, len)|, old(space.used), space.layout.nrBlocks)
      ensures err == SbWrite(NoRoom) ==>
        old(space.usedBlocks + PutNeeds(view, id, off, |Region(Concat(pages), pgOff, len)|)) > space.layout.nrBlocks
      ensures stopping == old(stopping) && (err == SbAgain <==> stopping)
      ensures !fault ==> Valid()
      ensures !stopping ==> (err == SbTree(ENOENT) <==> id !in old(Contents()))
      ensures stopping || id !in old(Contents()) ==> Contents() == old(Contents())
      ensures !stopping && !fault && id in old(Contents()) ==>
        var data := Region(Concat(pages), pgOff, len);
        && id in Contents() && Contents() == old(Contents())[id := Contents()[id]]
        && Updated(old(Contents())[id], Contents()[id], off, data, done, Tail(pgOff, len))
        && (done > 0 ==> (Contents()[id].size == Max(old(Contents())[id].size, off + done) <==> off + done < U64))
        && (err == SbOk ==> done == |data| == len)
        && (err == SbWrite(FewPages) ==> done == |data| < len)
        && (err == SbWrite(NoRoom) ==> done < |data|)
        && (err == SbOk || err == SbWrite(FewPages) || err == SbWrite(NoRoom))
      ensures !stopping && err != SbWrite(NoRoom) ==>
        Spent(old(view), old(space.usedBlocks), view, space.usedBlocks, id, |Touched(off, |Region(Concat(pages), pgOff, len)|)|, 0)
    {
      hide Whole, Listed, Updated, Spent, Touched, PutNeeds, PutShort, PutStuck, Region, Objects, Concat, Meta, Tail;
      WholeHas(fs, view, csum, Meta(space.layout), space.used);
      KnownIds(fs, view, csum, Meta(space.layout), space.used);
      done, fault := 0, false;
      if stopping {
        err := SbAgain;
        return;
      }
      var fs1;
      ghost var v1, d;
      fs1, v1, err, done, d, fault :=
        SuperOps.PutObj(fs, view, space, csum, id, off, pgOff, len, pages, asWritten, Meta(space.layout));
      if fault {
        return;
      }
      fs, view := fs1, v1;
      WholeHas(fs, view, csum, Meta(space.layout), space.used);
    }

    /** Reading up to the size of the object: a byte that was written has its last value. */
    method GetObj(id: int, off: nat, pgOff: nat, len: nat, pages: seq<Bytes>)
      returns (err: SbErr, count: nat, ghost data: Bytes, pages': seq<Bytes>)
      requires Valid() && 0 <= id < KEY_LIMIT && off + len <= U64 && Paged(pages) && pgOff < 4096 && len + pgOff < U32
      modifies this
      ensures Valid() && stopping == old(stopping) && Contents() == old(Contents()) && (err == SbAgain <==> stopping)
      ensures !err.SbWrite? && (err.SbTree? ==> err.e == ENOENT)
      ensures view.tree == old(view.tree) && ShapesGrew(old(view), view, 0)
      ensures !stopping ==> (err == SbTree(ENOENT) <==> id !in Contents())
      ensures !stopping && id in Contents() ==>
        var d := Contents()[id];
        && err == GetAnswer(d.size, d.bytes, off, pgOff, len, |pages|)
        && (off <= d.size && len > 0 && err == SbOk ==>
          && count == |data| == ReadCount(d.size, off, len, Tail(pgOff, len)) && Shows(data, off, d.bytes)
          && Paged(pages') && |pages'| == |pages| && pgOff + |data| <= |Concat(pages)|
          && Concat(pages') == Splice(Concat(pages), pgOff, data))
    {
      hide Whole, Listed, Shows, GetAnswer;
      WholeHas(fs, view, csum, Meta(space.layout), space.used);
      count, data, pages' := 0, [], pages;
      if stopping {
        err := SbAgain;
        return;
      }
      var fs1;
      ghost var v1;
      fs1, v1, err, count, data, pages' :=
        SuperOps.GetObj(fs, view, csum, id, off, pgOff, len, pages, Meta(space.layout), space.used);
      fs, view := fs1, v1;
      WholeHas(fs, view, csum, Meta(space.layout), space.used);
    }

    method DeleteObj(id: int, asWritten: bool) returns (err: SbErr, fault: bool)
      requires Valid() && 0 <= id < KEY_LIMIT
      modifies this, space
      ensures fault <==> asWritten && !stopping && id in old(Contents()) && !old(Clean(view.tree, id))
      ensures stopping == old(stopping) && (!fault ==> Valid())
      ensures err == if stopping then SbAgain else if id in old(Contents()) then SbOk else SbTree(ENOENT)
      ensures !fault ==> Contents() == if stopping then old(Contents()) else old(Contents()) - {id}
      ensures !fault ==> space.usedBlocks <= old(space.usedBlocks) && Height(view.tree) <= old(Height(view.tree))
      ensures !fault ==> ShapesGrew(old(view), view, 0)
    {
      hide Whole, Listed, Clean;
      WholeHas(fs, view, csum, Meta(space.layout), space.used);
      fault := false;
      if stopping {
        err := SbAgain;
        return;
      }
      var fs1;
      ghost var v1;
      fs1, v1, err, fault := SuperOps.DeleteObj(fs, view, space, csum, id, asWritten, Meta(space.layout));
      if fault {
        return;
      }
      fs, view := fs1, v1;
      WholeHas(fs, view, csum, Meta(space.layout), space.used);
    }

    /** One operation, with its answer, unless it faults. */
    method Perform(op: Op, asWritten: bool) returns (r: Result, fault: bool)
      requires Valid() && !stopping && CanDo(op)
      modifies this, space
      ensures fault <==> asWritten && Faults(old(view), old(space.used), op, space.layout.nrBlocks)
      ensures fault && op.Put? ==> old(space.usedBlocks + OpNeeds(view, op)) > space.layout.nrBlocks
      ensures !fault ==> Valid() && !stopping && OnlyFor({op.id}, old(Contents()), Contents())
      ensures !fault ==>
        Happened(old(FilesOf(Contents())), old(view), old(space.used), op, r, FilesOf(Contents()), space.layout.nrBlocks)
      ensures !fault && !OutOfRoom(r) ==>
        Spent(old(view), old(space.usedBlocks), view, space.usedBlocks, op.id, TouchedBy(op), CreatesBy(op))
    {
      hide Spent, Touched, ShapesGrew, Whole, ContentsOf, Step, OnlyFor, FilesOf, Updated, Shows, GetAnswer, PutNeeds;
      hide Clean, PutShort, PutStuck, Takes, CreateErr;
      ghost var before, used, nr := Contents(), space.usedBlocks, space.layout.nrBlocks;
      KnownIds(fs, view, csum, Meta(space.layout), space.used);
      var err, count, pages' := SbOk, 0, [];
      fault := false;
      match op {
        case Create(id) =>
          ghost var h := Height(view.tree);
          ghost var blocks;
          err, blocks := CreateObj(id);
          StepCreate(before, Contents(), id, blocks, err, used, h, nr);
        case Put(id, off, pgOff, len, pages) =>
          ghost var needs := OpNeeds(view, op);
          err, count, fault := PutObj(id, off, pgOff, len, pages, asWritten);
          if !fault {
            StepPut(before, Contents(), id, off, pgOff, len, pages, err, count, used, needs, nr);
          }
        case Get(id, off, pgOff, len, pages) =>
          ghost var data;
          ghost var v := view;
          err, count, data, pages' := GetObj(id, off, pgOff, len, pages);
          SpentNothing(v, used, view, space.usedBlocks, id);
          StepGet(before, id, off, pgOff, len, pages, err, count, data, pages', used, nr);
        case Delete(id) =>
          ghost var v := view;
          err, fault := DeleteObj(id, asWritten);
          if !fault {
            SpentNothing(v, used, view, space.usedBlocks, id);
            StepDelete(before, id, err, used, nr);
          }
      }
      r := Result(err, count, pages');
    }
  }

  lemma KnownIds(fs: Fs, v: View, csum: Csum, meta: set<nat>, used: set<nat>)
    requires Whole(fs, v, csum, meta, used)
    ensures ContentsOf(fs, v).Keys == v.tree.m.Keys
  {
    hide Whole;
    WholeHas(fs, v, csum, meta, used);
    ObjectsKeys(fs, v);
  }

  lemma SpentNothing(v: View, used: int, v': View, used': int, id: int)
    requires Height(v'.tree) <= Height(v.tree) && ShapesGrew(v, v', 0) && used' <= used
    ensures Spent(v, used, v', used', id, 0, 0)
  {
  }

  lemma StepCreate(before: map<int, Data>, after: map<int, Data>, id: int, blocks: set<nat>, err: SbErr, used: int, h: nat, nr: nat)
    requires err == SbOk ==> after == before[id := Data(0, map[], blocks)]
    requires err != SbOk ==> after == before
    requires err == (if id in before then SbTree(EEXIST) else SbOk) || (err.SbTree? && OutOfBlocks(err.e))
    requires err.SbTree? && OutOfBlocks(err.e) ==> used + h + 5 > nr
    ensures OnlyFor({id}, before, after)
    ensures Step(FilesOf(before), Create(id), Result(err, 0, []), FilesOf(after), used, h + 5, nr)
  {
    if err == SbOk {
      FilesPut(before, id, Data(0, map[], blocks));
    }
  }

  lemma StepDelete(before: map<int, Data>, id: int, err: SbErr, used: int, nr: nat)
    requires err == if id in before then SbOk else SbTree(ENOENT)
    ensures OnlyFor({id}, before, before - {id})
    ensures Step(FilesOf(before), Delete(id), Result(err, 0, []), FilesOf(before - {id}), used, 0, nr)
  {
    FilesDrop(before, id);
  }

  lemma StepPut(before: map<int, Data>, after: map<int, Data>, id: int, off: nat, pgOff: nat, len: nat, pages: seq<Bytes>,
      err: SbErr, done: nat, used: int, needs: nat, nr: nat)
    requires err == SbTree(ENOENT) <==> id !in before
    requires id !in before ==> after == before
    requires id in before ==>
      var data := Region(Concat(pages), pgOff, len);
      && id in after && after == before[id := after[id]] && Updated(before[id], after[id], off, data, done, Tail(pgOff, len))
      && (err == SbOk ==> done == |data| == len)
      && (err == SbWrite(FewPages) ==> done == |data| < len)
      && (err == SbWrite(NoRoom) ==> done < |data| && used + needs > nr)
      && (err == SbOk || err == SbWrite(FewPages) || err == SbWrite(NoRoom))
    ensures OnlyFor({id}, before, after)
    ensures Step(FilesOf(before), Put(id, off, pgOff, len, pages), Result(err, done, []), FilesOf(after), used, needs, nr)
  {
    hide Updated, Over;
    if id in before {
      var data := Region(Concat(pages), pgOff, len);
      PutFiles(before, after, id, off, data, done, Tail(pgOff, len));
      assert data[..|data|] == data;
    }
  }

  lemma StepGet(before: map<int, Data>, id: int, off: nat, pgOff: nat, len: nat, pages: seq<Bytes>,
      err: SbErr, count: nat, data: Bytes, pages': seq<Bytes>, used: int, nr: nat)
    requires Paged(pages) && pgOff < 4096 && err != SbAgain && !err.SbWrite? && (err.SbTree? ==> err.e == ENOENT)
    requires err == SbTree(ENOENT) <==> id !in before
    requires id in before ==>
      var d := before[id];
      && err == GetAnswer(d.size, d.bytes, off, pgOff, len, |pages|)
      && (off <= d.size && len > 0 && err == SbOk ==>
        && count == |data| == ReadCount(d.size, off, len, Tail(pgOff, len)) && Shows(data, off, d.bytes)
        && Paged(pages') && |pages'| == |pages| && pgOff + |data| <= |Concat(pages)|
        && Concat(pages') == Splice(Concat(pages), pgOff, data))
    ensures OnlyFor({id}, before, before)
    ensures Step(FilesOf(before), Get(id, off, pgOff, len, pages), Result(err, count, pages'), FilesOf(before), used, 0, nr)
  {
    hide GetAnswer;
    if id in before && off <= before[id].size && len > 0 && err == SbOk {
      SpliceAt(Concat(pages), pgOff, data);
    }
  }

  // ---------------------------------------------------------------- runs

  /** A device between two operations. */
  datatype Moment = Moment(files: map<int, File>, view: View, used: set<nat>)

  /** Each operation of a run is a step from one moment to the next. */
  ghost predicate Trace(ops: seq<Op>, answers: seq<Result>, trace: seq<Moment>, nr: nat) {
    && |answers| == |ops| && |trace| == |ops| + 1
    && forall j :: 0 <= j < |ops| ==> StepAt(ops, answers, trace, j, nr)
  }

  ghost predicate StepAt(ops: seq<Op>, answers: seq<Result>, trace: seq<Moment>, j: nat, nr: nat)
    requires j < |ops| && |answers| == |ops| && |trace| == |ops| + 1
  {
    Happened(trace[j].files, trace[j].view, trace[j].used, ops[j], answers[j], trace[j + 1].files, nr)
  }

  lemma TraceNext(ops: seq<Op>, answers: seq<Result>, trace: seq<Moment>, nr: nat, op: Op, r: Result, now: Moment)
    requires Trace(ops, answers, trace, nr)
    requires var last := trace[|ops|]; Happened(last.files, last.view, last.used, op, r, now.files, nr)
    ensures Trace(ops + [op], answers + [r], trace + [now], nr)
  {
    hide Happened;
    var ops', answers', trace' := ops + [op], answers + [r], trace + [now];
    forall j | 0 <= j < |ops'|
      ensures StepAt(ops', answers', trace', j, nr)
    {
      if j < |ops| {
        assert StepAt(ops, answers, trace, j, nr);
      }
    }
  }

  /** A run in which nothing was refused for want of room is the same run of the plain model. */
  lemma {:induction false} TraceReplays(ops: seq<Op>, answers: seq<Result>, trace: seq<Moment>, nr: nat)
    requires Trace(ops, answers, trace, nr) && NoneRefused(answers)
    ensures trace[|ops|].files == Replay(trace[0].files, ops)
  {
    hide Apply, Answers, Partly, OpShort;
    if ops != [] {
      var n := |ops| - 1;
      var o, a, t := ops[..n], answers[..n], trace[..n + 1];
      forall j | 0 <= j < n
        ensures StepAt(o, a, t, j, nr)
      {
        assert StepAt(ops, answers, trace, j, nr);
      }
      TraceReplays(o, a, t, nr);
      assert StepAt(ops, answers, trace, n, nr);
    }
  }

  /** Every byte that was written is below the size. */
  ghost predicate Contained(files: map<int, File>) {
    forall id, p :: id in files && p in files[id].bytes ==> p < files[id].size
  }

  lemma StepContained(files: map<int, File>, op: Op, r: Result, files': map<int, File>, used: int, needs: nat, nr: nat)
    requires Step(files, op, r, files', used, needs, nr) && Contained(files) && EndsBelow(op)
    ensures Contained(files')
  {
  }

  /** An operation that does not write up to 2^64. */
  predicate EndsBelow(op: Op) {
    op.Put? ==> op.off + op.len < U64
  }

  /** Over every run, refused operations or not. */
  lemma {:induction false} TraceContained(ops: seq<Op>, answers: seq<Result>, trace: seq<Moment>, nr: nat, j: nat)
    requires Trace(ops, answers, trace, nr) && Contained(trace[0].files) && j <= |ops|
    requires forall i :: 0 <= i < |ops| ==> EndsBelow(ops[i])
    ensures Contained(trace[j].files)
  {
    hide Step, Contained, OpShort;
    if j > 0 {
      TraceContained(ops, answers, trace, nr, j - 1);
      assert StepAt(ops, answers, trace, j - 1, nr);
      StepContained(trace[j - 1].files, ops[j - 1], answers[j - 1], trace[j].files, |trace[j - 1].used|,
        OpNeeds(trace[j - 1].view, ops[j - 1]), nr);
    }
  }

  // ---------------------------------------------------------------- the degree of the source

  /** With the degree of the source and fewer than 1791 objects, a new object takes exactly three blocks. */
  method CreateAtSource(sb: Sb, id: int) returns (err: SbErr)
    requires sb.Valid() && !sb.stopping && sb.t == 896 && |sb.Contents()| < 1791 && 0 <= id < KEY_LIMIT && id !in sb.Contents()
    modifies sb, sb.space
    ensures sb.Valid() && !sb.stopping
    ensures err == SbOk <==> old(sb.space.usedBlocks) + 3 <= sb.space.layout.nrBlocks
    ensures err == SbOk ==> sb.space.usedBlocks == old(sb.space.usedBlocks) + 3
    ensures err == SbOk ==> sb.Contents().Keys == old(sb.Contents()).Keys + {id}
    ensures err == SbOk ==> |sb.Contents()| == old(|sb.Contents()|) + 1
  {
    hide Whole, ContentsOf, Takes, Spent, Height, CreateErr;
    sb.FewObjects(id);
    ghost var blocks;
    err, blocks := sb.CreateObj(id);
    OneMoreObject(old(sb.Contents()), id, Data(0, map[], blocks));
  }

  lemma OneMoreObject(objects: map<int, Data>, id: int, d: Data)
    requires id !in objects
    ensures objects[id := d].Keys == objects.Keys + {id} && |objects[id := d]| == |objects| + 1
  {
    assert |objects| == |objects.Keys| && |objects[id := d]| == |objects[id := d].Keys|;
  }

  /** On a fresh device of 15 blocks, header, bitmap and inode tree take three of them. */
  method FifteenBlocks(csum: Csum, dev: seq<Bytes>) returns (sb: Sb)
    requires EightBytes(csum) && |dev| == 15 && forall b :: 0 <= b < |dev| ==> |dev[b]| == 65536
    ensures fresh(sb) && fresh(sb.space) && sb.Valid() && !sb.stopping && sb.t == 896 && sb.Contents() == map[]
    ensures sb.space.layout.nrBlocks == 15 && sb.space.usedBlocks == 3
  {
    hide Whole, ContentsOf, Device, EightBytes, Height;
    var f := Sb.Format(15 * 65536, 896, csum, dev);
    sb := f;
    assert sb.space.layout.nrBlocks == 15 && sb.space.layout.bmBlock + sb.space.layout.bmBlocks == 2;
  }

  /** Four objects fill it. */
  method FourObjects(csum: Csum, dev: seq<Bytes>) returns (sb: Sb, a: SbErr, b: SbErr, c: SbErr, d: SbErr)
    requires EightBytes(csum) && |dev| == 15 && forall b :: 0 <= b < |dev| ==> |dev[b]| == 65536
    ensures a == b == c == d == SbOk && sb.Valid() && sb.space.usedBlocks == 15
  {
    hide Whole, ContentsOf, EightBytes;
    sb := FifteenBlocks(csum, dev);
    a := CreateAtSource(sb, 1);
    b := CreateAtSource(sb, 2);
    c := CreateAtSource(sb, 3);
    d := CreateAtSource(sb, 4);
  }

  // ---------------------------------------------------------------- the last byte

  /** A put of one page that ends at 2^64 is answered with success; the size of the object stays as it was, whatever it was,
      and a get of the same bytes beyond the size is refused. */
  method PutAtTheEnd(sb: Sb, id: int, off: nat, pgOff: nat, len: nat, pages: seq<Bytes>, asWritten: bool)
    returns (put: SbErr, got: SbErr)
    requires sb.Valid() && !sb.stopping && 0 <= id < KEY_LIMIT && id in sb.Contents() && sb.Contents()[id].size < off
    requires 0 < len && off + len == U64 && pgOff + len <= 4096 && Paged(pages) && pages != []
    requires sb.space.usedBlocks + PutNeeds(sb.view, id, off, len) <= sb.space.layout.nrBlocks
    modifies sb, sb.space
    ensures sb.Valid() && id in sb.Contents() && put == SbOk && sb.Contents()[id].size == old(sb.Contents()[id].size)
    ensures forall p :: off <= p < U64 ==> p in sb.Contents()[id].bytes
    ensures got == SbRead(Failed(ERANGE))
  {
    hide Whole, ContentsOf, PutNeeds, PutShort, PutStuck;
    RegionLength(pages, pgOff, len);
    var done, fault, count, pages';
    ghost var data;
    put, done, fault := sb.PutObj(id, off, pgOff, len, pages, asWritten);
    got, count, data, pages' := sb.GetObj(id, off, pgOff, len, pages);
  }

  /** An empty object on a fresh device of 64 blocks. */
  method EmptyObject(csum: Csum, dev: seq<Bytes>) returns (sb: Sb)
    requires EightBytes(csum) && |dev| == 64 && forall b :: 0 <= b < |dev| ==> |dev[b]| == 65536
    ensures fresh(sb) && fresh(sb.space) && sb.Valid() && !sb.stopping
    ensures 1 in sb.Contents() && sb.Contents()[1].size == 0
    ensures sb.space.usedBlocks + PutNeeds(sb.view, 1, U64 - 1, 1) <= sb.space.layout.nrBlocks
  {
    hide Whole, ContentsOf, Levels, PutNeeds, ShapesGrew, Device, EightBytes;
    var f := Sb.Format(64 * 65536, 896, csum, dev);
    sb := f;
    ghost var v := sb.view;
    assert sb.space.layout.nrBlocks == 64 && sb.space.layout.bmBlocks == 1;
    ghost var blocks;
    var err;
    err, blocks := sb.CreateObj(1);
    NewObjectNeeds(v, sb.view);
  }

  lemma NewObjectNeeds(v: View, v': View)
    requires v.shapes == map[] && ShapesGrew(v, v', 0)
    ensures PutNeeds(v', 1, U64 - 1, 1) <= 6
  {
    hide Levels, Needs, Touched, Cost;
    if 1 in v'.tree.m && v'.tree.m[1] in v'.shapes {
      var b := v'.tree.m[1];
      assert b in v'.shapes && Levels(v'.shapes[b]) == 0;
      TouchedOne(VLIMIT - 1, 65535, 1);
      NeedsAtMost(v'.shapes[b], U64 - 1, 1);
      CostOfOne(0);
    }
  }

  /** The byte at 2^64 - 1 of that object: it is written, and cannot be read. */
  method LastByte(csum: Csum, dev: seq<Bytes>) returns (sb: Sb, put: SbErr, got: SbErr)
    requires EightBytes(csum) && |dev| == 64 && forall b :: 0 <= b < |dev| ==> |dev[b]| == 65536
    ensures put == SbOk && got == SbRead(Failed(ERANGE))
    ensures sb.Valid() && 1 in sb.Contents() && sb.Contents()[1].size == 0 && U64 - 1 in sb.Contents()[1].bytes
  {
    hide Whole, ContentsOf, PutNeeds;
    sb := EmptyObject(csum, dev);
    var page := seq(4096, _ => 7);
    put, got := PutAtTheEnd(sb, 1, U64 - 1, 0, 1, [page], true);
  }

  // ---------------------------------------------------------------- room for a run

  /** The blocks that the operations touch, and the objects that they are to create. */
  ghost function TouchedIn(ops: seq<Op>): nat {
    if ops == [] then 0 else TouchedIn(ops[..|ops| - 1]) + TouchedBy(ops[|ops| - 1])
  }

  ghost function CreatedIn(ops: seq<Op>): nat {
    if ops == [] then 0 else CreatedIn(ops[..|ops| - 1]) + CreatesBy(ops[|ops| - 1])
  }

  /** What a run takes at most, if no object has trees of more than L levels, and the inode tree has H. */
  ghost function Budget(ops: seq<Op>, L: nat, H: nat): nat {
    Cost(TouchedIn(ops), L) + Cost(CreatedIn(ops), H)
  }

  ghost predicate LevelsTo(v: View, L: nat) {
    forall b :: b in v.shapes ==> Levels(v.shapes[b]) <= L
  }

  /** After operations `ops` the device is within their budget. */
  ghost predicate Within(v: View, used: int, ops: seq<Op>, L: nat, H: nat, used0: int) {
    && LevelsTo(v, L + 2 * TouchedIn(ops)) && Height(v.tree) <= H + CreatedIn(ops)
    && used <= used0 + Budget(ops, L, H)
  }

  lemma {:induction false} BudgetOrder(ops: seq<Op>, i: nat, L: nat, H: nat)
    requires i <= |ops|
    ensures TouchedIn(ops[..i]) <= TouchedIn(ops) && CreatedIn(ops[..i]) <= CreatedIn(ops)
    ensures Budget(ops[..i], L, H) <= Budget(ops, L, H)
    decreases |ops|
  {
    hide Cost, TouchedBy;
    if i == |ops| {
      assert ops[..i] == ops;
    } else {
      var n := |ops| - 1;
      BudgetOrder(ops[..n], i, L, H);
      assert ops[..n][..i] == ops[..i];
    }
    CostOrder(TouchedIn(ops[..i]), TouchedIn(ops), L, L);
    CostOrder(CreatedIn(ops[..i]), CreatedIn(ops), H, H);
  }

  lemma AtMostLevels(v: View, id: int, L: nat)
    requires LevelsTo(v, L)
    ensures LevelsAt(v, id) <= L
  {
    hide Levels;
    if id in v.tree.m && v.tree.m[id] in v.shapes {
      var b := v.tree.m[id];
      assert b in v.shapes;
      assert Levels(v.shapes[b]) <= L;
      assert LevelsAt(v, id) == Levels(v.shapes[b]);
    }
  }

  /** What one more operation takes is in the budget. */
  lemma BudgetNext(v: View, used: int, ops: seq<Op>, op: Op, L: nat, H: nat, used0: int)
    requires Within(v, used, ops, L, H, used0)
    ensures used + Cost(TouchedBy(op), LevelsAt(v, op.id)) + CreatesBy(op) * (Height(v.tree) + 5) <= used0 + Budget(ops + [op], L, H)
  {
    hide Cost, TouchedBy, Levels;
    var n, c, t := TouchedIn(ops), CreatedIn(ops), TouchedBy(op);
    assert (ops + [op])[..|ops|] == ops;
    CostAdd(n, t, L);
    AtMostLevels(v, op.id, L + 2 * n);
    CostOrder(t, t, LevelsAt(v, op.id), L + 2 * n);
    if op.Create? {
      CostAdd(c, 1, H);
      CostOfOne(H + 2 * c);
    }
  }

  lemma WithinNext(v: View, used: int, v': View, used': int, ops: seq<Op>, op: Op, L: nat, H: nat, used0: int)
    requires Within(v, used, ops, L, H, used0) && Spent(v, used, v', used', op.id, TouchedBy(op), CreatesBy(op))
    ensures Within(v', used', ops + [op], L, H, used0)
  {
    hide Cost, TouchedBy, Levels, Budget;
    BudgetNext(v, used, ops, op, L, H, used0);
    assert (ops + [op])[..|ops|] == ops;
    forall b | b in v'.shapes
      ensures Levels(v'.shapes[b]) <= L + 2 * TouchedIn(ops + [op])
    {
    }
  }

  /** Within a budget that the device has room for, nothing is refused. */
  lemma NotRefused(v: View, used: int, ops: seq<Op>, i: nat, L: nat, H: nat, used0: int, nr: nat)
    requires i < |ops| && Within(v, used, ops[..i], L, H, used0) && used0 + Budget(ops, L, H) <= nr
    ensures used + OpNeeds(v, ops[i]) <= nr
  {
    hide Cost, TouchedBy, LevelsAt, Budget, OpNeeds, Within;
    BudgetNext(v, used, ops[..i], ops[i], L, H, used0);
    assert ops[..i] + [ops[i]] == ops[..i + 1];
    BudgetOrder(ops, i + 1, L, H);
    OpNeedsAtMost(v, ops[i]);
  }

  lemma WithinStart(v: View, used: int, L: nat)
    requires LevelsTo(v, L)
    ensures Within(v, used, [], L, Height(v.tree), used)
  {
  }

  lemma RefusedNeeds(files: map<int, File>, v: View, used: set<nat>, op: Op, r: Result, files': map<int, File>, nr: nat)
    requires Happened(files, v, used, op, r, files', nr) && |used| + OpNeeds(v, op) <= nr
    ensures !OutOfRoom(r)
  {
    hide OpNeeds, OpShort;
  }

  /** As written, no operation of the run was one that faults. */
  ghost predicate SafeRun(ops: seq<Op>, trace: seq<Moment>, nr: nat) {
    |trace| == |ops| + 1 && forall j :: 0 <= j < |ops| ==> !FaultsAt(trace[j], ops[j], nr)
  }

  ghost predicate FaultsAt(m: Moment, op: Op, nr: nat) {
    Faults(m.view, m.used, op, nr)
  }

  lemma SafeNext(ops: seq<Op>, trace: seq<Moment>, nr: nat, op: Op, now: Moment)
    requires SafeRun(ops, trace, nr) && !FaultsAt(trace[|ops|], op, nr)
    ensures SafeRun(ops + [op], trace + [now], nr)
  {
    hide FaultsAt;
  }

  /** Every run of operations on any objects, as written or as meant: each of them does what it does to a map of byte arrays
      and answers so, or it needed more blocks than were free when it began, which it does exactly if OpShort says so. As
      written the run stops at the first operation that faults, which is the first of which Faults holds. With room for the
      budget of the whole run no operation is refused and no put faults, and the run is that of the plain model. */
  method Run(sb: Sb, ops: seq<Op>, asWritten: bool, ghost L: nat)
    returns (answers: seq<Result>, fault: bool, ghost trace: seq<Moment>)
    requires sb.Valid() && !sb.stopping && forall i :: 0 <= i < |ops| ==> CanDo(ops[i])
    modifies sb, sb.space
    ensures |answers| <= |ops| && |trace| == |answers| + 1 && (!fault ==> |answers| == |ops|)
    ensures trace[0] == old(Moment(FilesOf(sb.Contents()), sb.view, sb.space.used))
    ensures !fault ==> sb.Valid() && trace[|ops|] == Moment(FilesOf(sb.Contents()), sb.view, sb.space.used)
    ensures fault <==> asWritten && |answers| < |ops| && FaultsAt(trace[|answers|], ops[|answers|], sb.space.layout.nrBlocks)
    ensures asWritten ==> SafeRun(ops[..|answers|], trace, sb.space.layout.nrBlocks)
    ensures NoneRefused(answers) && !fault ==> FilesOf(sb.Contents()) == Replay(old(FilesOf(sb.Contents())), ops)
    ensures old(LevelsTo(sb.view, L) && sb.space.usedBlocks + Budget(ops, L, Height(sb.view.tree)) <= sb.space.layout.nrBlocks)
      ==> NoneRefused(answers) && (fault ==> ops[|answers|].Delete?)
    ensures Trace(ops[..|answers|], answers, trace, sb.space.layout.nrBlocks)
  {
    hide Whole, ContentsOf, FilesOf, CanDo, OnlyFor, Happened, OutOfRoom, OpNeeds, Replay, Budget, Height, Spent, Within, LevelsTo, TouchedBy;
    hide Faults, SafeRun;
    answers, trace, fault := [], [Moment(FilesOf(sb.Contents()), sb.view, sb.space.used)], false;
    ghost var H, used0, nr := Height(sb.view.tree), sb.space.usedBlocks, sb.space.layout.nrBlocks;
    ghost var enough := LevelsTo(sb.view, L) && used0 + Budget(ops, L, H) <= nr;
    if enough {
      WithinStart(sb.view, used0, L);
    }
    assert ops[..0] == [];
    NoOps(trace, nr);
    var i := 0;
    while i < |ops|
      invariant i <= |ops| && !fault && sb.Valid() && !sb.stopping && Trace(ops[..i], answers, trace, nr)
      invariant trace[0] == old(Moment(FilesOf(sb.Contents()), sb.view, sb.space.used))
      invariant trace[i] == Moment(FilesOf(sb.Contents()), sb.view, sb.space.used)
      invariant enough ==> NoneRefused(answers) && Within(sb.view, sb.space.usedBlocks, ops[..i], L, H, used0)
      invariant asWritten ==> SafeRun(ops[..i], trace, nr)
    {
      ghost var last := trace[i];
      assert sb.space.usedBlocks == |last.used|;
      var r;
      if enough {
        NotRefused(last.view, |last.used|, ops, i, L, H, used0, nr);
      }
      r, fault := sb.Perform(ops[i], asWritten);
      if fault {
        FaultsHow(last, ops[i], nr);
        return;
      }
      ghost var now := Moment(FilesOf(sb.Contents()), sb.view, sb.space.used);
      TraceNext(ops[..i], answers, trace, nr, ops[i], r, now);
      assert ops[..i] + [ops[i]] == ops[..i + 1];
      if asWritten {
        SafeNext(ops[..i], trace, nr, ops[i], now);
      }
      if enough {
        RefusedNeeds(last.files, last.view, last.used, ops[i], r, now.files, nr);
        WithinNext(last.view, |last.used|, now.view, sb.space.usedBlocks, ops[..i], ops[i], L, H, used0);
      }
      answers, trace := answers + [r], trace + [now];
      i := i + 1;
    }
    assert ops[..i] == ops;
    if NoneRefused(answers) {
      TraceReplays(ops, answers, trace, nr);
    }
  }

  lemma NoOps(trace: seq<Moment>, nr: nat)
    requires |trace| == 1
    ensures SafeRun([], trace, nr)
  {
  }

  lemma FaultsHow(m: Moment, op: Op, nr: nat)
    requires Faults(m.view, m.used, op, nr)
    ensures op.Delete? || op.Put?
  {
  }

  /** No operation was refused for want of blocks. */
  ghost predicate NoneRefused(answers: seq<Result>) {
    forall j :: 0 <= j < |answers| ==> !OutOfRoom(answers[j])
  }

  /** The objects that operations are about. */
  ghost function Subjects(ops: seq<Op>): set<int> {
    set i | 0 <= i < |ops| :: ops[i].id
  }

  /** A life of an object, among operations on others, unless something faults: when it is deleted it leaves no block behind.
      The blocks in use are then those of the header and bitmap, of the inode tree and of the others; objects that nothing was
      done to have the same blocks as before, and if there was only this one, the same blocks are in use as before, except for
      the tree. */
  method Lifetime(sb: Sb, id: int, ops: seq<Op>, asWritten: bool) returns (err: SbErr, fault: bool)
    requires sb.Valid() && !sb.stopping && 0 <= id < KEY_LIMIT && id !in sb.Contents()
    requires forall i :: 0 <= i < |ops| ==> CanDo(ops[i])
    modifies sb, sb.space
    ensures fault ==> asWritten
    ensures !fault ==> sb.Valid() && id !in sb.Contents()
    ensures !fault ==> sb.space.used - sb.Nodes() == Meta(sb.space.layout) + AllOwned(BlocksOf(sb.Contents()))
    ensures !fault ==> OnlyFor(Subjects(ops) + {id}, old(sb.Contents()), sb.Contents())
    ensures !fault && Subjects(ops) <= {id} ==> sb.space.used - sb.Nodes() == old(sb.space.used - sb.Nodes())
  {
    hide Whole, ContentsOf, OnlyFor, Step, BlocksOf, AllOwned, Meta, Clean, OpShort;
    ghost var before, all := sb.Contents(), Subjects(ops) + {id};
    UsedBesides(sb, before);
    var r;
    r, fault := sb.Perform(Create(id), asWritten);
    OnlyForMore({id}, all, before, sb.Contents());
    var i := 0;
    while i < |ops|
      invariant i <= |ops| && sb.Valid() && !sb.stopping && OnlyFor(all, before, sb.Contents())
    {
      ghost var now := sb.Contents();
      r, fault := sb.Perform(ops[i], asWritten);
      if fault {
        err := r.err;
        return;
      }
      assert ops[i].id in all;
      OnlyForMore({ops[i].id}, all, now, sb.Contents());
      OnlyForTwice(all, before, now, sb.Contents());
      i := i + 1;
    }
    ghost var last := sb.Contents();
    err, fault := sb.DeleteObj(id, asWritten);
    if fault {
      return;
    }
    OnlyForDrop(all, before, last, id);
    if Subjects(ops) <= {id} {
      AllBack(all, id, before, sb.Contents());
    }
    UsedBesides(sb, sb.Contents());
  }

  lemma OnlyForMore(ids: set<int>, all: set<int>, a: map<int, Data>, b: map<int, Data>)
    requires OnlyFor(ids, a, b) && ids <= all
    ensures OnlyFor(all, a, b)
  {
    assert BlocksOf(b) - all == (BlocksOf(b) - ids) - all;
    assert BlocksOf(a) - all == (BlocksOf(a) - ids) - all;
  }

  lemma OnlyForTwice(ids: set<int>, a: map<int, Data>, b: map<int, Data>, c: map<int, Data>)
    requires OnlyFor(ids, a, b) && OnlyFor(ids, b, c)
    ensures OnlyFor(ids, a, c)
  {
  }

  lemma OnlyForDrop(ids: set<int>, a: map<int, Data>, b: map<int, Data>, id: int)
    requires OnlyFor(ids, a, b) && id in ids
    ensures OnlyFor(ids, a, b - {id})
  {
    FilesDrop(b, id);
    assert (BlocksOf(b) - {id}) - ids == BlocksOf(b) - ids;
  }

  lemma AllBack(ids: set<int>, id: int, a: map<int, Data>, b: map<int, Data>)
    requires OnlyFor(ids, a, b) && ids <= {id} && id !in a && id !in b
    ensures BlocksOf(b) == BlocksOf(a)
  {
    assert BlocksOf(b) - ids == BlocksOf(b) && BlocksOf(a) - ids == BlocksOf(a);
  }

  lemma UsedBesides(sb: Sb, c: map<int, Data>)
    requires sb.Valid() && c == sb.Contents()
    ensures sb.space.used - sb.Nodes() == Meta(sb.space.layout) + AllOwned(BlocksOf(c))
  {
    hide Whole, ContentsOf, AllOwned, Meta, BlocksOf;
    sb.OneOwner();
    NoNodes(c, sb.Nodes(), Meta(sb.space.layout));
  }

  lemma NoNodes(c: map<int, Data>, nodes: set<nat>, meta: set<nat>)
    requires forall k :: k in c ==> c[k].blocks !! meta + nodes
    ensures AllOwned(BlocksOf(c)) !! nodes
  {
    forall x | x in AllOwned(BlocksOf(c))
      ensures x !in nodes
    {
      var k :| k in BlocksOf(c) && x in BlocksOf(c)[k];
      assert c[k].blocks !! meta + nodes;
    }
  }
}
