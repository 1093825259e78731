/** Runs of the cache against a flat array of blocks. */
module DioRun {
  import opened Stripes
  import opened Pages
  import opened Dio
  import opened DioShrink

  datatype Op =
    | GetOp(i: nat) | PutOp(i: nat) | ReadOp(i: nat, len: nat, off: nat) | WriteOp(i: nat, buf: Bytes, off: nat)
    | ZeroOp(i: nat) | MapOp(i: nat, buf: Bytes, off: nat)
    | DirtyOp(i: nat) | SyncOp(i: nat) | AgeOp | ShrinkOp

  /** All that a user of the device can tell: the blocks, and what is held. */
  datatype View = View(flat: seq<Bytes>, held: seq<nat>)

  /** A block is used between a get and its put, within its bounds. */
  predicate Legal(np: nat, v: View, op: Op) {
    match op
    case GetOp(i) => i < |v.held|
    case PutOp(i) => i < |v.held| && v.held[i] > 0
    case ReadOp(i, len, off) => i < |v.held| && v.held[i] > 0 && off + len <= 4096 * np
    case WriteOp(i, buf, off) => i < |v.held| && v.held[i] > 0 && off + |buf| <= 4096 * np
    case ZeroOp(i) => i < |v.held| && v.held[i] > 0
    case MapOp(i, buf, off) =>
      i < |v.held| && v.held[i] > 0 && off + |buf| <= 4096 * np && off % 4096 + |buf| <= 4096 && off < 4096 * np
    case DirtyOp(i) => i < |v.held| && v.held[i] > 0
    case SyncOp(i) => i < |v.held| && v.held[i] > 0
    case _ => true
  }

  ghost predicate Proper(np: nat, v: View) {
    |v.flat| == |v.held| && forall i :: 0 <= i < |v.flat| ==> |v.flat[i]| == 4096 * np
  }

  /** What an operation does to an array of blocks that has no cache. */
  ghost function After(np: nat, v: View, op: Op): (r: View)
    requires Proper(np, v) && Legal(np, v, op)
    ensures Proper(np, r)
  {
    match op
    case GetOp(i) => v.(held := v.held[i := v.held[i] + 1])
    case PutOp(i) => v.(held := v.held[i := v.held[i] - 1])
    case WriteOp(i, buf, off) => v.(flat := v.flat[i := Splice(v.flat[i], off, buf)])
    case MapOp(i, buf, off) => v.(flat := v.flat[i := Splice(v.flat[i], off, buf)])
    case ZeroOp(i) => v.(flat := v.flat[i := seq(4096 * np, _ => 0)])
    case _ => v
  }

  ghost function Answer(np: nat, v: View, op: Op): Bytes
    requires Proper(np, v) && Legal(np, v, op)
  {
    match op
    case ReadOp(i, len, off) => v.flat[i][off..off + len]
    case _ => []
  }

  ghost predicate LegalRun(np: nat, v: View, ops: seq<Op>)
    requires Proper(np, v)
    decreases |ops|
  {
    ops == [] || (Legal(np, v, ops[0]) && LegalRun(np, After(np, v, ops[0]), ops[1..]))
  }

  ghost function Replay(np: nat, v: View, ops: seq<Op>): (r: (View, seq<Bytes>))
    requires Proper(np, v) && LegalRun(np, v, ops)
    ensures Proper(np, r.0)
    decreases |ops|
  {
    if ops == [] then (v, []) else
      var t := Replay(np, After(np, v, ops[0]), ops[1..]);
      (t.0, [Answer(np, v, ops[0])] + t.1)
  }

  ghost function ViewOf(d: Dev): View
    reads d
  {
    View(d.g.flat, d.g.held)
  }

  lemma ValidIsProper(d: Dev)
    requires d.Valid()
    ensures Proper(d.np, ViewOf(d))
  {
    forall i | 0 <= i < |d.g.flat|
      ensures |d.g.flat[i]| == 4096 * d.np
    {
      SlotAt(d.np, i, d.disk, d.clus, d.nrClus, d.g, d.None());
    }
  }

  ghost function Next(d: Dev, op: Op): View
    requires d.Valid() && Legal(d.np, ViewOf(d), op)
    reads d
  {
    ValidIsProper(d);
    After(d.np, ViewOf(d), op)
  }

  ghost function Reply(d: Dev, op: Op): Bytes
    requires d.Valid() && Legal(d.np, ViewOf(d), op)
    reads d
  {
    ValidIsProper(d);
    Answer(d.np, ViewOf(d), op)
  }

  ghost predicate MayRun(d: Dev, ops: seq<Op>)
    requires d.Valid()
    reads d
  {
    ValidIsProper(d);
    LegalRun(d.np, ViewOf(d), ops)
  }

  /** What the array of blocks has become and has answered after the run. */
  ghost function Outcome(d: Dev, ops: seq<Op>): (View, seq<Bytes>)
    requires d.Valid() && MayRun(d, ops)
    reads d
  {
    ValidIsProper(d);
    Replay(d.np, ViewOf(d), ops)
  }

  method Perform(d: Dev, op: Op) returns (r: Bytes)
    requires d.Valid() && Legal(d.np, ViewOf(d), op)
    modifies d
    ensures d.Valid() && ViewOf(d) == old(Next(d, op)) && r == old(Reply(d, op))
  {
    r := [];
    match op
    case GetOp(i) => d.Get(i);
    case PutOp(i) =>
      d.SeenAsIs(i);
      d.Put(i, false);
      d.SeenAsIs(i);
    case ReadOp(i, len, off) => r := d.Read(i, len, off);
    case WriteOp(i, buf, off) => d.Write(i, buf, off);
    case ZeroOp(i) => d.Zero(i);
    case MapOp(i, buf, off) =>
      d.MapWrite(i, buf, off);
      d.SetDirty(i);
    case DirtyOp(i) =>
      d.HeldOnceDirty(i);
      d.SetDirty(i);
    case SyncOp(i) => d.Sync(i);
    case AgeOp => AgeAll(d);
    case ShrinkOp =>
      ghost var order, k := LruFrees(d);
  }

  /** Over every run, the cache answers as the array of blocks does. */
  method Run(d: Dev, ops: seq<Op>) returns (answers: seq<Bytes>)
    requires d.Valid() && MayRun(d, ops)
    modifies d
    ensures d.Valid() && (ViewOf(d), answers) == old(Outcome(d, ops))
  {
    answers := [];
    var j := 0;
    ghost var all := Outcome(d, ops);
    assert ops[0..] == ops && [] + all.1 == all.1;
    while j < |ops|
      invariant 0 <= j <= |ops| && d.Valid() && MayRun(d, ops[j..])
      invariant all == (Outcome(d, ops[j..]).0, answers + Outcome(d, ops[j..]).1)
    {
      assert ops[j..][0] == ops[j] && ops[j..][1..] == ops[j + 1..];
      ghost var before := answers;
      var r := Perform(d, ops[j]);
      answers := answers + [r];
      j := j + 1;
      ghost var later := Outcome(d, ops[j..]).1;
      assert before + ([r] + later) == answers + later;
    }
    assert ops[j..] == [] && answers + [] == answers;
  }

  // ---------------------------------------------------------------- writes through dio_clu_map

  /** Get, a write through the map, the flag or not, put. */
  method MapAndPut(d: Dev, i: nat, buf: Bytes, off: nat, mark: bool)
    requires d.Valid() && i < |d.disk| && i < |d.g.held| && i < |d.g.flat|
    requires off + |buf| <= 4096 * d.np && off % 4096 + |buf| <= 4096 && off < 4096 * d.np
    modifies d
    ensures d.WithFlag(d.None(), i, !mark) && d.disk == old(d.disk) && d.g.held == old(d.g.held) && i in d.clus
    ensures off + |buf| <= |old(d.g.flat)[i]| && d.g.flat == old(d.g.flat)[i := Splice(old(d.g.flat)[i], off, buf)]
    ensures d.clus[i].dirty <==> mark || (i in old(d.clus) && old(d.clus)[i].dirty)
    ensures !(i in old(d.clus) && old(d.clus)[i].dirty) ==> old(d.disk)[i] == old(d.g.flat)[i]
    ensures |d.g.hist| == |d.g.held|
  {
    hide Inv;
    ghost var g0 := d.g;
    SlotAt(d.np, i, d.disk, d.clus, d.nrClus, d.g, d.None());
    SizesOf(d);
    d.Get(i);
    d.MapWrite(i, buf, off);
    if mark {
      d.SetDirty(i);
      d.SeenAsIs(i);
    }
    d.Put(i, !mark);
    assert d.g.held == g0.held;
  }

  lemma SizesOf(d: Dev)
    requires d.Valid()
    ensures |d.g.flat| == |d.g.held| == |d.g.hist| == |d.disk|
    ensures forall i :: 0 <= i < |d.disk| && !(i in d.clus && d.clus[i].dirty) ==> d.disk[i] == d.g.flat[i]
  {
    forall i | 0 <= i < |d.disk| && !(i in d.clus && d.clus[i].dirty)
      ensures d.disk[i] == d.g.flat[i]
    {
      SlotAt(d.np, i, d.disk, d.clus, d.nrClus, d.g, d.None());
    }
  }

  /** The eviction of one cluster that nobody holds, with the reference that the walk of dio_clus_lru_frees has on it. */
  method EvictOne(d: Dev, i: nat, ghost loose: bool)
    requires d.WithFlag(d.None(), i, loose) && i in d.clus && i < |d.disk| && i < |d.g.held| && d.g.held[i] == 0
    requires |d.g.flat| == |d.g.hist| == |d.disk|
    modifies d
    ensures d.Valid() && i !in d.clus && i in old(d.clus)
    ensures d.g.flat == if loose && !old(d.clus)[i].dirty then old(d.g.flat)[i := old(d.disk)[i]] else old(d.g.flat)
  {
    hide Inv;
    assert d.None() == Marks(|d.disk|, {});
    d.Ref(i, d.None(), loose);
    assert Marks(|d.disk|, {})[i := 1] == Marks(|d.disk|, {i});
    var node := Evict(d, i, {i}, loose);
    assert {i} - {i} == {};
    NoMarks(d);
  }

  /** Get, a write through the map, put, eviction: the write has survived if and only if the flag was set before the put,
      or there already, or the write changed nothing. */
  method MapSurvives(d: Dev, i: nat, buf: Bytes, off: nat, mark: bool)
    requires d.Valid() && i < |d.disk| && i < |d.g.held| && i < |d.g.flat| && d.g.held[i] == 0
    requires off + |buf| <= 4096 * d.np && off % 4096 + |buf| <= 4096 && off < 4096 * d.np
    modifies d
    ensures d.Valid() && i < |d.g.flat| && off + |buf| <= |old(d.g.flat)[i]|
    ensures
      var was, now := old(d.g.flat)[i], Splice(old(d.g.flat)[i], off, buf);
      d.g.flat[i] == now <==> mark || (i in old(d.clus) && old(d.clus)[i].dirty) || now == was
    ensures forall j :: 0 <= j < |d.g.flat| && j != i ==> j < |old(d.g.flat)| && d.g.flat[j] == old(d.g.flat)[j]
  {
    hide Inv;
    SizesOf(d);
    MapAndPut(d, i, buf, off, mark);
    EvictOne(d, i, !mark);
  }
}
