/** The cluster cache of core/dio.c over a disk that never fails. Every operation is one step. */
module Dio {
  import opened Stripes
  import opened Pages
  import opened DioAge

  /** A cached cluster. */
  datatype Clu = Clu(pages: seq<Bytes>, ref: nat, pins: nat, dirty: bool, read: bool, age: nat)

  type Clus = map<nat, Clu>

  function Flagged(c: Clu, flag: bool): Clu {
    if flag then c.(dirty := true) else c
  }

  /** What the cache stands for: the array of blocks that its users see, how many gets of each block have not been
      put back, and when each cached cluster was touched. */
  datatype Shadow = Shadow(flat: seq<Bytes>, held: seq<nat>, hist: seq<seq<bool>>)

  /** A cluster whose block is d on disk and f for its users, with n gets and e more references outstanding. */
  ghost predicate CluOk(np: nat, c: Clu, d: Bytes, f: Bytes, n: nat, e: nat, h: seq<bool>) {
    && |c.pages| == np && Paged(c.pages) && c.read && Concat(c.pages) == f && (!c.dirty ==> d == f)
    && c.ref == 2 + n + e && c.pins == n
    && h != [] && c.age == AgeOf(h)
  }

  ghost predicate Sizes(disk: seq<Bytes>, g: Shadow, extra: seq<nat>) {
    |g.flat| == |g.held| == |g.hist| == |extra| == |disk|
  }

  ghost predicate SlotOk(np: nat, disk: seq<Bytes>, clus: Clus, g: Shadow, extra: seq<nat>, i: nat)
    requires Sizes(disk, g, extra) && i < |disk|
  {
    && |disk[i]| == 4096 * np
    && if i in clus then CluOk(np, clus[i], disk[i], g.flat[i], g.held[i], extra[i], g.hist[i])
       else g.flat[i] == disk[i] && g.held[i] == 0 && extra[i] == 0 && g.hist[i] == []
  }

  /** `extra` counts the references that an operation under way holds. */
  ghost predicate Inv(np: nat, disk: seq<Bytes>, clus: Clus, nrClus: nat, g: Shadow, extra: seq<nat>) {
    && Sizes(disk, g, extra) && nrClus == |clus|
    && (forall i :: i in clus ==> i < |disk|)
    && (forall i {:trigger SlotOk(np, disk, clus, g, extra, i)} :: 0 <= i < |disk| ==> SlotOk(np, disk, clus, g, extra, i))
  }

  /** The blocks other than i are as they were, on disk and for the users. */
  ghost predicate Beside(i: nat, disk: seq<Bytes>, g: Shadow, extra: seq<nat>, disk': seq<Bytes>, g': Shadow, extra': seq<nat>) {
    && Sizes(disk, g, extra) && Sizes(disk', g', extra') && i < |disk| == |disk'|
    && disk' == disk[i := disk'[i]] && g'.flat == g.flat[i := g'.flat[i]] && g'.held == g.held[i := g'.held[i]]
    && g'.hist == g.hist[i := g'.hist[i]] && extra' == extra[i := extra'[i]]
  }

  /** Only block i is different. */
  ghost predicate OnlyAt(i: nat, disk: seq<Bytes>, clus: Clus, g: Shadow, extra: seq<nat>,
      disk': seq<Bytes>, clus': Clus, g': Shadow, extra': seq<nat>)
  {
    Beside(i, disk, g, extra, disk', g', extra') && clus' - {i} == clus - {i}
  }

  lemma StepAt(np: nat, i: nat, disk: seq<Bytes>, clus: Clus, nrClus: nat, g: Shadow, extra: seq<nat>,
      disk': seq<Bytes>, clus': Clus, g': Shadow, extra': seq<nat>)
    requires Inv(np, disk, clus, nrClus, g, extra) && OnlyAt(i, disk, clus, g, extra, disk', clus', g', extra')
    requires SlotOk(np, disk', clus', g', extra', i)
    ensures Inv(np, disk', clus', |clus'|, g', extra')
  {
    forall j | 0 <= j < |disk'|
      ensures SlotOk(np, disk', clus', g', extra', j)
    {
      if j != i {
        assert SlotOk(np, disk, clus, g, extra, j);
        SameOff(clus, clus', i, j);
      }
    }
    forall j | j in clus'
      ensures j < |disk'|
    {
      SameOff(clus, clus', i, j);
    }
  }

  lemma SameOff(clus: Clus, clus': Clus, i: nat, j: nat)
    requires clus' - {i} == clus - {i}
    ensures j != i ==> (j in clus' <==> j in clus) && (j in clus ==> clus'[j] == clus[j])
  {
    if j != i {
      assert j in clus' - {i} <==> j in clus';
      assert j in clus - {i} <==> j in clus;
      if j in clus {
        assert (clus' - {i})[j] == clus'[j];
      }
    }
  }

  lemma MapPut(clus: Clus, i: nat, c: Clu)
    ensures clus[i := c] - {i} == clus - {i}
    ensures |clus[i := c]| == |clus| + if i in clus then 0 else 1
  {
    assert clus[i := c].Keys == clus.Keys + {i};
    assert |clus[i := c]| == |clus[i := c].Keys| && |clus| == |clus.Keys|;
  }

  lemma MapDrop(clus: Clus, i: nat)
    requires i in clus
    ensures (clus - {i}) - {i} == clus - {i} && |clus - {i}| == |clus| - 1
  {
    assert (clus - {i}).Keys == clus.Keys - {i};
    assert |clus - {i}| == |(clus - {i}).Keys|;
  }

  lemma StepPut(np: nat, i: nat, disk: seq<Bytes>, clus: Clus, nrClus: nat, g: Shadow, extra: seq<nat>,
      c: Clu, disk': seq<Bytes>, g': Shadow, extra': seq<nat>)
    requires Inv(np, disk, clus, nrClus, g, extra) && Beside(i, disk, g, extra, disk', g', extra')
    requires |disk'[i]| == 4096 * np && CluOk(np, c, disk'[i], g'.flat[i], g'.held[i], extra'[i], g'.hist[i])
    ensures Inv(np, disk', clus[i := c], if i in clus then nrClus else nrClus + 1, g', extra')
  {
    MapPut(clus, i, c);
    StepAt(np, i, disk, clus, nrClus, g, extra, disk', clus[i := c], g', extra');
  }

  lemma StepDrop(np: nat, i: nat, disk: seq<Bytes>, clus: Clus, nrClus: nat, g: Shadow, extra: seq<nat>,
      disk': seq<Bytes>, g': Shadow, extra': seq<nat>)
    requires Inv(np, disk, clus, nrClus, g, extra) && Beside(i, disk, g, extra, disk', g', extra') && i in clus
    requires |disk'[i]| == 4096 * np && g'.flat[i] == disk'[i] && g'.held[i] == 0 && extra'[i] == 0 && g'.hist[i] == []
    ensures Inv(np, disk', clus - {i}, nrClus - 1, g', extra')
  {
    MapDrop(clus, i);
    StepAt(np, i, disk, clus, nrClus, g, extra, disk', clus - {i}, g', extra');
  }

  lemma SlotAt(np: nat, i: nat, disk: seq<Bytes>, clus: Clus, nrClus: nat, g: Shadow, extra: seq<nat>)
    requires Inv(np, disk, clus, nrClus, g, extra) && i < |disk|
    ensures |disk[i]| == 4096 * np && |g.flat[i]| == 4096 * np
    ensures i in clus ==> CluOk(np, clus[i], disk[i], g.flat[i], g.held[i], extra[i], g.hist[i])
    ensures i !in clus ==> g.flat[i] == disk[i] && g.held[i] == 0 && extra[i] == 0 && g.hist[i] == []
  {
    assert SlotOk(np, disk, clus, g, extra, i);
    if i in clus {
      ConcatLength(clus[i].pages);
    }
  }

  function Paginate(b: Bytes, np: nat): (pages: seq<Bytes>)
    requires |b| == 4096 * np
    ensures |pages| == np
  {
    if np == 0 then [] else
      var n := 4096 * (np - 1);
      Paginate(b[..n], np - 1) + [b[n..]]
  }

  lemma {:induction false} ConcatPaginate(b: Bytes, np: nat)
    requires |b| == 4096 * np
    ensures Paged(Paginate(b, np)) && Concat(Paginate(b, np)) == b
  {
    if np > 0 {
      var n := 4096 * (np - 1);
      ConcatPaginate(b[..n], np - 1);
      var pages := Paginate(b, np);
      assert pages[..np - 1] == Paginate(b[..n], np - 1);
      assert b == b[..n] + b[n..];
    }
  }

  class Dev {
    const np: nat
    const nrMax: nat
    var disk: seq<Bytes>
    var clus: Clus
    var nrClus: nat
    ghost var g: Shadow

    ghost function None(): seq<nat>
      reads this
    {
      seq(|disk|, _ => 0)
    }

    ghost predicate Valid()
      reads this
    {
      Inv(np, disk, clus, nrClus, g, None())
    }

    /** dio_dev_create over a device with these blocks. */
    constructor (disk: seq<Bytes>, np: nat, nrMax: nat)
      requires forall i :: 0 <= i < |disk| ==> |disk[i]| == 4096 * np
      ensures Valid() && this.np == np && this.nrMax == nrMax && this.disk == g.flat == disk && clus == map[]
    {
      this.np, this.nrMax, this.disk, clus, nrClus := np, nrMax, disk, map[], 0;
      g := Shadow(disk, seq(|disk|, _ => 0), seq(|disk|, _ => []));
    }

    /** dio_clu_wait_read. */
    method WaitRead(c: Clu, i: nat) returns (c': Clu)
      requires i < |disk| && |disk[i]| == 4096 * np
      ensures c' == c.(pages := c'.pages, read := true)
      ensures if c.read then c'.pages == c.pages else |c'.pages| == np && Paged(c'.pages) && Concat(c'.pages) == disk[i]
    {
      c' := c;
      if !c.read {
        ConcatPaginate(disk[i], np);
        c' := c.(pages := Paginate(disk[i], np), read := true);
      }
    }

    /** dio_clu_lookup_create: the cluster with one more reference and pin, touched. */
    method LookupCreate(i: nat) returns (c: Clu)
      requires Valid() && i < |disk|
      ensures c == if i in clus then var o := clus[i]; o.(ref := o.ref + 1, pins := o.pins + 1, age := Touch(o.age))
        else Clu([], 3, 1, false, false, Touch(0))
    {
      if i in clus {
        c := clus[i];
      } else {
        c := Clu([], 1, 0, false, false, 0);
        c := c.(ref := c.ref + 1);
      }
      c := c.(ref := c.ref + 1, pins := c.pins + 1, age := Touch(c.age));
    }

    /** dio_clu_get. */
    method Get(i: nat)
      requires Valid() && i < |disk|
      modifies this
      ensures Valid() && disk == old(disk) && i in clus && clus.Keys == old(clus).Keys + {i}
      ensures clus[i].dirty <==> i in old(clus) && old(clus)[i].dirty
      ensures g == old(g.(held := g.held[i := g.held[i] + 1], hist := g.hist[i := Touched(Begun(g.hist[i]))]))
    {
      SlotAt(np, i, disk, clus, nrClus, g, None());
      TouchAge(Begun(g.hist[i]));
      var c := LookupCreate(i);
      c := WaitRead(c, i);
      ghost var g' := g.(held := g.held[i := g.held[i] + 1], hist := g.hist[i := Touched(Begun(g.hist[i]))]);
      StepPut(np, i, disk, clus, nrClus, g, None(), c, disk, g', None());
      nrClus := if i in clus then nrClus else nrClus + 1;
      clus := clus[i := c];
      g := g';
    }

    /** dio_clu_put. The references never run out: two stay with the cache. `loose`: the dirty flag may be missing. */
    method Put(i: nat, ghost loose: bool)
      requires WithFlag(None(), i, loose) && i < |disk| && i < |g.held| && g.held[i] > 0
      modifies this
      ensures WithFlag(None(), i, loose) && disk == old(disk) && clus.Keys == old(clus).Keys
      ensures g == old(g.(held := g.held[i := g.held[i] - 1])) && i in clus && i in old(clus) && clus[i].dirty == old(clus)[i].dirty
    {
      ghost var seen := Seen(i, loose);
      SlotAt(np, i, disk, seen, nrClus, g, None());
      var c := clus[i];
      c := c.(pins := c.pins - 1, ref := c.ref - 1);
      ghost var g' := g.(held := g.held[i := g.held[i] - 1]);
      StepPut(np, i, disk, seen, nrClus, g, None(), Flagged(c, loose), disk, g', None());
      assert clus[i := c][i := Flagged(c, loose)] == seen[i := Flagged(c, loose)];
      clus := clus[i := c];
      g := g';
      assert Seen(i, loose) == seen[i := Flagged(c, loose)];
    }

    /** The clusters, with the dirty flag of cluster i set if `loose`. */
    ghost function Seen(i: nat, loose: bool): Clus
      reads this
    {
      if i in clus then clus[i := Flagged(clus[i], loose)] else clus
    }

    /** All is well with `extra` references, but for the dirty flag of cluster i if `loose`. */
    ghost predicate WithFlag(extra: seq<nat>, i: nat, loose: bool)
      reads this
    {
      (loose ==> i in clus) && Inv(np, disk, Seen(i, loose), nrClus, g, extra)
    }

    lemma SeenAsIs(i: nat)
      ensures Seen(i, false) == clus
    {
    }

    /** dio_clu_read of a cluster that the caller has got. */
    method Read(i: nat, len: nat, off: nat) returns (buf: Bytes)
      requires Valid() && i < |disk| && g.held[i] > 0 && off + len <= 4096 * np
      ensures off + len <= |g.flat[i]| && buf == g.flat[i][off..off + len]
    {
      SlotAt(np, i, disk, clus, nrClus, g, None());
      var c := WaitRead(clus[i], i);
      buf := ReadPages(c.pages, off, len);
    }

    /** dio_clu_write. */
    method Write(i: nat, buf: Bytes, off: nat)
      requires Valid() && i < |disk| && g.held[i] > 0 && off + |buf| <= 4096 * np
      modifies this
      ensures Valid() && disk == old(disk) && clus.Keys == old(clus).Keys
      ensures off + |buf| <= |old(g.flat[i])| && g == old(g).(flat := old(g.flat)[i := Splice(old(g.flat[i]), off, buf)])
    {
      SlotAt(np, i, disk, clus, nrClus, g, None());
      var c := WaitRead(clus[i], i);
      var pages := WritePages(c.pages, buf, off);
      c := c.(dirty := true, pages := pages);
      ghost var g' := g.(flat := g.flat[i := Splice(g.flat[i], off, buf)]);
      StepPut(np, i, disk, clus, nrClus, g, None(), c, disk, g', None());
      clus := clus[i := c];
      g := g';
    }

    /** dio_clu_zero. */
    method Zero(i: nat)
      requires Valid() && i < |disk| && g.held[i] > 0
      modifies this
      ensures Valid() && disk == old(disk) && clus.Keys == old(clus).Keys
      ensures g == old(g).(flat := old(g.flat)[i := seq(4096 * np, _ => 0)])
    {
      ghost var before := g;
      var zeros := seq(4096, _ => 0);
      SlotAt(np, i, disk, clus, nrClus, g, None());
      var p := 0;
      while p < np
        invariant 0 <= p <= np && Valid() && disk == old(disk) && clus.Keys == old(clus).Keys && g.held == before.held
        invariant g == before.(flat := before.flat[i := g.flat[i]]) && |g.flat[i]| == 4096 * np
        invariant forall x :: 0 <= x < 4096 * p ==> g.flat[i][x] == 0
      {
        Write(i, zeros, 4096 * p);
        p := p + 1;
      }
      assert g.flat[i] == seq(4096 * np, _ => 0);
    }

    /** All is well as soon as the dirty flag of cluster i is set. */
    ghost predicate ValidOnceDirty(i: nat)
      reads this
    {
      WithFlag(None(), i, true)
    }

    lemma HeldOnceDirty(i: nat)
      requires Valid() && i < |disk| && g.held[i] > 0
      ensures ValidOnceDirty(i)
    {
      SlotAt(np, i, disk, clus, nrClus, g, None());
      StepPut(np, i, disk, clus, nrClus, g, None(), clus[i].(dirty := true), disk, g, None());
    }

    /** A write through dio_clu_map, to a place in one page: readers see it, and the dirty flag is as it was. */
    method MapWrite(i: nat, buf: Bytes, off: nat)
      requires Valid() && i < |disk| && g.held[i] > 0 && off + |buf| <= 4096 * np && off % 4096 + |buf| <= 4096 && off < 4096 * np
      modifies this
      ensures ValidOnceDirty(i) && disk == old(disk) && clus.Keys == old(clus).Keys && clus[i].dirty == old(clus)[i].dirty
      ensures off + |buf| <= |old(g.flat[i])| && g == old(g).(flat := old(g.flat)[i := Splice(old(g.flat[i]), off, buf)])
    {
      SlotAt(np, i, disk, clus, nrClus, g, None());
      var c, k, po := clus[i], off / 4096, off % 4096;
      SplicePage(c.pages, k, po, buf);
      c := c.(pages := c.pages[k := Splice(c.pages[k], po, buf)]);
      ghost var g' := g.(flat := g.flat[i := Splice(g.flat[i], off, buf)]);
      StepPut(np, i, disk, clus, nrClus, g, None(), c.(dirty := true), disk, g', None());
      assert clus[i := c][i := c.(dirty := true)] == clus[i := c.(dirty := true)];
      clus := clus[i := c];
      g := g';
    }

    /** dio_clu_flagdirty. */
    method SetDirty(i: nat)
      requires ValidOnceDirty(i)
      modifies this
      ensures Valid() && disk == old(disk) && clus.Keys == old(clus).Keys && g == old(g) && clus[i].dirty
    {
      clus := clus[i := clus[i].(dirty := true)];
    }

    /** dio_clu_sync: the disk has what the users see. */
    method Sync(i: nat)
      requires Valid() && i < |disk| && g.held[i] > 0
      modifies this
      ensures Valid() && clus.Keys == old(clus).Keys && g == old(g) && disk == old(disk)[i := g.flat[i]]
    {
      SlotAt(np, i, disk, clus, nrClus, g, None());
      if clus[i].dirty {
        var disk' := disk[i := Concat(clus[i].pages)];
        var c := clus[i].(dirty := false);
        assert None() == seq(|disk'|, _ => 0);
        StepPut(np, i, disk, clus, nrClus, g, None(), c, disk', g, None());
        clus, disk := clus[i := c], disk';
      }
    }

    // -------------------------------------------------------------- walks over the cache

    /** radix_tree_gang_lookup: the next clusters from `first` on, at most sixteen; `next` is past the last of them. */
    method GangLookup(first: nat) returns (batch: seq<nat>, next: nat)
      requires Valid0() && first <= |disk|
      ensures first <= next <= |disk| && |batch| <= 16 && batch == InOrder(clus.Keys, first, next)
      ensures if batch == [] then next == |disk| else next == batch[|batch| - 1] + 1
    {
      batch, next := [], first;
      var i := first;
      while i < |disk| && |batch| < 16
        invariant first <= next <= i <= |disk| && |batch| <= 16
        invariant batch == InOrder(clus.Keys, first, next) == InOrder(clus.Keys, first, i)
        invariant batch != [] ==> next == batch[|batch| - 1] + 1
      {
        if i in clus {
          batch, next := batch + [i], i + 1;
        }
        i := i + 1;
      }
      if batch == [] {
        next := i;
      }
    }

    ghost predicate Valid0()
      reads this
    {
      forall i :: i in clus ==> i < |disk|
    }

    ghost predicate With(extra: seq<nat>)
      reads this
    {
      Inv(np, disk, clus, nrClus, g, extra)
    }

    method Ref(i: nat, ghost extra: seq<nat>, ghost loose: bool)
      requires WithFlag(extra, i, loose) && i in clus && i < |disk| && i < |extra|
      modifies this`clus
      ensures WithFlag(extra[i := extra[i] + 1], i, loose) && clus.Keys == old(clus).Keys && clus[i].dirty == old(clus)[i].dirty
    {
      ghost var seen := Seen(i, loose);
      SlotAt(np, i, disk, seen, nrClus, g, extra);
      var c := clus[i];
      c := c.(ref := c.ref + 1);
      StepPut(np, i, disk, seen, nrClus, g, extra, Flagged(c, loose), disk, g, extra[i := extra[i] + 1]);
      assert clus[i := c][i := Flagged(c, loose)] == seen[i := Flagged(c, loose)];
      clus := clus[i := c];
      assert Seen(i, loose) == seen[i := Flagged(c, loose)];
    }

    method Deref(i: nat, ghost extra: seq<nat>)
      requires With(extra) && i in clus && extra[i] > 0
      modifies this`clus
      ensures With(extra[i := extra[i] - 1]) && clus.Keys == old(clus).Keys
    {
      SlotAt(np, i, disk, clus, nrClus, g, extra);
      var c := clus[i];
      c := c.(ref := c.ref - 1);
      StepPut(np, i, disk, clus, nrClus, g, extra, c, disk, g, extra[i := extra[i] - 1]);
      clus := clus[i := c];
    }
  }

  /** The members of `keys` from a on and before b, in order. */
  function InOrder(keys: set<nat>, a: nat, b: nat): seq<nat> {
    if b <= a then [] else InOrder(keys, a, b - 1) + if b - 1 in keys then [b - 1] else []
  }

  lemma {:induction false} InOrderFacts(keys: set<nat>, a: nat, b: nat)
    ensures forall x :: x in InOrder(keys, a, b) <==> x in keys && a <= x < b
    ensures forall p :: 0 <= p < |InOrder(keys, a, b)| ==> a <= InOrder(keys, a, b)[p] < b && InOrder(keys, a, b)[p] in keys
    ensures forall p, q :: 0 <= p < q < |InOrder(keys, a, b)| ==> InOrder(keys, a, b)[p] < InOrder(keys, a, b)[q]
    decreases b
  {
    if b > a {
      InOrderFacts(keys, a, b - 1);
    }
  }

  /** A cluster that is cached begins with a history of no touch. */
  ghost function Begun(h: seq<bool>): (r: seq<bool>)
    ensures r != []
  {
    if h == [] then [false] else h
  }
}
