/** The trees of an inode: B-trees whose keys are 64-bit block numbers of the object and whose values are blocks. */
module IndexTree {
  import opened Common
  import opened BtreeShape
  import opened Balloc
  import opened Btree
  import opened BtreeDeleteKey
  import opened BtreeErase
  import opened BtreeClass
  import opened BtreeAsWritten
  import opened BtreePath
  import opened KeyOrder

  /** M is the map from numbers to blocks that the keys of m stand for. */
  ghost predicate Indexed(m: map<int, int>, M: map<nat, nat>) {
    && (forall v :: v in M ==> v < U64 && KeyOf(v) in m && m[KeyOf(v)] == M[v])
    && (forall k :: k in m ==> Named(M, k))
  }

  ghost predicate Named(M: map<nat, nat>, k: int) {
    exists v :: v in M && KeyOf(v) == k
  }

  lemma KeyPresent(m: map<int, int>, M: map<nat, nat>, v: nat)
    requires Indexed(m, M) && v < U64
    ensures KeyOf(v) in m <==> v in M
  {
    if KeyOf(v) in m {
      assert Named(M, KeyOf(v));
      var w :| w in M && KeyOf(w) == KeyOf(v);
      KeyInjective(v, w);
    }
  }

  lemma IndexedPut(m: map<int, int>, M: map<nat, nat>, v: nat, b: nat)
    requires Indexed(m, M) && v < U64
    ensures Indexed(m[KeyOf(v) := b], M[v := b])
  {
    var m', M' := m[KeyOf(v) := b], M[v := b];
    forall w | w in M'
      ensures w < U64 && KeyOf(w) in m' && m'[KeyOf(w)] == M'[w]
    {
      if w != v && KeyOf(w) == KeyOf(v) {
        KeyInjective(v, w);
      }
    }
    forall k | k in m'
      ensures Named(M', k)
    {
      if k == KeyOf(v) {
        assert v in M';
      } else {
        assert Named(M, k);
        var w :| w in M && KeyOf(w) == k;
        assert w in M';
      }
    }
  }

  lemma IndexedDrop(m: map<int, int>, M: map<nat, nat>, v: nat)
    requires Indexed(m, M) && v < U64
    ensures Indexed(m - {KeyOf(v)}, M - {v})
  {
    var m', M' := m - {KeyOf(v)}, M - {v};
    forall w | w in M'
      ensures w < U64 && KeyOf(w) in m' && m'[KeyOf(w)] == M'[w]
    {
      if KeyOf(w) == KeyOf(v) {
        KeyInjective(v, w);
      }
    }
    forall k | k in m'
      ensures Named(M', k)
    {
      assert Named(M, k);
      var w :| w in M && KeyOf(w) == k;
      assert w in M';
    }
  }

  /** The blocks that a tree names. */
  ghost function Range(M: map<nat, nat>): set<nat> {
    set v | v in M :: M[v]
  }

  ghost predicate Injective(M: map<nat, nat>) {
    forall v, w :: v in M && w in M && v != w ==> M[v] != M[w]
  }

  ghost predicate TreeOk(m: Mem, T: Tree, M: map<nat, nat>) {
    Quiet(m) && Spells(m, T) && BtreeShape.Valid(T) && Indexed(T.m, M)
  }

  /** The blocks in use are those of the tree and `rest`. */
  ghost predicate Among(m: Mem, used: set<nat>, rest: set<nat>) {
    used == rest + m.store.Keys && rest !! m.store.Keys && 0 in rest && m.t >= 2
  }

  /** The root is where it was, and the degree is what it was. */
  ghost predicate SameRoot(m: Mem, m': Mem) {
    m'.t == m.t && m'.root == m.root
  }

  method Find(m: Mem, ghost T: Tree, ghost M: map<nat, nat>, v: nat) returns (m': Mem, err: TreeErr, b: nat)
    requires TreeOk(m, T, M) && v < U64
    ensures TreeOk(m', T, M) && SameTree(m, m')
    ensures err == (if v in M then Done else ENOENT) && (err == Done ==> b == M[v])
  {
    KeyInRange(v);
    KeyPresent(T.m, M, v);
    var x;
    m', err, x := NodeFindKey(m, T, KeyOf(v));
    b := if err == Done then x else 0;
  }

  method Insert(m: Mem, ghost T: Tree, ghost M: map<nat, nat>, space: Space, v: nat, b: nat, ghost rest: set<nat>)
    returns (m': Mem, ghost T': Tree, ghost M': map<nat, nat>, err: TreeErr)
    requires TreeOk(m, T, M) && v < U64 && space.Valid() && Among(m, space.used, rest)
    modifies space
    ensures space.Valid() && TreeOk(m', T', M') && Among(m', space.used, rest) && SameRoot(m, m')
    ensures err == Done ==> v !in M && M' == M[v := b] && T' == Inserted(T, KeyOf(v), b, old(space.used))
    ensures err == Done ==> Settled(T', KeyOf(v)) && (Clean(T', KeyOf(v)) <==> !StuckAfter(T, KeyOf(v)))
    ensures v !in M ==> (err == Done <==> old(space.usedBlocks) + Takes(T, KeyOf(v)) <= space.layout.nrBlocks)
    ensures err == Done ==> space.usedBlocks == old(space.usedBlocks) + Takes(T, KeyOf(v))
    ensures space.used == old(space.used) + m'.store.Keys
    ensures err != Done ==> M' == M
    ensures err != Done && v !in M ==> old(space.usedBlocks) + Height(T) + 2 > space.layout.nrBlocks
    ensures old(space.usedBlocks) <= space.usedBlocks <= old(space.usedBlocks) + Height(T) + 2 && Height(T') <= Height(T) + 1
  {
    hide Clean, StuckAfter, Takes, Inserted, Settled;
    KeyInRange(v);
    KeyPresent(T.m, M, v);
    m', T', err := TreeInsert(m, T, space, KeyOf(v), b, false);
    M' := M;
    if err == Done {
      IndexedPut(T.m, M, v, b);
      M' := M[v := b];
    }
  }

  /** Deletion as it is written or as it is meant. */
  method Delete(m: Mem, ghost T: Tree, ghost M: map<nat, nat>, space: Space, v: nat, asWritten: bool, ghost rest: set<nat>)
    returns (m': Mem, ghost T': Tree, fault: bool)
    requires TreeOk(m, T, M) && v < U64 && space.Valid() && Among(m, space.used, rest)
    modifies space
    ensures space.Valid() && (fault <==> asWritten && !Clean(T, KeyOf(v)))
    ensures !fault ==> TreeOk(m', T', M - {v}) && Among(m', space.used, rest) && SameRoot(m, m')
  {
    hide Clean;
    KeyInRange(v);
    KeyPresent(T.m, M, v);
    IndexedDrop(T.m, M, v);
    fault := false;
    if asWritten {
      var r;
      m', T', r := DeleteAsWritten(m, T, KeyOf(v));
      fault := r == Fault;
    } else {
      var err;
      m', T', err := NodeDeleteKey(m, T, space, KeyOf(v));
    }
  }

  /** nkfs_btree_erase: the nodes are given back, and `blocks` are the values that the callback gets, one for each key. */
  method Erase(m: Mem, ghost T: Tree, ghost M: map<nat, nat>, space: Space, ghost rest: set<nat>) returns (blocks: seq<nat>)
    requires TreeOk(m, T, M) && space.Valid() && Among(m, space.used, rest) && Injective(M)
    modifies space
    ensures space.Valid() && space.used == rest
    ensures (set b | b in blocks) == Range(M) && forall i, j :: 0 <= i < j < |blocks| ==> blocks[i] != blocks[j]
  {
    var m', log := EraseTree(m, T, space);
    LogValues(T.m, M, log);
    blocks := seq(|log|, i requires 0 <= i < |log| => if log[i].v >= 0 then log[i].v else 0);
    assert forall i :: 0 <= i < |log| ==> blocks[i] == log[i].v;
    LogRange(T.m, M, log, blocks);
  }

  /** One pair of the log for each number of M. */
  lemma LogValues(m: map<int, int>, M: map<nat, nat>, log: seq<KV>)
    requires Indexed(m, M) && Injective(M)
    requires forall kv :: kv in log <==> kv.k in m && m[kv.k] == kv.v
    requires forall i, j :: 0 <= i < j < |log| ==> log[i].k != log[j].k
    ensures forall i :: 0 <= i < |log| ==> log[i].v >= 0 && log[i].v in Range(M)
    ensures forall i, j :: 0 <= i < j < |log| ==> log[i].v != log[j].v
  {
    forall i | 0 <= i < |log|
      ensures log[i].v >= 0 && log[i].v in Range(M)
    {
      var v := NumberOf(m, M, log, i);
    }
    forall i, j | 0 <= i < j < |log|
      ensures log[i].v != log[j].v
    {
      var v := NumberOf(m, M, log, i);
      var w := NumberOf(m, M, log, j);
    }
  }

  lemma NumberOf(m: map<int, int>, M: map<nat, nat>, log: seq<KV>, i: nat) returns (v: nat)
    requires Indexed(m, M) && i < |log|
    requires forall kv :: kv in log <==> kv.k in m && m[kv.k] == kv.v
    ensures v in M && KeyOf(v) == log[i].k && M[v] == log[i].v
  {
    assert log[i] in log;
    assert Named(M, log[i].k);
    v :| v in M && KeyOf(v) == log[i].k;
  }

  lemma LogRange(m: map<int, int>, M: map<nat, nat>, log: seq<KV>, blocks: seq<nat>)
    requires Indexed(m, M) && |blocks| == |log| && forall i :: 0 <= i < |log| ==> blocks[i] == log[i].v && log[i].v in Range(M)
    requires forall kv :: kv in log <==> kv.k in m && m[kv.k] == kv.v
    ensures (set b | b in blocks) == Range(M)
  {
    forall b | b in Range(M)
      ensures b in blocks
    {
      var v :| v in M && M[v] == b;
      var kv := KV(KeyOf(v), b);
      assert kv in log;
      var i :| 0 <= i < |log| && log[i] == kv;
      assert blocks[i] == b;
    }
    forall b | b in blocks
      ensures b in Range(M)
    {
      var i :| 0 <= i < |blocks| && blocks[i] == b;
    }
  }
}
