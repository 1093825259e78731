/** Erasing a whole tree: nkfs_btree_erase walks it children first, calls back once per key and frees every node. */
module BtreeErase {
  import opened BtreeShape
  import opened Balloc
  import opened Btree

  // ---------------------------------------------------------------- subtrees

  /** The blocks of the subtree at `b`: those inside its interval that are not above it. */
  ghost function Under(T: Tree, b: nat): set<nat>
    requires b in T.info
  {
    set x | x in T.store && x in T.info
      && T.info[x].height <= T.info[b].height && T.info[b].lo <= T.info[x].lo && T.info[x].hi <= T.info[b].hi
  }

  ghost predicate Overlap(T: Tree, a: nat, b: nat)
    requires a in T.info && b in T.info
  {
    T.info[a].lo < T.info[b].hi && T.info[b].lo < T.info[a].hi
  }

  lemma NonEmpty(T: Tree, x: nat)
    requires Inv(T) && x in T.store
    ensures x in T.info && T.info[x].lo < T.info[x].hi
  {
    assert BlockOk(T, x);
    if x != T.root {
      assert T.info[x].lo < T.store[x].kvs[0].k < T.info[x].hi;
    }
  }

  /** Of two overlapping blocks the lower lies inside the higher. */
  lemma {:induction false} Nested(T: Tree, a: nat, b: nat)
    requires Inv(T) && a in T.store && b in T.store && a in T.info && b in T.info
    requires T.info[a].height <= T.info[b].height && Overlap(T, a, b)
    ensures a in Under(T, b)
    ensures T.info[a].height == T.info[b].height ==> a == b
    decreases T.info[b].height - T.info[a].height
  {
    RootHighest(T, b);
    if T.info[a].height == T.info[b].height {
      if a != b {
        LevelDisjoint(T, a, b);
      }
    } else {
      var p, i := ParentOf(T, a);
      Nested(T, p, b);
    }
  }

  /** Every block under `b` other than `b` is under one of its children. */
  lemma {:induction false} UnderSomeKid(T: Tree, b: nat, x: nat) returns (i: nat)
    requires Inv(T) && b in T.store && b in T.info && x in Under(T, b) && x != b
    ensures i < |T.store[b].kids| && T.store[b].kids[i] in T.info && x in Under(T, T.store[b].kids[i])
    decreases T.info[b].height - T.info[x].height
  {
    NonEmpty(T, x);
    Nested(T, x, b);
    RootHighest(T, b);
    var p, j := ParentOf(T, x);
    if p == b {
      i := j;
    } else {
      Nested(T, p, b);
      i := UnderSomeKid(T, b, p);
    }
  }

  lemma KidsDisjoint(T: Tree, b: nat, i: nat, j: nat)
    requires Inv(T) && b in T.store && i < j < |T.store[b].kids|
    ensures T.store[b].kids[i] in T.info && T.store[b].kids[j] in T.info
    ensures Under(T, T.store[b].kids[i]) !! Under(T, T.store[b].kids[j])
  {
    KidFacts(T, b, i);
    KidFacts(T, b, j);
    assert BlockOk(T, b);
    GapHasNoKey(T.store[b].kvs, i, j);
    forall x | x in Under(T, T.store[b].kids[i])
      ensures x !in Under(T, T.store[b].kids[j])
    {
      NonEmpty(T, x);
    }
  }

  /** What lies under the first n children. */
  ghost function FirstKids(T: Tree, b: nat, n: nat): set<nat>
    requires b in T.store && n <= |T.store[b].kids|
    requires forall j :: 0 <= j < |T.store[b].kids| ==> T.store[b].kids[j] in T.info
  {
    if n == 0 then {} else FirstKids(T, b, n - 1) + Under(T, T.store[b].kids[n - 1])
  }

  lemma {:induction false} FirstKidsMember(T: Tree, b: nat, n: nat, x: nat)
    requires b in T.store && n <= |T.store[b].kids|
    requires forall j :: 0 <= j < |T.store[b].kids| ==> T.store[b].kids[j] in T.info
    ensures x in FirstKids(T, b, n) <==> exists j :: 0 <= j < n && x in Under(T, T.store[b].kids[j])
  {
    if n > 0 {
      FirstKidsMember(T, b, n - 1, x);
    }
  }

  lemma KidsHaveInfo(T: Tree, b: nat)
    requires Inv(T) && b in T.store
    ensures forall j :: 0 <= j < |T.store[b].kids| ==>
      T.store[b].kids[j] in T.info && T.store[b].kids[j] in T.store && T.store[b].kids[j] != T.root
  {
    forall j | 0 <= j < |T.store[b].kids|
      ensures T.store[b].kids[j] in T.info && T.store[b].kids[j] in T.store && T.store[b].kids[j] != T.root
    {
      KidFacts(T, b, j);
    }
  }

  /** A subtree is its top and, without overlap, what is under its children. */
  lemma UnderIsTopAndKids(T: Tree, b: nat)
    requires Inv(T) && b in T.store && b in T.info
    requires forall j :: 0 <= j < |T.store[b].kids| ==> T.store[b].kids[j] in T.info
    ensures Under(T, b) == {b} + FirstKids(T, b, |T.store[b].kids|)
    ensures b !in FirstKids(T, b, |T.store[b].kids|)
  {
    var n := |T.store[b].kids|;
    forall x
      ensures x in FirstKids(T, b, n) ==> x in Under(T, b) && x != b
      ensures x in Under(T, b) && x != b ==> x in FirstKids(T, b, n)
    {
      FirstKidsMember(T, b, n, x);
      if x in FirstKids(T, b, n) {
        var j :| 0 <= j < n && x in Under(T, T.store[b].kids[j]);
        KidFacts(T, b, j);
      }
      if x in Under(T, b) && x != b {
        var i := UnderSomeKid(T, b, x);
      }
    }
  }

  lemma NextKidIsNew(T: Tree, b: nat, n: nat)
    requires Inv(T) && b in T.store && n < |T.store[b].kids|
    requires forall j :: 0 <= j < |T.store[b].kids| ==> T.store[b].kids[j] in T.info
    ensures FirstKids(T, b, n) !! Under(T, T.store[b].kids[n])
  {
    forall x | x in FirstKids(T, b, n)
      ensures x !in Under(T, T.store[b].kids[n])
    {
      FirstKidsMember(T, b, n, x);
      var j :| 0 <= j < n && x in Under(T, T.store[b].kids[j]);
      KidsDisjoint(T, b, j, n);
    }
  }

  lemma AllUnderRoot(T: Tree)
    requires Inv(T)
    ensures Under(T, T.root) == T.store.Keys
  {
    forall x | x in T.store
      ensures x in Under(T, T.root)
    {
      Within(T, x);
      RootHighest(T, x);
    }
  }

  // ---------------------------------------------------------------- the callbacks

  ghost predicate InBlocks(T: Tree, S: set<nat>, kv: KV) {
    exists b :: b in S && b in T.store && kv in T.store[b].kvs
  }

  /** `log` is every key-value pair of the blocks `S`, each once. */
  ghost predicate LogOf(T: Tree, S: set<nat>, log: seq<KV>) {
    && (forall kv :: kv in log <==> InBlocks(T, S, kv))
    && (forall i, j :: 0 <= i < j < |log| ==> log[i].k != log[j].k)
  }

  lemma LogJoin(T: Tree, S: set<nat>, log: seq<KV>, S': set<nat>, log': seq<KV>)
    requires Inv(T) && LogOf(T, S, log) && LogOf(T, S', log') && S !! S'
    ensures LogOf(T, S + S', log + log')
  {
    forall kv
      ensures kv in log + log' <==> InBlocks(T, S + S', kv)
    {
      if InBlocks(T, S + S', kv) {
        var b :| b in S + S' && b in T.store && kv in T.store[b].kvs;
        assert InBlocks(T, S, kv) || InBlocks(T, S', kv);
      }
    }
    forall x, y | x in log && y in log'
      ensures x.k != y.k
    {
      var b :| b in S && b in T.store && x in T.store[b].kvs;
      var c :| c in S' && c in T.store && y in T.store[c].kvs;
      assert HeldBy(T, b, x.k) && HeldBy(T, c, y.k);
      if x.k == y.k {
        OneHolder(T, b, c, x.k);
      }
    }
  }

  lemma LogOfBlock(T: Tree, b: nat)
    requires Inv(T) && b in T.store
    ensures LogOf(T, {b}, T.store[b].kvs)
  {
    assert BlockOk(T, b);
    forall kv | kv in T.store[b].kvs
      ensures InBlocks(T, {b}, kv)
    {
      assert b in {b};
    }
  }

  /** Over the whole tree the callbacks are exactly the map. */
  lemma LogIsMap(T: Tree, log: seq<KV>)
    requires Inv(T) && LogOf(T, T.store.Keys, log)
    ensures forall kv :: kv in log <==> kv.k in T.m && T.m[kv.k] == kv.v
    ensures forall i, j :: 0 <= i < j < |log| ==> log[i].k != log[j].k
  {
    forall kv
      ensures InBlocks(T, T.store.Keys, kv) <==> kv.k in T.m && T.m[kv.k] == kv.v
    {
      if InBlocks(T, T.store.Keys, kv) {
        var b :| b in T.store.Keys && b in T.store && kv in T.store[b].kvs;
        assert BlockOk(T, b);
      }
      if kv.k in T.m && T.m[kv.k] == kv.v {
        assert Stored(T, kv.k);
        var b :| HeldBy(T, b, kv.k);
        assert BlockOk(T, b);
        var i :| 0 <= i < |T.store[b].kvs| && T.store[b].kvs[i].k == kv.k;
        assert T.store[b].kvs[i] == kv && b in T.store.Keys;
      }
    }
  }

  // ---------------------------------------------------------------- the walk

  /** Erases the subtree at `node`; `gone` is what was erased before. The blocks freed are exactly its blocks,
      each once: freeing a free block is not allowed. `log` are the callbacks in their order. */
  method EraseNode(m: Mem, ghost T: Tree, space: Space, node: nat, ghost gone: set<nat>)
    returns (m': Mem, log: seq<KV>)
    requires space.Valid() && Owning(m, space.used) && RefsOk(m) && m.dead == {}
    requires BtreeShape.Valid(T) && node in T.store && node in T.info
    requires m.store == T.store - gone && Under(T, node) !! gone
    requires node in m.held && forall x :: x in Under(T, node) && x in m.held ==> x == node
    modifies space
    ensures space.Valid() && Owning(m', space.used) && RefsOk(m') && m'.held == m.held && m'.dead == {node}
    ensures m'.t == m.t && m'.root == m.root
    ensures m'.store == m.store - Under(T, node) && space.used == old(space.used) - Under(T, node)
    ensures LogOf(T, Under(T, node), log)
    decreases T.info[node].height, 1
  {
    KidsHaveInfo(T, node);
    UnderIsTopAndKids(T, node);
    m', log := EraseBelow(m, T, space, node, gone);
    ghost var S := FirstKids(T, node, |T.store[node].kids|);
    assert node in m'.store;
    m' := NodeDelete(m', space, node);
    MinusTwice(m.store, old(space.used), S, {node});
    assert Under(T, node) == S + {node};
  }

  /** The children's subtrees and the callbacks; a node without keys has no children to erase. */
  method EraseBelow(m: Mem, ghost T: Tree, space: Space, node: nat, ghost gone: set<nat>)
    returns (m': Mem, log: seq<KV>)
    requires space.Valid() && Owning(m, space.used) && RefsOk(m) && m.dead == {}
    requires BtreeShape.Valid(T) && node in T.store && node in T.info
    requires m.store == T.store - gone && Under(T, node) !! gone
    requires forall x :: x in Under(T, node) && x in m.held ==> x == node
    requires forall j :: 0 <= j < |T.store[node].kids| ==> T.store[node].kids[j] in T.info && T.store[node].kids[j] in T.store
    modifies space
    ensures space.Valid() && Owning(m', space.used) && RefsOk(m') && m'.held == m.held && m'.dead == {}
    ensures m'.t == m.t && m'.root == m.root
    ensures var S := FirstKids(T, node, |T.store[node].kids|);
      m'.store == m.store - S && space.used == old(space.used) - S
    ensures LogOf(T, Under(T, node), log)
    decreases T.info[node].height, 0, 1
  {
    m', log := m, [];
    assert node in Under(T, node);
    assert BlockOk(T, node);
    var n := m.store[node];
    if |n.kvs| > 0 && !n.leaf {
      m', log := EraseKids(m, T, space, node, gone);
    }
    LogOfSubtree(T, node, log);
    log := log + n.kvs;
  }

  /** The callbacks of the children and then its own make up a node's callbacks. */
  lemma LogOfSubtree(T: Tree, b: nat, log: seq<KV>)
    requires Inv(T) && b in T.store && b in T.info
    requires forall j :: 0 <= j < |T.store[b].kids| ==> T.store[b].kids[j] in T.info
    requires LogOf(T, FirstKids(T, b, |T.store[b].kids|), log)
    ensures LogOf(T, Under(T, b), log + T.store[b].kvs)
  {
    UnderIsTopAndKids(T, b);
    LogOfBlock(T, b);
    LogJoin(T, FirstKids(T, b, |T.store[b].kids|), log, {b}, T.store[b].kvs);
    assert Under(T, b) == FirstKids(T, b, |T.store[b].kids|) + {b};
  }

  lemma MinusTwice<V>(M: map<nat, V>, used: set<nat>, A: set<nat>, B: set<nat>)
    ensures (M - A) - B == M - (A + B) && (used - A) - B == used - (A + B)
  {
  }

  /** Child i can be erased after the ones before it. */
  lemma KidReady(T: Tree, b: nat, i: nat, gone: set<nat>, held: multiset<nat>)
    requires Inv(T) && b in T.store && b in T.info && i < |T.store[b].kids|
    requires forall j :: 0 <= j < |T.store[b].kids| ==> T.store[b].kids[j] in T.info
    requires Under(T, b) !! gone && forall x :: x in Under(T, b) && x in held ==> x == b
    ensures FirstKids(T, b, i) !! Under(T, T.store[b].kids[i])
    ensures Under(T, T.store[b].kids[i]) !! gone + FirstKids(T, b, i)
    ensures Under(T, T.store[b].kids[i]) !! (set x | x in held)
    ensures T.info[T.store[b].kids[i]].height < T.info[b].height
  {
    NextKidIsNew(T, b, i);
    KidUnder(T, b, i);
    KidFacts(T, b, i);
  }

  lemma NothingErased(T: Tree, b: nat)
    requires b in T.store && b in T.info
    ensures b in Under(T, b) && LogOf(T, {}, [])
  {
  }

  method EraseKids(m: Mem, ghost T: Tree, space: Space, node: nat, ghost gone: set<nat>)
    returns (m': Mem, log: seq<KV>)
    requires space.Valid() && Owning(m, space.used) && RefsOk(m) && m.dead == {}
    requires BtreeShape.Valid(T) && node in T.store && node in T.info
    requires m.store == T.store - gone && Under(T, node) !! gone
    requires forall x :: x in Under(T, node) && x in m.held ==> x == node
    requires forall j :: 0 <= j < |T.store[node].kids| ==> T.store[node].kids[j] in T.info && T.store[node].kids[j] in T.store
    modifies space
    ensures space.Valid() && Owning(m', space.used) && RefsOk(m') && m'.held == m.held && m'.dead == {}
    ensures m'.t == m.t && m'.root == m.root
    ensures var S := FirstKids(T, node, |T.store[node].kids|);
      m'.store == m.store - S && space.used == old(space.used) - S && LogOf(T, S, log)
    decreases T.info[node].height, 0, 0
  {
    hide BtreeShape.Inv, LogOf, Under;
    m', log := m, [];
    NothingErased(T, node);
    var kids := m.store[node].kids;
    var i := 0;
    while i < |kids|
      invariant i <= |kids| && space.Valid() && Owning(m', space.used) && RefsOk(m')
      invariant m'.held == m.held && m'.dead == {} && m'.t == m.t && m'.root == m.root
      invariant m'.store == m.store - FirstKids(T, node, i) && space.used == old(space.used) - FirstKids(T, node, i)
      invariant LogOf(T, FirstKids(T, node, i), log)
    {
      var c := kids[i];
      KidReady(T, node, i, gone, m.held);
      MinusTwice(T.store, old(space.used), gone, FirstKids(T, node, i));
      MinusTwice(m.store, old(space.used), FirstKids(T, node, i), Under(T, c));
      var sub;
      m', sub := EraseKid(m', T, space, c, gone + FirstKids(T, node, i));
      LogJoin(T, FirstKids(T, node, i), log, Under(T, c), sub);
      log := log + sub;
      i := i + 1;
    }
  }

  method EraseKid(m: Mem, ghost T: Tree, space: Space, c: nat, ghost gone: set<nat>)
    returns (m': Mem, log: seq<KV>)
    requires space.Valid() && Owning(m, space.used) && RefsOk(m) && m.dead == {}
    requires BtreeShape.Valid(T) && c in T.store && c in T.info
    requires m.store == T.store - gone && Under(T, c) !! gone && Under(T, c) !! (set x | x in m.held)
    modifies space
    ensures space.Valid() && Owning(m', space.used) && RefsOk(m') && m'.held == m.held && m'.dead == {}
    ensures m'.t == m.t && m'.root == m.root
    ensures m'.store == m.store - Under(T, c) && space.used == old(space.used) - Under(T, c)
    ensures LogOf(T, Under(T, c), log)
    decreases T.info[c].height, 2
  {
    assert c in Under(T, c);
    m' := NodeRead(m, c);
    m', log := EraseNode(m', T, space, c, gone);
    m' := NodeDeref(m', c);
  }

  lemma KidUnder(T: Tree, b: nat, i: nat)
    requires Inv(T) && b in T.store && b in T.info && i < |T.store[b].kids|
    ensures T.store[b].kids[i] in T.info && T.store[b].kids[i] in T.store
    ensures Under(T, T.store[b].kids[i]) <= Under(T, b) - {b} && T.store[b].kids[i] in Under(T, T.store[b].kids[i])
  {
    KidFacts(T, b, i);
  }

  /** nkfs_btree_erase: gives back every block of the tree and calls back once for each pair of its map. */
  method EraseTree(m: Mem, ghost T: Tree, space: Space) returns (m': Mem, log: seq<KV>)
    requires space.Valid() && Owning(m, space.used) && Spells(m, T) && BtreeShape.Valid(T) && Quiet(m)
    modifies space
    ensures space.Valid() && m'.store == map[] && space.used == old(space.used) - m.store.Keys
    ensures forall kv :: kv in log <==> kv.k in T.m && T.m[kv.k] == kv.v
    ensures forall i, j :: 0 <= i < j < |log| ==> log[i].k != log[j].k
    ensures RefsOk(m') && m'.root == m.root && m'.held == multiset{m.root} && m'.dead == {m.root}
  {
    AllUnderRoot(T);
    m', log := EraseNode(m, T, space, m.root, {});
    LogIsMap(T, log);
  }
}
