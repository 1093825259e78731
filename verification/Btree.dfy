/** The B-tree over its blocks: find and insert of core/btree.c.

    A node is named by its block. `store` is what the tree's blocks hold (every change is written
    through), `held` counts the references operations have on nodes in memory, `dead` are the deleted
    nodes that somebody still refers to, and `active` is nodes_active, the number of cached nodes. */
module Btree {
  import opened BtreeShape
  import opened BtreeSteps
  import opened BtreeEdits
  import opened BtreePath
  import opened NodeBuffer
  import opened Balloc

  datatype TreeErr = Done | EEXIST | ENOENT | EIO | ENOMEM | EAGAIN

  /** The answers of an insertion that could not get the blocks it needed. */
  predicate OutOfBlocks(err: TreeErr) {
    err == EIO || err == ENOMEM
  }

  datatype Mem = Mem(
    t: nat, root: nat, store: map<nat, Node>, held: multiset<nat>, dead: set<nat>, active: int)

  /** The nodes a lookup by block finds: referred to and not deleted. */
  ghost function Cached(held: multiset<nat>, dead: set<nat>): set<nat> {
    set b | b in held && b !in dead
  }

  ghost predicate RefsOk(m: Mem) {
    m.active == |Cached(m.held, m.dead)|
  }

  /** `T` is the annotated tree that the blocks spell. */
  ghost predicate Spells(m: Mem, T: Tree) {
    T.t == m.t && T.root == m.root && T.store == m.store && Inv(T)
  }

  /** Only references and the cache differ. */
  ghost predicate SameTree(m: Mem, m': Mem) {
    m'.t == m.t && m'.root == m.root && m'.store == m.store
  }

  /** The references an operation has while it stands at `node`. */
  ghost function At(m: Mem, node: nat): multiset<nat> {
    if node == m.root then multiset{m.root} else multiset{m.root, node}
  }

  ghost predicate Refs(m: Mem, held: multiset<nat>) {
    RefsOk(m) && m.held == held && m.dead == {}
  }

  /** Between operations only the root is in memory, referred to once. */
  ghost predicate Quiet(m: Mem) {
    Refs(m, multiset{m.root})
  }

  lemma QuietMeansOneNode(m: Mem)
    requires Quiet(m)
    ensures Cached(m.held, m.dead) == {m.root} && m.active == 1
  {
    assert Cached(m.held, m.dead) == {m.root};
  }

  // ---------------------------------------------------------------- nodes in memory

  method NodeRead(m: Mem, b: nat) returns (m': Mem)
    requires RefsOk(m) && b in m.store && b !in m.dead
    ensures RefsOk(m') && SameTree(m, m') && m'.held == m.held + multiset{b} && m'.dead == m.dead
  {
    m' := m.(held := m.held + multiset{b});
    assert Cached(m'.held, m'.dead) == Cached(m.held, m.dead) + {b};
    if b !in m.held {
      m' := m'.(active := m.active + 1);
    }
  }

  /** Dropping a reference nobody has stops the machine. */
  method NodeDeref(m: Mem, b: nat) returns (m': Mem)
    requires RefsOk(m) && b in m.held
    ensures RefsOk(m') && SameTree(m, m') && m'.held == m.held - multiset{b}
    ensures m'.dead == if b in m'.held then m.dead else m.dead - {b}
  {
    m' := m.(held := m.held - multiset{b});
    if b !in m'.held {
      assert Cached(m'.held, m.dead - {b}) == Cached(m.held, m.dead) - {b};
      if b !in m.dead {
        m' := m'.(active := m.active - 1);
      }
      m' := m'.(dead := m.dead - {b});
    } else {
      assert Cached(m'.held, m.dead) == Cached(m.held, m.dead);
    }
  }

  /** Drops the reference on `node`, unless it is the root. */
  method Leave(m: Mem, node: nat) returns (m': Mem)
    requires Refs(m, At(m, node))
    ensures Quiet(m') && SameTree(m, m')
  {
    m' := m;
    if node != m.root {
      m' := NodeDeref(m, node);
    }
  }

  /** A found node is handed out with a reference of its own, which its user drops. */
  method LeaveFound(m: Mem, node: nat) returns (m': Mem)
    requires Refs(m, At(m, node)) && node in m.store
    ensures Quiet(m') && SameTree(m, m')
  {
    m' := m;
    if node == m.root {
      m' := NodeRead(m', node);
    }
    m' := NodeDeref(m', node);
  }

  /** Drops the reference on `node`, unless that is the root, keeping the one on `child`. */
  method MoveOn(m: Mem, node: nat, child: nat) returns (m': Mem)
    requires Refs(m, At(m, node) + multiset{child}) && child != m.root && child != node
    ensures Refs(m', At(m, child)) && SameTree(m, m')
  {
    m' := m;
    if node != m.root {
      m' := NodeDeref(m, node);
      assert m'.held == multiset{m.root, child};
    }
  }

  method DerefTwo(m: Mem, a: nat, b: nat, ghost rest: multiset<nat>) returns (m': Mem)
    requires Refs(m, rest + multiset{a} + multiset{b})
    ensures Refs(m', rest) && SameTree(m, m')
  {
    m' := NodeDeref(m, a);
    m' := NodeDeref(m', b);
  }

  // ---------------------------------------------------------------- find

  lemma Readable(m: Mem, T: Tree, b: nat)
    requires Spells(m, T) && b in m.store
    ensures Fits(m.t, m.store[b]) && Sorted(m.store[b].kvs)
    ensures b in T.info && m.store[b].leaf == (T.info[b].height == 0)
  {
    assert BlockOk(T, b);
  }

  /** The search for `k` has reached `node`. */
  ghost predicate Standing(T: Tree, node: nat, k: int) {
    BtreeShape.Valid(T) && node in T.store && node in T.info && T.info[node].lo < k < T.info[node].hi
  }

  method NodeFindKey(m0: Mem, ghost T: Tree, k: int) returns (m: Mem, err: TreeErr, v: int)
    requires Spells(m0, T) && BtreeShape.Valid(T) && Quiet(m0) && 0 <= k < KEY_LIMIT
    ensures SameTree(m0, m) && Quiet(m)
    ensures err == if k in T.m then Done else ENOENT
    ensures err == Done ==> v == T.m[k]
  {
    m, v := m0, 0;
    var node := m.root;
    while true
      invariant SameTree(m0, m) && Spells(m, T) && Standing(T, node, k) && Refs(m, At(m, node))
      decreases T.info[node].height
    {
      Readable(m, T, node);
      var n := m.store[node];
      if |n.kvs| == 0 {
        assert BlockOk(T, node);
        LeafDecides(T, node, k);
        m := Leave(m, node);
        return m, ENOENT, v;
      }
      var found, i := Search(m.t, n, k);
      if found {
        assert BlockOk(T, node);
        v := n.kvs[i].v;
        m := LeaveFound(m, node);
        return m, Done, v;
      } else if n.leaf {
        LeafDecides(T, node, k);
        m := Leave(m, node);
        return m, ENOENT, v;
      }
      Descend(T, node, i, k);
      m := NodeRead(m, n.kids[i]);
      m := MoveOn(m, node, n.kids[i]);
      node := n.kids[i];
    }
  }

  // ---------------------------------------------------------------- insert

  datatype Maybe<+X> = Nothing | Just(x: X)

  ghost predicate Owning(m: Mem, used: set<nat>) {
    m.t >= 2 && m.store.Keys <= used && 0 in used && 0 !in m.store
  }

  /** The blocks gained came from the free ones, and nothing else was taken. */
  ghost predicate OnlyGrew(before: set<nat>, used: set<nat>, after: set<nat>, used': set<nat>) {
    before <= after && used' == used + after && (after - before) !! used
  }

  lemma GrewTwice(a: set<nat>, used: set<nat>, b: set<nat>, used1: set<nat>, c: set<nat>, used2: set<nat>)
    requires OnlyGrew(a, used, b, used1) && OnlyGrew(b, used1, c, used2)
    ensures OnlyGrew(a, used, c, used2)
  {
  }

  lemma GrewBy(before: set<nat>, used: set<nat>, new': set<nat>)
    requires before <= used && new' !! used
    ensures OnlyGrew(before, used, before + new', used + new')
  {
  }

  method NodeCreate(m: Mem, space: Space) returns (m': Mem, r: Maybe<nat>)
    requires space.Valid() && Owning(m, space.used) && RefsOk(m) && m.dead == {}
    modifies space
    ensures space.Valid() && Owning(m', space.used) && RefsOk(m') && m'.dead == {}
    ensures r.Nothing? ==> m' == m && space.used == old(space.used) && space.usedBlocks == old(space.usedBlocks) == space.layout.nrBlocks
    ensures r.Just? ==> space.usedBlocks == old(space.usedBlocks) + 1
    ensures r.Just? ==>
      && r.x == Least(old(space.used)) && r.x !in old(space.used) && space.used == old(space.used) + {r.x}
      && m'.store == m.store[r.x := Node(false, [], [])] && m'.held == m.held + multiset{r.x}
      && m'.t == m.t && m'.root == m.root
  {
    var err, b := space.BlockAlloc();
    if err != Balloc.Ok {
      return m, Nothing;
    }
    LeastIs(old(space.used), b);
    m' := NodeRead(m.(store := m.store[b := Node(false, [], [])]), b);
    r := Just(b);
  }

  method NodeDelete(m: Mem, space: Space, b: nat) returns (m': Mem)
    requires space.Valid() && Owning(m, space.used) && RefsOk(m) && b in m.store && b in m.held && b !in m.dead
    modifies space
    ensures space.Valid() && Owning(m', space.used) && RefsOk(m')
    ensures space.used == old(space.used) - {b} && space.usedBlocks == old(space.usedBlocks) - 1
    ensures m' == m.(store := m.store - {b}, dead := m.dead + {b}, active := m'.active)
  {
    space.InRange(b);
    var err := space.Free(b);
    m' := m.(store := m.store - {b}, dead := m.dead + {b}, active := m.active - 1);
    assert Cached(m'.held, m'.dead) == Cached(m.held, m.dead) - {b};
  }

  /** Splits full child i of p into itself and the freshly created `new'`. */
  method SplitAt(m: Mem, ghost T: Tree, p: nat, i: nat, new': nat) returns (m': Mem)
    requires T.t == m.t && T.root == m.root && Inv(T) && CanSplit(T, p, i, new')
    requires m.store == T.store[new' := Node(false, [], [])]
    requires Fits(m.t, m.store[p]) && Fits(m.t, m.store[m.store[p].kids[i]])
    ensures m' == m.(store := m'.store) && m'.store == Split(T, p, i, new').store
  {
    var c := m.store[p].kids[i];
    var p', c', n := SplitNodes(m.t, m.store[p], m.store[c], i, new');
    m' := m.(store := m.store[p := p'][c := c'][new' := n]);
  }

  /** Gives back a node that was just created. */
  method NodeUndo(m: Mem, space: Space, b: nat, ghost rest: multiset<nat>) returns (m': Mem)
    requires space.Valid() && Owning(m, space.used) && b in m.store
    requires Refs(m, rest + multiset{b}) && b !in rest
    modifies space
    ensures space.Valid() && Owning(m', space.used)
    ensures space.used == old(space.used) - {b} && space.usedBlocks == old(space.usedBlocks) - 1
    ensures Refs(m', rest) && m'.store == m.store - {b} && m'.t == m.t && m'.root == m.root
  {
    m' := NodeDelete(m, space, b);
    m' := NodeDeref(m', b);
  }

  /** Allocates the blocks a root split needs; failing leaves no trace. */
  method CreateTwo(m: Mem, space: Space) returns (m': Mem, r: Maybe<(nat, nat)>)
    requires space.Valid() && Owning(m, space.used) && Quiet(m) && m.root in m.store
    modifies space
    ensures space.Valid() && Owning(m', space.used)
    ensures r.Nothing? ==> SameTree(m, m') && Quiet(m') && space.used == old(space.used)
    ensures r.Nothing? <==> old(space.usedBlocks) + 2 > space.layout.nrBlocks
    ensures space.usedBlocks == old(space.usedBlocks) + if r.Just? then 2 else 0
    ensures r.Just? ==>
      var (c, n) := r.x;
      && c == Least(old(space.used)) && n == Least(old(space.used) + {c}) && space.used == old(space.used) + {c} + {n}
      && c !in old(space.used) && n !in old(space.used) && c != n && m'.t == m.t && m'.root == m.root
      && m'.store == m.store[c := Node(false, [], [])][n := Node(false, [], [])]
      && Refs(m', multiset{m.root} + multiset{c} + multiset{n})
  {
    var clone, new2;
    m', clone := NodeCreate(m, space);
    if clone.Nothing? {
      return m', Nothing;
    }
    m', new2 := NodeCreate(m', space);
    if new2.Nothing? {
      m' := NodeUndo(m', space, clone.x, m.held);
      return m', Nothing;
    }
    r := Just((clone.x, new2.x));
    space.Counted();
  }

  /** Moves a full root's contents to two created nodes and makes them its children; the root keeps its block. */
  method SplitRootInto(m: Mem, ghost T: Tree, clone: nat, new2: nat) returns (m': Mem, ghost T': Tree)
    requires T.t == m.t && T.root == m.root && BtreeShape.Valid(T) && |T.store[m.root].kvs| == 2 * m.t - 1
    requires clone !in T.store && new2 !in T.store && clone != new2
    requires m.store == T.store[clone := Node(false, [], [])][new2 := Node(false, [], [])]
    ensures m' == m.(store := m'.store) && Spells(m', T') && BtreeShape.Valid(T') && T'.m == T.m
    ensures m'.store.Keys == T.store.Keys + {clone, new2} && |m'.store[m.root].kvs| == 1
    ensures Height(T') == Height(T) + 1 && KidsHaveRoom(T', T'.store[T'.root])
    ensures T.t >= 2 && T.root in T.info && CanSplit(Grow(T, clone), T.root, 0, new2)
    ensures T' == Split(Grow(T, clone), T.root, 0, new2)
  {
    assert BlockOk(T, T.root);
    T' := SplitRootKeeps(T, clone, new2);
    m' := SplitRootNodes(m, clone, new2);
    HalvesHaveRoom(T, clone, new2, T');
  }

  /** No child of `n` is full. */
  ghost predicate KidsHaveRoom(T: Tree, n: Node) {
    forall i :: 0 <= i < |n.kids| ==> !FullAt(T, n.kids[i])
  }

  lemma HalvesHaveRoom(T: Tree, clone: nat, new2: nat, S: Tree)
    requires T.t >= 2 && T.root in T.store && |T.store[T.root].kvs| == 2 * T.t - 1 && Cuttable(T.store[T.root], T.t - 1)
    requires clone !in T.store && new2 !in T.store && clone != new2
    requires S.t == T.t && S.root == T.root && S.store == SplitRootStore(T, clone, new2)
    ensures KidsHaveRoom(S, S.store[S.root])
  {
    assert S.store[S.root].kids == [clone, new2];
  }

  method GrowRoot(m: Mem, ghost T: Tree, space: Space) returns (m': Mem, ghost T': Tree, ok: bool)
    requires space.Valid() && Owning(m, space.used) && Quiet(m)
    requires Spells(m, T) && BtreeShape.Valid(T) && |m.store[m.root].kvs| == 2 * m.t - 1
    modifies space
    ensures space.Valid() && Owning(m', space.used) && OnlyGrew(m.store.Keys, old(space.used), m'.store.Keys, space.used)
    ensures Quiet(m') && m'.t == m.t && m'.root == m.root && Spells(m', T') && BtreeShape.Valid(T') && T'.m == T.m
    ensures ok <==> old(space.usedBlocks) + 2 <= space.layout.nrBlocks
    ensures space.usedBlocks == old(space.usedBlocks) + if ok then 2 else 0
    ensures ok ==> |m'.store[m.root].kvs| < 2 * m.t - 1 && Height(T') == Height(T) + 1 && KidsHaveRoom(T', T'.store[T'.root])
    ensures !ok ==> T' == T
    ensures ok ==> CanGrow(T, old(space.used)) && T' == Taller(T, old(space.used)) && space.used == UsedTaller(old(space.used))
  {
    T' := T;
    var two;
    m', two := CreateTwo(m, space);
    ok := two.Just?;
    if ok {
      assert old(space.used) + {two.x.0} + {two.x.1} == old(space.used) + {two.x.0, two.x.1};
      GrewBy(m.store.Keys, old(space.used), {two.x.0, two.x.1});
      m', T' := SplitRootInto(m', T, two.x.0, two.x.1);
      m' := DerefTwo(m', two.x.0, two.x.1, multiset{m.root});
    }
  }

  method SplitRootNodes(m: Mem, clone: nat, new2: nat) returns (m': Mem)
    requires m.root in m.store && Fits(m.t, m.store[m.root]) && |m.store[m.root].kvs| == 2 * m.t - 1
    ensures m' == m.(store := m'.store)
    ensures var n := m.store[m.root];
      m'.store == m.store[clone := Lower(n, m.t - 1)][new2 := Upper(n, m.t - 1)]
                         [m.root := WithKid(Node(false, [], [clone]), 0, n.kvs[m.t - 1], new2)]
  {
    var cloned := CopyNode(m.t, Node(true, [], []), m.store[m.root]);
    var top, low, high := SplitNodes(m.t, Node(false, [], [clone]), cloned, 0, new2);
    m' := m.(store := m.store[clone := low][new2 := high][m.root := top]);
  }

  /** Splits the full child i of `node`, on which there is a reference, and drops that; false if no block is free. */
  method SplitFull(m: Mem, ghost T: Tree, space: Space, node: nat, i: nat, ghost k: int)
    returns (m': Mem, ghost T': Tree, ok: bool)
    requires space.Valid() && Owning(m, space.used) && Spells(m, T) && Standing(T, node, k)
    requires !m.store[node].leaf && i < |m.store[node].kids| && InGap(m.store[node], i, k)
    requires CanSplitKid(m, node, i)
    requires Refs(m, At(m, node) + multiset{m.store[node].kids[i]})
    modifies space
    ensures space.Valid() && Owning(m', space.used) && OnlyGrew(m.store.Keys, old(space.used), m'.store.Keys, space.used)
    ensures m'.t == m.t && m'.root == m.root && Spells(m', T') && Standing(T', node, k) && T'.m == T.m
    ensures Refs(m', At(m', node)) && T'.info[node] == T.info[node] && Height(T') == Height(T)
    ensures space.usedBlocks == old(space.usedBlocks) + if ok then 1 else 0
    ensures !ok ==> space.usedBlocks == space.layout.nrBlocks
    ensures ok ==> !T'.store[node].leaf && KidHasRoom(T', T'.store[node], k) && |T'.store[node].kvs| == |T.store[node].kvs| + 1
    ensures ok ==> CanSplit(T, node, i, Least(old(space.used))) && T' == Split(T, node, i, Least(old(space.used)))
    ensures ok ==> space.used == old(space.used) + {Least(old(space.used))}
  {
    var child := m.store[node].kids[i];
    Readable(m, T, node);
    Readable(m, T, child);
    KidFacts(T, node, i);
    T' := T;
    var r;
    m', r := NodeCreate(m, space);
    if r.Nothing? {
      m' := NodeDeref(m', child);
      return m', T', false;
    }
    m', T' := SplitWith(m', T, node, i, r.x, k);
    m' := DerefTwo(m', child, r.x, At(m, node));
    GrewBy(m.store.Keys, old(space.used), {r.x});
    ok := true;
  }

  method SplitWith(m: Mem, ghost T: Tree, node: nat, i: nat, new': nat, ghost k: int) returns (m': Mem, ghost T': Tree)
    requires T.t == m.t && T.root == m.root && Standing(T, node, k) && CanSplit(T, node, i, new')
    requires m.store == T.store[new' := Node(false, [], [])] && InGap(T.store[node], i, k)
    requires Fits(m.t, m.store[node]) && Fits(m.t, m.store[m.store[node].kids[i]])
    ensures m' == m.(store := m'.store) && Spells(m', T') && Standing(T', node, k) && T'.m == T.m
    ensures T'.info[node] == T.info[node] && m'.store.Keys == T.store.Keys + {new'} && Height(T') == Height(T)
    ensures !T'.store[node].leaf && KidHasRoom(T', T'.store[node], k) && |T'.store[node].kvs| == |T.store[node].kvs| + 1
    ensures T' == Split(T, node, i, new')
  {
    SplitKeepsRest(T, node, i, new');
    SplitMakesRoom(T, node, i, new', k);
    KidFacts(T, node, i);
    T' := Split(T, node, i, new');
    m' := SplitAt(m, T, node, i, new');
  }

  ghost predicate CanSplitKid(m: Mem, node: nat, i: nat)
    requires node in m.store && i < |m.store[node].kids|
  {
    && |m.store[node].kvs| < 2 * m.t - 1 && m.store[node].kids[i] in m.store
    && |m.store[m.store[node].kids[i]].kvs| == 2 * m.t - 1
  }

  /** Block b is a leaf that holds k, with a key to spare. */
  ghost predicate Spares(T: Tree, b: nat, k: int) {
    HeldBy(T, b, k) && T.store[b].leaf && (b == T.root || |T.store[b].kvs| >= T.t)
  }

  /** Where a key is that has just been put in. */
  ghost predicate Settled(T: Tree, k: int) {
    exists b :: Spares(T, b, k)
  }

  method InsertInLeaf(m: Mem, ghost T: Tree, node: nat, i: nat, kv: KV) returns (m': Mem, ghost T': Tree)
    requires Spells(m, T) && Standing(T, node, kv.k) && Refs(m, At(m, node)) && m.t >= 2
    requires m.store[node].leaf && InGap(m.store[node], i, kv.k) && |m.store[node].kvs| < 2 * m.t - 1
    ensures Spells(m', T') && BtreeShape.Valid(T') && T'.m == T.m[kv.k := kv.v] && kv.k !in T.m && Height(T') == Height(T)
    ensures Quiet(m') && m'.t == m.t && m'.root == m.root && m'.store.Keys == m.store.Keys && Settled(T', kv.k)
    ensures T' == LeafPut(T, node, i, kv)
  {
    Readable(m, T, node);
    assert BlockOk(T, node);
    LeafInsertKeeps(T, node, i, kv);
    var n := LeafInsert(m.t, m.store[node], i, kv);
    m' := m.(store := m.store[node := n]);
    T' := T.(store := m'.store, m := T.m[kv.k := kv.v]);
    assert T'.store[node].kvs[i].k == kv.k;
    assert Spares(T', node, kv.k);
    m' := Leave(m', node);
  }

  method ReplaceAt(m: Mem, ghost T: Tree, node: nat, i: nat, k: int, v: int) returns (m': Mem, ghost T': Tree)
    requires Spells(m, T) && Standing(T, node, k) && Refs(m, At(m, node)) && m.t >= 2
    requires i < |m.store[node].kvs| && m.store[node].kvs[i].k == k
    ensures Spells(m', T') && BtreeShape.Valid(T') && T'.m == T.m[k := v] && k in T.m && Height(T') == Height(T)
    ensures Quiet(m') && m'.t == m.t && m'.root == m.root && m'.store.Keys == m.store.Keys
  {
    Readable(m, T, node);
    assert BlockOk(T, node);
    SetValueKeeps(T, node, i, v);
    var n := ReplaceValue(m.t, m.store[node], i, v);
    m' := m.(store := m.store[node := n]);
    T' := T.(store := m'.store, m := T.m[k := v]);
    m' := Leave(m', node);
  }

  /** What is ahead of an insertion that stands at node' of T' is what was ahead of it at `node` of T. */
  ghost predicate SameAhead(T: Tree, node: nat, used: set<nat>, T': Tree, node': nat, used': set<nat>, k: int, v: int) {
    && Descent(T', node', k, v, used') == Descent(T, node, k, v, used)
    && (k !in T.m ==> (WornLeft(T', node', k) <==> WornLeft(T, node, k)))
  }

  /** Splits the child that `k` goes to if it is full, otherwise moves to it. */
  method SplitOrDescend(m: Mem, ghost T: Tree, space: Space, node: nat, i: nat, ghost k: int, ghost v: int)
    returns (m': Mem, ghost T': Tree, node': nat, ok: bool)
    requires space.Valid() && Owning(m, space.used) && Spells(m, T) && Standing(T, node, k)
    requires Refs(m, At(m, node)) && Room(T, T.store[node], k)
    requires !m.store[node].leaf && InGap(m.store[node], i, k)
    modifies space
    ensures space.Valid() && Owning(m', space.used) && OnlyGrew(m.store.Keys, old(space.used), m'.store.Keys, space.used)
    ensures m'.t == m.t && m'.root == m.root && Spells(m', T') && Standing(T', node', k) && T'.m == T.m
    ensures Refs(m', At(m', node')) && Height(T') == Height(T)
    ensures !ok ==> space.usedBlocks == old(space.usedBlocks) == space.layout.nrBlocks && SplitsLeft(T, node, k) >= 1
    ensures ok ==> space.usedBlocks + SplitsLeft(T', node', k) == old(space.usedBlocks) + SplitsLeft(T, node, k)
    ensures ok ==> Room(T', T'.store[node'], k) && SameAhead(T, node, old(space.used), T', node', space.used, k, v)
    ensures ok ==>
      || T'.info[node'].height < T.info[node].height
      || (T'.info[node'].height == T.info[node].height && |T'.store[node'].kvs| > |T.store[node].kvs|)
  {
    hide SplitsLeft, WornLeft, Split, Descent;
    Descend(T, node, i, k);
    var child := m.store[node].kids[i];
    Readable(m, T, child);
    m' := NodeRead(m, child);
    T', node' := T, node;
    if |m.store[child].kvs| == 2 * m.t - 1 {
      LeftFull(T, node, i, k);
      m', T', ok := SplitFull(m', T, space, node, i, k);
      if ok {
        LeftSplit(T, node, i, Least(old(space.used)), k);
        DescentSplit(T, node, i, k, v, old(space.used));
      }
    } else {
      LeftDown(T, node, i, k);
      DescentDown(T, node, i, k, v, space.used);
      m' := MoveOn(m', node, child);
      node', ok := child, true;
    }
  }

  /** Fails exactly if fewer blocks are free than will be split. */
  method InsertNonfull(m0: Mem, ghost T0: Tree, space: Space, k: int, v: int, replace: bool)
    returns (m: Mem, ghost T: Tree, err: TreeErr)
    requires space.Valid() && Owning(m0, space.used) && Quiet(m0)
    requires Spells(m0, T0) && BtreeShape.Valid(T0) && |m0.store[m0.root].kvs| < 2 * m0.t - 1
    requires 0 <= k < KEY_LIMIT
    modifies space
    ensures space.Valid() && Owning(m, space.used) && OnlyGrew(m0.store.Keys, old(space.used), m.store.Keys, space.used) && Quiet(m)
    ensures m.t == m0.t && m.root == m0.root && Spells(m, T) && BtreeShape.Valid(T)
    ensures err == Done || err == EEXIST || err == EIO
    ensures err == Done ==> T.m == T0.m[k := v] && (if k in T0.m then replace else Settled(T, k))
    ensures err != Done ==> T.m == T0.m
    ensures err == EEXIST ==> k in T.m && !replace
    ensures err == EIO <==> old(space.usedBlocks) + SplitsLeft(T0, m0.root, k) > space.layout.nrBlocks
    ensures space.usedBlocks == if err == EIO then space.layout.nrBlocks else old(space.usedBlocks) + SplitsLeft(T0, m0.root, k)
    ensures err == Done && k !in T0.m ==> T == Descent(T0, m0.root, k, v, old(space.used))
    ensures err == Done && k !in T0.m ==> (WornFrom(T.t, Profile(T, k), 0) <==> WornLeft(T0, m0.root, k))
    ensures Height(T) == Height(T0)
  {
    hide SplitsLeft, WornLeft, Profile, WornFrom, Descent;
    m, T := m0, T0;
    var node := m.root;
    while true
      invariant space.Valid() && Owning(m, space.used) && OnlyGrew(m0.store.Keys, old(space.used), m.store.Keys, space.used)
      invariant m.t == m0.t && m.root == m0.root && Spells(m, T) && Standing(T, node, k) && T.m == T0.m
      invariant Refs(m, At(m, node)) && Room(T, T.store[node], k) && Height(T) == Height(T0)
      invariant space.usedBlocks + SplitsLeft(T, node, k) == old(space.usedBlocks) + SplitsLeft(T0, m0.root, k)
      invariant SameAhead(T0, m0.root, old(space.used), T, node, space.used, k, v)
      decreases T.info[node].height, 2 * m.t - |T.store[node].kvs|
    {
      space.Counted();
      Readable(m, T, node);
      var n := m.store[node];
      var found, i := Search(m.t, n, k);
      if found {
        LeftNothing(T, node, k);
        if replace {
          m, T := ReplaceAt(m, T, node, i, k, v);
          return m, T, Done;
        }
        assert BlockOk(T, node);
        m := Leave(m, node);
        return m, T, EEXIST;
      }
      if n.leaf {
        LeftNothing(T, node, k);
        DescentLeaf(T, node, i, k, v, space.used);
        ghost var S := T;
        m, T := InsertInLeaf(m, T, node, i, KV(k, v));
        LeftLeaf(S, node, i, KV(k, v));
        return m, T, Done;
      }
      var ok;
      m, T, node, ok := SplitOrDescend(m, T, space, node, i, k, v);
      if !ok {
        m := Leave(m, node);
        return m, T, EIO;
      }
    }
  }

  // ---------------------------------------------------------------- a new tree

  lemma OneLeaf(t: nat, b: nat) returns (T: Tree)
    requires t >= 2
    ensures var m := Mem(t, b, map[b := Node(true, [], [])], multiset{b}, {}, 1);
      Quiet(m) && Spells(m, T) && BtreeShape.Valid(T) && T.m == map[] && Height(T) == 0
  {
    T := Tree(t, b, map[b := Node(true, [], [])], map[b := Info(0, -1, KEY_LIMIT)], map[]);
    assert BlockOk(T, b);
    assert Cached(multiset{b}, {}) == {b};
  }

  /** nkfs_btree_create for a new tree: a leaf without keys in a block that was free. */
  method NewTree(t: nat, space: Space) returns (ok: bool, m: Mem, ghost T: Tree)
    requires t >= 2 && space.Valid() && 0 in space.used
    modifies space
    ensures space.Valid() && (ok <==> old(space.usedBlocks) < space.layout.nrBlocks)
    ensures space.usedBlocks == old(space.usedBlocks) + if ok then 1 else 0
    ensures !ok ==> space.used == old(space.used)
    ensures Quiet(m) && Spells(m, T) && BtreeShape.Valid(T) && T.m == map[] && Height(T) == 0 && m.t == t
    ensures ok ==> space.used == old(space.used) + m.store.Keys && m.store.Keys !! old(space.used) && m.store.Keys == {m.root}
  {
    space.Counted();
    var err, b := space.BlockAlloc();
    ok := err == Balloc.Ok;
    m := Mem(t, b, map[b := Node(true, [], [])], multiset{b}, {}, 1);
    T := OneLeaf(t, b);
  }
}
