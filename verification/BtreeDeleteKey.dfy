/** The main loop of deletion. */
module BtreeDeleteKey {
  import opened BtreeShape
  import opened BtreeSteps
  import opened BtreeEdits
  import opened BtreeBalance
  import opened NodeBuffer
  import opened Balloc
  import opened Btree
  import opened BtreeDelete

  lemma SameHeight(T: Tree, S: Tree)
    requires SameHeights(T, S) && BtreeShape.Valid(S) && S.root == T.root
    ensures Height(S) == Height(T)
  {
  }

  lemma EnteredHeight(T: Tree, node: nat, c: nat, S: Tree, next: nat)
    requires BtreeShape.Valid(T) && node in T.info && c in T.info && Entered(T, node, c, S, next)
    ensures Height(S) <= Height(T)
  {
    if next != node {
      SameHeight(T, S);
    }
  }

  lemma AboveTwice(T: Tree, S: Tree, R: Tree, h: nat, h2: nat)
    requires AboveSame(T, S, h) && SameHeights(T, S) && AboveSame(S, R, h2) && SameHeights(S, R) && h2 <= h
    ensures AboveSame(T, R, h) && SameHeights(T, R)
  {
  }

  /** Leaf `l` ends where `node` ended on the chosen side, lies within it, and has a key to spare. */
  ghost predicate Edge(T: Tree, node: nat, S: Tree, l: nat, last: bool)
    requires node in T.info
  {
    && BtreeShape.Valid(S) && S.m == T.m && S.t == T.t && S.root == T.root
    && l in S.store && l in S.info && l != S.root && |S.store[l].kvs| >= S.t
    && T.info[node].lo <= S.info[l].lo && S.info[l].hi <= T.info[node].hi
    && (if last then S.info[l].hi == T.info[node].hi else S.info[l].lo == T.info[node].lo)
    && AboveSame(T, S, T.info[node].height) && SameHeights(T, S)
    && S.info[l].height <= T.info[node].height
  }

  lemma EdgeStep(T0: Tree, node: nat, T: Tree, curr: nat, last: bool, i: nat, S: Tree, next: nat)
    requires node in T0.info && Edge(T0, node, T, curr, last) && !T.store[curr].leaf
    requires i < |T.store[curr].kids| && i == (if last then |T.store[curr].kvs| else 0)
    requires T.store[curr].kids[i] in T.info && Balanced(T, curr, T.store[curr].kids[i], S, next)
    ensures Edge(T0, node, S, next, last) && S.info[next].height < T.info[curr].height
  {
    KidFacts(T, curr, i);
    var j :| 0 <= j < |S.store[curr].kids| && S.store[curr].kids[j] == next;
    KidFacts(S, curr, j);
    AboveTwice(T0, T, S, T0.info[node].height, T.info[curr].height);
  }

  /** nkfs_btree_node_find_left_most (`last`) and nkfs_btree_node_find_right_most, which differ in the end
      they follow: the leaf with the greatest or the least key under `node`, balanced on the way. */
  method FindEdge(m0: Mem, ghost T0: Tree, space: Space, node: nat, last: bool)
    returns (m: Mem, ghost T: Tree, curr: nat)
    requires space.Valid() && Owning(m0, space.used) && Spells(m0, T0) && BtreeShape.Valid(T0)
    requires node in T0.store && node in T0.info && node != T0.root && |T0.store[node].kvs| >= T0.t
    requires RefsOk(m0) && m0.dead == {} && node in m0.held && HeldAbove(m0.held, T0, T0.info[node].height)
    modifies space
    ensures space.Valid() && Owning(m, space.used) && Spells(m, T) && m.t == m0.t && m.root == m0.root
    ensures OnlyShrank(m0.store.Keys, old(space.used), m.store.Keys, space.used)
    ensures Edge(T0, node, T, curr, last) && m.store[curr].leaf
    ensures Refs(m, m0.held + multiset{curr})
  {
    HasInfo(T0);
    m, T, curr := m0, T0, node;
    Readable(m, T, node);
    if m.store[node].leaf {
      m := NodeRead(m, node);
      return;
    }
    m, T, curr := EdgeChild(m0, T0, space, node, T0, node, last);
    while !m.store[curr].leaf
      invariant space.Valid() && Owning(m, space.used) && Spells(m, T) && m.t == m0.t && m.root == m0.root
      invariant OnlyShrank(m0.store.Keys, old(space.used), m.store.Keys, space.used)
      invariant Edge(T0, node, T, curr, last) && T.info[curr].height < T0.info[node].height
      invariant Refs(m, m0.held + multiset{curr})
      decreases T.info[curr].height
    {
      ghost var before, used := m.store.Keys, space.used;
      m, T, curr := EdgeNext(m, T, space, curr, T0, node, last, m0.held);
      ShrankTwice(m0.store.Keys, old(space.used), before, used, m.store.Keys, space.used);
    }
  }

  /** One level down along the edge, letting go of `curr`. */
  method EdgeNext(m: Mem, ghost T: Tree, space: Space, curr: nat, ghost T0: Tree, ghost node: nat, last: bool,
      ghost rest: multiset<nat>)
    returns (m': Mem, ghost T': Tree, next: nat)
    requires space.Valid() && Owning(m, space.used) && Spells(m, T) && node in T0.info && Edge(T0, node, T, curr, last)
    requires !m.store[curr].leaf && T.info[curr].height < T0.info[node].height
    requires Refs(m, rest + multiset{curr}) && HeldAbove(rest, T0, T0.info[node].height)
    modifies space
    ensures space.Valid() && Owning(m', space.used) && Spells(m', T') && m'.t == m.t && m'.root == m.root
    ensures OnlyShrank(m.store.Keys, old(space.used), m'.store.Keys, space.used)
    ensures Edge(T0, node, T', next, last) && T'.info[next].height < T.info[curr].height
    ensures Refs(m', rest + multiset{next})
  {
    HeldStaysAbove(rest, T0, T, T0.info[node].height);
    m', T', next := EdgeChild(m, T, space, curr, T0, node, last);
    m' := NodeDeref(m', curr);
  }

  /** One level down along the edge. */
  method EdgeChild(m: Mem, ghost T: Tree, space: Space, curr: nat, ghost T0: Tree, ghost node: nat, last: bool)
    returns (m': Mem, ghost T': Tree, next: nat)
    requires space.Valid() && Owning(m, space.used) && Spells(m, T) && node in T0.info && Edge(T0, node, T, curr, last)
    requires !m.store[curr].leaf
    requires RefsOk(m) && m.dead == {} && curr in m.held && HeldAbove(m.held, T, T.info[curr].height)
    modifies space
    ensures space.Valid() && Owning(m', space.used) && Spells(m', T') && m'.t == m.t && m'.root == m.root
    ensures OnlyShrank(m.store.Keys, old(space.used), m'.store.Keys, space.used)
    ensures Edge(T0, node, T', next, last) && T'.info[next].height < T.info[curr].height
    ensures Refs(m', m.held + multiset{next})
  {
    Readable(m, T, curr);
    var i := if last then |m.store[curr].kvs| else 0;
    m', T', next := ChildBalance(m, T, space, curr, i);
    EdgeStep(T0, node, T, curr, last, i, T', next);
  }

  // ---------------------------------------------------------------- the key to delete

  /** The search stands at `node`, which can lose a key. */
  ghost predicate Ready(m: Mem, T: Tree, node: nat, k: int) {
    Spells(m, T) && Standing(T, node, k) && Spare(T, node)
  }

  /** `T` is the tree as it will be once `k` is taken out of the leaf, from where it was copied up. */
  ghost predicate Pending(m: Mem, T: Tree, l: nat, k: int) {
    && T.t == m.t && T.root == m.root && BtreeShape.Valid(T)
    && l in T.store && l in m.store && T.store == m.store[l := T.store[l]]
    && m.store[l].leaf && Fits(m.t, m.store[l]) && Sorted(m.store[l].kvs) && HasKey(m.store[l].kvs, k)
    && forall j :: 0 <= j < |m.store[l].kvs| && m.store[l].kvs[j].k == k ==> T.store[l] == WithoutKey(m.store[l], j)
  }

  lemma HeightsOf(T: Tree, node: nat, i: nat, held: multiset<nat>)
    requires Inv(T) && node in T.store && node in T.info && i + 1 < |T.store[node].kids|
    requires forall b :: b in held ==>
      b == T.root || b == node || b == T.store[node].kids[i] || b == T.store[node].kids[i + 1]
    ensures T.info[node].height >= 1 && HeldAbove(held, T, T.info[node].height - 1)
  {
    KidFacts(T, node, i);
    KidFacts(T, node, i + 1);
    RootHighest(T, node);
  }

  function EndIndex(n: Node, last: bool): nat
    requires |n.kvs| >= 1
  {
    if last then |n.kvs| - 1 else 0
  }

  /** Key i of `node` can be replaced by the key at the end of edge leaf `l` next to it. */
  lemma EdgeReplaces(T: Tree, node: nat, i: nat, S: Tree, l: nat, last: bool)
    requires BtreeShape.Valid(T) && node in T.store && node in T.info && !T.store[node].leaf && i < |T.store[node].kvs|
    requires i + 1 < |T.store[node].kids|
    requires var c := T.store[node].kids[if last then i else i + 1];
      c in T.info && Edge(T, c, S, l, last) && T.info[c].height < T.info[node].height
    requires S.store[l].leaf
    ensures S.store[l].kvs != [] && node in S.store && S.store[node] == T.store[node]
    ensures CanReplace(S, node, i, l, EndIndex(S.store[l], last))
  {
    var k := T.store[node].kvs[i].k;
    KidFacts(T, node, i);
    KidFacts(T, node, i + 1);
    assert BlockOk(T, node);
    assert BlockOk(S, l);
    assert BlockOk(S, node);
    if last {
      LastIsBefore(S, l, k);
    } else {
      FirstIsAfter(S, l, k);
    }
  }

  lemma PendingAfter(m: Mem, S: Tree, node: nat, i: nat, l: nat, j: nat, m': Mem)
    requires Spells(m, S) && BtreeShape.Valid(S) && CanReplace(S, node, i, l, j)
    requires m'.t == m.t && m'.root == m.root && m'.store == m.store[node := WithSep(m.store[node], i, m.store[l].kvs[j])]
    ensures Pending(m', Replace(S, node, i, l, j), l, m.store[l].kvs[j].k)
  {
    ReplaceKeeps(S, node, i, l, j);
    assert BlockOk(S, l);
    var T := Replace(S, node, i, l, j);
    assert T.store == m'.store[l := T.store[l]];
  }

  /** Copies the neighbouring key of an edge leaf over key i of `node` and goes to that leaf. */
  method FromNeighbour(m: Mem, ghost T: Tree, space: Space, node: nat, i: nat, last: bool)
    returns (m': Mem, ghost T': Tree, leaf: nat, key: int)
    requires space.Valid() && Owning(m, space.used) && Spells(m, T) && BtreeShape.Valid(T)
    requires node in T.store && node in T.info && !T.store[node].leaf
    requires i < |T.store[node].kvs| && i + 1 < |T.store[node].kids|
    requires var c := T.store[node].kids[if last then i else i + 1]; c in T.store && |T.store[c].kvs| >= T.t
    requires Refs(m, At(m, node) + multiset{T.store[node].kids[i]} + multiset{T.store[node].kids[i + 1]})
    modifies space
    ensures space.Valid() && Owning(m', space.used) && m'.t == m.t && m'.root == m.root
    ensures OnlyShrank(m.store.Keys, old(space.used), m'.store.Keys, space.used)
    ensures Pending(m', T', leaf, key) && T'.m == T.m - {T.store[node].kvs[i].k} && Height(T') <= Height(T)
    ensures Refs(m', At(m', leaf)) && leaf != m.root
  {
    var pre, suc := m.store[node].kids[i], m.store[node].kids[i + 1];
    ghost var S;
    m', S, leaf := GoToEdge(m, T, space, node, i, last);
    m', T', key := CopyUp(m', S, node, i, leaf, EndIndex(m'.store[leaf], last));
    assert m'.held == At(m, node) + multiset{leaf} + multiset{pre} + multiset{suc};
    m' := DerefTwo(m', pre, suc, At(m, node) + multiset{leaf});
    m' := MoveOn(m', node, leaf);
  }

  /** Finds the leaf whose end key is next to key i of `node`. */
  method GoToEdge(m: Mem, ghost T: Tree, space: Space, node: nat, i: nat, last: bool)
    returns (m': Mem, ghost S: Tree, leaf: nat)
    requires space.Valid() && Owning(m, space.used) && Spells(m, T) && BtreeShape.Valid(T)
    requires node in T.store && node in T.info && !T.store[node].leaf
    requires i < |T.store[node].kvs| && i + 1 < |T.store[node].kids|
    requires var c := T.store[node].kids[if last then i else i + 1]; c in T.store && |T.store[c].kvs| >= T.t
    requires Refs(m, At(m, node) + multiset{T.store[node].kids[i]} + multiset{T.store[node].kids[i + 1]})
    modifies space
    ensures space.Valid() && Owning(m', space.used) && m'.t == m.t && m'.root == m.root
    ensures OnlyShrank(m.store.Keys, old(space.used), m'.store.Keys, space.used)
    ensures Spells(m', S) && BtreeShape.Valid(S) && S.m == T.m && Height(S) == Height(T) && leaf in S.store && S.store[leaf].kvs != []
    ensures node in S.store && S.store[node] == T.store[node]
    ensures CanReplace(S, node, i, leaf, EndIndex(S.store[leaf], last))
    ensures Refs(m', m.held + multiset{leaf})
  {
    KidFacts(T, node, i);
    KidFacts(T, node, i + 1);
    HeightsOf(T, node, i, m.held);
    m', S, leaf := FindEdge(m, T, space, m.store[node].kids[if last then i else i + 1], last);
    EdgeReplaces(T, node, i, S, leaf, last);
    SameHeight(T, S);
  }

  method CopyUp(m: Mem, ghost S: Tree, node: nat, i: nat, leaf: nat, j: nat)
    returns (m': Mem, ghost T: Tree, key: int)
    requires Spells(m, S) && BtreeShape.Valid(S) && CanReplace(S, node, i, leaf, j)
    ensures m' == m.(store := m'.store) && m'.store.Keys == m.store.Keys
    ensures Pending(m', T, leaf, key) && T.m == S.m - {S.store[node].kvs[i].k} && Height(T) == Height(S)
  {
    Readable(m, S, node);
    var kv := m.store[leaf].kvs[j];
    var n := ReplaceKv(m.t, m.store[node], i, kv);
    m' := m.(store := m.store[node := n]);
    PendingAfter(m, S, node, i, leaf, j, m');
    T, key := Replace(S, node, i, leaf, j), kv.k;
  }

  /** Joins the children around key i, both at the minimum, and goes on in the joint node. */
  method FoundMerge(m: Mem, ghost T: Tree, space: Space, node: nat, i: nat)
    returns (m': Mem, ghost T': Tree, next: nat)
    requires space.Valid() && Owning(m, space.used) && Spells(m, T) && BtreeShape.Valid(T)
    requires node in T.store && node in T.info && BothSmall(T, node, i)
    requires Refs(m, At(m, node) + multiset{T.store[node].kids[i]} + multiset{T.store[node].kids[i + 1]})
    modifies space
    ensures space.Valid() && Owning(m', space.used) && m'.t == m.t && m'.root == m.root
    ensures OnlyShrank(m.store.Keys, old(space.used), m'.store.Keys, space.used)
    ensures Ready(m', T', next, T.store[node].kvs[i].k) && T'.m == T.m && T'.info[next].height < T.info[node].height
    ensures Refs(m', At(m', next)) && Height(T') <= Height(T)
  {
    ghost var k := T.store[node].kvs[i].k;
    var pre, suc := m.store[node].kids[i], m.store[node].kids[i + 1];
    MergeFacts(T, node, i);
    RootHighest(T, node);
    KidFacts(T, node, i);
    KidFacts(T, node, i + 1);
    assert BlockOk(T, node);
    m', T', next := MergeNext(m, T, space, node, i);
    EnteredHeight(T, node, pre, T', next);
    m' := LeaveMerged(m', node, pre, suc, next);
  }

  /** The references that are left when the merged children are done with. */
  method LeaveMerged(m: Mem, node: nat, pre: nat, suc: nat, next: nat) returns (m': Mem)
    requires RefsOk(m) && m.held == At(m, node) + multiset{pre} + multiset{suc} && pre != suc
    requires pre !in At(m, node) && suc !in At(m, node)
    requires (next == node || next == pre) && next !in m.dead && m.dead <= {pre, suc}
    ensures Refs(m', At(m', next)) && SameTree(m, m')
  {
    if next == node {
      m' := DerefDeadTwo(m, suc, pre, At(m, node));
    } else {
      m' := DerefDead(m, suc, At(m, node) + multiset{pre});
      m' := MoveOn(m', node, pre);
    }
  }

  method DerefDead(m: Mem, b: nat, ghost rest: multiset<nat>) returns (m': Mem)
    requires RefsOk(m) && m.held == rest + multiset{b} && b !in rest && m.dead <= {b}
    ensures Refs(m', rest) && SameTree(m, m')
  {
    m' := NodeDeref(m, b);
  }

  method DerefDeadTwo(m: Mem, a: nat, b: nat, ghost rest: multiset<nat>) returns (m': Mem)
    requires RefsOk(m) && m.held == rest + multiset{a} + multiset{b} && a !in rest && b !in rest && a != b
    requires m.dead <= {a, b}
    ensures Refs(m', rest) && SameTree(m, m')
  {
    m' := NodeDeref(m, a);
    m' := NodeDeref(m', b);
  }

  /** `k` is not in `node`: goes to the child responsible for it, with a key to spare. */
  method DescendBalanced(m: Mem, ghost T: Tree, space: Space, node: nat, i: nat, ghost k: int)
    returns (m': Mem, ghost T': Tree, next: nat)
    requires space.Valid() && Owning(m, space.used) && Ready(m, T, node, k) && Refs(m, At(m, node))
    requires !m.store[node].leaf && InGap(m.store[node], i, k)
    modifies space
    ensures space.Valid() && Owning(m', space.used) && m'.t == m.t && m'.root == m.root
    ensures OnlyShrank(m.store.Keys, old(space.used), m'.store.Keys, space.used)
    ensures Ready(m', T', next, k) && T'.m == T.m && T'.info[next].height < T.info[node].height
    ensures Refs(m', At(m', next)) && Height(T') <= Height(T)
  {
    Descend(T, node, i, k);
    RootHighest(T, node);
    m', T', next := ChildBalance(m, T, space, node, i);
    EnteredHeight(T, node, m.store[node].kids[i], T', next);
    if next != node {
      m' := MoveOn(m', node, next);
    }
  }

  /** Takes the pending key out of its leaf. */
  method LeafFinish(m: Mem, ghost T: Tree, l: nat, k: int) returns (m': Mem)
    requires Pending(m, T, l, k) && Refs(m, At(m, l))
    ensures Spells(m', T) && Quiet(m') && m'.t == m.t && m'.root == m.root
  {
    var n := LeafDelete(m.t, m.store[l], k);
    var j :| 0 <= j < |m.store[l].kvs| && m.store[l].kvs[j].k == k;
    m' := m.(store := m.store[l := n]);
    m' := Leave(m', l);
  }

  /** A key found in a leaf that can spare it is as good as gone. */
  lemma LeafIsPending(m: Mem, T: Tree, l: nat, i: nat)
    requires Spells(m, T) && BtreeShape.Valid(T) && Spare(T, l) && T.store[l].leaf && i < |T.store[l].kvs|
    ensures var k := T.store[l].kvs[i].k;
      var S := T.(store := T.store[l := WithoutKey(T.store[l], i)], m := T.m - {k});
      Pending(m, S, l, k)
  {
    assert BlockOk(T, l);
    LeafDeleteKeeps(T, l, i);
    var k := T.store[l].kvs[i].k;
    forall j | 0 <= j < |T.store[l].kvs| && T.store[l].kvs[j].k == k
      ensures j == i
    {
    }
  }

  method AtLeaf(m: Mem, ghost T: Tree, l: nat, k: int) returns (m': Mem, ghost T': Tree, err: TreeErr)
    requires Ready(m, T, l, k) && T.store[l].leaf && Refs(m, At(m, l)) && m.t >= 2
    ensures Spells(m', T') && BtreeShape.Valid(T') && Quiet(m') && m'.t == m.t && m'.root == m.root
    ensures err == if k in T.m then Done else ENOENT
    ensures T'.m == T.m - {k} && m'.store.Keys == m.store.Keys && Height(T') == Height(T)
  {
    Readable(m, T, l);
    LeafDecides(T, l, k);
    var found, i := Search(m.t, m.store[l], k);
    if found {
      LeafIsPending(m, T, l, i);
      T' := T.(store := T.store[l := WithoutKey(m.store[l], i)], m := T.m - {k});
      m' := LeafFinish(m, T', l, k);
      err := Done;
    } else {
      T' := T;
      m' := Leave(m, l);
      assert T.m - {k} == T.m;
      err := ENOENT;
    }
  }

  method NodeDeleteKey(m0: Mem, ghost T0: Tree, space: Space, k: int) returns (m: Mem, ghost T: Tree, err: TreeErr)
    requires space.Valid() && Owning(m0, space.used) && Spells(m0, T0) && BtreeShape.Valid(T0) && Quiet(m0)
    requires 0 <= k < KEY_LIMIT
    modifies space
    ensures space.Valid() && Owning(m, space.used) && m.t == m0.t && m.root == m0.root
    ensures OnlyShrank(m0.store.Keys, old(space.used), m.store.Keys, space.used)
    ensures Spells(m, T) && BtreeShape.Valid(T) && Quiet(m)
    ensures err == if k in T0.m then Done else ENOENT
    ensures T.m == T0.m - {k} && Height(T) <= Height(T0)
  {
    m, T := m0, T0;
    var node := m.root;
    var key := k;
    while true
      invariant space.Valid() && Owning(m, space.used) && m.t == m0.t && m.root == m0.root
      invariant OnlyShrank(m0.store.Keys, old(space.used), m.store.Keys, space.used)
      invariant Refs(m, At(m, node)) && Ready(m, T, node, k) && key == k && T.m == T0.m && Height(T) <= Height(T0)
      decreases T.info[node].height
    {
      ghost var before, used := m.store.Keys, space.used;
      if m.store[node].leaf {
        m, T, err := AtLeaf(m, T, node, key);
        return;
      }
      var copied;
      m, T, node, key, copied := InsideStep(m, T, space, node, key);
      ShrankTwice(m0.store.Keys, old(space.used), before, used, m.store.Keys, space.used);
      if copied {
        m := LeafFinish(m, T, node, key);
        return m, T, Done;
      }
    }
  }

  /** One round of the loop at an internal node. */
  method InsideStep(m: Mem, ghost T: Tree, space: Space, node: nat, k: int)
    returns (m': Mem, ghost T': Tree, next: nat, key: int, copied: bool)
    requires space.Valid() && Owning(m, space.used) && Ready(m, T, node, k) && Refs(m, At(m, node))
    requires !m.store[node].leaf
    modifies space
    ensures space.Valid() && Owning(m', space.used) && m'.t == m.t && m'.root == m.root
    ensures OnlyShrank(m.store.Keys, old(space.used), m'.store.Keys, space.used)
    ensures Refs(m', At(m', next)) && Height(T') <= Height(T)
    ensures copied ==> Pending(m', T', next, key) && k in T.m && T'.m == T.m - {k}
    ensures !copied ==> key == k && Ready(m', T', next, key) && T'.m == T.m
    ensures !copied ==> T'.info[next].height < T.info[node].height
  {
    Readable(m, T, node);
    var found, i := Search(m.t, m.store[node], k);
    if found {
      assert BlockOk(T, node);
      m', T', next, key, copied := FoundInside(m, T, space, node, i);
    } else {
      m', T', next := DescendBalanced(m, T, space, node, i, k);
      key, copied := k, false;
    }
  }

  /** The key is in an internal node: it is replaced by its predecessor or successor, whichever side has a key
      to spare, which is then to be taken out of its leaf; otherwise it is pushed down into the joint child. */
  method FoundInside(m: Mem, ghost T: Tree, space: Space, node: nat, i: nat)
    returns (m': Mem, ghost T': Tree, next: nat, key: int, copied: bool)
    requires space.Valid() && Owning(m, space.used) && Spells(m, T) && BtreeShape.Valid(T) && Spare(T, node)
    requires node in T.info && !T.store[node].leaf && i < |T.store[node].kvs| && Refs(m, At(m, node))
    modifies space
    ensures space.Valid() && Owning(m', space.used) && m'.t == m.t && m'.root == m.root
    ensures OnlyShrank(m.store.Keys, old(space.used), m'.store.Keys, space.used)
    ensures Refs(m', At(m', next)) && Height(T') <= Height(T)
    ensures copied ==> Pending(m', T', next, key) && T'.m == T.m - {T.store[node].kvs[i].k}
    ensures !copied ==> key == T.store[node].kvs[i].k && Ready(m', T', next, key) && T'.m == T.m
    ensures !copied ==> T'.info[next].height < T.info[node].height
  {
    SiblingsExist(T, node, i);
    KidSize(T, node, i);
    KidSize(T, node, i + 1);
    var pre, suc := m.store[node].kids[i], m.store[node].kids[i + 1];
    key := m.store[node].kvs[i].k;
    m' := NodeRead(m, pre);
    m' := NodeRead(m', suc);
    copied := true;
    if |m.store[pre].kvs| >= m.t {
      m', T', next, key := FromNeighbour(m', T, space, node, i, true);
    } else if |m.store[suc].kvs| >= m.t {
      m', T', next, key := FromNeighbour(m', T, space, node, i, false);
    } else {
      m', T', next := FoundMerge(m', T, space, node, i);
      copied := false;
    }
  }
}
