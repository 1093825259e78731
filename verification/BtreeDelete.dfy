/** Deletion of core/btree.c: one pass from the root, which gives every node it enters a key to spare. */
module BtreeDelete {
  import opened BtreeShape
  import opened BtreeSteps
  import opened BtreeEdits
  import opened BtreeBalance
  import opened NodeBuffer
  import opened Balloc
  import opened Btree

  /** The blocks lost were given back, and nothing else was. */
  ghost predicate OnlyShrank(before: set<nat>, used: set<nat>, after: set<nat>, used': set<nat>) {
    after <= before && used' == used - (before - after)
  }

  lemma ShrankTwice(a: set<nat>, used: set<nat>, b: set<nat>, used1: set<nat>, c: set<nat>, used2: set<nat>)
    requires OnlyShrank(a, used, b, used1) && OnlyShrank(b, used1, c, used2)
    ensures OnlyShrank(a, used, c, used2)
  {
  }

  /** None of the references is to a block below level `h`. */
  ghost predicate HeldAbove(held: multiset<nat>, T: Tree, h: nat) {
    forall b :: b in held && b in T.store && b in T.info ==> T.info[b].height >= h
  }

  lemma HeldStaysAbove(held: multiset<nat>, T: Tree, S: Tree, h: nat)
    requires HeldAbove(held, T, h) && SameHeights(T, S)
    ensures HeldAbove(held, S, h)
  {
  }

  // ---------------------------------------------------------------- the three ways to balance

  method BorrowLeftStep(m: Mem, ghost T: Tree, p: nat, i: nat) returns (m': Mem, ghost T': Tree)
    requires Spells(m, T) && BtreeShape.Valid(T) && Siblings(T, p, i)
    requires |T.store[T.store[p].kids[i]].kvs| >= T.t && |T.store[T.store[p].kids[i + 1]].kvs| == T.t - 1
    ensures Spells(m', T') && Balanced(T, p, T.store[p].kids[i + 1], T', T.store[p].kids[i + 1])
    ensures m' == m.(store := m'.store) && m'.store.Keys == m.store.Keys
  {
    hide BtreeShape.Inv, Lower, Upper, Prepended, WithoutLast, LastKid, WithSep;
    var l, c := m.store[p].kids[i], m.store[p].kids[i + 1];
    Readable(m, T, p);
    Readable(m, T, l);
    Readable(m, T, c);
    SiblingsExist(T, p, i);
    ghost var j := |m.store[l].kvs| - 1;
    BorrowedLeft(T, p, i, j);
    T' := Recut(T, p, i, j);
    BorrowLeft(m.store[l], m.store[p].kvs[i], m.store[c]);
    var p', c', l' := BorrowFromLeft(m.t, m.store[p], i + 1, m.store[c], m.store[l]);
    m' := m.(store := m.store[l := l'][c := c'][p := p']);
  }

  method BorrowRightStep(m: Mem, ghost T: Tree, p: nat, i: nat) returns (m': Mem, ghost T': Tree)
    requires Spells(m, T) && BtreeShape.Valid(T) && Siblings(T, p, i)
    requires |T.store[T.store[p].kids[i]].kvs| == T.t - 1 && |T.store[T.store[p].kids[i + 1]].kvs| >= T.t
    ensures Spells(m', T') && Balanced(T, p, T.store[p].kids[i], T', T.store[p].kids[i])
    ensures m' == m.(store := m'.store) && m'.store.Keys == m.store.Keys
  {
    hide BtreeShape.Inv, Lower, Upper, Appended, WithoutFirst, FirstKid, WithSep;
    var c, r := m.store[p].kids[i], m.store[p].kids[i + 1];
    Readable(m, T, p);
    Readable(m, T, c);
    Readable(m, T, r);
    SiblingsExist(T, p, i);
    BorrowedRight(T, p, i);
    T' := Recut(T, p, i, T.t);
    BorrowRight(m.store[c], m.store[p].kvs[i], m.store[r]);
    var p', c', r' := BorrowFromRight(m.t, m.store[p], i, m.store[c], m.store[r]);
    m' := m.(store := m.store[c := c'][r := r'][p := p']);
  }

  /** Joins children i and i+1 of p in the left one and deletes the right one. */
  method MergeStep(m: Mem, ghost T: Tree, space: Space, p: nat, i: nat) returns (m': Mem)
    requires space.Valid() && Owning(m, space.used) && RefsOk(m)
    requires Spells(m, T) && BtreeShape.Valid(T) && BothSmall(T, p, i)
    requires T.store[p].kids[i + 1] in m.held && T.store[p].kids[i + 1] !in m.dead
    modifies space
    ensures space.Valid() && Owning(m', space.used) && RefsOk(m')
    ensures m' == m.(store := Merge(T, p, i).store, dead := m.dead + {T.store[p].kids[i + 1]}, active := m'.active)
    ensures space.used == old(space.used) - {T.store[p].kids[i + 1]}
  {
    var l, r := m.store[p].kids[i], m.store[p].kids[i + 1];
    Readable(m, T, p);
    Readable(m, T, l);
    Readable(m, T, r);
    SiblingsExist(T, p, i);
    var l' := JoinNodes(m.t, m.store[l], m.store[p].kvs[i], m.store[r]);
    var p' := DropKid(m.t, m.store[p], i);
    m' := m.(store := m.store[l := l'][p := p']);
    m' := NodeDelete(m', space, r);
  }

  /** The root takes over the contents of its only child, whose node is deleted. */
  method CollapseStep(m: Mem, ghost T: Tree, space: Space) returns (m': Mem)
    requires space.Valid() && Owning(m, space.used) && RefsOk(m)
    requires T.t == m.t && T.root == m.root && T.store == m.store && Inv(T) && CanShrink(T)
    requires T.store[m.root].kids[0] in m.held && T.store[m.root].kids[0] !in m.dead
    modifies space
    ensures space.Valid() && Owning(m', space.used) && RefsOk(m')
    ensures m' == m.(store := Shrink(T).store, dead := m.dead + {T.store[m.root].kids[0]}, active := m'.active)
    ensures space.used == old(space.used) - {T.store[m.root].kids[0]}
  {
    var c := m.store[m.root].kids[0];
    assert BlockOk(T, T.root);
    assert BlockOk(T, c);
    KidFacts(T, T.root, 0);
    var n := CopyNode(m.t, m.store[m.root], m.store[c]);
    m' := m.(store := m.store[m.root := n]);
    m' := NodeDelete(m', space, c);
  }

  /** The tree got lower: the root has taken over its last child. */
  ghost predicate Lowered(T: Tree, T': Tree) {
    && BtreeShape.Valid(T') && T'.m == T.m && T'.t == T.t && T'.root == T.root && T'.store.Keys <= T.store.Keys
    && T.root in T.info && T'.info[T.root].height < T.info[T.root].height
  }

  method MergeKids(m: Mem, ghost T: Tree, space: Space, p: nat, i: nat) returns (m': Mem, ghost T': Tree, lowered: bool)
    requires space.Valid() && Owning(m, space.used) && RefsOk(m)
    requires Spells(m, T) && BtreeShape.Valid(T) && BothSmall(T, p, i)
    requires T.store[p].kids[i] in m.held && T.store[p].kids[i + 1] in m.held && m.dead == {}
    modifies space
    ensures space.Valid() && Owning(m', space.used) && RefsOk(m') && Spells(m', T')
    ensures OnlyShrank(m.store.Keys, old(space.used), m'.store.Keys, space.used)
    ensures m' == m.(store := m'.store, dead := m'.dead, active := m'.active)
    ensures var l, r := T.store[p].kids[i], T.store[p].kids[i + 1];
      if lowered then p == T.root && Lowered(T, T') && m'.dead == {l, r}
      else m'.dead == {r} && Balanced(T, p, l, T', l) && Balanced(T, p, r, T', l)
  {
    var l, r := m.store[p].kids[i], m.store[p].kids[i + 1];
    SiblingsExist(T, p, i);
    KidFacts(T, p, i);
    KidFacts(T, p, i + 1);
    MergeFacts(T, p, i);
    T' := Merge(T, p, i);
    m' := MergeStep(m, T, space, p, i);
    lowered := |m'.store[p].kvs| == 0;
    if lowered {
      Collapsed(T, i);
      m' := CollapseStep(m', T', space);
      T' := Shrink(T');
    } else {
      Merged(T, p, i);
    }
  }

  // ---------------------------------------------------------------- balancing a child

  /** Children of one block, on which there are no other references. */
  ghost predicate Trio(held: multiset<nat>, c: nat, sibs: seq<nat>) {
    c !in held && (forall s :: s in sibs ==> s !in held && s != c)
    && |sibs| <= 2 && (|sibs| == 2 ==> sibs[0] != sibs[1])
  }

  method ReadSiblings(m: Mem, sibs: seq<nat>, ghost rest: multiset<nat>) returns (m': Mem)
    requires Refs(m, rest) && |sibs| <= 2 && forall s :: s in sibs ==> s in m.store
    ensures Refs(m', rest + multiset(sibs)) && SameTree(m, m')
  {
    m' := m;
    if |sibs| >= 1 {
      m' := NodeRead(m', sibs[0]);
    }
    if |sibs| == 2 {
      m' := NodeRead(m', sibs[1]);
      assert sibs == [sibs[0], sibs[1]];
    }
  }

  method DerefSiblings(m: Mem, sibs: seq<nat>, ghost rest: multiset<nat>) returns (m': Mem)
    requires RefsOk(m) && m.held == rest + multiset(sibs) && |sibs| <= 2
    ensures RefsOk(m') && m'.held == rest && SameTree(m, m')
    ensures m'.dead <= m.dead && forall b :: b in m'.dead ==> b in rest || b !in sibs
  {
    m' := m;
    if |sibs| == 2 {
      assert sibs == [sibs[0]] + [sibs[1]];
      m' := DerefOne(m', sibs[1], rest + multiset{sibs[0]});
      m' := DerefOne(m', sibs[0], rest);
    } else if |sibs| == 1 {
      assert sibs == [sibs[0]];
      m' := DerefOne(m', sibs[0], rest);
    }
  }

  method DerefOne(m: Mem, b: nat, ghost rest: multiset<nat>) returns (m': Mem)
    requires RefsOk(m) && m.held == rest + multiset{b}
    ensures RefsOk(m') && m'.held == rest && SameTree(m, m')
    ensures m'.dead <= m.dead && (b in m'.dead ==> b in rest)
  {
    m' := NodeDeref(m, b);
  }

  /** Drops what balancing read and hands out a reference on `next`, except on the node itself. */
  method Settle(m: Mem, node: nat, c: nat, next: nat, sibs: seq<nat>, ghost rest: multiset<nat>) returns (m': Mem)
    requires RefsOk(m) && m.held == rest + multiset{c} + multiset(sibs) && Trio(rest, c, sibs)
    requires m.dead <= {c} + (set s | s in sibs) && next in m.store && next !in m.dead && node in rest
    requires next == c || next == node || next in sibs
    ensures SameTree(m, m') && Refs(m', if next == node then rest else rest + multiset{next})
  {
    m' := m;
    if next != c {
      m' := NodeDeref(m', c);
      m' := NodeRead(m', next);
    }
    m' := DerefSiblings(m', sibs, rest + multiset{next});
    if next == node {
      m' := NodeDeref(m', node);
    }
  }

  /** What descending into child c of `node` needs and gets. */
  ghost predicate Entered(T: Tree, node: nat, c: nat, T': Tree, next: nat)
    requires node in T.info && c in T.info
  {
    if next == node then node == T.root && Lowered(T, T') else Balanced(T, node, c, T', next)
  }

  ghost function LeftOf(n: Node, i: nat): seq<nat> {
    if 0 < i <= |n.kids| then [n.kids[i - 1]] else []
  }

  ghost function RightOf(n: Node, i: nat): seq<nat> {
    if i + 1 < |n.kids| then [n.kids[i + 1]] else []
  }

  /** Borrows from the left, else from the right, else merges with the left, else with the right. */
  method BorrowOrMerge(m: Mem, ghost T: Tree, space: Space, node: nat, i: nat)
    returns (m': Mem, ghost T': Tree, next: nat)
    requires space.Valid() && Owning(m, space.used) && RefsOk(m) && m.dead == {} && Spells(m, T) && BtreeShape.Valid(T)
    requires Spare(T, node) && node in T.info && !T.store[node].leaf && i < |T.store[node].kids|
    requires T.store[node].kids[i] in T.store && |T.store[T.store[node].kids[i]].kvs| == T.t - 1
    requires T.store[node].kids[i] in m.held
    requires forall s :: s in LeftOf(T.store[node], i) + RightOf(T.store[node], i) ==> s in m.held
    modifies space
    ensures space.Valid() && Owning(m', space.used) && Spells(m', T') && RefsOk(m')
    ensures OnlyShrank(m.store.Keys, old(space.used), m'.store.Keys, space.used)
    ensures m' == m.(store := m'.store, dead := m'.dead, active := m'.active)
    ensures T.store[node].kids[i] in T.info && Entered(T, node, T.store[node].kids[i], T', next)
    ensures forall b :: b in m'.dead ==>
      b == T.store[node].kids[i] || b in LeftOf(T.store[node], i) + RightOf(T.store[node], i)
    ensures next !in m'.dead
    ensures next == T.store[node].kids[i] || next == node || next in LeftOf(T.store[node], i)
  {
    var n := m.store[node];
    var c := n.kids[i];
    Readable(m, T, node);
    KidFacts(T, node, i);
    if i > 0 {
      SiblingsExist(T, node, i - 1);
      KidSize(T, node, i - 1);
    }
    if i < |n.kvs| {
      SiblingsExist(T, node, i);
      KidSize(T, node, i + 1);
    }
    if i > 0 && |m.store[n.kids[i - 1]].kvs| >= m.t {
      m', T' := BorrowLeftStep(m, T, node, i - 1);
      next := c;
    } else if i < |n.kvs| && |m.store[n.kids[i + 1]].kvs| >= m.t {
      m', T' := BorrowRightStep(m, T, node, i);
      next := c;
    } else if i > 0 {
      m', T', next := MergeNext(m, T, space, node, i - 1);
    } else {
      m', T', next := MergeNext(m, T, space, node, i);
    }
  }

  lemma KidSize(T: Tree, p: nat, i: nat)
    requires Inv(T) && p in T.store && i < |T.store[p].kids|
    ensures T.store[p].kids[i] in T.store && T.t - 1 <= |T.store[T.store[p].kids[i]].kvs|
  {
    KidFacts(T, p, i);
    assert BlockOk(T, T.store[p].kids[i]);
  }

  method MergeNext(m: Mem, ghost T: Tree, space: Space, p: nat, i: nat) returns (m': Mem, ghost T': Tree, next: nat)
    requires space.Valid() && Owning(m, space.used) && RefsOk(m)
    requires Spells(m, T) && BtreeShape.Valid(T) && BothSmall(T, p, i)
    requires T.store[p].kids[i] in m.held && T.store[p].kids[i + 1] in m.held && m.dead == {}
    modifies space
    ensures space.Valid() && Owning(m', space.used) && RefsOk(m') && Spells(m', T')
    ensures OnlyShrank(m.store.Keys, old(space.used), m'.store.Keys, space.used)
    ensures m' == m.(store := m'.store, dead := m'.dead, active := m'.active)
    ensures var l, r := T.store[p].kids[i], T.store[p].kids[i + 1];
      && (next == p || next == l) && next !in m'.dead && m'.dead <= {l, r}
      && Entered(T, p, l, T', next) && Entered(T, p, r, T', next)
  {
    var lowered;
    m', T', lowered := MergeKids(m, T, space, p, i);
    next := if lowered then p else m.store[p].kids[i];
  }

  /** nkfs_btree_node_child_balance for a child at the minimum, which is read already. */
  method Rebalance(m: Mem, ghost T: Tree, space: Space, node: nat, i: nat, ghost rest: multiset<nat>)
    returns (m': Mem, ghost T': Tree, next: nat)
    requires space.Valid() && Owning(m, space.used) && Spells(m, T) && BtreeShape.Valid(T)
    requires Spare(T, node) && node in T.info && !T.store[node].leaf && i < |T.store[node].kids|
    requires T.store[node].kids[i] in T.store && |T.store[T.store[node].kids[i]].kvs| == T.t - 1
    requires Refs(m, rest + multiset{T.store[node].kids[i]}) && node in rest && HeldAbove(rest, T, T.info[node].height)
    modifies space
    ensures space.Valid() && Owning(m', space.used) && Spells(m', T')
    ensures OnlyShrank(m.store.Keys, old(space.used), m'.store.Keys, space.used) && m'.t == m.t && m'.root == m.root
    ensures T.store[node].kids[i] in T.info && Entered(T, node, T.store[node].kids[i], T', next)
    ensures Refs(m', if next == node then rest else rest + multiset{next})
  {
    var n := m.store[node];
    var c := n.kids[i];
    Readable(m, T, node);
    SiblingRefs(T, node, i, rest);
    var sibs := (if i > 0 then [n.kids[i - 1]] else []) + (if i < |n.kvs| then [n.kids[i + 1]] else []);
    m' := ReadSiblings(m, sibs, rest + multiset{c});
    m', T', next := BorrowOrMerge(m', T, space, node, i);
    m' := Settle(m', node, c, next, sibs, rest);
  }

  /** The siblings of child i are blocks nobody else refers to. */
  lemma SiblingRefs(T: Tree, node: nat, i: nat, rest: multiset<nat>)
    requires Inv(T) && node in T.store && node in T.info && i < |T.store[node].kids|
    requires HeldAbove(rest, T, T.info[node].height)
    ensures Trio(rest, T.store[node].kids[i], LeftOf(T.store[node], i) + RightOf(T.store[node], i))
    ensures forall s :: s in LeftOf(T.store[node], i) + RightOf(T.store[node], i) ==> s in T.store
  {
    KidFacts(T, node, i);
    if i > 0 {
      KidFacts(T, node, i - 1);
      DistinctKids(T, node, i - 1, i);
    }
    if i + 1 < |T.store[node].kids| {
      KidFacts(T, node, i + 1);
      DistinctKids(T, node, i, i + 1);
      if i > 0 {
        DistinctKids(T, node, i - 1, i + 1);
      }
    }
  }

  method ChildBalance(m: Mem, ghost T: Tree, space: Space, node: nat, i: nat)
    returns (m': Mem, ghost T': Tree, next: nat)
    requires space.Valid() && Owning(m, space.used) && Spells(m, T) && BtreeShape.Valid(T)
    requires Spare(T, node) && node in T.info && !T.store[node].leaf && i < |T.store[node].kids|
    requires RefsOk(m) && m.dead == {} && node in m.held && HeldAbove(m.held, T, T.info[node].height)
    modifies space
    ensures space.Valid() && Owning(m', space.used) && Spells(m', T')
    ensures OnlyShrank(m.store.Keys, old(space.used), m'.store.Keys, space.used) && m'.t == m.t && m'.root == m.root
    ensures T.store[node].kids[i] in T.info && Entered(T, node, T.store[node].kids[i], T', next)
    ensures Refs(m', if next == node then m.held else m.held + multiset{next})
  {
    next := m.store[node].kids[i];
    KidFacts(T, node, i);
    assert BlockOk(T, next);
    T' := T;
    m' := NodeRead(m, next);
    if |m.store[next].kvs| < m.t {
      m', T', next := Rebalance(m', T, space, node, i, m.held);
    } else {
      NothingToDo(T, node, i);
    }
  }
}
