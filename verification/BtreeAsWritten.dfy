/** Deletion with core/btree.c:1158-1161 taken at its word: the loop that should shift child slots shifts the array of
    pointers to the pages that hold them (core/btree.h:26). What it does then, and for which trees and keys deletion
    never gets there. */
module BtreeAsWritten {
  import opened BtreeShape
  import opened BtreeBalance
  import opened BtreePath
  import opened NodeBuffer
  import opened Btree
  import opened BtreeDeleteKey
  import opened BtreeErase

  // ---------------------------------------------------------------- the loop over page pointers

  /** NKFS_BTREE_CHILD_PAGES. */
  const CHILD_PAGES := 4

  /** __nkfs_btree_node_delete_child_index on page pointers, 0 being the null pointer; false if it leaves the array. */
  method ShiftPages(pages: array<nat>, nrKeys: nat, index: nat) returns (inside: bool)
    requires pages.Length == CHILD_PAGES && index <= nrKeys
    modifies pages
    ensures inside <==> nrKeys < 4
    ensures inside ==> pages[..nrKeys] == RemoveAt(old(pages[..nrKeys + 1]), index) && pages[nrKeys] == 0
    ensures inside ==> pages[nrKeys + 1..] == old(pages[nrKeys + 1..])
  {
    var i := index + 1;
    while i < nrKeys + 1
      invariant index < i <= nrKeys + 1 && (i == index + 1 || i <= CHILD_PAGES)
      invariant forall j :: 0 <= j < CHILD_PAGES ==> pages[j] == old(pages[if index <= j < i - 1 then j + 1 else j])
    {
      if i >= CHILD_PAGES {
        return false;
      }
      pages[i - 1] := pages[i];
      i := i + 1;
    }
    if i - 1 >= CHILD_PAGES {
      return false;
    }
    pages[i - 1] := 0;
    inside := true;
  }

  /** nkfs_btree_node_write reads all the pages of a node; false if one of them is missing. */
  method ReadAllPages(pages: array<nat>) returns (ok: bool)
    requires pages.Length == CHILD_PAGES
    ensures ok <==> forall j :: 0 <= j < CHILD_PAGES ==> pages[j] != 0
  {
    var i := 0;
    while i < CHILD_PAGES
      invariant 0 <= i <= CHILD_PAGES && forall j :: 0 <= j < i ==> pages[j] != 0
    {
      if pages[i] == 0 {
        return false;
      }
      i := i + 1;
    }
    ok := true;
  }

  /** Every use of the shift is followed by a write of the same node: it overruns, or the write misses a page. */
  method ShiftAndWrite(nrKeys: nat, index: nat) returns (ok: bool)
    requires index <= nrKeys
    ensures !ok
  {
    var pages := new nat[CHILD_PAGES](i => i + 1);
    ok := ShiftPages(pages, nrKeys, index);
    if ok {
      ok := ReadAllPages(pages);
      assert pages[nrKeys] == 0;
    }
  }

  // ---------------------------------------------------------------- when deletion does not get there

  ghost predicate Roomy(T: Tree, b: nat) {
    b in T.store && |T.store[b].kvs| >= T.t
  }

  /** Block b ends (`last`) or begins at k: it is on the way from k to its predecessor or successor. */
  ghost predicate OnEdge(T: Tree, b: nat, k: int, last: bool) {
    b in T.store && b in T.info && (if last then T.info[b].hi == k else T.info[b].lo == k)
  }

  /** Blocks on the path of k, down to level h, have a key to spare. */
  ghost predicate PathRoomy(T: Tree, k: int, h: nat) {
    forall b :: OnPath(T, b, k) && b != T.root && T.info[b].height >= h ==> Roomy(T, b)
  }

  ghost predicate EdgeRoomy(T: Tree, k: int, last: bool, h: nat) {
    forall b :: OnEdge(T, b, k, last) && T.info[b].height >= h ==> Roomy(T, b)
  }

  /** k is key i of the inner block p. */
  ghost predicate Inside(T: Tree, p: nat, i: nat, k: int) {
    && p in T.store && !T.store[p].leaf && i < |T.store[p].kvs| && T.store[p].kvs[i].k == k
    && |T.store[p].kids| == |T.store[p].kvs| + 1
  }

  /** The way to the predecessor if the left neighbour has a key to spare, else the way to the successor. */
  ghost predicate NeighbourRoomy(T: Tree, p: nat, i: nat, k: int)
    requires Inside(T, p, i, k)
  {
    EdgeRoomy(T, k, Roomy(T, T.store[p].kids[i]), 0)
  }

  /** Every block below the root that the deletion of k goes through has a key to spare. */
  ghost predicate Clean(T: Tree, k: int) {
    && PathRoomy(T, k, 0)
    && forall p, i: nat :: Inside(T, p, i, k) ==> NeighbourRoomy(T, p, i, k)
  }

  lemma PathStart(T: Tree, k: int)
    requires Inv(T)
    ensures PathRoomy(T, k, T.info[T.root].height)
  {
    forall b | b in T.store && b != T.root
      ensures b in T.info && T.info[b].height < T.info[T.root].height
    {
      RootHighest(T, b);
    }
  }

  lemma PathNext(T: Tree, k: int, c: nat)
    requires Inv(T) && OnPath(T, c, k) && PathRoomy(T, k, T.info[c].height + 1) && Roomy(T, c)
    ensures PathRoomy(T, k, T.info[c].height)
  {
    forall b | OnPath(T, b, k) && b != T.root && T.info[b].height >= T.info[c].height
      ensures Roomy(T, b)
    {
      if b != c && T.info[b].height == T.info[c].height {
        LevelDisjoint(T, b, c);
      }
    }
  }

  /** Below the block that holds k nothing is on its path. */
  lemma PathEnds(T: Tree, k: int, p: nat, i: nat)
    requires Inv(T) && OnPath(T, p, k) && i < |T.store[p].kvs| && T.store[p].kvs[i].k == k && PathRoomy(T, k, T.info[p].height)
    ensures PathRoomy(T, k, 0)
  {
    forall b | b in T.store && b in T.info && T.info[b].height < T.info[p].height
      ensures !OnPath(T, b, k)
    {
      NoKeyBelow(T, p, b, i);
    }
  }

  /** The blocks on an edge are below the block that has k inside, one on each level. */
  lemma EdgeBelow(T: Tree, k: int, last: bool, p: nat, b: nat)
    requires Inv(T) && OnPath(T, p, k) && OnEdge(T, b, k, last)
    ensures T.info[b].height < T.info[p].height
  {
    NonEmpty(T, b);
    NonEmpty(T, p);
    if T.info[b].height >= T.info[p].height {
      Nested(T, p, b);
    }
  }

  lemma EdgeNextRoomy(T: Tree, k: int, last: bool, c: nat)
    requires Inv(T) && OnEdge(T, c, k, last) && EdgeRoomy(T, k, last, T.info[c].height + 1) && Roomy(T, c)
    ensures EdgeRoomy(T, k, last, T.info[c].height)
  {
    forall b | OnEdge(T, b, k, last) && T.info[b].height >= T.info[c].height
      ensures Roomy(T, b)
    {
      NonEmpty(T, b);
      NonEmpty(T, c);
      if b != c && T.info[b].height == T.info[c].height {
        LevelDisjoint(T, b, c);
      }
    }
  }

  /** No inner block holds k, if a leaf on its path has been reached. */
  lemma NotInside(T: Tree, l: nat, k: int)
    requires Inv(T) && OnPath(T, l, k) && T.store[l].leaf
    ensures forall p, i: nat :: !Inside(T, p, i, k)
  {
    assert BlockOk(T, l);
    forall p | HeldBy(T, p, k)
      ensures p == l
    {
      assert BlockOk(T, p);
      KeyIsBelow(T, l, p, k);
    }
    forall p, i: nat | p in T.store && i < |T.store[p].kvs| && T.store[p].kvs[i].k == k
      ensures T.store[p].leaf
    {
      assert HeldBy(T, p, k);
    }
  }

  // ---------------------------------------------------------------- deletion

  /** nkfs_btree_node_child_balance: a child with a key to spare is left alone; anything else ends in the shift, of the
      sibling that gives a key or of the node that loses one. */
  method BalanceAsWritten(m: Mem, ghost T: Tree, node: nat, i: nat) returns (ok: bool)
    requires Spells(m, T) && node in m.store && !m.store[node].leaf && i < |m.store[node].kids|
    ensures ok <==> Roomy(T, m.store[node].kids[i])
  {
    Readable(m, T, node);
    KidFacts(T, node, i);
    var n := m.store[node];
    if |m.store[n.kids[i]].kvs| >= m.t {
      return true;
    }
    if i > 0 {
      KidFacts(T, node, i - 1);
    }
    if i < |n.kvs| {
      KidFacts(T, node, i + 1);
    }
    if i > 0 && |m.store[n.kids[i - 1]].kvs| >= m.t {
      var left := |m.store[n.kids[i - 1]].kvs|;
      ok := ShiftAndWrite(left, left);
    } else if i < |n.kvs| && |m.store[n.kids[i + 1]].kvs| >= m.t {
      ok := ShiftAndWrite(|m.store[n.kids[i + 1]].kvs|, 0);
    } else if i > 0 {
      ok := ShiftAndWrite(|n.kvs|, i);
    } else if i < |n.kvs| {
      ok := ShiftAndWrite(|n.kvs|, i + 1);
    } else {
      // NKFS_BUG
      ok := false;
    }
  }

  /** One level down along the edge. */
  lemma EdgeDown(T: Tree, c: nat, curr: nat, last: bool, i: nat)
    requires BtreeShape.Valid(T) && c in T.info && Edge(T, c, T, curr, last) && !T.store[curr].leaf
    requires i < |T.store[curr].kids| && i == (if last then |T.store[curr].kvs| else 0) && Roomy(T, T.store[curr].kids[i])
    ensures var next := T.store[curr].kids[i];
      && next in T.info && Edge(T, c, T, next, last)
      && T.info[next].height + 1 == T.info[curr].height
  {
    KidFacts(T, curr, i);
    NothingToDo(T, curr, i);
    EdgeStep(T, c, T, curr, last, i, T, T.store[curr].kids[i]);
  }

  /** The two walks to the end of a subtree. */
  method EdgeAsWritten(m0: Mem, ghost T: Tree, c: nat, last: bool, ghost k: int)
    returns (m: Mem, ok: bool, curr: nat)
    requires Spells(m0, T) && BtreeShape.Valid(T) && c in T.store && c in T.info && c != T.root && Roomy(T, c)
    requires OnEdge(T, c, k, last) && EdgeRoomy(T, k, last, T.info[c].height) && RefsOk(m0) && m0.dead == {}
    ensures SameTree(m0, m) && (ok <==> EdgeRoomy(T, k, last, 0))
    ensures ok ==> Edge(T, c, T, curr, last) && m.store[curr].leaf && Refs(m, m0.held + multiset{curr})
  {
    HasInfo(T);
    m := NodeRead(m0, c);
    curr := c;
    while !m.store[curr].leaf
      invariant SameTree(m0, m) && Refs(m, m0.held + multiset{curr}) && Edge(T, c, T, curr, last)
      invariant OnEdge(T, curr, k, last) && EdgeRoomy(T, k, last, T.info[curr].height)
      decreases T.info[curr].height
    {
      Readable(m, T, curr);
      var i := if last then |m.store[curr].kvs| else 0;
      var next := m.store[curr].kids[i];
      KidFacts(T, curr, i);
      ok := BalanceAsWritten(m, T, curr, i);
      if !ok {
        assert OnEdge(T, next, k, last);
        return;
      }
      EdgeDown(T, c, curr, last, i);
      m := NodeRead(m, next);
      m := NodeDeref(m, curr);
      EdgeNextRoomy(T, k, last, next);
      curr := next;
    }
    assert BlockOk(T, curr);
    ok := true;
  }

  lemma EdgeStart(T: Tree, node: nat, i: nat, k: int, last: bool)
    requires Inv(T) && Inside(T, node, i, k) && OnPath(T, node, k)
    ensures var c := T.store[node].kids[if last then i else i + 1];
      && c in T.info && c != T.root && OnEdge(T, c, k, last) && T.info[c].height < T.info[node].height
      && (Roomy(T, c) ==> EdgeRoomy(T, k, last, T.info[c].height))
  {
    var j := if last then i else i + 1;
    KidFacts(T, node, j);
    var c := T.store[node].kids[j];
    forall b | OnEdge(T, b, k, last)
      ensures T.info[b].height < T.info[node].height
    {
      EdgeBelow(T, k, last, node, b);
    }
    if Roomy(T, c) {
      EdgeNextRoomy(T, k, last, c);
    }
  }

  /** The key next to key i of `node` is copied over it, if the walk to that key meets no small block. */
  method NeighbourAsWritten(m: Mem, ghost T: Tree, node: nat, i: nat, last: bool)
    returns (m': Mem, ghost T': Tree, ok: bool, leaf: nat, key: int)
    requires Spells(m, T) && BtreeShape.Valid(T) && node in T.store && i < |T.store[node].kvs|
    requires Inside(T, node, i, T.store[node].kvs[i].k) && OnPath(T, node, T.store[node].kvs[i].k)
    requires Roomy(T, T.store[node].kids[if last then i else i + 1])
    requires Refs(m, At(m, node) + multiset{T.store[node].kids[i]} + multiset{T.store[node].kids[i + 1]})
    ensures ok <==> EdgeRoomy(T, T.store[node].kvs[i].k, last, 0)
    ensures ok ==> Pending(m', T', leaf, key) && T'.m == T.m - {T.store[node].kvs[i].k} && Height(T') == Height(T)
    ensures ok ==> Refs(m', At(m', leaf)) && m'.t == m.t && m'.root == m.root && m'.store.Keys == m.store.Keys
  {
    var pre, suc := m.store[node].kids[i], m.store[node].kids[i + 1];
    key, T' := m.store[node].kvs[i].k, T;
    EdgeStart(T, node, i, key, last);
    m', ok, leaf := EdgeAsWritten(m, T, if last then pre else suc, last, key);
    if ok {
      EdgeReplaces(T, node, i, T, leaf, last);
      m', T', key := CopyUp(m', T, node, i, leaf, EndIndex(m'.store[leaf], last));
      assert m'.held == At(m, node) + multiset{leaf} + multiset{pre} + multiset{suc};
      m' := DerefTwo(m', pre, suc, At(m, node) + multiset{leaf});
      m' := MoveOn(m', node, leaf);
    }
  }

  /** The key is in an inner block. */
  method InsideAsWritten(m: Mem, ghost T: Tree, node: nat, i: nat)
    returns (m': Mem, ghost T': Tree, ok: bool, leaf: nat, key: int)
    requires Spells(m, T) && BtreeShape.Valid(T) && node in T.store && i < |T.store[node].kvs| && Refs(m, At(m, node))
    requires Inside(T, node, i, T.store[node].kvs[i].k) && OnPath(T, node, T.store[node].kvs[i].k)
    ensures ok <==> NeighbourRoomy(T, node, i, T.store[node].kvs[i].k)
    ensures ok ==> Pending(m', T', leaf, key) && T'.m == T.m - {T.store[node].kvs[i].k} && Height(T') == Height(T)
    ensures ok ==> Refs(m', At(m', leaf)) && m'.t == m.t && m'.root == m.root && m'.store.Keys == m.store.Keys
  {
    ghost var k := T.store[node].kvs[i].k;
    EdgeStart(T, node, i, k, true);
    EdgeStart(T, node, i, k, false);
    var pre, suc := m.store[node].kids[i], m.store[node].kids[i + 1];
    m' := NodeRead(m, pre);
    m' := NodeRead(m', suc);
    if |m.store[pre].kvs| >= m.t {
      m', T', ok, leaf, key := NeighbourAsWritten(m', T, node, i, true);
    } else if |m.store[suc].kvs| >= m.t {
      m', T', ok, leaf, key := NeighbourAsWritten(m', T, node, i, false);
    } else {
      T', leaf, key := T, node, 0;
      ok := ShiftAndWrite(|m.store[node].kvs|, i + 1);
    }
  }

  datatype Outcome = Fault | Answer(err: TreeErr)

  /** nkfs_btree_node_delete_key as written: it deletes if and only if every block below the root that it goes through
      has a key to spare. Otherwise it comes to the shift of page pointers, which it does not survive. */
  method DeleteAsWritten(m0: Mem, ghost T0: Tree, k: int) returns (m: Mem, ghost T: Tree, r: Outcome)
    requires Spells(m0, T0) && BtreeShape.Valid(T0) && Quiet(m0) && 0 <= k < KEY_LIMIT
    ensures r == Fault <==> !Clean(T0, k)
    ensures r != Fault ==> r == Answer(if k in T0.m then Done else ENOENT)
    ensures r != Fault ==> Spells(m, T) && BtreeShape.Valid(T) && T.m == T0.m - {k} && Quiet(m) && Height(T) == Height(T0)
    ensures r != Fault ==> m.t == m0.t && m.root == m0.root && m.store.Keys == m0.store.Keys
  {
    m, T := m0, T0;
    var node := m.root;
    PathStart(T, k);
    while true
      invariant SameTree(m0, m) && T == T0 && Refs(m, At(m, node)) && Ready(m, T, node, k)
      invariant OnPath(T, node, k) && PathRoomy(T, k, T.info[node].height)
      decreases T.info[node].height
    {
      Readable(m, T, node);
      assert BlockOk(T, node);
      if m.store[node].leaf {
        NotInside(T, node, k);
        var err;
        m, T, err := AtLeaf(m, T, node, k);
        return m, T, Answer(err);
      }
      var found, i := Search(m.t, m.store[node], k);
      if found {
        m, T, r := FoundAsWritten(m, T, node, i);
        return;
      }
      Descend(T, node, i, k);
      var next := m.store[node].kids[i];
      var ok := BalanceAsWritten(m, T, node, i);
      if !ok {
        assert OnPath(T, next, k);
        return m, T, Fault;
      }
      PathNext(T, k, next);
      m := NodeRead(m, next);
      m := MoveOn(m, node, next);
      node := next;
    }
  }

  /** The last rounds of deletion when k is in an inner block. */
  method FoundAsWritten(m: Mem, ghost T: Tree, node: nat, i: nat) returns (m': Mem, ghost T': Tree, r: Outcome)
    requires Spells(m, T) && BtreeShape.Valid(T) && node in T.store && i < |T.store[node].kvs| && Refs(m, At(m, node))
    requires Inside(T, node, i, T.store[node].kvs[i].k) && OnPath(T, node, T.store[node].kvs[i].k)
    requires PathRoomy(T, T.store[node].kvs[i].k, T.info[node].height)
    ensures r == Fault <==> !Clean(T, T.store[node].kvs[i].k)
    ensures r != Fault ==> r == Answer(Done) && T.store[node].kvs[i].k in T.m
    ensures r != Fault ==> Spells(m', T') && BtreeShape.Valid(T') && T'.m == T.m - {T.store[node].kvs[i].k} && Quiet(m')
    ensures r != Fault ==> m'.t == m.t && m'.root == m.root && m'.store.Keys == m.store.Keys && Height(T') == Height(T)
  {
    ghost var k := T.store[node].kvs[i].k;
    PathEnds(T, k, node, i);
    OnlyInside(T, node, i, k);
    assert BlockOk(T, node);
    var ok, leaf, key;
    m', T', ok, leaf, key := InsideAsWritten(m, T, node, i);
    r := Fault;
    if ok {
      m' := LeafFinish(m', T', leaf, key);
      r := Answer(Done);
    }
  }

  lemma OnlyInside(T: Tree, node: nat, i: nat, k: int)
    requires Inv(T) && Inside(T, node, i, k)
    ensures forall p, j: nat :: Inside(T, p, j, k) ==> p == node && j == i
  {
    assert HeldBy(T, node, k);
    assert BlockOk(T, node);
    forall p, j: nat | Inside(T, p, j, k)
      ensures p == node && j == i
    {
      assert HeldBy(T, p, k);
      OneHolder(T, p, node, k);
    }
  }

  // ---------------------------------------------------------------- taking a new key back

  /** For a key that has just been put in it is the inner blocks on its path that matter, so in a tree of a root and
      leaves deletion does what it should. */
  lemma NewKeyClean(T: Tree, k: int)
    requires BtreeShape.Valid(T) && Settled(T, k)
    ensures Clean(T, k) <==> forall b :: OnPath(T, b, k) && b != T.root && !T.store[b].leaf ==> Roomy(T, b)
    ensures Height(T) <= 1 ==> Clean(T, k)
  {
    var l :| Spares(T, l, k);
    assert BlockOk(T, l);
    NotInside(T, l, k);
    forall b | OnPath(T, b, k) && T.store[b].leaf
      ensures b == l
    {
      assert BlockOk(T, b);
      KeyIsBelow(T, b, l, k);
    }
    forall b | OnPath(T, b, k) && b != T.root && Height(T) <= 1
      ensures T.store[b].leaf
    {
      RootHighest(T, b);
      assert BlockOk(T, b);
    }
  }

  /** The same by the number of keys on each level of the path. */
  lemma NewKeyWorn(T: Tree, k: int)
    requires BtreeShape.Valid(T) && Settled(T, k) && 0 <= k < KEY_LIMIT
    ensures Clean(T, k) <==> !WornFrom(T.t, Profile(T, k), 0)
  {
    hide Clean;
    NewKeyClean(T, k);
    var l :| Spares(T, l, k);
    forall b | OnPath(T, b, k) && b != T.root && !T.store[b].leaf
      ensures Roomy(T, b) <==> !Worn(T.t, Profile(T, k), 0, T.info[b].height)
    {
      assert BlockOk(T, b);
      RootHighest(T, b);
      ProfileAt(T, b, k);
    }
    forall h | Worn(T.t, Profile(T, k), 0, h)
      ensures !Clean(T, k)
    {
      var b := EveryLevel(T, k, l, h);
      assert BlockOk(T, b);
      ProfileAt(T, b, k);
    }
  }

  // ---------------------------------------------------------------- an input that does not survive

  /** The keys from..from + n - 1. */
  function Keys(from: nat, n: nat): seq<KV> {
    seq(n, j => KV(from + j, 0))
  }

  /** A root with one key over leaves of t-1 and t keys. */
  function TwoLeaves(t: nat): Tree
    requires t >= 2
  {
    Tree(t, 1,
      map[1 := Node(false, Keys(t - 1, 1), [2, 3]), 2 := Node(true, Keys(0, t - 1), []), 3 := Node(true, Keys(t, t), [])],
      map[1 := Info(1, -1, KEY_LIMIT), 2 := Info(0, -1, t - 1), 3 := Info(0, t - 1, KEY_LIMIT)],
      AllZero(2 * t))
  }

  function AllZero(n: nat): (r: map<int, int>)
    ensures forall k :: k in r <==> 0 <= k < n
    ensures forall k :: k in r ==> r[k] == 0
  {
    if n == 0 then map[] else AllZero(n - 1)[n - 1 := 0]
  }

  lemma TwoLeavesValid(t: nat)
    requires 2 <= t && 2 * t <= KEY_LIMIT
    ensures BtreeShape.Valid(TwoLeaves(t))
  {
    var T := TwoLeaves(t);
    assert IsKid(T, 1, 2) && IsKid(T, 1, 3);
    assert BlockOk(T, 1) && BlockOk(T, 2) && BlockOk(T, 3);
    TwoLeavesCover(t);
  }

  lemma TwoLeavesCover(t: nat)
    requires 2 <= t && 2 * t <= KEY_LIMIT
    ensures Covered(TwoLeaves(t))
  {
    var T := TwoLeaves(t);
    forall k | k in T.m
      ensures Stored(T, k)
    {
      if k < t - 1 {
        assert T.store[2].kvs[k].k == k;
        assert HeldBy(T, 2, k);
      } else if k == t - 1 {
        assert T.store[1].kvs[0].k == k;
        assert HeldBy(T, 1, k);
      } else {
        assert T.store[3].kvs[k - t].k == k;
        assert HeldBy(T, 3, k);
      }
    }
  }

  /** Deleting a key of the left leaf borrows from the right one. With the source's T of 896 the shift leaves the array. */
  lemma BorrowIsNotClean(t: nat, k: nat)
    requires 2 <= t && 2 * t <= KEY_LIMIT && k < t - 1
    ensures BtreeShape.Valid(TwoLeaves(t)) && k in TwoLeaves(t).m && !Clean(TwoLeaves(t), k)
  {
    TwoLeavesValid(t);
    assert OnPath(TwoLeaves(t), 2, k);
  }

  /** The same with the source's T, where the sibling has 896 keys and four page pointers. */
  method FaultAtSource(k: nat) returns (r: Outcome, inside: bool)
    requires k < 895
    ensures r == Fault && !inside
  {
    hide Clean, BtreeShape.Valid;
    var T := TwoLeaves(896);
    BorrowIsNotClean(896, k);
    var m := Mem(896, 1, T.store, multiset{1}, {}, 1);
    assert Cached(m.held, m.dead) == {1};
    ghost var T';
    m, T', r := DeleteAsWritten(m, T, k);
    var pages := new nat[CHILD_PAGES](i => i + 1);
    inside := ShiftPages(pages, |T.store[3].kvs|, 0);
  }
}
