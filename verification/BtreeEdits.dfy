/** The steps that change the height of the tree, the key set or a stored value. */
module BtreeEdits {
  import opened BtreeShape
  import opened BtreeSteps

  // ---------------------------------------------------------------- a new level, a level less

  /** The root's contents move to block `clone`, which becomes the root's only child. */
  ghost function Grow(T: Tree, clone: nat): Tree
    requires T.root in T.store && T.root in T.info
  {
    var f := T.info[T.root];
    T.(store := T.store[clone := T.store[T.root]][T.root := Node(false, [], [clone])],
       info := T.info[clone := f][T.root := Info(f.height + 1, f.lo, f.hi)])
  }

  lemma GrowKeeps(T: Tree, clone: nat)
    requires Inv(T) && clone !in T.store && |T.store[T.root].kvs| >= T.t - 1
    ensures Inv(Grow(T, clone))
  {
    var S := Grow(T, clone);
    var D := {T.root, clone};
    assert BlockOk(T, T.root);
    forall j | 0 <= j < |T.store[T.root].kids|
      ensures SameKid(T, S, T.store[T.root].kids[j])
    {
      KidFacts(T, T.root, j);
    }
    SameKidsOk(T, S, T.store[T.root], T.info[T.root]);
    assert S.store[T.root].kids[0] == clone && IsKid(S, T.root, clone);
    assert KidOk(S, S.store[T.root], S.info[T.root], 0);
    assert NewOk(S, T.root) && NewOk(S, clone);
    forall p, b | p in D && IsKid(T, p, b)
      ensures UpOk(S, b)
    {
      assert IsKid(S, clone, b);
    }
    forall p, k | p in D && HeldBy(T, p, k)
      ensures Stored(S, k)
    {
      assert HeldBy(S, clone, k);
    }
    SameKeys(T, S, D);
    Surgery(T, S, D);
  }

  ghost predicate CanShrink(T: Tree) {
    && T.root in T.store && |T.store[T.root].kvs| == 0 && |T.store[T.root].kids| == 1
    && T.store[T.root].kids[0] in T.store && T.store[T.root].kids[0] in T.info
  }

  /** A root without keys takes over the contents of its only child, whose block is given up. */
  ghost function Shrink(T: Tree): Tree
    requires CanShrink(T)
  {
    var c := T.store[T.root].kids[0];
    T.(store := T.store[T.root := T.store[c]] - {c}, info := T.info[T.root := T.info[c]])
  }

  lemma ShrinkKeeps(T: Tree)
    requires Inv(T) && CanShrink(T)
    ensures Valid(Shrink(T))
  {
    var S := Shrink(T);
    var c := T.store[T.root].kids[0];
    var D := {T.root, c};
    assert BlockOk(T, T.root);
    KidFacts(T, T.root, 0);
    assert BlockOk(T, c);
    assert IsKid(T, T.root, c);
    forall j | 0 <= j < |T.store[c].kids|
      ensures SameKid(T, S, T.store[c].kids[j])
    {
      KidFacts(T, c, j);
    }
    SameKidsOk(T, S, T.store[c], T.info[c]);
    assert NewOk(S, T.root);
    forall p, b | p in D && IsKid(T, p, b) && b in S.store
      ensures UpOk(S, b)
    {
      assert IsKid(S, T.root, b);
    }
    forall p, k | p in D && HeldBy(T, p, k)
      ensures Stored(S, k)
    {
      assert HeldBy(S, T.root, k);
    }
    SameKeys(T, S, D);
    Surgery(T, S, D);
  }

  // ---------------------------------------------------------------- one block, one key

  /** `m'` differs from `m` at most in key `k`. */
  ghost predicate SameBut(m: map<int, int>, m': map<int, int>, k: int) {
    forall x :: x != k ==> (x in m' <==> x in m) && (x in m ==> m'[x] == m[x])
  }

  /** Editing key `k` of block `b`, which no other block holds, keeps the invariant. */
  lemma NodeEdit(T: Tree, b: nat, n: Node, m: map<int, int>, k: int)
    requires Inv(T) && b in T.store && b in T.info && n.kids == T.store[b].kids
    requires NodeOk(T.t, n, T.info[b], b == T.root) && KidsOk(T, n, T.info[b])
    requires KeysOk(n, m) && SameBut(T.m, m, k) && (k in m ==> HasKey(n.kvs, k))
    requires forall x :: x != k && HasKey(T.store[b].kvs, x) ==> HasKey(n.kvs, x)
    requires forall c :: c != b ==> !HeldBy(T, c, k)
    ensures Inv(T.(store := T.store[b := n], m := m))
  {
    var S := T.(store := T.store[b := n], m := m);
    forall j | 0 <= j < |n.kids|
      ensures SameKid(T, S, n.kids[j])
    {
      KidFacts(T, b, j);
    }
    SameKidsOk(T, S, n, T.info[b]);
    assert BlockOk(T, b);
    assert NewOk(S, b);
    if b != T.root {
      var q, j := ParentOf(T, b);
      assert IsKid(S, q, b);
    }
    forall c | IsKid(T, b, c)
      ensures UpOk(S, c)
    {
      assert IsKid(S, b, c);
    }
    forall x | HeldBy(T, b, x) && x in S.m
      ensures Stored(S, x)
    {
      assert HeldBy(S, b, x);
    }
    if k in m {
      assert HeldBy(S, b, k);
    }
    forall c | c in S.store && c !in {b}
      ensures KeysOk(S.store[c], m)
    {
      assert BlockOk(T, c);
      OtherKeys(T, c, m, k);
    }
    Surgery(T, S, {b});
  }

  lemma OtherKeys(T: Tree, c: nat, m: map<int, int>, k: int)
    requires c in T.store && KeysOk(T.store[c], T.m) && SameBut(T.m, m, k) && !HeldBy(T, c, k)
    ensures KeysOk(T.store[c], m)
  {
    forall i | 0 <= i < |T.store[c].kvs|
      ensures T.store[c].kvs[i].k != k
    {
    }
  }

  function WithKey(n: Node, i: nat, kv: KV): Node
    requires i <= |n.kvs|
  {
    n.(kvs := InsertAt(n.kvs, i, kv))
  }

  function WithoutKey(n: Node, i: nat): Node
    requires i < |n.kvs|
  {
    n.(kvs := RemoveAt(n.kvs, i))
  }

  function WithValue(n: Node, i: nat, v: int): Node
    requires i < |n.kvs|
  {
    n.(kvs := n.kvs[i := KV(n.kvs[i].k, v)])
  }

  lemma WithKeyOk(t: nat, n: Node, f: Info, isRoot: bool, i: nat, kv: KV)
    requires NodeOk(t, n, f, isRoot) && n.leaf && |n.kvs| < 2 * t - 1 && InGap(n, i, kv.k)
    requires f.lo < kv.k < f.hi
    ensures NodeOk(t, WithKey(n, i, kv), f, isRoot)
  {
  }

  lemma WithKeyKeys(n: Node, i: nat, kv: KV)
    requires i <= |n.kvs|
    ensures HasKey(WithKey(n, i, kv).kvs, kv.k)
    ensures forall x :: HasKey(n.kvs, x) ==> HasKey(WithKey(n, i, kv).kvs, x)
  {
    var n' := WithKey(n, i, kv);
    assert n'.kvs[i].k == kv.k;
    forall x | HasKey(n.kvs, x)
      ensures HasKey(n'.kvs, x)
    {
      var j :| 0 <= j < |n.kvs| && n.kvs[j].k == x;
      assert n'.kvs[if j < i then j else j + 1].k == x;
    }
  }

  /** An absent key goes into the leaf responsible for it. */
  lemma LeafInsertKeeps(T: Tree, b: nat, i: nat, kv: KV)
    requires Inv(T) && b in T.store && b in T.info && T.store[b].leaf && |T.store[b].kvs| < 2 * T.t - 1
    requires T.info[b].lo < kv.k < T.info[b].hi && InGap(T.store[b], i, kv.k)
    ensures Inv(T.(store := T.store[b := WithKey(T.store[b], i, kv)], m := T.m[kv.k := kv.v]))
    ensures kv.k !in T.m
  {
    assert BlockOk(T, b);
    InGapAbsent(T.store[b], i, kv.k);
    LeafDecides(T, b, kv.k);
    WithKeyOk(T.t, T.store[b], T.info[b], b == T.root, i, kv);
    WithKeyKeys(T.store[b], i, kv);
    HeldIsMapped(T);
    NodeEdit(T, b, WithKey(T.store[b], i, kv), T.m[kv.k := kv.v], kv.k);
  }

  lemma OnlyHolder(T: Tree, b: nat, k: int)
    requires Inv(T) && HeldBy(T, b, k)
    ensures forall c :: c != b ==> !HeldBy(T, c, k)
  {
    forall c | HeldBy(T, c, k)
      ensures c == b
    {
      OneHolder(T, b, c, k);
    }
  }

  lemma SetValueKeeps(T: Tree, b: nat, i: nat, v: int)
    requires Inv(T) && b in T.store && i < |T.store[b].kvs|
    ensures Inv(T.(store := T.store[b := WithValue(T.store[b], i, v)], m := T.m[T.store[b].kvs[i].k := v]))
  {
    var n := T.store[b];
    var k := n.kvs[i].k;
    var n' := WithValue(n, i, v);
    assert BlockOk(T, b);
    assert HeldBy(T, b, k);
    OnlyHolder(T, b, k);
    forall j | 0 <= j < |n'.kids|
      ensures KidOk(T, n', T.info[b], j)
    {
      assert KidOk(T, n, T.info[b], j);
    }
    forall x | HasKey(n.kvs, x)
      ensures HasKey(n'.kvs, x)
    {
      var j :| 0 <= j < |n.kvs| && n.kvs[j].k == x;
      assert n'.kvs[j].k == x;
    }
    NodeEdit(T, b, n', T.m[k := v], k);
  }

  lemma WithoutKeyOk(t: nat, n: Node, f: Info, isRoot: bool, i: nat)
    requires NodeOk(t, n, f, isRoot) && n.leaf && i < |n.kvs| && (!isRoot ==> |n.kvs| >= t)
    ensures NodeOk(t, WithoutKey(n, i), f, isRoot)
    ensures forall x :: HasKey(n.kvs, x) && x != n.kvs[i].k ==> HasKey(WithoutKey(n, i).kvs, x)
    ensures !HasKey(WithoutKey(n, i).kvs, n.kvs[i].k)
  {
    var n' := WithoutKey(n, i);
    forall x | HasKey(n.kvs, x) && x != n.kvs[i].k
      ensures HasKey(n'.kvs, x)
    {
      var j :| 0 <= j < |n.kvs| && n.kvs[j].k == x;
      assert n'.kvs[if j < i then j else j - 1].k == x;
    }
  }

  /** A key leaves a leaf that can spare one. */
  lemma LeafDeleteKeeps(T: Tree, b: nat, i: nat)
    requires Inv(T) && b in T.store && T.store[b].leaf && i < |T.store[b].kvs|
    requires b != T.root ==> |T.store[b].kvs| >= T.t
    ensures Inv(T.(store := T.store[b := WithoutKey(T.store[b], i)], m := T.m - {T.store[b].kvs[i].k}))
  {
    var k := T.store[b].kvs[i].k;
    assert BlockOk(T, b);
    assert HeldBy(T, b, k);
    OnlyHolder(T, b, k);
    WithoutKeyOk(T.t, T.store[b], T.info[b], b == T.root, i);
    NodeEdit(T, b, WithoutKey(T.store[b], i), T.m - {k}, k);
  }

  // ---------------------------------------------------------------- a leaf key replaces a separator

  function Renamed(f: Info, k: int, k': int): Info {
    Info(f.height, if f.lo == k then k' else f.lo, if f.hi == k then k' else f.hi)
  }

  /** Key j of leaf `l` replaces key i of block `b`; whoever was bounded by the old key is bounded by the new. */
  ghost function Replace(T: Tree, b: nat, i: nat, l: nat, j: nat): Tree
    requires b in T.store && l in T.store && b != l && i < |T.store[b].kvs| && j < |T.store[l].kvs|
  {
    var k, kv := T.store[b].kvs[i].k, T.store[l].kvs[j];
    T.(store := T.store[b := WithSep(T.store[b], i, kv)][l := WithoutKey(T.store[l], j)],
       info := map x | x in T.info :: Renamed(T.info[x], k, kv.k),
       m := T.m - {k})
  }

  ghost predicate Neighbours(m: map<int, int>, k: int, k': int) {
    k in m && k' in m && k != k' && forall x :: x in m ==> !(k < x < k') && !(k' < x < k)
  }

  ghost predicate CanReplace(T: Tree, b: nat, i: nat, l: nat, j: nat) {
    && b in T.store && l in T.store && b != l && T.store[l].leaf && !T.store[b].leaf
    && i < |T.store[b].kvs| && j < |T.store[l].kvs|
    && |T.store[l].kvs| >= T.t && l != T.root
    && Neighbours(T.m, T.store[b].kvs[i].k, T.store[l].kvs[j].k)
    && b in T.info && T.info[b].lo < T.store[l].kvs[j].k < T.info[b].hi
  }

  /** Bounds renamed from one key to its neighbour still bound the keys that are neither. */
  lemma RenamedBounds(n: Node, f: Info, m: map<int, int>, k: int, k': int)
    requires Neighbours(m, k, k') && KeysOk(n, m) && !HasKey(n.kvs, k) && !HasKey(n.kvs, k')
    requires forall i :: 0 <= i < |n.kvs| ==> f.lo < n.kvs[i].k < f.hi
    ensures forall i :: 0 <= i < |n.kvs| ==> Renamed(f, k, k').lo < n.kvs[i].k < Renamed(f, k, k').hi
  {
    forall i | 0 <= i < |n.kvs|
      ensures Renamed(f, k, k').lo < n.kvs[i].k < Renamed(f, k, k').hi
    {
      assert n.kvs[i].k in m && n.kvs[i].k != k && n.kvs[i].k != k';
    }
  }

  lemma RenamedKids(T: Tree, S: Tree, n: Node, f: Info, k: int, k': int)
    requires |n.kids| <= |n.kvs| + 1 && KidsOk(T, n, f) && !HasKey(n.kvs, k)
    requires S.root == T.root && S.store.Keys == T.store.Keys
    requires forall x :: x in T.info ==> x in S.info && S.info[x] == Renamed(T.info[x], k, k')
    ensures KidsOk(S, n, Renamed(f, k, k'))
  {
    forall j | 0 <= j < |n.kids|
      ensures KidOk(S, n, Renamed(f, k, k'), j)
    {
      assert KidOk(T, n, f, j);
    }
  }

  lemma ReplaceOther(T: Tree, b: nat, i: nat, l: nat, j: nat, c: nat)
    requires Inv(T) && CanReplace(T, b, i, l, j) && c in T.store && c != b && c != l
    ensures NewOk(Replace(T, b, i, l, j), c)
  {
    var S := Replace(T, b, i, l, j);
    var k, k' := T.store[b].kvs[i].k, T.store[l].kvs[j].k;
    assert BlockOk(T, c);
    assert HeldBy(T, b, k) && HeldBy(T, l, k');
    OnlyHolder(T, b, k);
    OnlyHolder(T, l, k');
    assert !HeldBy(T, c, k) && !HeldBy(T, c, k');
    RenamedBounds(T.store[c], T.info[c], T.m, k, k');
    RenamedKids(T, S, T.store[c], T.info[c], k, k');
    OtherKeys(T, c, S.m, k);
    assert S.store[c] == T.store[c];
  }

  lemma ReplaceLeaf(T: Tree, b: nat, i: nat, l: nat, j: nat)
    requires Inv(T) && CanReplace(T, b, i, l, j)
    ensures NewOk(Replace(T, b, i, l, j), l)
  {
    var S := Replace(T, b, i, l, j);
    var k, k' := T.store[b].kvs[i].k, T.store[l].kvs[j].k;
    assert BlockOk(T, l);
    assert HeldBy(T, b, k);
    OnlyHolder(T, b, k);
    assert !HeldBy(T, l, k);
    OtherKeys(T, l, S.m, k);
    WithoutKeyOk(T.t, T.store[l], T.info[l], false, j);
    var n := WithoutKey(T.store[l], j);
    assert KeysOk(n, T.m) && KeysOk(n, S.m);
    assert !HasKey(n.kvs, k);
    RenamedBounds(n, T.info[l], T.m, k, k');
    assert S.store[l] == n;
  }

  lemma ReplaceSepOk(t: nat, n: Node, f: Info, isRoot: bool, i: nat, kv: KV, m: map<int, int>)
    requires NodeOk(t, n, f, isRoot) && !n.leaf && i < |n.kvs| && KeysOk(n, m)
    requires Neighbours(m, n.kvs[i].k, kv.k) && !HasKey(n.kvs, kv.k) && m[kv.k] == kv.v
    requires f.lo < kv.k < f.hi
    ensures NodeOk(t, WithSep(n, i, kv), Renamed(f, n.kvs[i].k, kv.k), isRoot)
    ensures KeysOk(WithSep(n, i, kv), m - {n.kvs[i].k})
  {
    forall x | 0 <= x < |n.kvs|
      ensures n.kvs[x].k in m && n.kvs[x].k != kv.k
    {
    }
  }

  lemma ReplaceNode(T: Tree, b: nat, i: nat, l: nat, j: nat)
    requires Inv(T) && CanReplace(T, b, i, l, j)
    ensures NewOk(Replace(T, b, i, l, j), b)
  {
    var S := Replace(T, b, i, l, j);
    var k, kv := T.store[b].kvs[i].k, T.store[l].kvs[j];
    assert BlockOk(T, b);
    assert BlockOk(T, l);
    assert HeldBy(T, l, kv.k);
    OnlyHolder(T, l, kv.k);
    assert !HeldBy(T, b, kv.k);
    ReplaceSepOk(T.t, T.store[b], T.info[b], b == T.root, i, kv, T.m);
    var n, f := WithSep(T.store[b], i, kv), Renamed(T.info[b], k, kv.k);
    forall x | 0 <= x < |n.kids|
      ensures KidOk(S, n, f, x)
    {
      assert KidOk(T, T.store[b], T.info[b], x);
      SeparatorOnce(T.store[b], i, x);
    }
    assert S.store[b] == n && S.info[b] == f;
  }

  lemma SeparatorOnce(n: Node, i: nat, x: nat)
    requires Sorted(n.kvs) && i < |n.kvs| && x <= |n.kvs|
    ensures x > 0 ==> (n.kvs[x - 1].k == n.kvs[i].k <==> x - 1 == i)
    ensures x < |n.kvs| ==> (n.kvs[x].k == n.kvs[i].k <==> x == i)
  {
  }

  lemma ReplaceKeeps(T: Tree, b: nat, i: nat, l: nat, j: nat)
    requires Valid(T) && CanReplace(T, b, i, l, j)
    ensures Valid(Replace(T, b, i, l, j))
  {
    var S := Replace(T, b, i, l, j);
    var k, k' := T.store[b].kvs[i].k, T.store[l].kvs[j].k;
    forall c | c in S.store
      ensures BlockOk(S, c)
    {
      if c == b {
        ReplaceNode(T, b, i, l, j);
      } else if c == l {
        ReplaceLeaf(T, b, i, l, j);
      } else {
        ReplaceOther(T, b, i, l, j, c);
      }
      if c != T.root {
        var p, x := ParentOf(T, c);
        assert IsKid(S, p, c);
      }
    }
    ReplaceCovers(T, b, i, l, j);
    assert BlockOk(T, b);
    Within(T, b);
  }

  lemma ReplaceCovers(T: Tree, b: nat, i: nat, l: nat, j: nat)
    requires Inv(T) && CanReplace(T, b, i, l, j)
    ensures Covered(Replace(T, b, i, l, j))
  {
    var S := Replace(T, b, i, l, j);
    forall x | x in S.m
      ensures Stored(S, x)
    {
      assert Stored(T, x);
      var c :| HeldBy(T, c, x);
      var at :| 0 <= at < |T.store[c].kvs| && T.store[c].kvs[at].k == x;
      if c == l && at == j {
        assert S.store[b].kvs[i].k == x && HeldBy(S, b, x);
      } else if c == l {
        assert S.store[l].kvs[if at < j then at else at - 1].k == x && HeldBy(S, l, x);
      } else {
        assert S.store[c].kvs[at].k == x && HeldBy(S, c, x);
      }
    }
  }

  // ---------------------------------------------------------------- what an insertion relies on

  /** There is room for a key in `n`, or in the child that `k` would go to. */
  ghost predicate Room(T: Tree, n: Node, k: int) {
    |n.kvs| < 2 * T.t - 1 || (!n.leaf && KidHasRoom(T, n, k))
  }

  /** The child of `n` that `k` would go to is not full. */
  ghost predicate KidHasRoom(T: Tree, n: Node, k: int) {
    forall i :: 0 <= i < |n.kids| && InGap(n, i, k) ==> !FullAt(T, n.kids[i])
  }

  ghost predicate FullAt(T: Tree, b: nat) {
    b in T.store && |T.store[b].kvs| >= 2 * T.t - 1
  }

  lemma SplitGap(n: Node, i: nat, mid: KV, b: nat, k: int, j: nat)
    requires |n.kids| == |n.kvs| + 1 && Sorted(n.kvs) && InGap(n, i, k) && InGap(n, i, mid.k)
    requires InGap(WithKid(n, i, mid, b), j, k)
    ensures j == i || j == i + 1
  {
  }

  lemma SplitMakesRoom(T: Tree, p: nat, i: nat, new': nat, k: int)
    requires Inv(T) && CanSplit(T, p, i, new') && InGap(T.store[p], i, k)
    ensures KidHasRoom(Split(T, p, i, new'), Split(T, p, i, new').store[p], k) && !Split(T, p, i, new').store[p].leaf
  {
    var S := Split(T, p, i, new');
    var c := T.store[p].kids[i];
    assert BlockOk(T, p);
    assert BlockOk(T, c);
    KidFacts(T, p, i);
    var n, mid := S.store[p], T.store[c].kvs[T.t - 1];
    forall j | 0 <= j < |n.kids| && InGap(n, j, k)
      ensures !FullAt(S, n.kids[j])
    {
      SplitGap(T.store[p], i, mid, new', k, j);
    }
  }

  lemma SplitKeepsRest(T: Tree, p: nat, i: nat, new': nat)
    requires Valid(T) && CanSplit(T, p, i, new')
    ensures var S := Split(T, p, i, new');
      && Valid(S) && S.m == T.m && S.store.Keys == T.store.Keys + {new'}
      && p in S.info && p in T.info && S.info[p] == T.info[p] && |S.store[p].kvs| == |T.store[p].kvs| + 1
  {
    SplitKeeps(T, p, i, new');
    assert BlockOk(T, p);
    KidFacts(T, p, i);
  }

  /** Splitting a full root: its contents move to `clone`, half of them on to `new'`; the root stays where it is. */
  lemma SplitRootKeeps(T: Tree, clone: nat, new': nat) returns (S: Tree)
    requires Valid(T) && clone !in T.store && new' !in T.store && clone != new'
    requires |T.store[T.root].kvs| == 2 * T.t - 1 && Cuttable(T.store[T.root], T.t - 1)
    ensures Valid(S) && S.m == T.m && S.root == T.root && S.t == T.t
    ensures S.store.Keys == T.store.Keys + {clone, new'}
    ensures S.store == SplitRootStore(T, clone, new') && Height(S) == Height(T) + 1
    ensures T.t >= 2 && T.root in T.info && CanSplit(Grow(T, clone), T.root, 0, new') && S == Split(Grow(T, clone), T.root, 0, new')
  {
    GrowKeeps(T, clone);
    var G := Grow(T, clone);
    RootFacts(T);
    SplitRootStoreIs(T, clone, new');
    SplitKeeps(G, T.root, 0, new');
    S := Split(G, T.root, 0, new');
    SplitRootTight(T, clone, new', S);
  }

  lemma RootFacts(T: Tree)
    requires Inv(T)
    ensures T.root in T.store && T.root in T.info && T.t >= 2
  {
    assert BlockOk(T, T.root);
  }

  lemma SplitRootTight(T: Tree, clone: nat, new': nat, S: Tree)
    requires Tight(T) && T.root in T.store && |T.store[T.root].kvs| == 2 * T.t - 1 && Cuttable(T.store[T.root], T.t - 1)
    requires S.t == T.t && S.root == T.root && S.store == SplitRootStore(T, clone, new')
    requires clone != new' && clone != T.root && new' != T.root
    ensures Tight(S)
  {
  }

  /** Growing and then splitting, seen on the blocks. */
  lemma SplitRootStoreIs(T: Tree, clone: nat, new': nat)
    requires T.t >= 2 && T.root in T.store && T.root in T.info && clone !in T.store && new' !in T.store && clone != new'
    requires |T.store[T.root].kvs| == 2 * T.t - 1 && Cuttable(T.store[T.root], T.t - 1)
    ensures CanSplit(Grow(T, clone), T.root, 0, new')
    ensures var S := Split(Grow(T, clone), T.root, 0, new');
      && S.store == SplitRootStore(T, clone, new') && S.store.Keys == T.store.Keys + {clone, new'}
      && S.m == T.m && S.root == T.root && S.t == T.t
      && (T.root != clone ==> Height(S) == Height(T) + 1)
  {
    hide Lower, Upper, WithKid;
    var G := Grow(T, clone);
    assert G.store[T.root].kids[0] == clone;
    var S := Split(G, T.root, 0, new');
    assert S.store.Keys == T.store.Keys + {clone, new'};
    assert forall b :: b in S.store ==> S.store[b] == SplitRootStore(T, clone, new')[b];
  }

  ghost function SplitRootStore(T: Tree, clone: nat, new': nat): map<nat, Node>
    requires T.root in T.store && |T.store[T.root].kvs| == 2 * T.t - 1 && Cuttable(T.store[T.root], T.t - 1)
  {
    var n := T.store[T.root];
    T.store[clone := Lower(n, T.t - 1)][new' := Upper(n, T.t - 1)]
           [T.root := WithKid(Node(false, [], [clone]), 0, n.kvs[T.t - 1], new')]
  }
}
