/** The steps insert and delete are made of, each as a function on trees, with a lemma that it keeps `Inv`. */
module BtreeSteps {
  import opened BtreeShape

  ghost predicate SameKid(T: Tree, S: Tree, c: nat) {
    c in S.store && c in T.info && c in S.info && S.info[c] == T.info[c]
  }

  /** The children of `n` are in `S` what they were in `T`. */
  ghost predicate SameKids(T: Tree, S: Tree, n: Node) {
    && S.root == T.root
    && forall i :: 0 <= i < |n.kids| ==> SameKid(T, S, n.kids[i])
  }

  lemma SameKidsOk(T: Tree, S: Tree, n: Node, f: Info)
    requires |n.kids| <= |n.kvs| + 1 && KidsOk(T, n, f) && SameKids(T, S, n)
    ensures KidsOk(S, n, f)
  {
    forall i | 0 <= i < |n.kids|
      ensures KidOk(S, n, f, i)
    {
      assert KidOk(T, n, f, i);
    }
  }

  lemma Assemble(S: Tree, b: nat, n: Node, f: Info, isRoot: bool)
    requires b in S.store && b in S.info && S.store[b] == n && S.info[b] == f && isRoot == (b == S.root)
    requires NodeOk(S.t, n, f, isRoot) && KidsOk(S, n, f) && UpOk(S, b) && KeysOk(n, S.m)
    ensures BlockOk(S, b)
  {
  }

  // ---------------------------------------------------------------- local surgery

  /** Outside the blocks `D`, the trees are the same. */
  ghost predicate SameOutside(T: Tree, S: Tree, D: set<nat>) {
    && S.t == T.t && S.root == T.root
    && (forall b :: b in T.store && b !in D ==>
      && b in S.store && S.store[b] == T.store[b]
      && (b in T.info ==> b in S.info && S.info[b] == T.info[b]))
    && (forall b :: b in S.store && b !in D ==> b in T.store)
  }

  /** A block of `D` that is gone, or owns another interval, was a child of a block of `D`. */
  ghost predicate ChangesInside(T: Tree, S: Tree, D: set<nat>) {
    forall c :: c in D && c in T.store && !SameKid(T, S, c) && c != T.root ==> exists p :: p in D && IsKid(T, p, c)
  }

  /** What hung under the blocks of `D`, and the blocks of `D` themselves, still hang somewhere. */
  ghost predicate KidsKept(T: Tree, S: Tree, D: set<nat>) {
    && (forall b :: b in D && b in S.store ==> UpOk(S, b))
    && (forall p, b :: p in D && IsKid(T, p, b) && b in S.store ==> UpOk(S, b))
  }

  ghost predicate KeysKept(T: Tree, S: Tree, D: set<nat>) {
    forall p, k :: p in D && HeldBy(T, p, k) && k in S.m ==> Stored(S, k)
  }

  ghost predicate NewOk(S: Tree, b: nat)
    requires b in S.store
  {
    && b in S.info
    && NodeOk(S.t, S.store[b], S.info[b], b == S.root)
    && KidsOk(S, S.store[b], S.info[b])
    && KeysOk(S.store[b], S.m)
  }

  lemma SurgeryUp(T: Tree, S: Tree, D: set<nat>, b: nat)
    requires Inv(T) && SameOutside(T, S, D) && KidsKept(T, S, D) && b in S.store
    ensures UpOk(S, b)
  {
    if b !in D && b != T.root {
      var p, i := ParentOf(T, b);
      assert IsKid(T, p, b);
      if p !in D {
        assert IsKid(S, p, b);
      }
    }
  }

  /** The topmost block of `D` still hangs where it did. */
  lemma TopKept(T: Tree, S: Tree, D: set<nat>, p: nat)
    requires Inv(T) && SameOutside(T, S, D) && p in T.store && p in T.info
    requires forall b :: b in D && b in T.store ==> b in T.info && T.info[b].height <= T.info[p].height
    ensures UpOk(S, p)
  {
    if p != T.root {
      var q, j := ParentOf(T, p);
      assert IsKid(S, q, p);
    }
  }

  lemma SurgeryOther(T: Tree, S: Tree, D: set<nat>, b: nat)
    requires Inv(T) && SameOutside(T, S, D) && ChangesInside(T, S, D)
    requires b in S.store && b !in D && UpOk(S, b) && KeysOk(S.store[b], S.m)
    ensures BlockOk(S, b)
  {
    assert BlockOk(T, b);
    forall j | 0 <= j < |T.store[b].kids|
      ensures SameKid(T, S, T.store[b].kids[j])
    {
      KidFacts(T, b, j);
      var c := T.store[b].kids[j];
      if c in D && !SameKid(T, S, c) {
        var p :| p in D && IsKid(T, p, c);
        var i :| 0 <= i < |T.store[p].kids| && T.store[p].kids[i] == c;
        OneParent(T, b, j, p, i);
      }
    }
    SameKidsOk(T, S, T.store[b], T.info[b]);
    Assemble(S, b, T.store[b], T.info[b], b == T.root);
  }

  lemma SurgeryCovers(T: Tree, S: Tree, D: set<nat>)
    requires Inv(T) && SameOutside(T, S, D) && KeysKept(T, S, D)
    requires forall k :: k in S.m && k !in T.m ==> Stored(S, k)
    ensures Covered(S)
  {
    forall k | k in S.m
      ensures Stored(S, k)
    {
      if k in T.m {
        assert Stored(T, k);
        var b :| HeldBy(T, b, k);
        if b !in D {
          assert HeldBy(S, b, k);
        }
      }
    }
  }

  /** A change confined to the blocks `D` keeps the whole invariant if those blocks are right afterwards. */
  lemma Surgery(T: Tree, S: Tree, D: set<nat>)
    requires Inv(T) && RootOk(S) && SameOutside(T, S, D) && ChangesInside(T, S, D)
    requires KidsKept(T, S, D) && KeysKept(T, S, D)
    requires forall b :: b in D && b in S.store ==> NewOk(S, b)
    requires forall b :: b in S.store && b !in D ==> KeysOk(S.store[b], S.m)
    requires forall k :: k in S.m && k !in T.m ==> Stored(S, k)
    ensures Inv(S)
  {
    forall b | b in S.store
      ensures BlockOk(S, b)
    {
      SurgeryUp(T, S, D, b);
      if b in D {
        assert NewOk(S, b);
      } else {
        SurgeryOther(T, S, D, b);
      }
    }
    SurgeryCovers(T, S, D);
  }

  lemma SameKeys(T: Tree, S: Tree, D: set<nat>)
    requires Inv(T) && SameOutside(T, S, D) && S.m == T.m
    ensures forall b :: b in S.store && b !in D ==> KeysOk(S.store[b], S.m)
  {
    forall b | b in S.store && b !in D
      ensures KeysOk(S.store[b], S.m)
    {
      assert BlockOk(T, b);
    }
  }

  // ---------------------------------------------------------------- split

  predicate Cuttable(n: Node, j: nat) {
    j < |n.kvs| && |n.kids| == (if n.leaf then 0 else |n.kvs| + 1)
  }

  /** What a node keeps, and what goes to its right neighbour, when key j moves up. */
  function Lower(n: Node, j: nat): Node
    requires Cuttable(n, j)
  {
    Node(n.leaf, n.kvs[..j], if n.leaf then [] else n.kids[..j + 1])
  }

  function Upper(n: Node, j: nat): Node
    requires Cuttable(n, j)
  {
    Node(n.leaf, n.kvs[j + 1..], if n.leaf then [] else n.kids[j + 1..])
  }

  function WithKid(n: Node, i: nat, kv: KV, kid: nat): Node
    requires i <= |n.kvs| && |n.kids| == |n.kvs| + 1
  {
    Node(n.leaf, InsertAt(n.kvs, i, kv), InsertAt(n.kids, i + 1, kid))
  }

  ghost predicate CanSplit(T: Tree, p: nat, i: nat, new': nat) {
    && p in T.store && !T.store[p].leaf && |T.store[p].kids| == |T.store[p].kvs| + 1 < 2 * T.t
    && i < |T.store[p].kids| && new' !in T.store
    && var c := T.store[p].kids[i];
    && c != p && c in T.store && c in T.info
    && |T.store[c].kvs| == 2 * T.t - 1
    && |T.store[c].kids| == (if T.store[c].leaf then 0 else 2 * T.t)
  }

  ghost function Split(T: Tree, p: nat, i: nat, new': nat): Tree
    requires T.t >= 2 && CanSplit(T, p, i, new')
  {
    var c := T.store[p].kids[i];
    var cn, f := T.store[c], T.info[c];
    var mid := cn.kvs[T.t - 1];
    T.(store := T.store[c := Lower(cn, T.t - 1)][new' := Upper(cn, T.t - 1)]
                       [p := WithKid(T.store[p], i, mid, new')],
       info := T.info[c := Info(f.height, f.lo, mid.k)][new' := Info(f.height, mid.k, f.hi)])
  }

  lemma CutOk(t: nat, big: nat, n: Node, f: Info, j: nat)
    requires NodeOk(big, n, f, false) && t - 1 <= j <= 2 * t - 1 && t <= |n.kvs| - j <= 2 * t
    ensures NodeOk(t, Lower(n, j), Info(f.height, f.lo, n.kvs[j].k), false)
    ensures NodeOk(t, Upper(n, j), Info(f.height, n.kvs[j].k, f.hi), false)
  {
  }

  lemma CutKeys(n: Node, j: nat, m: map<int, int>)
    requires Cuttable(n, j) && KeysOk(n, m)
    ensures KeysOk(Lower(n, j), m) && KeysOk(Upper(n, j), m)
  {
  }

  lemma CutKids(S: Tree, n: Node, f: Info, j: nat)
    requires Cuttable(n, j) && KidsOk(S, n, f)
    ensures KidsOk(S, Lower(n, j), Info(f.height, f.lo, n.kvs[j].k))
    ensures KidsOk(S, Upper(n, j), Info(f.height, n.kvs[j].k, f.hi))
  {
    var l, r := Lower(n, j), Upper(n, j);
    forall x {:trigger l.kids[x]} | 0 <= x < |l.kids|
      ensures KidOk(S, l, Info(f.height, f.lo, n.kvs[j].k), x)
    {
      assert KidOk(S, n, f, x);
    }
    forall x {:trigger r.kids[x]} | 0 <= x < |r.kids|
      ensures KidOk(S, r, Info(f.height, n.kvs[j].k, f.hi), x)
    {
      assert KidOk(S, n, f, x + j + 1);
    }
  }

  lemma WithKidOk(t: nat, n: Node, f: Info, isRoot: bool, i: nat, kv: KV, kid: nat)
    requires NodeOk(t, n, f, isRoot) && !n.leaf && |n.kvs| < 2 * t - 1 && i <= |n.kvs|
    requires KidLo(n, f, i) < kv.k < KidHi(n, f, i)
    ensures NodeOk(t, WithKid(n, i, kv, kid), f, isRoot)
  {
  }

  /** With `new'` put after child i, whose interval is now cut at `kv`, all children of `n` are in place. */
  lemma WithKidKids(T: Tree, S: Tree, n: Node, f: Info, i: nat, kv: KV, new': nat)
    requires |n.kids| == |n.kvs| + 1 && i <= |n.kvs| && KidsOk(T, n, f) && f.height >= 1
    requires S.root == T.root != new'
    requires forall j :: 0 <= j < |n.kids| && j != i ==> SameKid(T, S, n.kids[j])
    requires n.kids[i] in S.store && n.kids[i] in S.info && new' in S.store && new' in S.info
    requires S.info[n.kids[i]] == Info(f.height - 1, KidLo(n, f, i), kv.k)
    requires S.info[new'] == Info(f.height - 1, kv.k, KidHi(n, f, i))
    ensures KidsOk(S, WithKid(n, i, kv, new'), f)
  {
    var n' := WithKid(n, i, kv, new');
    forall j | 0 <= j < |n'.kids|
      ensures KidOk(S, n', f, j)
    {
      assert KidOk(T, n, f, if j <= i then j else j - 1);
    }
  }

  lemma SplitParent(T: Tree, p: nat, i: nat, new': nat)
    requires Inv(T) && CanSplit(T, p, i, new')
    ensures NewOk(Split(T, p, i, new'), p)
  {
    var S := Split(T, p, i, new');
    var c := T.store[p].kids[i];
    assert BlockOk(T, p);
    assert BlockOk(T, c);
    KidFacts(T, p, i);
    WithKidOk(T.t, T.store[p], T.info[p], p == T.root, i, T.store[c].kvs[T.t - 1], new');
    forall j | 0 <= j < |T.store[p].kids| && j != i
      ensures SameKid(T, S, T.store[p].kids[j])
    {
      KidFacts(T, p, j);
      DistinctKids(T, p, i, j);
    }
    WithKidKids(T, S, T.store[p], T.info[p], i, T.store[c].kvs[T.t - 1], new');
  }

  lemma SplitGrandkids(T: Tree, p: nat, i: nat, new': nat)
    requires Inv(T) && CanSplit(T, p, i, new')
    requires BlockOk(T, T.store[p].kids[i])
    ensures KidsOk(Split(T, p, i, new'), T.store[T.store[p].kids[i]], T.info[T.store[p].kids[i]])
  {
    var S, c := Split(T, p, i, new'), T.store[p].kids[i];
    forall j | 0 <= j < |T.store[c].kids|
      ensures SameKid(T, S, T.store[c].kids[j])
    {
      KidFacts(T, c, j);
    }
    SameKidsOk(T, S, T.store[c], T.info[c]);
  }

  lemma SplitHalves(T: Tree, p: nat, i: nat, new': nat)
    requires Inv(T) && CanSplit(T, p, i, new') && T.store[p].kids[i] != T.root
    ensures NewOk(Split(T, p, i, new'), T.store[p].kids[i])
    ensures NewOk(Split(T, p, i, new'), new')
  {
    var S, c := Split(T, p, i, new'), T.store[p].kids[i];
    assert BlockOk(T, c);
    SplitGrandkids(T, p, i, new');
    HalvesNew(S, c, new', T.store[c], T.info[c], T.t - 1);
  }

  /** Blocks `l` and `r` holding the two parts of a good node are good. */
  lemma HalvesNew(S: Tree, l: nat, r: nat, n: Node, f: Info, j: nat)
    requires NodeOk(2 * S.t, n, f, false) && KidsOk(S, n, f) && KeysOk(n, S.m)
    requires S.t - 1 <= j <= 2 * S.t - 1 && S.t <= |n.kvs| - j <= 2 * S.t
    requires l in S.store && l in S.info && r in S.store && r in S.info && l != S.root && r != S.root
    requires S.store[l] == Lower(n, j) && S.info[l] == Info(f.height, f.lo, n.kvs[j].k)
    requires S.store[r] == Upper(n, j) && S.info[r] == Info(f.height, n.kvs[j].k, f.hi)
    ensures NewOk(S, l) && NewOk(S, r)
  {
    CutOk(S.t, 2 * S.t, n, f, j);
    CutKids(S, n, f, j);
    CutKeys(n, j, S.m);
  }

  lemma SplitKidKept(T: Tree, p: nat, i: nat, new': nat, q: nat, j: nat)
    requires T.t >= 2 && CanSplit(T, p, i, new') && (q == p || q == T.store[p].kids[i])
    requires j < |T.store[q].kids|
    ensures UpOk(Split(T, p, i, new'), T.store[q].kids[j])
  {
    var S := Split(T, p, i, new');
    var b, c := T.store[q].kids[j], T.store[p].kids[i];
    if q == p {
      assert S.store[p].kids[if j <= i then j else j + 1] == b && IsKid(S, p, b);
    } else if j < T.t {
      assert S.store[c].kids[j] == b && IsKid(S, c, b);
    } else {
      assert S.store[new'].kids[j - T.t] == b && IsKid(S, new', b);
    }
  }

  lemma SplitFrame(T: Tree, p: nat, i: nat, new': nat)
    requires T.t >= 2 && CanSplit(T, p, i, new')
    ensures SameOutside(T, Split(T, p, i, new'), {p, T.store[p].kids[i], new'})
  {
  }

  lemma SplitKidsKept(T: Tree, p: nat, i: nat, new': nat)
    requires Inv(T) && CanSplit(T, p, i, new')
    ensures KidsKept(T, Split(T, p, i, new'), {p, T.store[p].kids[i], new'})
  {
    var S := Split(T, p, i, new');
    var c := T.store[p].kids[i];
    assert S.store[p].kids[i + 1] == new' && IsKid(S, p, new');
    SplitKidKept(T, p, i, new', p, i);
    KidFacts(T, p, i);
    SplitFrame(T, p, i, new');
    TopKept(T, S, {p, c, new'}, p);
    forall q, b | q in {p, c, new'} && IsKid(T, q, b)
      ensures UpOk(S, b)
    {
      var j :| 0 <= j < |T.store[q].kids| && T.store[q].kids[j] == b;
      SplitKidKept(T, p, i, new', q, j);
    }
  }

  lemma SplitKeyKept(T: Tree, p: nat, i: nat, new': nat, b: nat, j: nat)
    requires T.t >= 2 && CanSplit(T, p, i, new') && (b == p || b == T.store[p].kids[i])
    requires j < |T.store[b].kvs|
    ensures Stored(Split(T, p, i, new'), T.store[b].kvs[j].k)
  {
    var S := Split(T, p, i, new');
    var c, k := T.store[p].kids[i], T.store[b].kvs[j].k;
    if b == p {
      assert S.store[p].kvs[if j < i then j else j + 1].k == k && HeldBy(S, p, k);
    } else if j < T.t - 1 {
      assert S.store[c].kvs[j].k == k && HeldBy(S, c, k);
    } else if j == T.t - 1 {
      assert S.store[p].kvs[i].k == k && HeldBy(S, p, k);
    } else {
      assert S.store[new'].kvs[j - T.t].k == k && HeldBy(S, new', k);
    }
  }

  lemma SplitKeysKept(T: Tree, p: nat, i: nat, new': nat)
    requires Inv(T) && CanSplit(T, p, i, new')
    ensures KeysKept(T, Split(T, p, i, new'), {p, T.store[p].kids[i], new'})
  {
    forall b, k | b in {p, T.store[p].kids[i], new'} && HeldBy(T, b, k)
      ensures Stored(Split(T, p, i, new'), k)
    {
      var j :| 0 <= j < |T.store[b].kvs| && T.store[b].kvs[j].k == k;
      SplitKeyKept(T, p, i, new', b, j);
    }
  }

  lemma SplitBlocks(T: Tree, p: nat, i: nat, new': nat)
    requires Inv(T) && CanSplit(T, p, i, new')
    ensures RootOk(Split(T, p, i, new'))
    ensures ChangesInside(T, Split(T, p, i, new'), {p, T.store[p].kids[i], new'})
    ensures forall b :: b in {p, T.store[p].kids[i], new'} ==> NewOk(Split(T, p, i, new'), b)
  {
    KidFacts(T, p, i);
    assert IsKid(T, p, T.store[p].kids[i]);
    SplitParent(T, p, i, new');
    SplitHalves(T, p, i, new');
  }

  lemma SplitKeeps(T: Tree, p: nat, i: nat, new': nat)
    requires Inv(T) && CanSplit(T, p, i, new')
    ensures Inv(Split(T, p, i, new'))
  {
    var D := {p, T.store[p].kids[i], new'};
    SplitFrame(T, p, i, new');
    SplitBlocks(T, p, i, new');
    SplitKidsKept(T, p, i, new');
    SplitKeysKept(T, p, i, new');
    SameKeys(T, Split(T, p, i, new'), D);
    Surgery(T, Split(T, p, i, new'), D);
  }

  // ---------------------------------------------------------------- merge

  function Joined(l: Node, sep: KV, r: Node): Node {
    Node(l.leaf, l.kvs + [sep] + r.kvs, l.kids + r.kids)
  }

  function WithoutKid(n: Node, i: nat): Node
    requires i < |n.kvs| && |n.kids| == |n.kvs| + 1
  {
    Node(n.leaf, RemoveAt(n.kvs, i), RemoveAt(n.kids, i + 1))
  }

  /** p's children i and i+1 exist; they are what merging and borrowing work on. */
  ghost predicate Siblings(T: Tree, p: nat, i: nat) {
    && p in T.store && p in T.info && !T.store[p].leaf && |T.store[p].kids| == |T.store[p].kvs| + 1
    && i < |T.store[p].kvs|
    && var l, r := T.store[p].kids[i], T.store[p].kids[i + 1];
    && l in T.store && r in T.store && l in T.info && r in T.info && l != r && l != p && r != p
  }

  lemma SiblingsExist(T: Tree, p: nat, i: nat)
    requires Inv(T) && p in T.store && !T.store[p].leaf && i < |T.store[p].kvs|
    ensures Siblings(T, p, i)
    ensures T.store[T.store[p].kids[i]].leaf == T.store[T.store[p].kids[i + 1]].leaf
    ensures T.info[T.store[p].kids[i]].height == T.info[T.store[p].kids[i + 1]].height
    ensures T.info[T.store[p].kids[i]].hi == T.store[p].kvs[i].k == T.info[T.store[p].kids[i + 1]].lo
  {
    assert BlockOk(T, p);
    KidFacts(T, p, i);
    KidFacts(T, p, i + 1);
    assert BlockOk(T, T.store[p].kids[i]);
    assert BlockOk(T, T.store[p].kids[i + 1]);
    DistinctKids(T, p, i, i + 1);
  }

  ghost predicate CanMerge(T: Tree, p: nat, i: nat) {
    && Siblings(T, p, i)
    && |T.store[T.store[p].kids[i]].kvs| + 1 + |T.store[T.store[p].kids[i + 1]].kvs| <= 2 * T.t - 1
    && (p != T.root ==> |T.store[p].kvs| >= T.t)
  }

  ghost function Merge(T: Tree, p: nat, i: nat): Tree
    requires Siblings(T, p, i)
  {
    var l, r := T.store[p].kids[i], T.store[p].kids[i + 1];
    T.(store := T.store[l := Joined(T.store[l], T.store[p].kvs[i], T.store[r])]
                       [p := WithoutKid(T.store[p], i)] - {r},
       info := T.info[l := Info(T.info[l].height, T.info[l].lo, T.info[r].hi)])
  }

  lemma JoinedOk(t: nat, l: Node, lf: Info, r: Node, rf: Info, sep: KV)
    requires t >= 2 && NodeOk(t, l, lf, false) && NodeOk(t, r, rf, false)
    requires lf.height == rf.height && lf.hi == sep.k == rf.lo
    ensures NodeOk(2 * t, Joined(l, sep, r), Info(lf.height, lf.lo, rf.hi), false)
  {
    assert lf.lo < l.kvs[0].k < lf.hi && rf.lo < r.kvs[0].k < rf.hi;
  }

  lemma JoinedKids(T: Tree, S: Tree, t: nat, l: Node, lf: Info, r: Node, rf: Info, sep: KV)
    requires NodeOk(t, l, lf, false) && NodeOk(t, r, rf, false)
    requires lf.height == rf.height && lf.hi == sep.k == rf.lo
    requires KidsOk(T, l, lf) && KidsOk(T, r, rf) && SameKids(T, S, l) && SameKids(T, S, r)
    ensures |Joined(l, sep, r).kids| <= |Joined(l, sep, r).kvs| + 1
    ensures KidsOk(S, Joined(l, sep, r), Info(lf.height, lf.lo, rf.hi))
  {
    var n := Joined(l, sep, r);
    forall j {:trigger n.kids[j]} | 0 <= j < |n.kids|
      ensures KidOk(S, n, Info(lf.height, lf.lo, rf.hi), j)
    {
      if j < |l.kids| {
        assert KidOk(T, l, lf, j);
        assert n.kids[j] == l.kids[j];
      } else {
        assert KidOk(T, r, rf, j - |l.kids|);
        assert n.kids[j] == r.kids[j - |l.kids|];
      }
    }
  }

  lemma JoinedKeys(l: Node, p: Node, i: nat, r: Node, m: map<int, int>)
    requires i < |p.kvs| && KeysOk(l, m) && KeysOk(p, m) && KeysOk(r, m)
    ensures KeysOk(Joined(l, p.kvs[i], r), m)
  {
  }

  lemma WithoutKidOk(t: nat, n: Node, f: Info, isRoot: bool, i: nat)
    requires NodeOk(t, n, f, isRoot) && !n.leaf && i < |n.kvs| && (!isRoot ==> |n.kvs| >= t)
    ensures NodeOk(t, WithoutKid(n, i), f, isRoot)
  {
  }

  lemma WithoutKidKids(T: Tree, S: Tree, n: Node, f: Info, i: nat)
    requires |n.kids| == |n.kvs| + 1 && i < |n.kvs| && KidsOk(T, n, f) && f.height >= 1 && S.root == T.root
    requires forall j :: 0 <= j < |n.kids| && j != i && j != i + 1 ==> SameKid(T, S, n.kids[j])
    requires n.kids[i] in S.store && n.kids[i] in S.info
    requires S.info[n.kids[i]] == Info(f.height - 1, KidLo(n, f, i), KidHi(n, f, i + 1))
    ensures KidsOk(S, WithoutKid(n, i), f)
  {
    var n' := WithoutKid(n, i);
    forall j | 0 <= j < |n'.kids|
      ensures KidOk(S, n', f, j)
    {
      assert KidOk(T, n, f, if j <= i then j else j + 1);
    }
  }

  lemma MergeParent(T: Tree, p: nat, i: nat)
    requires Inv(T) && CanMerge(T, p, i)
    ensures NewOk(Merge(T, p, i), p)
  {
    var S := Merge(T, p, i);
    assert BlockOk(T, p);
    KidFacts(T, p, i);
    KidFacts(T, p, i + 1);
    WithoutKidOk(T.t, T.store[p], T.info[p], p == T.root, i);
    forall j | 0 <= j < |T.store[p].kids| && j != i && j != i + 1
      ensures SameKid(T, S, T.store[p].kids[j])
    {
      KidFacts(T, p, j);
      DistinctKids(T, p, i, j);
      DistinctKids(T, p, i + 1, j);
    }
    WithoutKidKids(T, S, T.store[p], T.info[p], i);
  }

  lemma GrandkidsSame(T: Tree, S: Tree, p: nat, c: nat, D: set<nat>)
    requires Inv(T) && p in T.store && p in T.info && c in T.store && c in T.store[p].kids
    requires SameOutside(T, S, D)
    requires forall b :: b in D && b in T.info ==> T.info[b].height >= T.info[p].height - 1
    ensures SameKids(T, S, T.store[c])
  {
    var x :| 0 <= x < |T.store[p].kids| && T.store[p].kids[x] == c;
    KidFacts(T, p, x);
    forall j | 0 <= j < |T.store[c].kids|
      ensures SameKid(T, S, T.store[c].kids[j])
    {
      KidFacts(T, c, j);
    }
  }

  ghost function BothKids(T: Tree, p: nat, i: nat): Node
    requires Siblings(T, p, i)
  {
    Joined(T.store[T.store[p].kids[i]], T.store[p].kvs[i], T.store[T.store[p].kids[i + 1]])
  }

  /** The interval two siblings own together. */
  ghost function BothInfo(T: Tree, p: nat, i: nat): Info
    requires Siblings(T, p, i)
  {
    var l, r := T.store[p].kids[i], T.store[p].kids[i + 1];
    Info(T.info[l].height, T.info[l].lo, T.info[r].hi)
  }

  /** Whatever happens to p and the two siblings themselves, the siblings' children stay in place. */
  lemma BothKidsKids(T: Tree, S: Tree, p: nat, i: nat)
    requires Inv(T) && Siblings(T, p, i)
    requires SameOutside(T, S, {p, T.store[p].kids[i], T.store[p].kids[i + 1]})
    ensures |BothKids(T, p, i).kids| <= |BothKids(T, p, i).kvs| + 1
    ensures KidsOk(S, BothKids(T, p, i), BothInfo(T, p, i))
  {
    var l, r := T.store[p].kids[i], T.store[p].kids[i + 1];
    SiblingsExist(T, p, i);
    assert BlockOk(T, l);
    assert BlockOk(T, r);
    KidFacts(T, p, i);
    KidFacts(T, p, i + 1);
    GrandkidsSame(T, S, p, l, {p, l, r});
    GrandkidsSame(T, S, p, r, {p, l, r});
    JoinedKids(T, S, T.t, T.store[l], T.info[l], T.store[r], T.info[r], T.store[p].kvs[i]);
  }

  /** Two siblings and the key between them make one sorted node of their joint interval. */
  lemma BothKidsOk(T: Tree, p: nat, i: nat)
    requires Inv(T) && Siblings(T, p, i)
    ensures NodeOk(2 * T.t, BothKids(T, p, i), BothInfo(T, p, i), false)
    ensures KeysOk(BothKids(T, p, i), T.m)
  {
    var l, r := T.store[p].kids[i], T.store[p].kids[i + 1];
    SiblingsExist(T, p, i);
    assert BlockOk(T, p);
    assert BlockOk(T, l);
    assert BlockOk(T, r);
    KidFacts(T, p, i);
    KidFacts(T, p, i + 1);
    JoinedOk(T.t, T.store[l], T.info[l], T.store[r], T.info[r], T.store[p].kvs[i]);
    JoinedKeys(T.store[l], T.store[p], i, T.store[r], T.m);
  }

  lemma MergeFrame(T: Tree, p: nat, i: nat)
    requires Siblings(T, p, i)
    ensures SameOutside(T, Merge(T, p, i), {p, T.store[p].kids[i], T.store[p].kids[i + 1]})
  {
  }

  lemma MergeLeft(T: Tree, p: nat, i: nat)
    requires Inv(T) && CanMerge(T, p, i) && T.store[p].kids[i] != T.root
    ensures NewOk(Merge(T, p, i), T.store[p].kids[i])
  {
    var S := Merge(T, p, i);
    MergeFrame(T, p, i);
    BothKidsOk(T, p, i);
    BothKidsKids(T, S, p, i);
    assert BlockOk(T, T.store[p].kids[i]);
  }

  lemma MergeKidKept(T: Tree, p: nat, i: nat, q: nat, j: nat)
    requires Siblings(T, p, i) && q in {p, T.store[p].kids[i], T.store[p].kids[i + 1]}
    requires j < |T.store[q].kids| && T.store[q].kids[j] in Merge(T, p, i).store
    ensures UpOk(Merge(T, p, i), T.store[q].kids[j])
  {
    var S := Merge(T, p, i);
    var b, l := T.store[q].kids[j], T.store[p].kids[i];
    if q == p {
      assert S.store[p].kids[if j <= i then j else j - 1] == b && IsKid(S, p, b);
    } else {
      var at := if q == l then j else |T.store[l].kids| + j;
      assert S.store[l].kids[at] == b && IsKid(S, l, b);
    }
  }

  lemma MergeKidsKept(T: Tree, p: nat, i: nat)
    requires Inv(T) && CanMerge(T, p, i)
    ensures KidsKept(T, Merge(T, p, i), {p, T.store[p].kids[i], T.store[p].kids[i + 1]})
  {
    var S := Merge(T, p, i);
    var l, r := T.store[p].kids[i], T.store[p].kids[i + 1];
    KidFacts(T, p, i);
    KidFacts(T, p, i + 1);
    MergeKidKept(T, p, i, p, i);
    MergeFrame(T, p, i);
    TopKept(T, S, {p, l, r}, p);
    forall q, b | q in {p, l, r} && IsKid(T, q, b) && b in S.store
      ensures UpOk(S, b)
    {
      var j :| 0 <= j < |T.store[q].kids| && T.store[q].kids[j] == b;
      MergeKidKept(T, p, i, q, j);
    }
  }

  lemma MergeKeyKept(T: Tree, p: nat, i: nat, b: nat, j: nat)
    requires Siblings(T, p, i) && b in {p, T.store[p].kids[i], T.store[p].kids[i + 1]}
    requires j < |T.store[b].kvs|
    ensures Stored(Merge(T, p, i), T.store[b].kvs[j].k)
  {
    var S := Merge(T, p, i);
    var l, k := T.store[p].kids[i], T.store[b].kvs[j].k;
    if b == p && j != i {
      assert S.store[p].kvs[if j < i then j else j - 1].k == k && HeldBy(S, p, k);
    } else {
      var at := if b == l then j else if b == p then |T.store[l].kvs| else |T.store[l].kvs| + 1 + j;
      assert S.store[l].kvs[at].k == k && HeldBy(S, l, k);
    }
  }

  lemma MergeKeysKept(T: Tree, p: nat, i: nat)
    requires Inv(T) && CanMerge(T, p, i)
    ensures KeysKept(T, Merge(T, p, i), {p, T.store[p].kids[i], T.store[p].kids[i + 1]})
  {
    forall b, k | b in {p, T.store[p].kids[i], T.store[p].kids[i + 1]} && HeldBy(T, b, k)
      ensures Stored(Merge(T, p, i), k)
    {
      var j :| 0 <= j < |T.store[b].kvs| && T.store[b].kvs[j].k == k;
      MergeKeyKept(T, p, i, b, j);
    }
  }

  lemma MergeBlocks(T: Tree, p: nat, i: nat)
    requires Inv(T) && CanMerge(T, p, i)
    ensures RootOk(Merge(T, p, i))
    ensures ChangesInside(T, Merge(T, p, i), {p, T.store[p].kids[i], T.store[p].kids[i + 1]})
    ensures forall b :: b in {p, T.store[p].kids[i], T.store[p].kids[i + 1]} && b in Merge(T, p, i).store ==>
      NewOk(Merge(T, p, i), b)
  {
    var l, r := T.store[p].kids[i], T.store[p].kids[i + 1];
    KidFacts(T, p, i);
    KidFacts(T, p, i + 1);
    assert IsKid(T, p, l) && IsKid(T, p, r);
    MergeParent(T, p, i);
    MergeLeft(T, p, i);
  }

  lemma MergeKeeps(T: Tree, p: nat, i: nat)
    requires Inv(T) && CanMerge(T, p, i)
    ensures Inv(Merge(T, p, i))
  {
    var D := {p, T.store[p].kids[i], T.store[p].kids[i + 1]};
    MergeFrame(T, p, i);
    MergeBlocks(T, p, i);
    MergeKidsKept(T, p, i);
    MergeKeysKept(T, p, i);
    SameKeys(T, Merge(T, p, i), D);
    Surgery(T, Merge(T, p, i), D);
  }

  // ---------------------------------------------------------------- borrow

  function WithSep(n: Node, i: nat, kv: KV): Node
    requires i < |n.kvs|
  {
    n.(kvs := n.kvs[i := kv])
  }

  ghost predicate CanRecut(T: Tree, p: nat, i: nat, j: nat) {
    && Siblings(T, p, i)
    && Cuttable(BothKids(T, p, i), j)
    && T.t - 1 <= j <= 2 * T.t - 1
    && T.t <= |BothKids(T, p, i).kvs| - j <= 2 * T.t
  }

  /** Children i and i+1 of p and the key between them, distributed anew so that key j separates them. */
  ghost function Recut(T: Tree, p: nat, i: nat, j: nat): Tree
    requires CanRecut(T, p, i, j)
  {
    var l, r := T.store[p].kids[i], T.store[p].kids[i + 1];
    var n := BothKids(T, p, i);
    T.(store := T.store[l := Lower(n, j)][r := Upper(n, j)][p := WithSep(T.store[p], i, n.kvs[j])],
       info := T.info[l := Info(T.info[l].height, T.info[l].lo, n.kvs[j].k)]
                     [r := Info(T.info[r].height, n.kvs[j].k, T.info[r].hi)])
  }

  lemma WithSepOk(t: nat, n: Node, f: Info, isRoot: bool, i: nat, kv: KV)
    requires NodeOk(t, n, f, isRoot) && !n.leaf && i < |n.kvs|
    requires KidLo(n, f, i) < kv.k < KidHi(n, f, i + 1)
    ensures NodeOk(t, WithSep(n, i, kv), f, isRoot)
  {
  }

  lemma WithSepKids(T: Tree, S: Tree, n: Node, f: Info, i: nat, kv: KV)
    requires |n.kids| == |n.kvs| + 1 && i < |n.kvs| && KidsOk(T, n, f) && f.height >= 1 && S.root == T.root
    requires forall j :: 0 <= j < |n.kids| && j != i && j != i + 1 ==> SameKid(T, S, n.kids[j])
    requires n.kids[i] in S.store && n.kids[i] in S.info && n.kids[i + 1] in S.store && n.kids[i + 1] in S.info
    requires S.info[n.kids[i]] == Info(f.height - 1, KidLo(n, f, i), kv.k)
    requires S.info[n.kids[i + 1]] == Info(f.height - 1, kv.k, KidHi(n, f, i + 1))
    ensures KidsOk(S, WithSep(n, i, kv), f)
  {
    var n' := WithSep(n, i, kv);
    forall j | 0 <= j < |n'.kids|
      ensures KidOk(S, n', f, j)
    {
      assert KidOk(T, n, f, j);
    }
  }

  lemma RecutFrame(T: Tree, p: nat, i: nat, j: nat)
    requires CanRecut(T, p, i, j)
    ensures SameOutside(T, Recut(T, p, i, j), {p, T.store[p].kids[i], T.store[p].kids[i + 1]})
  {
  }

  lemma RecutParent(T: Tree, p: nat, i: nat, j: nat)
    requires Inv(T) && CanRecut(T, p, i, j)
    ensures NewOk(Recut(T, p, i, j), p)
  {
    hide Lower, Upper, Joined;
    var S := Recut(T, p, i, j);
    var kv := BothKids(T, p, i).kvs[j];
    BothKidsOk(T, p, i);
    assert BlockOk(T, p);
    KidFacts(T, p, i);
    KidFacts(T, p, i + 1);
    WithSepOk(T.t, T.store[p], T.info[p], p == T.root, i, kv);
    forall x | 0 <= x < |T.store[p].kids| && x != i && x != i + 1
      ensures SameKid(T, S, T.store[p].kids[x])
    {
      KidFacts(T, p, x);
      DistinctKids(T, p, i, x);
      DistinctKids(T, p, i + 1, x);
    }
    WithSepKids(T, S, T.store[p], T.info[p], i, kv);
  }

  lemma RecutHalves(T: Tree, p: nat, i: nat, j: nat)
    requires Inv(T) && CanRecut(T, p, i, j)
    requires T.store[p].kids[i] != T.root && T.store[p].kids[i + 1] != T.root
    ensures NewOk(Recut(T, p, i, j), T.store[p].kids[i])
    ensures NewOk(Recut(T, p, i, j), T.store[p].kids[i + 1])
  {
    var S := Recut(T, p, i, j);
    var l, r := T.store[p].kids[i], T.store[p].kids[i + 1];
    RecutFrame(T, p, i, j);
    BothKidsOk(T, p, i);
    BothKidsKids(T, S, p, i);
    SiblingsExist(T, p, i);
    HalvesNew(S, l, r, BothKids(T, p, i), BothInfo(T, p, i), j);
  }

  lemma RecutKidKept(T: Tree, p: nat, i: nat, j: nat, q: nat, x: nat)
    requires CanRecut(T, p, i, j) && q in {p, T.store[p].kids[i], T.store[p].kids[i + 1]}
    requires x < |T.store[q].kids|
    ensures UpOk(Recut(T, p, i, j), T.store[q].kids[x])
  {
    var S := Recut(T, p, i, j);
    var b, l, r := T.store[q].kids[x], T.store[p].kids[i], T.store[p].kids[i + 1];
    if q == p {
      assert S.store[p].kids[x] == b && IsKid(S, p, b);
    } else {
      var at := if q == l then x else |T.store[l].kids| + x;
      assert BothKids(T, p, i).kids[at] == b;
      if at <= j {
        assert S.store[l].kids[at] == b && IsKid(S, l, b);
      } else {
        assert S.store[r].kids[at - j - 1] == b && IsKid(S, r, b);
      }
    }
  }

  lemma RecutKidsKept(T: Tree, p: nat, i: nat, j: nat)
    requires Inv(T) && CanRecut(T, p, i, j)
    ensures KidsKept(T, Recut(T, p, i, j), {p, T.store[p].kids[i], T.store[p].kids[i + 1]})
  {
    var S := Recut(T, p, i, j);
    var l, r := T.store[p].kids[i], T.store[p].kids[i + 1];
    KidFacts(T, p, i);
    KidFacts(T, p, i + 1);
    RecutKidKept(T, p, i, j, p, i);
    RecutKidKept(T, p, i, j, p, i + 1);
    RecutFrame(T, p, i, j);
    TopKept(T, S, {p, l, r}, p);
    forall q, b | q in {p, l, r} && IsKid(T, q, b)
      ensures UpOk(S, b)
    {
      var x :| 0 <= x < |T.store[q].kids| && T.store[q].kids[x] == b;
      RecutKidKept(T, p, i, j, q, x);
    }
  }

  lemma RecutKeyKept(T: Tree, p: nat, i: nat, j: nat, b: nat, x: nat)
    requires CanRecut(T, p, i, j) && b in {p, T.store[p].kids[i], T.store[p].kids[i + 1]}
    requires x < |T.store[b].kvs|
    ensures Stored(Recut(T, p, i, j), T.store[b].kvs[x].k)
  {
    var S := Recut(T, p, i, j);
    var l, r, k := T.store[p].kids[i], T.store[p].kids[i + 1], T.store[b].kvs[x].k;
    if b == p && x != i {
      assert S.store[p].kvs[x].k == k && HeldBy(S, p, k);
    } else {
      var at := if b == l then x else if b == p then |T.store[l].kvs| else |T.store[l].kvs| + 1 + x;
      assert BothKids(T, p, i).kvs[at].k == k;
      if at < j {
        assert S.store[l].kvs[at].k == k && HeldBy(S, l, k);
      } else if at == j {
        assert S.store[p].kvs[i].k == k && HeldBy(S, p, k);
      } else {
        assert S.store[r].kvs[at - j - 1].k == k && HeldBy(S, r, k);
      }
    }
  }

  lemma RecutKeysKept(T: Tree, p: nat, i: nat, j: nat)
    requires Inv(T) && CanRecut(T, p, i, j)
    ensures KeysKept(T, Recut(T, p, i, j), {p, T.store[p].kids[i], T.store[p].kids[i + 1]})
  {
    forall b, k | b in {p, T.store[p].kids[i], T.store[p].kids[i + 1]} && HeldBy(T, b, k)
      ensures Stored(Recut(T, p, i, j), k)
    {
      var x :| 0 <= x < |T.store[b].kvs| && T.store[b].kvs[x].k == k;
      RecutKeyKept(T, p, i, j, b, x);
    }
  }

  lemma RecutBlocks(T: Tree, p: nat, i: nat, j: nat)
    requires Inv(T) && CanRecut(T, p, i, j)
    ensures RootOk(Recut(T, p, i, j))
    ensures ChangesInside(T, Recut(T, p, i, j), {p, T.store[p].kids[i], T.store[p].kids[i + 1]})
    ensures forall b :: b in {p, T.store[p].kids[i], T.store[p].kids[i + 1]} ==> NewOk(Recut(T, p, i, j), b)
  {
    var l, r := T.store[p].kids[i], T.store[p].kids[i + 1];
    KidFacts(T, p, i);
    KidFacts(T, p, i + 1);
    assert IsKid(T, p, l) && IsKid(T, p, r);
    RecutParent(T, p, i, j);
    RecutHalves(T, p, i, j);
  }

  lemma RecutKeeps(T: Tree, p: nat, i: nat, j: nat)
    requires Inv(T) && CanRecut(T, p, i, j)
    ensures Inv(Recut(T, p, i, j))
  {
    var D := {p, T.store[p].kids[i], T.store[p].kids[i + 1]};
    RecutFrame(T, p, i, j);
    RecutBlocks(T, p, i, j);
    RecutKidsKept(T, p, i, j);
    RecutKeysKept(T, p, i, j);
    SameKeys(T, Recut(T, p, i, j), D);
    Surgery(T, Recut(T, p, i, j), D);
  }
}
