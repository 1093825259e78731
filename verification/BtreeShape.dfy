/** The block-addressed B-tree of core/btree.c as a value.

    `store` is what the node blocks hold on disk. The remaining fields of `Tree` are the annotation
    that the proofs carry along: for every block its height, the open key interval it is responsible
    for and the block that points to it; for every key the one block that holds it; and the map from
    keys to values that the tree stands for. Every clause of `Inv` looks at one block and its
    neighbours, so a step that touches three blocks only has to re-establish it around those three.

    A key is the 16 bytes of struct nkfs_btree_key read as one big-endian number: nkfs_btree_cmp_key is
    memcmp, whose order on 16 bytes is the order of those numbers (KeyOrder.dfy). */
module BtreeShape {

  const KEY_LIMIT: int := 0x1_0000_0000_0000_0000_0000_0000_0000_0000

  datatype KV = KV(k: int, v: int)

  /** `kvs` are the key-value slots below nr_keys; `kids` are the child slots 0..nr_keys, none in a leaf. */
  datatype Node = Node(leaf: bool, kvs: seq<KV>, kids: seq<nat>)

  /** The level of a block (0 for a leaf) and the open interval its keys come from. */
  datatype Info = Info(height: nat, lo: int, hi: int)

  datatype Tree = Tree(t: nat, root: nat, store: map<nat, Node>, info: map<nat, Info>, m: map<int, int>)

  // ---------------------------------------------------------------- sequences

  function InsertAt<T>(s: seq<T>, i: nat, x: T): (r: seq<T>)
    requires i <= |s|
    ensures |r| == |s| + 1 && r[i] == x
    ensures forall j :: 0 <= j < i ==> r[j] == s[j]
    ensures forall j :: i < j < |r| ==> r[j] == s[j - 1]
  {
    s[..i] + [x] + s[i..]
  }

  function RemoveAt<T>(s: seq<T>, i: nat): (r: seq<T>)
    requires i < |s|
    ensures |r| == |s| - 1
    ensures forall j :: 0 <= j < i ==> r[j] == s[j]
    ensures forall j :: i <= j < |r| ==> r[j] == s[j + 1]
  {
    s[..i] + s[i + 1..]
  }

  ghost predicate Sorted(s: seq<KV>) {
    forall i, j :: 0 <= i < j < |s| ==> s[i].k < s[j].k
  }

  ghost predicate HasKey(s: seq<KV>, k: int) {
    exists i :: 0 <= i < |s| && s[i].k == k
  }

  // ---------------------------------------------------------------- the invariant

  /** Order inside one block, its key count (T-1..2T-1 except for the root) and its child count. */
  ghost predicate NodeOk(t: nat, n: Node, f: Info, isRoot: bool) {
    && Sorted(n.kvs)
    && (forall i :: 0 <= i < |n.kvs| ==> f.lo < n.kvs[i].k < f.hi)
    && (n.leaf <==> f.height == 0)
    && |n.kids| == (if n.leaf then 0 else |n.kvs| + 1)
    && |n.kvs| <= 2 * t - 1
    && (!isRoot ==> |n.kvs| >= t - 1)
  }

  function KidLo(n: Node, f: Info, i: nat): int
    requires i <= |n.kvs|
  {
    if i == 0 then f.lo else n.kvs[i - 1].k
  }

  function KidHi(n: Node, f: Info, i: nat): int
    requires i <= |n.kvs|
  {
    if i == |n.kvs| then f.hi else n.kvs[i].k
  }

  /** Child i is a block of the tree one level down that owns exactly the gap between the keys around it. */
  ghost predicate KidOk(T: Tree, n: Node, f: Info, i: nat)
    requires i < |n.kids| && i <= |n.kvs|
  {
    var c := n.kids[i];
    && c in T.store && c in T.info && c != T.root
    && T.info[c].height == f.height - 1
    && T.info[c].lo == KidLo(n, f, i) && T.info[c].hi == KidHi(n, f, i)
  }

  ghost predicate KidsOk(T: Tree, n: Node, f: Info)
    requires |n.kids| <= |n.kvs| + 1
  {
    forall i :: 0 <= i < |n.kids| ==> KidOk(T, n, f, i)
  }

  ghost predicate IsKid(T: Tree, p: nat, b: nat) {
    p in T.store && b in T.store[p].kids
  }

  /** Every block except the root is some block's child. */
  ghost predicate UpOk(T: Tree, b: nat) {
    b != T.root ==> exists p :: IsKid(T, p, b)
  }

  ghost predicate KeysOk(n: Node, m: map<int, int>) {
    forall i :: 0 <= i < |n.kvs| ==> n.kvs[i].k in m && m[n.kvs[i].k] == n.kvs[i].v
  }

  ghost predicate BlockOk(T: Tree, b: nat)
    requires b in T.store
  {
    && b in T.info
    && NodeOk(T.t, T.store[b], T.info[b], b == T.root)
    && KidsOk(T, T.store[b], T.info[b])
    && UpOk(T, b)
    && KeysOk(T.store[b], T.m)
  }

  ghost predicate HeldBy(T: Tree, b: nat, k: int) {
    b in T.store && HasKey(T.store[b].kvs, k)
  }

  ghost predicate Stored(T: Tree, k: int) {
    exists b :: HeldBy(T, b, k)
  }

  /** Every key of the map is in some block. */
  ghost predicate Covered(T: Tree) {
    forall k :: k in T.m ==> Stored(T, k)
  }

  ghost predicate RootOk(T: Tree) {
    && T.t >= 2
    && T.root in T.store && T.root in T.info
    && T.info[T.root].lo == -1 && T.info[T.root].hi == KEY_LIMIT
  }

  /** The B-tree invariant, except that an internal root may momentarily be without keys. */
  ghost predicate Inv(T: Tree) {
    && RootOk(T)
    && (forall b {:trigger BlockOk(T, b)} :: b in T.store ==> BlockOk(T, b))
    && Covered(T)
  }

  ghost predicate Tight(T: Tree) {
    T.root in T.store && (T.store[T.root].leaf || |T.store[T.root].kvs| >= 1)
  }

  ghost predicate Valid(T: Tree) {
    Inv(T) && Tight(T)
  }

  /** The number of levels below the root. */
  ghost function Height(T: Tree): nat {
    if T.root in T.info then T.info[T.root].height else 0
  }

  // ---------------------------------------------------------------- where a key can be

  lemma KidFacts(T: Tree, p: nat, i: nat)
    requires Inv(T) && p in T.store && i < |T.store[p].kids|
    ensures p in T.info && i <= |T.store[p].kvs|
    ensures KidOk(T, T.store[p], T.info[p], i)
    ensures T.info[p].lo <= T.info[T.store[p].kids[i]].lo
    ensures T.info[T.store[p].kids[i]].hi <= T.info[p].hi
  {
    assert BlockOk(T, p);
  }

  /** A block other than the root sits at some position of some block, whose facts then apply. */
  lemma ParentOf(T: Tree, b: nat) returns (p: nat, i: nat)
    requires Inv(T) && b in T.store && b != T.root
    ensures p in T.store && i < |T.store[p].kids| && T.store[p].kids[i] == b
    ensures p in T.info && i <= |T.store[p].kvs|
    ensures KidOk(T, T.store[p], T.info[p], i)
    ensures T.info[p].lo <= T.info[b].lo && T.info[b].hi <= T.info[p].hi
  {
    assert BlockOk(T, b);
    p :| IsKid(T, p, b);
    i :| 0 <= i < |T.store[p].kids| && T.store[p].kids[i] == b;
    KidFacts(T, p, i);
  }

  lemma HeightBound(s: set<nat>, info: map<nat, Info>) returns (bound: nat)
    ensures forall c :: c in s && c in info ==> info[c].height <= bound
  {
    if s == {} {
      bound := 0;
    } else {
      var b :| b in s;
      var rest := HeightBound(s - {b}, info);
      bound := if b in info && info[b].height > rest then info[b].height else rest;
      assert forall c :: c in s ==> c == b || c in s - {b};
    }
  }

  lemma {:induction false} HighestIsRoot(T: Tree, b: nat, bound: nat)
    requires Inv(T) && b in T.store
    requires forall c :: c in T.store && c in T.info ==> T.info[c].height <= bound
    ensures b in T.info && T.info[b].height <= T.info[T.root].height
    ensures T.info[b].height == T.info[T.root].height ==> b == T.root
    decreases if b in T.info then bound - T.info[b].height else 0
  {
    assert BlockOk(T, b);
    if b != T.root {
      var p, i := ParentOf(T, b);
      HighestIsRoot(T, p, bound);
    }
  }

  lemma RootHighest(T: Tree, b: nat)
    requires Inv(T) && b in T.store
    ensures b in T.info && T.info[b].height <= T.info[T.root].height
    ensures T.info[b].height == T.info[T.root].height ==> b == T.root
  {
    var bound := HeightBound(T.store.Keys, T.info);
    HighestIsRoot(T, b, bound);
  }

  lemma GapHasNoKey(s: seq<KV>, i: nat, j: nat)
    requires Sorted(s) && i < |s| && j <= |s|
    ensures i < j ==> s[i].k <= s[j - 1].k
    ensures i >= j ==> s[j].k <= s[i].k
  {
  }

  /** Blocks on one level own disjoint key intervals. */
  lemma {:induction false} LevelDisjoint(T: Tree, b: nat, c: nat)
    requires Inv(T) && b in T.store && c in T.store && b != c
    requires b in T.info && c in T.info && T.info[b].height == T.info[c].height
    ensures T.info[b].hi <= T.info[c].lo || T.info[c].hi <= T.info[b].lo
    decreases T.info[T.root].height - T.info[b].height
  {
    RootHighest(T, b);
    RootHighest(T, c);
    var p, i := ParentOf(T, b);
    var q, j := ParentOf(T, c);
    RootHighest(T, p);
    if p != q {
      LevelDisjoint(T, p, q);
    } else {
      assert BlockOk(T, p);
      if i < j {
        GapHasNoKey(T.store[p].kvs, i, j);
      } else {
        GapHasNoKey(T.store[p].kvs, j, i);
      }
    }
  }

  /** A block never holds a key from the interval of a block below it. */
  lemma {:induction false} NoKeyBelow(T: Tree, b: nat, c: nat, i: nat)
    requires Inv(T) && b in T.store && c in T.store
    requires b in T.info && c in T.info && T.info[c].height < T.info[b].height
    requires i < |T.store[b].kvs|
    ensures !(T.info[c].lo < T.store[b].kvs[i].k < T.info[c].hi)
    decreases T.info[b].height - T.info[c].height
  {
    RootHighest(T, b);
    var p, j := ParentOf(T, c);
    assert BlockOk(T, b);
    if T.info[p].height < T.info[b].height {
      NoKeyBelow(T, b, p, i);
    } else if p != b {
      LevelDisjoint(T, p, b);
    } else {
      GapHasNoKey(T.store[b].kvs, i, j);
    }
  }

  /** A key in a block's interval is held in that block or below it, if anywhere. */
  lemma KeyIsBelow(T: Tree, b: nat, c: nat, k: int)
    requires Inv(T) && b in T.store && b in T.info && T.info[b].lo < k < T.info[b].hi
    requires HeldBy(T, c, k)
    ensures c in T.info && T.info[c].height <= T.info[b].height
    ensures T.info[c].height == T.info[b].height ==> c == b
  {
    var i :| 0 <= i < |T.store[c].kvs| && T.store[c].kvs[i].k == k;
    assert BlockOk(T, c);
    if T.info[c].height > T.info[b].height {
      NoKeyBelow(T, c, b, i);
    } else if T.info[c].height == T.info[b].height && c != b {
      LevelDisjoint(T, c, b);
    }
  }

  /** No key is in two blocks. */
  lemma OneHolder(T: Tree, b: nat, c: nat, k: int)
    requires Inv(T) && HeldBy(T, b, k) && HeldBy(T, c, k)
    ensures b == c
  {
    assert BlockOk(T, b);
    assert BlockOk(T, c);
    KeyIsBelow(T, b, c, k);
    KeyIsBelow(T, c, b, k);
  }

  /** No block is a child twice. */
  lemma OneParent(T: Tree, p: nat, i: nat, q: nat, j: nat)
    requires Inv(T) && p in T.store && q in T.store
    requires i < |T.store[p].kids| && j < |T.store[q].kids| && T.store[p].kids[i] == T.store[q].kids[j]
    ensures p == q && i == j
  {
    KidFacts(T, p, i);
    KidFacts(T, q, j);
    var b := T.store[p].kids[i];
    assert BlockOk(T, b);
    assert T.info[b].lo < T.store[b].kvs[0].k < T.info[b].hi;
    if p != q {
      LevelDisjoint(T, p, q);
    } else if i != j {
      assert BlockOk(T, p);
      GapHasNoKey(T.store[p].kvs, if i < j then i else j, if i < j then j else i);
    }
  }

  lemma HeldIsMapped(T: Tree)
    requires Inv(T)
    ensures forall c, k :: HeldBy(T, c, k) ==> k in T.m
  {
    forall c, k | HeldBy(T, c, k)
      ensures k in T.m
    {
      assert BlockOk(T, c);
    }
  }

  lemma {:induction false} Within(T: Tree, b: nat)
    requires Inv(T) && b in T.store
    ensures b in T.info && -1 <= T.info[b].lo && T.info[b].hi <= KEY_LIMIT
    decreases if b in T.info then T.info[T.root].height - T.info[b].height else 0
  {
    RootHighest(T, b);
    if b != T.root {
      var p, i := ParentOf(T, b);
      RootHighest(T, p);
      Within(T, p);
    }
  }

  lemma DistinctKids(T: Tree, p: nat, i: nat, j: nat)
    requires Inv(T) && p in T.store && i < |T.store[p].kids| && j < |T.store[p].kids| && i != j
    ensures T.store[p].kids[i] != T.store[p].kids[j]
  {
    if T.store[p].kids[i] == T.store[p].kids[j] {
      OneParent(T, p, i, p, j);
    }
  }

  /** At a leaf the search is decided. */
  lemma LeafDecides(T: Tree, b: nat, k: int)
    requires Inv(T) && b in T.store && T.store[b].leaf
    requires b in T.info && T.info[b].lo < k < T.info[b].hi
    ensures k in T.m <==> HasKey(T.store[b].kvs, k)
  {
    assert BlockOk(T, b);
    if k in T.m {
      var c :| HeldBy(T, c, k);
      KeyIsBelow(T, b, c, k);
    }
  }

  ghost predicate InGap(n: Node, i: nat, k: int) {
    && i <= |n.kvs|
    && (i > 0 ==> n.kvs[i - 1].k < k)
    && (i < |n.kvs| ==> k < n.kvs[i].k)
  }

  lemma InGapAbsent(n: Node, i: nat, k: int)
    requires Sorted(n.kvs) && InGap(n, i, k)
    ensures !HasKey(n.kvs, k)
  {
    forall j | 0 <= j < |n.kvs|
      ensures n.kvs[j].k != k
    {
      GapHasNoKey(n.kvs, j, i);
    }
  }

  /** Going down: the child in the gap around `k` is responsible for `k`. */
  lemma Descend(T: Tree, b: nat, i: nat, k: int)
    requires Inv(T) && b in T.store && !T.store[b].leaf && InGap(T.store[b], i, k)
    requires b in T.info && T.info[b].lo < k < T.info[b].hi
    ensures |T.store[b].kids| == |T.store[b].kvs| + 1 && KidOk(T, T.store[b], T.info[b], i)
    ensures T.info[T.store[b].kids[i]].lo < k < T.info[T.store[b].kids[i]].hi
  {
    assert BlockOk(T, b);
    KidFacts(T, b, i);
  }
}
