/** An object, for every T, of which a block allocation faults as core/btree.c:1158-1161 is written: the root of its checksum
    tree is full, the leaves are not, and the free blocks are enough for a new checksum block but not for the data. */
module InodeFault {
  import opened Common
  import opened BtreeShape
  import opened BtreePath
  import opened Btree
  import opened Balloc
  import opened KeyOrder
  import opened KeyNames
  import opened IndexTree
  import opened InodeMap

  // ---------------------------------------------------------------- a tree of a full root and small leaves

  /** The first of the numbers that leaf j has; the last one before it is in the root. */
  function First(t: nat, j: nat): nat {
    j * t
  }

  lemma FirstNext(t: nat, j: nat)
    ensures First(t, j + 1) == First(t, j) + t && First(t, 0) == 0
  {
  }

  lemma {:induction false} FirstOrder(t: nat, i: nat, j: nat)
    requires i <= j
    ensures First(t, i) <= First(t, j) && (i < j ==> First(t, i) + t <= First(t, j))
    decreases j
  {
    hide First;
    if i < j {
      FirstOrder(t, i, j - 1);
      FirstNext(t, j - 1);
    }
  }

  /** The number before that. */
  function Last(t: nat, j: nat): nat {
    if First(t, j) == 0 then 0 else First(t, j) - 1
  }

  /** How many numbers the tree has. */
  function Count(t: nat): nat {
    Last(t, 2 * t)
  }

  function Pair(base: nat, y: nat): KV {
    KV(KeyNo(y), base + y)
  }

  function RootNode(t: nat, base: nat): Node
    requires t > 0
  {
    Node(false, seq(2 * t - 1, i requires 0 <= i < 2 * t - 1 => Pair(base, Last(t, i + 1))),
      seq(2 * t, i requires 0 <= i < 2 * t => 4 + i))
  }

  function LeafNode(t: nat, base: nat, j: nat): Node
    requires t > 0
  {
    Node(true, seq(t - 1, r requires 0 <= r < t - 1 => Pair(base, First(t, j) + r)), [])
  }

  function NodeAt(t: nat, base: nat, b: nat): Node
    requires t > 0 && b >= 3
  {
    if b == 3 then RootNode(t, base) else LeafNode(t, base, b - 4)
  }

  function StoreOf(t: nat, base: nat): map<nat, Node>
    requires t > 0
  {
    map b: nat | 3 <= b < 4 + 2 * t :: NodeAt(t, base, b)
  }

  ghost function LowOf(t: nat, j: nat): int {
    if j == 0 then -1 else KeyNo(Last(t, j))
  }

  ghost function HighOf(t: nat, j: nat): int {
    if j + 1 == 2 * t then KEY_LIMIT else KeyNo(Last(t, j + 1))
  }

  ghost function InfoAt(t: nat, b: nat): Info
    requires b >= 3
  {
    if b == 3 then Info(1, -1, KEY_LIMIT) else Info(0, LowOf(t, b - 4), HighOf(t, b - 4))
  }

  ghost function SumTree(t: nat, base: nat): Tree
    requires t > 0
  {
    Tree(t, 3, StoreOf(t, base),
      map b: nat | 3 <= b < 4 + 2 * t :: InfoAt(t, b),
      Keyed(Count(t), base))
  }

  lemma Positive(t: nat, j: nat)
    requires t >= 2 && 0 < j
    ensures First(t, j) >= 2
  {
    FirstNext(t, 0);
    FirstOrder(t, 1, j);
  }

  lemma LeafIs(t: nat, base: nat, j: nat)
    requires t >= 2 && j < 2 * t && First(t, 2 * t) <= NAMES
    ensures BlockOk(SumTree(t, base), 4 + j)
  {
    hide First, KeyNo, Keyed, RootNode;
    var T := SumTree(t, base);
    RootKids(t, base, j);
    assert IsKid(T, 3, 4 + j);
    FirstNext(t, j);
    FirstOrder(t, j + 1, 2 * t);
    LeafKeys(t, base, j);
  }

  lemma RootKids(t: nat, base: nat, j: nat)
    requires t > 0 && j < 2 * t
    ensures j < |RootNode(t, base).kids| && RootNode(t, base).kids[j] == 4 + j && 4 + j in RootNode(t, base).kids
  {
    assert RootNode(t, base).kids[j] == 4 + j;
  }

  lemma LeafKeys(t: nat, base: nat, j: nat)
    requires t >= 2 && j < 2 * t && First(t, 2 * t) <= NAMES
    ensures NodeOk(t, LeafNode(t, base, j), Info(0, LowOf(t, j), HighOf(t, j)), false)
    ensures KeysOk(LeafNode(t, base, j), Keyed(Count(t), base))
  {
    hide First, KeyNo, Keyed;
    var n := LeafNode(t, base, j);
    FirstNext(t, j);
    FirstOrder(t, j + 1, 2 * t);
    forall r | 0 <= r < t - 1
      ensures n.kvs[r] == Pair(base, First(t, j) + r)
    {
    }
    forall i, r | 0 <= i < r < t - 1
      ensures n.kvs[i].k < n.kvs[r].k
    {
      KeyNoOrder(First(t, j) + i, First(t, j) + r);
    }
    forall r | 0 <= r < t - 1
      ensures LowOf(t, j) < n.kvs[r].k < HighOf(t, j) && n.kvs[r].k in Keyed(Count(t), base)
      ensures Keyed(Count(t), base)[n.kvs[r].k] == n.kvs[r].v
    {
      var y := First(t, j) + r;
      KeyedHas(Count(t), base, y);
      KeyNoInRange(y);
      if j > 0 {
        Positive(t, j);
        KeyNoOrder(Last(t, j), y);
      }
      if j + 1 < 2 * t {
        KeyNoOrder(y, Last(t, j + 1));
      }
    }
  }

  lemma KeyedHas(n: nat, base: nat, y: nat)
    requires y < n
    ensures KeyNo(y) in Keyed(n, base) && Keyed(n, base)[KeyNo(y)] == base + y
  {
  }

  lemma RootKeys(t: nat, base: nat)
    requires t >= 2 && First(t, 2 * t) <= NAMES
    ensures NodeOk(t, RootNode(t, base), Info(1, -1, KEY_LIMIT), true)
    ensures KeysOk(RootNode(t, base), Keyed(Count(t), base))
  {
    hide First, KeyNo, Keyed;
    var n := RootNode(t, base);
    forall i, r | 0 <= i < r < 2 * t - 1
      ensures n.kvs[i].k < n.kvs[r].k
    {
      Positive(t, i + 1);
      FirstOrder(t, i + 1, r + 1);
      KeyNoOrder(Last(t, i + 1), Last(t, r + 1));
    }
    forall r | 0 <= r < 2 * t - 1
      ensures -1 < n.kvs[r].k < KEY_LIMIT && n.kvs[r].k in Keyed(Count(t), base)
      ensures Keyed(Count(t), base)[n.kvs[r].k] == n.kvs[r].v
    {
      Positive(t, r + 1);
      FirstOrder(t, r + 1, 2 * t);
      KeyedHas(Count(t), base, Last(t, r + 1));
      KeyNoInRange(Last(t, r + 1));
    }
  }

  lemma RootIs(t: nat, base: nat)
    requires t >= 2 && First(t, 2 * t) <= NAMES
    ensures BlockOk(SumTree(t, base), 3)
  {
    hide First, KeyNo, Keyed, NodeOk, KeysOk;
    var T, n := SumTree(t, base), RootNode(t, base);
    RootKeys(t, base);
    forall i | 0 <= i < 2 * t
      ensures KidOk(T, n, T.info[3], i)
    {
      RootKids(t, base, i);
    }
  }

  lemma {:induction false} LeafFor(t: nat, n: nat, y: nat) returns (j: nat)
    requires y < First(t, n)
    ensures j < n && First(t, j) <= y < First(t, j + 1)
  {
    hide First;
    if n == 0 {
      FirstNext(t, 0);
    } else if First(t, n - 1) <= y {
      j := n - 1;
    } else {
      j := LeafFor(t, n - 1, y);
    }
  }

  lemma LeafHolds(t: nat, base: nat, j: nat, r: nat)
    requires t >= 2 && j < 2 * t && r < t - 1
    ensures HeldBy(SumTree(t, base), 4 + j, KeyNo(First(t, j) + r))
  {
    hide First, KeyNo, Keyed, RootNode;
    var n := LeafNode(t, base, j);
    assert SumTree(t, base).store[4 + j] == n;
    assert n.kvs[r] == Pair(base, First(t, j) + r);
  }

  lemma RootHolds(t: nat, base: nat, j: nat)
    requires t >= 2 && j < 2 * t - 1
    ensures HeldBy(SumTree(t, base), 3, KeyNo(Last(t, j + 1)))
  {
    hide First, KeyNo, Keyed, LeafNode;
    var n := RootNode(t, base);
    assert SumTree(t, base).store[3] == n;
    assert n.kvs[j] == Pair(base, Last(t, j + 1));
  }

  lemma Somewhere(t: nat, base: nat, y: nat)
    requires t >= 2 && y < Count(t)
    ensures Stored(SumTree(t, base), KeyNo(y))
  {
    hide First, KeyNo, SumTree, HeldBy;
    var j := LeafFor(t, 2 * t, y);
    FirstNext(t, j);
    if y - First(t, j) < t - 1 {
      LeafHolds(t, base, j, y - First(t, j));
    } else {
      RootHolds(t, base, j);
    }
  }

  lemma RootTop(t: nat, base: nat)
    requires t >= 2
    ensures RootOk(SumTree(t, base)) && Tight(SumTree(t, base))
  {
    hide First, KeyNo, Keyed, LeafNode;
  }

  lemma SumTreeValid(t: nat, base: nat)
    requires t >= 2 && First(t, 2 * t) <= NAMES
    ensures BtreeShape.Valid(SumTree(t, base))
  {
    hide First, BlockOk, KeyNo, NodeAt, InfoAt, Keyed, Stored, RootOk, Tight;
    var T := SumTree(t, base);
    RootTop(t, base);
    forall b | b in T.store
      ensures BlockOk(T, b)
    {
      if b == 3 {
        RootIs(t, base);
      } else {
        LeafIs(t, base, b - 4);
      }
    }
    forall k | k in T.m
      ensures Stored(T, k)
    {
      KeyedOnly(Count(t), base, k);
      var y: nat :| y < Count(t) && k == KeyNo(y);
      Somewhere(t, base, y);
    }
  }

  lemma LastOnPath(t: nat, base: nat)
    requires t >= 2 && First(t, 2 * t) < NAMES
    ensures var T, k, l := SumTree(t, base), KeyNo(Count(t)), 4 + (2 * t - 1);
      && 0 <= k < KEY_LIMIT && OnPath(T, 3, k) && OnPath(T, l, k) && T.info[3].height == 1 && T.info[l].height == 0
      && |T.store[3].kvs| == 2 * t - 1 && |T.store[l].kvs| == t - 1 && Height(T) == 1 && T.t == t
  {
    hide First, KeyNo, Keyed;
    FirstOrder(t, 0, 2 * t);
    FirstNext(t, 0);
    KeyNoInRange(Count(t));
    Positive(t, 2 * t - 1);
    FirstNext(t, 2 * t - 1);
    KeyNoOrder(Last(t, 2 * t - 1), Count(t));
  }

  /** The next number goes to the last leaf, through the full root. */
  lemma NextIsStuck(t: nat, base: nat)
    requires t >= 2 && First(t, 2 * t) < NAMES
    ensures Takes(SumTree(t, base), KeyNo(Count(t))) == 2 && StuckAfter(SumTree(t, base), KeyNo(Count(t)))
  {
    hide First, KeyNo, BtreeShape.Valid, Inv, SumTree, Count, Splits, SqueezedIn, TakesOn;
    var T, k := SumTree(t, base), KeyNo(Count(t));
    SumTreeValid(t, base);
    LastOnPath(t, base);
    ValidIsInv(T);
    ProfileAt(T, 3, k);
    ProfileAt(T, 4 + (2 * t - 1), k);
    var p := Profile(T, k);
    TwoLevels(t, p);
  }

  lemma ValidIsInv(T: Tree)
    requires BtreeShape.Valid(T)
    ensures Inv(T)
  {
  }

  lemma TwoLevels(t: nat, p: seq<nat>)
    requires t >= 2 && p == [t - 1, 2 * t - 1]
    ensures TakesOn(t, p) == 2 && SqueezedIn(t, p)
  {
    assert Splits(t, p, 1) == Splits(t, p, 0) == 0;
    assert Squeezed(t, p, 1);
  }

  // ---------------------------------------------------------------- a full leaf

  function FullLeaf(t: nat, base: nat): Node
    requires t > 0
  {
    Node(true, seq(2 * t - 1, y requires 0 <= y < 2 * t - 1 => Pair(base, y)), [])
  }

  ghost function DataTree(t: nat, base: nat): Tree
    requires t > 0
  {
    Tree(t, 2, map[2 := FullLeaf(t, base)], map[2 := Info(0, -1, KEY_LIMIT)], Keyed(2 * t - 1, base))
  }

  lemma DataTreeValid(t: nat, base: nat)
    requires t >= 2 && 2 * t <= NAMES
    ensures BtreeShape.Valid(DataTree(t, base))
  {
    hide KeyNo, Keyed;
    var T, n := DataTree(t, base), FullLeaf(t, base);
    forall i, r | 0 <= i < r < 2 * t - 1
      ensures n.kvs[i].k < n.kvs[r].k
    {
      KeyNoOrder(i, r);
    }
    forall r | 0 <= r < 2 * t - 1
      ensures -1 < n.kvs[r].k < KEY_LIMIT && n.kvs[r].k in T.m && T.m[n.kvs[r].k] == n.kvs[r].v
    {
      KeyedHas(2 * t - 1, base, r);
      KeyNoInRange(r);
    }
    assert BlockOk(T, 2);
    forall k | k in T.m
      ensures Stored(T, k)
    {
      KeyedOnly(2 * t - 1, base, k);
      var y: nat :| y < 2 * t - 1 && k == KeyNo(y);
      assert n.kvs[y].k == k;
      assert HeldBy(T, 2, k);
    }
  }

  lemma KeyedOnly(n: nat, base: nat, k: int)
    requires k in Keyed(n, base)
    ensures exists y: nat :: y < n && k == KeyNo(y)
  {
  }

  lemma DataTakesTwo(t: nat, base: nat, k: int)
    requires t >= 2 && 2 * t <= NAMES && 0 <= k < KEY_LIMIT
    ensures Takes(DataTree(t, base), k) == 2
  {
    var T := DataTree(t, base);
    DataTreeValid(t, base);
    RootOnPath(T, k);
    ProfileAt(T, 2, k);
    assert Splits(t, Profile(T, k), 0) == 0;
  }

  // ---------------------------------------------------------------- the object

  lemma NumberedIndex(n: nat, base: nat)
    requires n <= NAMES
    ensures Indexed(Keyed(n, base), Numbered(n, base))
  {
    hide Name, KeyNo, Numbered, KeyOf;
    var m, M := Keyed(n, base), Numbered(n, base);
    NumberedHas(n, base);
    forall v | v in M
      ensures v < U64 && KeyOf(v) in m && m[KeyOf(v)] == M[v]
    {
      var y: nat :| y < n && v == Name(y);
      NamedKey(y);
      KeyedHas(n, base, y);
    }
    forall k | k in m
      ensures Named(M, k)
    {
      KeyedOnly(n, base, k);
      var y: nat :| y < n && k == KeyNo(y);
      NamedKey(y);
      assert Name(y) in M;
    }
  }

  lemma NumberedRange(n: nat, base: nat)
    requires n <= NAMES
    ensures Injective(Numbered(n, base))
    ensures forall b: nat :: b in Range(Numbered(n, base)) <==> base <= b < base + n
  {
    hide Name, Numbered;
    var M := Numbered(n, base);
    NumberedHas(n, base);
    forall b: nat | base <= b < base + n
      ensures b in Range(M)
    {
      assert M[Name(b - base)] == b && Name(b - base) in M;
    }
  }

  /** Blocks: 0 is not the object's; 1 the inode; 2 the data tree; 3 and the next 2T the checksum tree; then data and
      checksum blocks. */
  function DataBase(t: nat): nat { 4 + 2 * t }
  function SumBase(t: nat): nat
    requires t > 0
  {
    DataBase(t) + 2 * t - 1
  }

  function UsedCount(t: nat): nat
    requires t > 0
  {
    SumBase(t) + Count(t)
  }

  function Inode(t: nat): Ino
    requires t > 0
  {
    Ino(1, 0, false,
      Mem(t, 2, map[2 := FullLeaf(t, DataBase(t))], multiset{2}, {}, 1),
      Mem(t, 3, StoreOf(t, SumBase(t)), multiset{3}, {}, 1))
  }

  ghost function Trees(t: nat): Shape
    requires t > 0
  {
    Shape(DataTree(t, DataBase(t)), Numbered(2 * t - 1, DataBase(t)), SumTree(t, SumBase(t)), Numbered(Count(t), SumBase(t)))
  }

  lemma OneHeld(t: nat, root: nat, store: map<nat, Node>)
    ensures Quiet(Mem(t, root, store, multiset{root}, {}, 1))
  {
    assert Cached(multiset{root}, {}) == {root};
  }

  lemma InodeTrees(t: nat)
    requires t >= 2 && First(t, 2 * t) < NAMES
    ensures TreeOk(Inode(t).bt, Trees(t).bT, Trees(t).bM) && TreeOk(Inode(t).st, Trees(t).sT, Trees(t).sM)
  {
    hide First, KeyNo, Numbered, Keyed, Quiet, Indexed, StoreOf, FullLeaf;
    FirstOrder(t, 2, 2 * t);
    FirstNext(t, 0);
    FirstNext(t, 1);
    SumTreeValid(t, SumBase(t));
    DataTreeValid(t, DataBase(t));
    OneHeld(t, 2, Inode(t).bt.store);
    OneHeld(t, 3, Inode(t).st.store);
    NumberedIndex(2 * t - 1, DataBase(t));
    NumberedIndex(Count(t), SumBase(t));
  }

  lemma Parts(t: nat, N: set<nat>, P: set<nat>, D: set<nat>, S: set<nat>, used: set<nat>)
    requires t >= 2 && N == {2} && (forall b: nat :: b in P <==> 3 <= b < 4 + 2 * t)
    requires (forall b: nat :: b in D <==> DataBase(t) <= b < SumBase(t)) && forall b: nat :: b in S <==> SumBase(t) <= b < UsedCount(t)
    requires forall b: nat :: b in used <==> b < UsedCount(t)
    ensures Parted(1, N, P, D, S, {0}, used)
  {
    hide First, Count;
    assert used == {0} + {1} + N + P + D + S;
  }

  lemma InodeBlocks(t: nat)
    requires t >= 2
    ensures var i := Inode(t);
      && i.block == 1 && i.bt.t == i.st.t == t && i.bt.store.Keys == {2}
      && forall b: nat :: b in i.st.store.Keys <==> 3 <= b < 4 + 2 * t
  {
    hide NodeAt, FullLeaf;
  }

  lemma TreeMaps(t: nat)
    requires t >= 2
    ensures Trees(t).bM == Numbered(2 * t - 1, DataBase(t)) && Trees(t).sM == Numbered(Count(t), SumBase(t))
  {
    hide SumTree, DataTree, Numbered;
  }

  lemma InodeOwns(t: nat, used: set<nat>)
    requires t >= 2 && First(t, 2 * t) < NAMES && forall b: nat :: b in used <==> b < UsedCount(t)
    ensures Owns(Inode(t), Trees(t), {0}, used)
  {
    hide First, Numbered, TreeOk, Parted, Inode, Trees, Range, Injective;
    FirstOrder(t, 2, 2 * t);
    FirstNext(t, 0);
    FirstNext(t, 1);
    InodeTrees(t);
    InodeBlocks(t);
    TreeMaps(t);
    NumberedRange(2 * t - 1, DataBase(t));
    NumberedRange(Count(t), SumBase(t));
    Parts(t, Inode(t).bt.store.Keys, Inode(t).st.store.Keys, Range(Trees(t).bM), Range(Trees(t).sM), used);
  }

  // ---------------------------------------------------------------- the fault

  /** A block of the object that is missing, and whose checksum block is. */
  function NewBlockNo(t: nat): nat {
    8192 * Name(Count(t)) + 1
  }

  lemma SumOfNew(x: nat)
    requires x < 0x1_0000_0000_0000
    ensures 8 * (8192 * x + 1) < U64 && SumBlockOf(8192 * x + 1) == x
  {
  }

  lemma NotNew(y: nat, x: nat)
    requires y < NAMES && x % 256 == 0
    ensures Name(y) != 8192 * x + 1
  {
    hide Name, KeyOf, KeyNo;
    NamedKey(y);
    assert (8192 * x + 1) % 256 == 1;
  }

  lemma NewBlockIsNew(t: nat)
    requires t >= 2 && First(t, 2 * t) < NAMES
    ensures var v := NewBlockNo(t);
      && 8 * v < U64 && v !in Trees(t).bM && SumBlockOf(v) == Name(Count(t)) && SumBlockOf(v) !in Trees(t).sM
  {
    hide Name, Numbered, Trees, First, SumBlockOf, KeyOf, KeyNo;
    FirstOrder(t, 2, 2 * t);
    FirstNext(t, 0);
    FirstNext(t, 1);
    NamedKey(Count(t));
    SumOfNew(Name(Count(t)));
    TreeMaps(t);
    NumberedHas(2 * t - 1, DataBase(t));
    NumberedHas(Count(t), SumBase(t));
    forall y: nat | y < 2 * t - 1
      ensures Name(y) != NewBlockNo(t)
    {
      NotNew(y, Name(Count(t)));
    }
    NamesApart(Count(t));
  }

  /** It faults on a device with four blocks left. */
  lemma AllocationStuck(t: nat)
    requires t >= 2 && First(t, 2 * t) < NAMES
    ensures AllocFaults(Trees(t), NewBlockNo(t), UsedCount(t), UsedCount(t) + 4)
  {
    hide Name, Numbered, SumTree, DataTree, First, Takes, StuckAfter, KeyOf;
    var v := NewBlockNo(t);
    FirstOrder(t, 2, 2 * t);
    FirstNext(t, 0);
    FirstNext(t, 1);
    NewBlockIsNew(t);
    NamedKey(Count(t));
    NextIsStuck(t, SumBase(t));
    KeyInRange(v);
    DataTakesTwo(t, DataBase(t), KeyOf(v));
  }

  /** The first n blocks are taken. */
  method TakeFirst(space: Space, n: nat)
    requires space.Valid() && space.used == {} && n <= space.layout.nrBlocks
    modifies space
    ensures space.Valid() && forall b: nat :: b in space.used <==> b < n
    ensures space.usedBlocks == n
  {
    var i := 0;
    while i < n
      invariant 0 <= i <= n && space.Valid() && space.usedBlocks == i && forall b: nat :: b in space.used <==> b < i
    {
      var e := space.BlockMark(i, true);
      i := i + 1;
    }
  }

  /** A device of n + 4 blocks with the first n taken. */
  method FourLeft(n: nat) returns (space: Space)
    ensures fresh(space) && space.Valid() && space.usedBlocks == n && space.layout.nrBlocks == n + 4
    ensures forall b: nat :: b in space.used <==> b < n
  {
    space := new Space(Layout(65536, n + 4, 1, (n + 4) / 524288 + 1));
    space.BmClear();
    TakeFirst(space, n);
  }

  /** For every T: a device and an object on it of which the allocation of a block faults. */
  method AllocationFaults(t: nat) returns (fault: bool)
    requires t >= 2 && First(t, 2 * t) < NAMES
    ensures fault
  {
    hide First, Count, Trees, Inode, NewBlockNo, AllocFaults, UsedCount, Owns, SumBlockOf, Allocated, AllocTakes, Levels;
    var space := FourLeft(UsedCount(t));
    InodeOwns(t, space.used);
    NewBlockIsNew(t);
    AllocationStuck(t);
    var i, ok, ib;
    ghost var s;
    i, s, ok, ib, fault := BlockAllocFor(Inode(t), Trees(t), space, NewBlockNo(t), true, {0});
  }

  /** With the T of the source. */
  method AllocationFaultsAtSource() returns (fault: bool)
    ensures fault
  {
    fault := AllocationFaults(896);
  }
}
