/** struct nkfs_btree and its public operations. */
module BtreeClass {
  import opened Common
  import opened BtreeShape
  import opened Balloc
  import opened Btree
  import opened BtreeDelete
  import opened BtreeDeleteKey
  import opened BtreeErase
  import opened BtreeAsWritten
  import opened BtreePath

  /** nkfs_btree_insert_key below its lock: a full root is split first, which cannot be undone by a later -EEXIST. */
  /** What an insertion is answered, with so many blocks in use of nr: splitting a full root needs two at once. */
  ghost function InsertErr(T: Tree, k: int, replace: bool, used: int, nr: int): TreeErr {
    if T.root in T.store && |T.store[T.root].kvs| == 2 * T.t - 1 && used + 2 > nr then ENOMEM
    else if used + Takes(T, k) > nr then EIO
    else if k in T.m && !replace then EEXIST
    else Done
  }

  method TreeInsert(m: Mem, ghost T: Tree, space: Space, k: int, v: int, replace: bool)
    returns (m': Mem, ghost T': Tree, err: TreeErr)
    requires space.Valid() && Owning(m, space.used) && Quiet(m) && Spells(m, T) && BtreeShape.Valid(T)
    requires 0 <= k < KEY_LIMIT
    modifies space
    ensures space.Valid() && Owning(m', space.used) && OnlyGrew(m.store.Keys, old(space.used), m'.store.Keys, space.used)
    ensures Quiet(m') && Spells(m', T') && BtreeShape.Valid(T') && m'.t == m.t && m'.root == m.root
    ensures T'.m == if err == Done then T.m[k := v] else T.m
    ensures err == InsertErr(T, k, replace, old(space.usedBlocks), space.layout.nrBlocks)
    ensures OutOfBlocks(err) || err == if k in T.m && !replace then EEXIST else Done
    ensures OutOfBlocks(err) <==> old(space.usedBlocks) + Takes(T, k) > space.layout.nrBlocks
    ensures !OutOfBlocks(err) ==> space.usedBlocks == old(space.usedBlocks) + Takes(T, k)
    ensures err == Done && k !in T.m ==> T' == Inserted(T, k, v, old(space.used))
    ensures err == Done && k !in T.m ==> Settled(T', k) && (Clean(T', k) <==> !StuckAfter(T, k))
    ensures OutOfBlocks(err) ==> old(space.usedBlocks) + Height(T) + 2 > space.layout.nrBlocks
    ensures OutOfBlocks(err) ==> space.usedBlocks + 2 > space.layout.nrBlocks
    ensures old(space.usedBlocks) <= space.usedBlocks <= old(space.usedBlocks) + Height(T) + 2
    ensures Height(T) <= Height(T') <= Height(T) + 1
  {
    hide SplitsLeft, WornLeft, Descent, Clean, Takes, StuckAfter, WornFrom, Profile, Taller, CanGrow;
    m', T' := m, T;
    TakesAtMost(T, k);
    space.Counted();
    if |m.store[m.root].kvs| == 2 * m.t - 1 {
      var ok;
      m', T', ok := GrowRoot(m, T, space);
      if !ok {
        TakesTwo(T, k);
        return m', T', ENOMEM;
      }
      LeftTaller(T, old(space.used), k);
    } else {
      assert BlockOk(T, T.root);
      LeftStart(T, k);
    }
    ghost var before, used := m'.store.Keys, space.used;
    m', T', err := InsertNonfull(m', T', space, k, v, replace);
    GrewTwice(m.store.Keys, old(space.used), before, used, m'.store.Keys, space.used);
    if err == Done && k !in T.m {
      NewKeyWorn(T', k);
    }
  }

  class BTree {
    const space: Space
    var mem: Mem
    var releasing: bool
    /** The tree that the blocks spell, and through it the map it stands for. */
    ghost var tree: Tree

    ghost predicate Valid()
      reads this, space
    {
      && space.Valid() && Owning(mem, space.used)
      && Spells(mem, tree) && BtreeShape.Valid(tree) && Quiet(mem)
    }

    ghost function Contents(): map<int, int>
      reads this
    {
      tree.m
    }

    ghost function Blocks(): set<nat>
      reads this
    {
      mem.store.Keys
    }

    /** A tree without keys. */
    constructor (space: Space, m: Mem, ghost T: Tree)
      requires space.Valid() && Owning(m, space.used) && Spells(m, T) && BtreeShape.Valid(T) && Quiet(m)
      ensures Valid() && this.space == space && mem == m && tree == T && !releasing
    {
      this.space, mem, releasing := space, m, false;
      tree := T;
    }

    /** nkfs_btree_create for a new tree; null when no block is free. */
    static method Create(t: nat, space: Space) returns (r: BTree?)
      requires t >= 2 && space.Valid() && 0 in space.used
      modifies space
      ensures space.Valid() && (r == null <==> old(space.usedBlocks) == space.layout.nrBlocks)
      ensures r == null ==> space.used == old(space.used)
      ensures r != null ==> fresh(r) && r.Valid() && r.space == space && !r.releasing && r.mem.t == t
      ensures r != null ==> r.Contents() == map[] && r.Blocks() !! old(space.used)
      ensures r != null ==> space.used == old(space.used) + r.Blocks()
    {
      space.Counted();
      var ok, m;
      ghost var T;
      ok, m, T := NewTree(t, space);
      if !ok {
        return null;
      }
      r := new BTree(space, m, T);
    }

    method FindKey(k: int) returns (err: TreeErr, v: int)
      requires Valid() && 0 <= k < KEY_LIMIT
      modifies this
      ensures Valid() && tree == old(tree) && mem.root == old(mem.root) && releasing == old(releasing)
      ensures err == if releasing then EAGAIN else if k in Contents() then Done else ENOENT
      ensures err == Done ==> v == Contents()[k]
    {
      if releasing {
        return EAGAIN, 0;
      }
      var m;
      m, err, v := NodeFindKey(mem, tree, k);
      mem := m;
    }

    method InsertKey(k: int, v: int, replace: bool) returns (err: TreeErr)
      requires Valid() && 0 <= k < KEY_LIMIT
      modifies this, space
      ensures Valid() && mem.root == old(mem.root) && mem.t == old(mem.t) && releasing == old(releasing)
      ensures OnlyGrew(old(Blocks()), old(space.used), Blocks(), space.used)
      ensures Contents() == if err == Done then old(Contents())[k := v] else old(Contents())
      ensures err == if releasing then EAGAIN else old(InsertErr(tree, k, replace, space.usedBlocks, space.layout.nrBlocks))
      ensures !releasing ==> OutOfBlocks(err) || err == if k in old(Contents()) && !replace then EEXIST else Done
      ensures !releasing ==> (OutOfBlocks(err) <==> old(space.usedBlocks + Takes(tree, k)) > space.layout.nrBlocks)
      ensures OutOfBlocks(err) ==> old(space.usedBlocks + Height(tree)) + 2 > space.layout.nrBlocks
      ensures OutOfBlocks(err) ==> space.usedBlocks + 2 > space.layout.nrBlocks
    {
      hide Takes, Clean, StuckAfter, Settled, Inserted;
      if releasing {
        return EAGAIN;
      }
      var m;
      ghost var T;
      m, T, err := TreeInsert(mem, tree, space, k, v, replace);
      mem, tree := m, T;
    }

    /** Deletion as it is written or as it is meant. As written it faults if and only if a block below the root that it goes
        through has no key to spare. */
    method DeleteKey(k: int, asWritten: bool) returns (err: TreeErr, fault: bool)
      requires Valid() && 0 <= k < KEY_LIMIT
      modifies this, space
      ensures fault <==> asWritten && !old(releasing) && !old(Clean(tree, k))
      ensures !fault ==> Valid() && mem.root == old(mem.root) && mem.t == old(mem.t) && releasing == old(releasing)
      ensures !fault ==> OnlyShrank(old(Blocks()), old(space.used), Blocks(), space.used)
      ensures !fault ==> err == if releasing then EAGAIN else if k in old(Contents()) then Done else ENOENT
      ensures !fault ==> Contents() == if releasing then old(Contents()) else old(Contents()) - {k}
    {
      hide Clean;
      fault := false;
      if releasing {
        err := EAGAIN;
        return;
      }
      var m;
      ghost var T;
      if asWritten {
        var r;
        m, T, r := DeleteAsWritten(mem, tree, k);
        fault, err := r == Fault, if r.Answer? then r.err else Done;
      } else {
        m, T, err := NodeDeleteKey(mem, tree, space, k);
      }
      mem, tree := m, T;
    }

    /** Gives back every block; `log` are the callbacks, one for each pair of the map. */
    method Erase() returns (log: seq<KV>)
      requires Valid()
      modifies this, space
      ensures space.Valid() && releasing && Blocks() == {} && space.used == old(space.used) - old(Blocks())
      ensures forall kv :: kv in log <==> kv.k in old(Contents()) && old(Contents())[kv.k] == kv.v
      ensures forall i, j :: 0 <= i < j < |log| ==> log[i].k != log[j].k
      ensures RefsOk(mem) && mem.held == multiset{mem.root}
    {
      releasing := true;
      var m;
      m, log := EraseTree(mem, tree, space);
      mem := m;
      assert Blocks() == {};
    }

    /** Dropping the last reference leaves no cached node behind. */
    method Release()
      requires RefsOk(mem) && mem.held == multiset{mem.root}
      modifies this
      ensures mem.active == 0 && mem.held == multiset{}
    {
      releasing := true;
      var m := NodeDeref(mem, mem.root);
      mem := m;
      assert Cached(mem.held, mem.dead) == {};
    }
  }

  // ---------------------------------------------------------------- runs

  datatype Op = Insert(k: int, v: int, replace: bool) | Delete(k: int)

  /** What an operation does to the map. */
  function Apply(m: map<int, int>, op: Op): map<int, int> {
    match op
    case Insert(k, v, replace) => if k in m && !replace then m else m[k := v]
    case Delete(k) => m - {k}
  }

  function Replay(m: map<int, int>, ops: seq<Op>): map<int, int> {
    if ops == [] then m else Apply(Replay(m, ops[..|ops| - 1]), ops[|ops| - 1])
  }

  /** Keys in order are all different. */
  lemma {:induction false} CountKeys(s: seq<KV>) returns (K: set<int>)
    requires Sorted(s)
    ensures |K| == |s| && forall k :: k in K <==> HasKey(s, k)
  {
    if s == [] {
      K := {};
    } else {
      var n := |s| - 1;
      K := CountKeys(s[..n]);
      assert forall k :: HasKey(s, k) <==> HasKey(s[..n], k) || k == s[n].k;
      K := K + {s[n].k};
    }
  }

  /** The keys of the blocks S, at least T-1 for each. */
  lemma {:induction false} HeldKeys(T: Tree, S: set<nat>) returns (K: set<int>)
    requires Inv(T) && S <= T.store.Keys - {T.root}
    ensures |K| >= |S| * (T.t - 1) && K <= T.m.Keys && forall k :: k in K ==> exists b :: b in S && HeldBy(T, b, k)
  {
    hide BlockOk, Covered;
    if S == {} {
      K := {};
    } else {
      var b :| b in S;
      K := HeldKeys(T, S - {b});
      var L := KeysOf(T, b);
      forall k | k in L
        ensures k !in K
      {
        if k in K {
          var c :| c in S - {b} && HeldBy(T, c, k);
          OneHolder(T, b, c, k);
        }
      }
      assert |S| == |S - {b}| + 1 && |K + L| == |K| + |L|;
      assert |S| * (T.t - 1) == |S - {b}| * (T.t - 1) + (T.t - 1);
      K := K + L;
    }
  }

  lemma KeysOf(T: Tree, b: nat) returns (K: set<int>)
    requires Inv(T) && b in T.store.Keys - {T.root}
    ensures |K| >= T.t - 1 && K <= T.m.Keys && forall k :: k in K ==> HeldBy(T, b, k)
  {
    assert BlockOk(T, b);
    K := CountKeys(T.store[b].kvs);
    forall k | k in K
      ensures k in T.m.Keys
    {
    }
  }

  /** A tree has no more blocks than its keys fill. */
  lemma BlocksBound(T: Tree)
    requires Inv(T)
    ensures (|T.store| - 1) * (T.t - 1) <= |T.m|
  {
    var K := HeldKeys(T, T.store.Keys - {T.root});
    SubsetSize(K, T.m.Keys);
    assert |T.store.Keys - {T.root}| == |T.store| - 1;
  }

  lemma FirstChildren(T: Tree) returns (c: nat, d: nat, k: int)
    requires Valid(T) && !T.store[T.root].leaf
    ensures {c, d} <= T.store.Keys - {T.root} && c != d && HeldBy(T, T.root, k) && k in T.m
  {
    var n := T.store[T.root];
    assert BlockOk(T, T.root) && KidOk(T, n, T.info[T.root], 0) && KidOk(T, n, T.info[T.root], 1);
    c, d, k := n.kids[0], n.kids[1], n.kvs[0].k;
    assert BlockOk(T, c) && BlockOk(T, d);
  }

  /** The first two children of an inner root: with its own first key they hold 2T-1 keys. */
  lemma TwoChildren(T: Tree)
    requires Valid(T) && !T.store[T.root].leaf
    ensures |T.m| >= 2 * T.t - 1
  {
    hide BlockOk, Covered;
    var c, d, k := FirstChildren(T);
    var K := HeldKeys(T, {c, d});
    if k in K {
      var b :| b in {c, d} && HeldBy(T, b, k);
      OneHolder(T, T.root, b, k);
    }
    assert |{c, d}| == 2;
    SubsetSize(K + {k}, T.m.Keys);
  }

  /** With fewer than 2T-1 keys a tree is a root only, which has room for one more. */
  lemma FewKeys(T: Tree, k: int)
    requires Valid(T) && |T.m| < 2 * T.t - 1 && 0 <= k < KEY_LIMIT
    ensures Height(T) == 0 && Takes(T, k) == 0
  {
    assert BlockOk(T, T.root);
    if !T.store[T.root].leaf {
      TwoChildren(T);
    }
    var K := CountKeys(T.store[T.root].kvs);
    forall x | x in K
      ensures x in T.m
    {
    }
    SubsetSize(K, T.m.Keys);
    RootOnPath(T, k);
    ProfileAt(T, T.root, k);
  }

  /** A tree and the blocks in use, between two operations. */
  datatype Moment = Moment(tree: Tree, used: set<nat>)

  /** As written, the operation faults. */
  ghost predicate Faults(m: Moment, op: Op) {
    op.Delete? && !Clean(m.tree, op.k)
  }

  /** The operation runs out of blocks. */
  ghost predicate Refused(m: Moment, op: Op, nr: nat) {
    op.Insert? && |m.used| + Takes(m.tree, op.k) > nr
  }

  /** One operation is that of a map, unless it is an insertion that runs out of blocks, or a deletion that faults; which they
      do exactly as the tree and the blocks in use before it say. */
  method Perform(tree: BTree, op: Op, asWritten: bool) returns (ok: bool, fault: bool)
    requires tree.Valid() && !tree.releasing && 0 <= op.k < KEY_LIMIT
    modifies tree, tree.space
    ensures fault <==> asWritten && old(Faults(Moment(tree.tree, tree.space.used), op))
    ensures !fault ==> (!ok <==> Refused(old(Moment(tree.tree, tree.space.used)), op, tree.space.layout.nrBlocks))
    ensures !fault ==> tree.Valid() && !tree.releasing && tree.mem.root == old(tree.mem.root) && tree.mem.t == old(tree.mem.t)
    ensures !fault ==> tree.Contents() == if ok then Apply(old(tree.Contents()), op) else old(tree.Contents())
    ensures !ok && !fault ==> op.Insert? && tree.space.usedBlocks + 2 > tree.space.layout.nrBlocks
    ensures !ok && !fault ==> old(tree.space.usedBlocks + Height(tree.tree)) + 2 > tree.space.layout.nrBlocks
    ensures !fault ==> tree.space.used - tree.Blocks() == old(tree.space.used - tree.Blocks())
  {
    hide Clean, Takes;
    var err;
    fault := false;
    match op {
      case Insert(k, v, replace) =>
        err := tree.InsertKey(k, v, replace);
      case Delete(k) =>
        err, fault := tree.DeleteKey(k, asWritten);
    }
    ok := !OutOfBlocks(err);
  }

  /** From one moment to the next by an operation that is not refused and, as written, does not fault. */
  ghost predicate Went(m: Moment, op: Op, m': Moment, asWritten: bool, nr: nat) {
    && BtreeShape.Valid(m'.tree) && m'.tree.m == Apply(m.tree.m, op) && !Refused(m, op, nr) && (asWritten ==> !Faults(m, op))
  }

  ghost predicate Trace(ms: seq<Moment>, ops: seq<Op>, asWritten: bool, nr: nat) {
    |ms| == |ops| + 1 && forall j :: 0 <= j < |ops| ==> WentAt(ms, ops, j, asWritten, nr)
  }

  ghost predicate WentAt(ms: seq<Moment>, ops: seq<Op>, j: nat, asWritten: bool, nr: nat)
    requires j < |ops| && |ms| == |ops| + 1
  {
    Went(ms[j], ops[j], ms[j + 1], asWritten, nr)
  }

  lemma TraceNext(ms: seq<Moment>, ops: seq<Op>, n: nat, m: Moment, asWritten: bool, nr: nat)
    requires n < |ops| && Trace(ms, ops[..n], asWritten, nr) && Went(ms[n], ops[n], m, asWritten, nr)
    ensures Trace(ms + [m], ops[..n + 1], asWritten, nr)
  {
    hide Went;
    var ms', ops' := ms + [m], ops[..n + 1];
    forall j | 0 <= j < |ops'|
      ensures WentAt(ms', ops', j, asWritten, nr)
    {
      if j < n {
        assert WentAt(ms, ops[..n], j, asWritten, nr);
      }
    }
  }

  /** Any run of inserts and deletes: the operations are those of a map, up to the first insertion that runs out of blocks,
      or, as written, the first deletion that faults; the trees between the operations decide which. There is no such
      insertion if the blocks of others and those that so many keys can fill leave room. What others own never changes, and
      the root stays where it was. */
  method Run(tree: BTree, ops: seq<Op>, asWritten: bool) returns (done: nat, fault: bool, ghost ms: seq<Moment>)
    requires tree.Valid() && !tree.releasing
    requires forall i :: 0 <= i < |ops| ==> 0 <= ops[i].k < KEY_LIMIT
    modifies tree, tree.space
    ensures done <= |ops| && Trace(ms, ops[..done], asWritten, tree.space.layout.nrBlocks)
    ensures ms[0] == old(Moment(tree.tree, tree.space.used)) && (done == |ops| ==> ms[done] == Moment(tree.tree, tree.space.used))
    ensures BtreeShape.Valid(ms[done].tree) && ms[done].tree.m == Replay(old(tree.Contents()), ops[..done])
    ensures fault <==> asWritten && done < |ops| && Faults(ms[done], ops[done])
    ensures !fault && done < |ops| <==> done < |ops| && Refused(ms[done], ops[done], tree.space.layout.nrBlocks)
    ensures !fault ==> tree.Valid() && tree.mem.root == old(tree.mem.root)
    ensures !fault ==> tree.Contents() == Replay(old(tree.Contents()), ops[..done])
    ensures done < |ops| && !fault ==> ops[done].Insert? && tree.space.usedBlocks + 2 > tree.space.layout.nrBlocks
    ensures !fault ==> tree.space.used - tree.Blocks() == old(tree.space.used - tree.Blocks())
    ensures RoomFor(old(tree.space.used - tree.Blocks()), |old(tree.Contents())| + |ops|, old(tree.mem.t), tree.space.layout.nrBlocks)
      ==> done == |ops| || fault
  {
    hide Height, RoomFor, BtreeShape.Inv, Quiet, Clean, Takes, Replay, Apply, Spells, Owning;
    done, fault, ms := 0, false, [Moment(tree.tree, tree.space.used)];
    ghost var nr := tree.space.layout.nrBlocks;
    ReplayNone(tree.Contents(), ops);
    while done < |ops|
      invariant done <= |ops| && tree.Valid() && !tree.releasing && tree.mem.root == old(tree.mem.root) && !fault
      invariant Trace(ms, ops[..done], asWritten, nr) && ms[done] == Moment(tree.tree, tree.space.used)
      invariant ms[0] == old(Moment(tree.tree, tree.space.used))
      invariant tree.Contents() == Replay(old(tree.Contents()), ops[..done]) && tree.mem.t == old(tree.mem.t)
      invariant tree.space.used - tree.Blocks() == old(tree.space.used - tree.Blocks())
    {
      ReplayNext(old(tree.Contents()), ops, done);
      var ok;
      ok, fault := Perform(tree, ops[done], asWritten);
      if fault {
        return;
      }
      if !ok {
        RoomLeft(tree, ops[..done], old(tree.Contents()), |ops|);
        return;
      }
      ghost var now := Moment(tree.tree, tree.space.used);
      TraceNext(ms, ops, done, now, asWritten, nr);
      ms := ms + [now];
      done := done + 1;
    }
    assert ops[..done] == ops;
  }

  lemma ReplayNone(m: map<int, int>, ops: seq<Op>)
    ensures Replay(m, ops[..0]) == m
  {
  }

  lemma ReplayNext(m: map<int, int>, ops: seq<Op>, n: nat)
    requires n < |ops|
    ensures Replay(m, ops[..n + 1]) == Apply(Replay(m, ops[..n]), ops[n])
  {
    assert ops[..n + 1][..n] == ops[..n];
  }

  /** So many keys, and the blocks of others, leave two blocks free. */
  ghost predicate RoomFor(others: set<nat>, keys: nat, t: nat, nrBlocks: nat) {
    t >= 2 && |others| + MostBlocks(keys, t) + 2 <= nrBlocks
  }

  /** The most blocks that a tree with so many keys can have. */
  function MostBlocks(keys: nat, t: nat): nat
    requires t >= 2
  {
    1 + keys / (t - 1)
  }

  lemma TreeBlocks(T: Tree, n: nat)
    requires Inv(T) && |T.m| <= n
    ensures T.t >= 2 && |T.store.Keys| <= MostBlocks(n, T.t)
  {
    BlocksBound(T);
    Quotient(T.t - 1, |T.store| - 1, |T.m|, n);
  }

  lemma CountParts(used: set<nat>, B: set<nat>)
    requires B <= used
    ensures |used| == |used - B| + |B|
  {
    assert used == (used - B) + B;
  }

  /** After so many operations there is still room. */
  lemma RoomLeft(tree: BTree, ops: seq<Op>, m: map<int, int>, n: nat)
    requires tree.Valid() && tree.Contents() == Replay(m, ops) && |ops| <= n
    ensures RoomFor(tree.space.used - tree.Blocks(), |m| + n, tree.mem.t, tree.space.layout.nrBlocks) ==>
      tree.space.usedBlocks + 2 <= tree.space.layout.nrBlocks
  {
    hide BtreeShape.Inv, Replay, Quiet, MostBlocks;
    ReplayCount(m, ops);
    TreeBlocks(tree.tree, |m| + |ops|);
    MoreBlocks(|m| + |ops|, |m| + n, tree.mem.t);
    CountParts(tree.space.used, tree.Blocks());
  }

  lemma MoreBlocks(n: nat, m: nat, t: nat)
    requires t >= 2 && n <= m
    ensures MostBlocks(n, t) <= MostBlocks(m, t)
  {
    Quotient(t - 1, n / (t - 1), n, m);
  }

  lemma Quotient(a: nat, b: int, c: nat, d: nat)
    requires a >= 1 && b * a <= c <= d
    ensures b <= d / a
  {
    assert d == d / a * a + d % a;
    assert (d / a + 1) * a == d / a * a + a;
    MulOrder(b, d / a + 1, a);
  }

  lemma MulOrder(x: int, y: int, a: nat)
    requires a >= 1 && x * a < y * a
    ensures x < y
  {
  }

  lemma {:induction false} ReplayCount(m: map<int, int>, ops: seq<Op>)
    ensures |Replay(m, ops)| <= |m| + |ops|
  {
    if ops != [] {
      var n := |ops| - 1;
      ReplayCount(m, ops[..n]);
      var before, after := Replay(m, ops[..n]), Replay(m, ops);
      SubsetSize(after.Keys, before.Keys + {ops[n].k});
      assert |before.Keys + {ops[n].k}| <= |before| + 1;
    }
  }
}
