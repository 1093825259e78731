/** What an insertion will do, told from the tree before it: the blocks on the path of a key, the blocks it takes from the
    device, the tree it leaves, and whether the new key could be taken out again without borrowing or merging. */
module BtreePath {
  import opened BtreeShape
  import opened BtreeSteps
  import opened BtreeEdits

  // ---------------------------------------------------------------- key counts along a path, the leaf first

  /** The full ones among the first n. */
  function Splits(t: nat, p: seq<nat>, n: nat): nat
    requires n <= |p|
  {
    if n == 0 then 0 else Splits(t, p, n - 1) + if p[n - 1] == 2 * t - 1 then 1 else 0
  }

  lemma {:induction false} SplitsAtMost(t: nat, p: seq<nat>, n: nat)
    requires n <= |p|
    ensures Splits(t, p, n) <= n
  {
    if n > 0 {
      SplitsAtMost(t, p, n - 1);
    }
  }

  lemma {:induction false} SplitsSame(t: nat, p: seq<nat>, q: seq<nat>, n: nat)
    requires n <= |p| && n <= |q| && p[..n] == q[..n]
    ensures Splits(t, p, n) == Splits(t, q, n)
  {
    if n > 0 {
      assert p[..n - 1] == p[..n][..n - 1] && q[..n - 1] == q[..n][..n - 1] && p[n - 1] == p[..n][n - 1];
      SplitsSame(t, p, q, n - 1);
    }
  }

  lemma {:induction false} SplitsNone(t: nat, p: seq<nat>, n: nat)
    requires t >= 2 && n <= |p| && forall j :: 0 <= j < n ==> p[j] == 0
    ensures Splits(t, p, n) == 0
  {
    if n > 0 {
      SplitsNone(t, p, n - 1);
    }
  }

  /** The blocks that an insertion takes: two if the root is full, and one for each full block below it. */
  function TakesOn(t: nat, p: seq<nat>): nat
    requires p != []
  {
    Splits(t, p, |p| - 1) + if p[|p| - 1] == 2 * t - 1 then 2 else 0
  }

  /** The inner block on level h is left with T-1 keys: it has so many, or is split, and gets none from below. */
  predicate Squeezed(t: nat, p: seq<nat>, h: nat) {
    1 <= h < |p| && p[h - 1] != 2 * t - 1 && (p[h] == 2 * t - 1 || (p[h] == t - 1 && h < |p| - 1))
  }

  /** The same while the insertion stands on level n: above it all is done. */
  predicate Worn(t: nat, p: seq<nat>, n: nat, h: nat) {
    if h < n then Squeezed(t, p, h)
    else 1 <= h < |p| - 1 && p[h] < t && (h == n ==> p[h - 1] != 2 * t - 1)
  }

  ghost predicate WornFrom(t: nat, p: seq<nat>, n: nat) {
    exists h :: Worn(t, p, n, h)
  }

  ghost predicate SqueezedIn(t: nat, p: seq<nat>) {
    exists h :: Squeezed(t, p, h)
  }

  lemma WornStart(t: nat, p: seq<nat>)
    requires p != [] && p[|p| - 1] != 2 * t - 1
    ensures WornFrom(t, p, |p| - 1) <==> SqueezedIn(t, p)
  {
    forall h
      ensures Squeezed(t, p, h) <==> Worn(t, p, |p| - 1, h)
    {
    }
  }

  /** A full block on level n - 1 is split. */
  lemma WornSplit(t: nat, p: seq<nat>, n: nat)
    requires t >= 2 && 0 < n < |p| && p[n - 1] == 2 * t - 1 && (n < |p| - 1 ==> p[n] >= t - 1)
    ensures WornFrom(t, p[n := p[n] + 1][n - 1 := t - 1], n) <==> WornFrom(t, p, n)
  {
    var q := p[n := p[n] + 1][n - 1 := t - 1];
    forall h
      ensures Worn(t, p, n, h) <==> Worn(t, q, n, h)
    {
    }
  }

  /** The insertion goes down to a block that is not full. */
  lemma WornDown(t: nat, p: seq<nat>, n: nat)
    requires t >= 2 && 0 < n < |p| && t - 1 <= p[n - 1] < 2 * t - 1
    ensures WornFrom(t, p, n - 1) <==> WornFrom(t, p, n)
  {
    var m := n - 1;
    forall h
      ensures Worn(t, p, n, h) <==> Worn(t, p, m, h)
    {
    }
  }

  /** A full root is split, below a new root with one key. */
  lemma SqueezedGrow(t: nat, p: seq<nat>)
    requires t >= 2 && p != [] && p[|p| - 1] == 2 * t - 1
    ensures SqueezedIn(t, p[|p| - 1 := t - 1] + [1]) <==> SqueezedIn(t, p)
  {
    var q := p[|p| - 1 := t - 1] + [1];
    forall h
      ensures Squeezed(t, p, h) <==> Squeezed(t, q, h)
    {
    }
  }

  // ---------------------------------------------------------------- the path of a key

  /** Block b is on the search path of k: its interval has k inside. */
  ghost predicate OnPath(T: Tree, b: nat, k: int) {
    b in T.store && b in T.info && T.info[b].lo < k < T.info[b].hi
  }

  ghost predicate OnLevel(T: Tree, b: nat, k: int, h: nat) {
    OnPath(T, b, k) && T.info[b].height == h
  }

  /** The keys of the block on the path of k on level h, none if there is no such block. */
  ghost function KeysAt(T: Tree, k: int, h: nat): nat {
    if exists b :: OnLevel(T, b, k, h) then var b :| OnLevel(T, b, k, h); |T.store[b].kvs| else 0
  }

  lemma KeysAtIs(T: Tree, b: nat, k: int)
    requires Inv(T) && OnPath(T, b, k)
    ensures KeysAt(T, k, T.info[b].height) == |T.store[b].kvs|
  {
    assert OnLevel(T, b, k, T.info[b].height);
    forall c | OnLevel(T, c, k, T.info[b].height)
      ensures c == b
    {
      if c != b {
        LevelDisjoint(T, b, c);
      }
    }
  }

  ghost function Profile(T: Tree, k: int): (p: seq<nat>)
    ensures |p| == Height(T) + 1
  {
    seq(Height(T) + 1, h requires 0 <= h <= Height(T) => KeysAt(T, k, h))
  }

  lemma ProfileAt(T: Tree, b: nat, k: int)
    requires Inv(T) && OnPath(T, b, k)
    ensures T.info[b].height <= Height(T) && Profile(T, k)[T.info[b].height] == |T.store[b].kvs|
  {
    RootHighest(T, b);
    KeysAtIs(T, b, k);
  }

  lemma RootOnPath(T: Tree, k: int)
    requires Inv(T) && 0 <= k < KEY_LIMIT
    ensures OnPath(T, T.root, k) && Height(T) == T.info[T.root].height
  {
    assert BlockOk(T, T.root);
  }

  /** Two trees with the same blocks on this level of the path. */
  lemma SameKeysAt(T: Tree, S: Tree, k: int, h: nat)
    requires Inv(T) && Inv(S)
    requires forall b :: OnLevel(T, b, k, h) ==> OnLevel(S, b, k, h) && |S.store[b].kvs| == |T.store[b].kvs|
    requires forall b :: OnLevel(S, b, k, h) ==> OnLevel(T, b, k, h)
    ensures KeysAt(S, k, h) == KeysAt(T, k, h)
  {
    if b :| OnLevel(T, b, k, h) {
      KeysAtIs(T, b, k);
      KeysAtIs(S, b, k);
    }
  }

  /** Below the block that holds k nothing is on its path. */
  lemma NothingBelow(T: Tree, b: nat, i: nat)
    requires Inv(T) && b in T.store && i < |T.store[b].kvs| && OnPath(T, b, T.store[b].kvs[i].k)
    ensures T.info[b].height <= Height(T)
    ensures forall h :: 0 <= h < T.info[b].height ==> Profile(T, T.store[b].kvs[i].k)[h] == 0
  {
    var k := T.store[b].kvs[i].k;
    RootHighest(T, b);
    forall c, h: nat | OnLevel(T, c, k, h) && h < T.info[b].height
      ensures false
    {
      NoKeyBelow(T, b, c, i);
    }
  }

  // ---------------------------------------------------------------- what the steps do to it

  lemma SplitHalves(T: Tree, p: nat, i: nat, new': nat, k: int)
    requires Inv(T) && CanSplit(T, p, i, new') && OnPath(T, p, k) && InGap(T.store[p], i, k)
    requires Inv(Split(T, p, i, new'))
    ensures T.info[p].height > 0 && OnPath(T, T.store[p].kids[i], k)
    ensures T.info[T.store[p].kids[i]].height == T.info[p].height - 1
    ensures KeysAt(Split(T, p, i, new'), k, T.info[p].height - 1) ==
      if k == T.store[T.store[p].kids[i]].kvs[T.t - 1].k then 0 else T.t - 1
  {
    var S, c, h := Split(T, p, i, new'), T.store[p].kids[i], T.info[p].height;
    Descend(T, p, i, k);
    var mid := T.store[c].kvs[T.t - 1].k;
    if k < mid {
      KeysAtIs(S, c, k);
    } else if k > mid {
      KeysAtIs(S, new', k);
    } else {
      var g := h - 1;
      forall b | OnLevel(S, b, k, g)
        ensures false
      {
        if b != c && b != new' {
          assert b in T.store && b in T.info && T.info[b] == S.info[b];
          LevelDisjoint(T, b, c);
        }
      }
    }
  }

  lemma SplitLevel(T: Tree, p: nat, i: nat, new': nat, k: int, h: nat)
    requires Inv(T) && CanSplit(T, p, i, new') && OnPath(T, p, k) && InGap(T.store[p], i, k)
    requires Inv(Split(T, p, i, new')) && h != T.info[p].height && h + 1 != T.info[p].height
    ensures KeysAt(Split(T, p, i, new'), k, h) == KeysAt(T, k, h)
  {
    var S := Split(T, p, i, new');
    Descend(T, p, i, k);
    forall b | OnLevel(T, b, k, h)
      ensures OnLevel(S, b, k, h) && S.store[b] == T.store[b]
    {
    }
    forall b | OnLevel(S, b, k, h)
      ensures OnLevel(T, b, k, h)
    {
    }
    SameKeysAt(T, S, k, h);
  }

  /** Splitting child i of p, where k goes. */
  lemma SplitProfile(T: Tree, p: nat, i: nat, new': nat, k: int)
    requires Inv(T) && CanSplit(T, p, i, new') && OnPath(T, p, k) && InGap(T.store[p], i, k)
    ensures T.info[p].height > 0 && T.info[p].height <= Height(T)
    ensures var h, q, c := T.info[p].height, Profile(T, k), T.store[p].kids[i];
      && q[h - 1] == 2 * T.t - 1 && Height(Split(T, p, i, new')) == Height(T)
      && Profile(Split(T, p, i, new'), k) == q[h := q[h] + 1][h - 1 := if k == T.store[c].kvs[T.t - 1].k then 0 else T.t - 1]
  {
    hide Split;
    var S, h, q, c := Split(T, p, i, new'), T.info[p].height, Profile(T, k), T.store[p].kids[i];
    SplitKeeps(T, p, i, new');
    SplitHalves(T, p, i, new', k);
    ProfileAt(T, p, k);
    ProfileAt(T, c, k);
    SplitParentOnPath(T, p, i, new', k);
    ProfileAt(S, p, k);
    var r := q[h := q[h] + 1][h - 1 := if k == T.store[c].kvs[T.t - 1].k then 0 else T.t - 1];
    forall j | 0 <= j <= Height(T)
      ensures Profile(S, k)[j] == r[j]
    {
      if j != h && j + 1 != h {
        SplitLevel(T, p, i, new', k, j);
      }
    }
  }

  lemma SplitParentOnPath(T: Tree, p: nat, i: nat, new': nat, k: int)
    requires Inv(T) && CanSplit(T, p, i, new') && OnPath(T, p, k) && InGap(T.store[p], i, k)
    ensures var S := Split(T, p, i, new');
      && S.t == T.t && OnPath(S, p, k) && S.info[p] == T.info[p] && |S.store[p].kvs| == |T.store[p].kvs| + 1 && Height(S) == Height(T)
  {
    KidFacts(T, p, i);
    assert BlockOk(T, T.root);
  }

  lemma GrowLevel(T: Tree, clone: nat, k: int, h: nat)
    requires Inv(T) && Inv(Grow(T, clone)) && clone !in T.store && h < Height(T)
    ensures KeysAt(Grow(T, clone), k, h) == KeysAt(T, k, h)
  {
    var S := Grow(T, clone);
    RootHighest(T, T.root);
    SameKeysAt(T, S, k, h);
  }

  /** The contents of the root go one level down, below a root without keys. */
  lemma GrowProfile(T: Tree, clone: nat, k: int)
    requires Inv(T) && clone !in T.store && |T.store[T.root].kvs| >= T.t - 1 && 0 <= k < KEY_LIMIT
    ensures Height(Grow(T, clone)) == Height(T) + 1 && Profile(Grow(T, clone), k) == Profile(T, k) + [0]
  {
    var S := Grow(T, clone);
    GrowKeeps(T, clone);
    RootOnPath(T, k);
    RootOnPath(S, k);
    ProfileAt(T, T.root, k);
    ProfileAt(S, T.root, k);
    ProfileAt(S, clone, k);
    var p, q := Profile(T, k) + [0], Profile(S, k);
    forall h | 0 <= h < |p|
      ensures p[h] == q[h]
    {
      if h < Height(T) {
        GrowLevel(T, clone, k, h);
      }
    }
  }

  lemma RootSplitProfile(T: Tree, clone: nat, new': nat, k: int)
    requires Inv(T) && clone !in T.store && new' !in T.store && clone != new' && |T.store[T.root].kvs| == 2 * T.t - 1
    requires 0 <= k < KEY_LIMIT && CanSplit(Grow(T, clone), T.root, 0, new')
    ensures var H, q := Height(T), Profile(T, k);
      && q[H] == 2 * T.t - 1
      && Profile(Split(Grow(T, clone), T.root, 0, new'), k) == q[H := if k == T.store[T.root].kvs[T.t - 1].k then 0 else T.t - 1] + [1]
  {
    var G := Grow(T, clone);
    GrowKeeps(T, clone);
    GrowProfile(T, clone, k);
    RootOnPath(T, k);
    RootOnPath(G, k);
    ProfileAt(T, T.root, k);
    SplitProfile(G, T.root, 0, new', k);
  }

  /** A key put in the leaf on its path. */
  lemma LeafProfile(T: Tree, b: nat, i: nat, kv: KV, j: nat)
    requires Inv(T) && OnPath(T, b, kv.k) && i <= |T.store[b].kvs| && 0 < j <= Height(T) && T.info[b].height == 0
    requires Inv(T.(store := T.store[b := WithKey(T.store[b], i, kv)], m := T.m[kv.k := kv.v]))
    ensures Profile(T.(store := T.store[b := WithKey(T.store[b], i, kv)], m := T.m[kv.k := kv.v]), kv.k)[j] == Profile(T, kv.k)[j]
  {
    var S := T.(store := T.store[b := WithKey(T.store[b], i, kv)], m := T.m[kv.k := kv.v]);
    SameKeysAt(T, S, kv.k, j);
  }

  /** Down to the leaf that holds k there is a block on every level. */
  lemma {:induction false} EveryLevel(T: Tree, k: int, l: nat, h: nat) returns (b: nat)
    requires Inv(T) && 0 <= k < KEY_LIMIT && HeldBy(T, l, k) && T.store[l].leaf && h <= Height(T)
    ensures OnLevel(T, b, k, h)
    decreases Height(T) - h
  {
    RootOnPath(T, k);
    if h == Height(T) {
      b := T.root;
    } else {
      var a := EveryLevel(T, k, l, h + 1);
      assert BlockOk(T, a) && BlockOk(T, l);
      if HasKey(T.store[a].kvs, k) {
        assert HeldBy(T, a, k);
        OneHolder(T, a, l, k);
      }
      var i := GapFor(T.store[a], k);
      Descend(T, a, i, k);
      b := T.store[a].kids[i];
    }
  }

  lemma GapFor(n: Node, k: int) returns (i: nat)
    requires Sorted(n.kvs) && !HasKey(n.kvs, k)
    ensures InGap(n, i, k)
  {
    i := 0;
    while i < |n.kvs| && n.kvs[i].k < k
      invariant i <= |n.kvs| && (i > 0 ==> n.kvs[i - 1].k < k)
    {
      i := i + 1;
    }
  }

  // ---------------------------------------------------------------- an insertion under way

  /** How many blocks an insertion of k that has come to `node` will still split. */
  ghost function SplitsLeft(T: Tree, node: nat, k: int): nat {
    if node in T.info && T.info[node].height <= Height(T) then Splits(T.t, Profile(T, k), T.info[node].height) else 0
  }

  /** Whether it will leave an inner block with T-1 keys on the path. */
  ghost predicate WornLeft(T: Tree, node: nat, k: int) {
    node in T.info && WornFrom(T.t, Profile(T, k), T.info[node].height)
  }

  lemma LeftSplit(T: Tree, p: nat, i: nat, new': nat, k: int)
    requires Valid(T) && CanSplit(T, p, i, new') && OnPath(T, p, k) && InGap(T.store[p], i, k)
    ensures SplitsLeft(Split(T, p, i, new'), p, k) + 1 == SplitsLeft(T, p, k)
    ensures k !in T.m ==> (WornLeft(Split(T, p, i, new'), p, k) <==> WornLeft(T, p, k))
  {
    hide Split;
    var S, h, q, c := Split(T, p, i, new'), T.info[p].height, Profile(T, k), T.store[p].kids[i];
    SplitProfile(T, p, i, new', k);
    SplitParentOnPath(T, p, i, new', k);
    SplitsSame(T.t, q, Profile(S, k), h - 1);
    ProfileAt(T, p, k);
    RootHighest(T, p);
    if k !in T.m {
      assert BlockOk(T, c) && BlockOk(T, p);
      WornSplit(T.t, q, h);
    }
  }

  lemma LeftDown(T: Tree, p: nat, i: nat, k: int)
    requires Valid(T) && OnPath(T, p, k) && !T.store[p].leaf && InGap(T.store[p], i, k)
    requires i < |T.store[p].kids| && !FullAt(T, T.store[p].kids[i])
    ensures SplitsLeft(T, T.store[p].kids[i], k) == SplitsLeft(T, p, k)
    ensures WornLeft(T, T.store[p].kids[i], k) <==> WornLeft(T, p, k)
  {
    var c := T.store[p].kids[i];
    Descend(T, p, i, k);
    RootHighest(T, p);
    ProfileAt(T, c, k);
    assert BlockOk(T, c);
    WornDown(T.t, Profile(T, k), T.info[p].height);
  }

  /** A full child is one that is still to be split. */
  lemma LeftFull(T: Tree, p: nat, i: nat, k: int)
    requires Valid(T) && OnPath(T, p, k) && !T.store[p].leaf && InGap(T.store[p], i, k)
    requires i < |T.store[p].kids| && FullAt(T, T.store[p].kids[i])
    ensures SplitsLeft(T, p, k) >= 1
  {
    var c := T.store[p].kids[i];
    Descend(T, p, i, k);
    RootHighest(T, p);
    ProfileAt(T, c, k);
    assert BlockOk(T, c);
  }

  /** Where the search ends nothing is left to split. */
  lemma LeftNothing(T: Tree, node: nat, k: int)
    requires Valid(T) && OnPath(T, node, k) && (T.store[node].leaf || HasKey(T.store[node].kvs, k))
    ensures SplitsLeft(T, node, k) == 0
  {
    assert BlockOk(T, node);
    RootHighest(T, node);
    if HasKey(T.store[node].kvs, k) {
      var i :| 0 <= i < |T.store[node].kvs| && T.store[node].kvs[i].k == k;
      NothingBelow(T, node, i);
      SplitsNone(T.t, Profile(T, k), T.info[node].height);
    }
  }

  lemma LeftLeaf(T: Tree, node: nat, i: nat, kv: KV)
    requires Valid(T) && OnPath(T, node, kv.k) && T.store[node].leaf && i <= |T.store[node].kvs| && Inv(LeafPut(T, node, i, kv))
    ensures WornFrom(T.t, Profile(LeafPut(T, node, i, kv), kv.k), 0) <==> WornLeft(T, node, kv.k)
  {
    var S, k := LeafPut(T, node, i, kv), kv.k;
    assert BlockOk(T, node);
    forall j | 0 < j <= Height(T)
      ensures Profile(S, k)[j] == Profile(T, k)[j]
    {
      LeafProfile(T, node, i, kv, j);
    }
    forall h
      ensures Worn(T.t, Profile(S, k), 0, h) <==> Worn(T.t, Profile(T, k), 0, h)
    {
    }
  }

  // ---------------------------------------------------------------- what an insertion takes, and what it leaves

  ghost function Takes(T: Tree, k: int): nat {
    TakesOn(T.t, Profile(T, k))
  }

  lemma TakesAtMost(T: Tree, k: int)
    ensures Takes(T, k) <= Height(T) + 2
  {
    SplitsAtMost(T.t, Profile(T, k), Height(T));
  }

  lemma TakesTwo(T: Tree, k: int)
    requires Valid(T) && 0 <= k < KEY_LIMIT && |T.store[T.root].kvs| == 2 * T.t - 1
    ensures Takes(T, k) >= 2
  {
    RootOnPath(T, k);
    ProfileAt(T, T.root, k);
  }

  /** After an insertion of k, which is not there, an inner block on its path below the root has T-1 keys. */
  ghost predicate StuckAfter(T: Tree, k: int) {
    SqueezedIn(T.t, Profile(T, k))
  }

  /** Standing at the root all is left, and nothing is worn. */
  lemma LeftStart(T: Tree, k: int)
    requires Valid(T) && 0 <= k < KEY_LIMIT && !FullAt(T, T.root)
    ensures SplitsLeft(T, T.root, k) == Takes(T, k) && (WornLeft(T, T.root, k) <==> StuckAfter(T, k))
  {
    RootOnPath(T, k);
    ProfileAt(T, T.root, k);
    WornStart(T.t, Profile(T, k));
  }

  lemma TallerCounts(t: nat, p: seq<nat>, x: nat, q: seq<nat>)
    requires t >= 2 && p != [] && p[|p| - 1] == 2 * t - 1 && x < t && q == p[|p| - 1 := x] + [1]
    ensures Splits(t, q, |q| - 1) + 2 == TakesOn(t, p)
    ensures x == t - 1 ==> (WornFrom(t, q, |q| - 1) <==> SqueezedIn(t, p))
  {
    SplitsSame(t, p, q, |p| - 1);
    SqueezedGrow(t, p);
    WornStart(t, q);
  }

  lemma TallerProfile(T: Tree, used: set<nat>, k: int) returns (x: nat)
    requires Valid(T) && CanGrow(T, used) && |T.store[T.root].kvs| == 2 * T.t - 1 && 0 <= k < KEY_LIMIT && Valid(Taller(T, used))
    ensures Profile(T, k)[Height(T)] == 2 * T.t - 1 && Profile(Taller(T, used), k) == Profile(T, k)[Height(T) := x] + [1]
    ensures x < T.t && (k !in T.m ==> x == T.t - 1)
  {
    hide Profile;
    x := if k == T.store[T.root].kvs[T.t - 1].k then 0 else T.t - 1;
    RootSplitProfile(T, Least(used), Least(used + {Least(used)}), k);
    assert BlockOk(T, T.root);
  }

  lemma LeftTaller(T: Tree, used: set<nat>, k: int)
    requires Valid(T) && CanGrow(T, used) && |T.store[T.root].kvs| == 2 * T.t - 1 && 0 <= k < KEY_LIMIT && Valid(Taller(T, used))
    ensures SplitsLeft(Taller(T, used), T.root, k) + 2 == Takes(T, k)
    ensures k !in T.m ==> (WornLeft(Taller(T, used), T.root, k) <==> StuckAfter(T, k))
  {
    hide Taller, CanGrow, Profile;
    var x := TallerProfile(T, used, k);
    TallerRoot(T, used);
    RootOnPath(Taller(T, used), k);
    TallerCounts(T.t, Profile(T, k), x, Profile(Taller(T, used), k));
  }

  lemma TallerRoot(T: Tree, used: set<nat>)
    requires CanGrow(T, used)
    ensures Taller(T, used).root == T.root && Taller(T, used).t == T.t
  {
  }

  // ---------------------------------------------------------------- the tree after an insertion

  ghost predicate IsLeast(used: set<nat>, b: nat) {
    b !in used && forall c: nat :: c < b ==> c in used
  }

  /** The block that the allocator gives next. */
  ghost function Least(used: set<nat>): nat {
    if exists b: nat :: IsLeast(used, b) then var b: nat :| IsLeast(used, b); b else 0
  }

  lemma LeastIs(used: set<nat>, b: nat)
    requires IsLeast(used, b)
    ensures Least(used) == b
  {
    assert IsLeast(used, b);
    forall c: nat | IsLeast(used, c)
      ensures c == b
    {
      assert c < b ==> c in used;
      assert b < c ==> b in used;
    }
  }

  ghost function Gap(n: Node, k: int): nat {
    if exists i: nat :: InGap(n, i, k) then var i: nat :| InGap(n, i, k); i else 0
  }

  lemma GapIs(n: Node, i: nat, k: int)
    requires Sorted(n.kvs) && InGap(n, i, k)
    ensures Gap(n, k) == i
  {
    forall j: nat | InGap(n, j, k)
      ensures j == i
    {
    }
  }

  ghost function LeafPut(T: Tree, b: nat, i: nat, kv: KV): Tree
    requires b in T.store && i <= |T.store[b].kvs|
  {
    T.(store := T.store[b := WithKey(T.store[b], i, kv)], m := T.m[kv.k := kv.v])
  }

  /** The tree that an insertion of k makes from node on, when `used` are the blocks in use. */
  ghost function Descent(T: Tree, node: nat, k: int, v: int, used: set<nat>): Tree
    decreases if node in T.info then T.info[node].height else 0,
      if node in T.store && |T.store[node].kvs| <= 2 * T.t then 2 * T.t - |T.store[node].kvs| else 0
  {
    if !(node in T.store && node in T.info) then T
    else
      var n := T.store[node];
      var i := Gap(n, k);
      if n.leaf then (if i <= |n.kvs| then LeafPut(T, node, i, KV(k, v)) else T)
      else if i >= |n.kids| then T
      else
        var c := n.kids[i];
        if FullAt(T, c) then
          if T.t >= 2 && CanSplit(T, node, i, Least(used)) && SplitGoesOn(T, node, i, Least(used)) then
            Descent(Split(T, node, i, Least(used)), node, k, v, used + {Least(used)})
          else T
        else if c in T.info && T.info[c].height < T.info[node].height then Descent(T, c, k, v, used)
        else T
  }

  ghost predicate SplitGoesOn(T: Tree, p: nat, i: nat, new': nat)
    requires T.t >= 2 && CanSplit(T, p, i, new')
  {
    var S := Split(T, p, i, new');
    p in T.info && p in S.info && S.info[p] == T.info[p] && |S.store[p].kvs| == |T.store[p].kvs| + 1 <= 2 * T.t
  }

  lemma DescentSplit(T: Tree, node: nat, i: nat, k: int, v: int, used: set<nat>)
    requires Valid(T) && OnPath(T, node, k) && !T.store[node].leaf && InGap(T.store[node], i, k)
    requires CanSplit(T, node, i, Least(used))
    ensures Descent(T, node, k, v, used) == Descent(Split(T, node, i, Least(used)), node, k, v, used + {Least(used)})
  {
    assert BlockOk(T, node);
    GapIs(T.store[node], i, k);
    SplitKeepsRest(T, node, i, Least(used));
  }

  lemma DescentDown(T: Tree, node: nat, i: nat, k: int, v: int, used: set<nat>)
    requires Valid(T) && OnPath(T, node, k) && !T.store[node].leaf && InGap(T.store[node], i, k)
    requires i < |T.store[node].kids| && !FullAt(T, T.store[node].kids[i])
    ensures Descent(T, node, k, v, used) == Descent(T, T.store[node].kids[i], k, v, used)
  {
    assert BlockOk(T, node);
    GapIs(T.store[node], i, k);
    Descend(T, node, i, k);
  }

  lemma DescentLeaf(T: Tree, node: nat, i: nat, k: int, v: int, used: set<nat>)
    requires Valid(T) && OnPath(T, node, k) && T.store[node].leaf && InGap(T.store[node], i, k)
    ensures Descent(T, node, k, v, used) == LeafPut(T, node, i, KV(k, v))
  {
    assert BlockOk(T, node);
    GapIs(T.store[node], i, k);
  }

  /** A root can be split with the next two blocks. */
  ghost predicate CanGrow(T: Tree, used: set<nat>) {
    && T.t >= 2 && T.root in T.store && T.root in T.info
    && var a := Least(used);
      var b := Least(used + {a});
      a !in T.store && b !in T.store && a != b && CanSplit(Grow(T, a), T.root, 0, b)
  }

  ghost function Taller(T: Tree, used: set<nat>): Tree
    requires CanGrow(T, used)
  {
    Split(Grow(T, Least(used)), T.root, 0, Least(used + {Least(used)}))
  }

  ghost function UsedTaller(used: set<nat>): set<nat> {
    used + {Least(used)} + {Least(used + {Least(used)})}
  }

  /** The tree that an insertion of k makes. */
  ghost function Inserted(T: Tree, k: int, v: int, used: set<nat>): Tree {
    if !FullAt(T, T.root) then Descent(T, T.root, k, v, used)
    else if CanGrow(T, used) then Descent(Taller(T, used), T.root, k, v, UsedTaller(used))
    else T
  }
}
