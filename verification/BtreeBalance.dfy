/** What giving a child a spare key does to the tree: the facts deletion needs on its way down. */
module BtreeBalance {
  import opened BtreeShape
  import opened BtreeSteps
  import opened BtreeEdits

  /** Blocks on levels above `h` are as they were. */
  ghost predicate AboveSame(T: Tree, S: Tree, h: nat) {
    forall b :: b in T.store && b in T.info && T.info[b].height > h ==>
      b in S.store && S.store[b] == T.store[b] && b in S.info && S.info[b] == T.info[b]
  }

  /** No new blocks, and the remaining ones stay on their levels. */
  ghost predicate SameHeights(T: Tree, S: Tree) {
    forall b :: b in S.store ==>
      b in T.store && b in T.info && b in S.info && S.info[b].height == T.info[b].height
  }

  /** After balancing, `next` is a child of `node` with a key to spare that covers all that child i covered. */
  ghost predicate Balanced(T: Tree, node: nat, c: nat, S: Tree, next: nat)
    requires node in T.info && c in T.info
  {
    && Valid(S) && S.m == T.m && S.t == T.t && S.root == T.root && S.store.Keys <= T.store.Keys
    && node in S.store && node in S.info && S.info[node] == T.info[node]
    && next in S.store && next in S.info && next != S.root && next != node && next in S.store[node].kids
    && S.info[next].height + 1 == T.info[node].height && |S.store[next].kvs| >= T.t
    && S.info[next].lo <= T.info[c].lo && T.info[c].hi <= S.info[next].hi
    && AboveSame(T, S, T.info[node].height) && SameHeights(T, S)
  }

  /** A block that may lose a key, because it is the root or has more than T-1. */
  ghost predicate Spare(T: Tree, b: nat) {
    b in T.store && (b != T.root ==> |T.store[b].kvs| >= T.t)
  }

  lemma FrameAbove(T: Tree, S: Tree, p: nat, i: nat)
    requires Inv(T) && Siblings(T, p, i)
    requires SameOutside(T, S, {p, T.store[p].kids[i], T.store[p].kids[i + 1]})
    ensures AboveSame(T, S, T.info[p].height)
  {
    KidFacts(T, p, i);
    KidFacts(T, p, i + 1);
  }

  lemma FrameHeights(T: Tree, S: Tree, p: nat, i: nat)
    requires Inv(T) && Siblings(T, p, i)
    requires SameOutside(T, S, {p, T.store[p].kids[i], T.store[p].kids[i + 1]})
    requires forall b :: b in {p, T.store[p].kids[i], T.store[p].kids[i + 1]} && b in S.store ==>
      b in S.info && S.info[b].height == T.info[b].height
    ensures SameHeights(T, S)
  {
    HasInfo(T);
  }

  lemma NothingToDo(T: Tree, p: nat, i: nat)
    requires Valid(T) && p in T.store && i < |T.store[p].kids|
    requires T.store[p].kids[i] in T.store && |T.store[T.store[p].kids[i]].kvs| >= T.t
    ensures p in T.info && T.store[p].kids[i] in T.info
    ensures Balanced(T, p, T.store[p].kids[i], T, T.store[p].kids[i])
  {
    HasInfo(T);
    KidFacts(T, p, i);
  }

  lemma HasInfo(T: Tree)
    requires Inv(T)
    ensures forall b :: b in T.store ==> b in T.info
  {
    forall b | b in T.store
      ensures b in T.info
    {
      assert BlockOk(T, b);
    }
  }

  lemma RecutValid(T: Tree, p: nat, i: nat, j: nat)
    requires Valid(T) && CanRecut(T, p, i, j)
    ensures Valid(Recut(T, p, i, j))
  {
    RecutKeeps(T, p, i, j);
    KidFacts(T, p, i);
    KidFacts(T, p, i + 1);
    assert BlockOk(T, p);
  }

  lemma RecutFacts(T: Tree, p: nat, i: nat, j: nat)
    requires Valid(T) && CanRecut(T, p, i, j)
    ensures var S := Recut(T, p, i, j);
      && S.store.Keys == T.store.Keys && p in S.info && S.info[p] == T.info[p]
      && AboveSame(T, S, T.info[p].height) && SameHeights(T, S)
    ensures T.info[T.store[p].kids[i]].height == T.info[T.store[p].kids[i + 1]].height == T.info[p].height - 1
    ensures T.store[p].kids[i] != T.root && T.store[p].kids[i + 1] != T.root
    ensures Sorted(BothKids(T, p, i).kvs)
  {
    RecutFrame(T, p, i, j);
    FrameAbove(T, Recut(T, p, i, j), p, i);
    FrameHeights(T, Recut(T, p, i, j), p, i);
    KidFacts(T, p, i);
    KidFacts(T, p, i + 1);
    BothKidsOk(T, p, i);
  }

  lemma CanBorrow(T: Tree, p: nat, i: nat, j: nat)
    requires Valid(T) && Siblings(T, p, i)
    requires T.t - 1 <= j <= 2 * T.t - 1
    requires T.t <= |T.store[T.store[p].kids[i]].kvs| + 1 + |T.store[T.store[p].kids[i + 1]].kvs| - j <= 2 * T.t
    ensures CanRecut(T, p, i, j)
  {
    SiblingsExist(T, p, i);
    BothKidsOk(T, p, i);
  }

  /** Child i+1 takes a key from its left sibling, child i. */
  lemma BorrowedLeft(T: Tree, p: nat, i: nat, j: nat)
    requires Valid(T) && Siblings(T, p, i)
    requires T.t <= |T.store[T.store[p].kids[i]].kvs| == j + 1 <= 2 * T.t - 1
    requires |T.store[T.store[p].kids[i + 1]].kvs| == T.t - 1
    ensures CanRecut(T, p, i, j)
    ensures Balanced(T, p, T.store[p].kids[i + 1], Recut(T, p, i, j), T.store[p].kids[i + 1])
  {
    CanBorrow(T, p, i, j);
    SiblingsExist(T, p, i);
    RecutValid(T, p, i, j);
    RecutFacts(T, p, i, j);
    var both := BothKids(T, p, i);
    assert both.kvs[j + 1] == T.store[p].kvs[i];
  }

  /** Child i takes a key from its right sibling. */
  lemma BorrowedRight(T: Tree, p: nat, i: nat)
    requires Valid(T) && Siblings(T, p, i)
    requires |T.store[T.store[p].kids[i]].kvs| == T.t - 1
    requires T.t <= |T.store[T.store[p].kids[i + 1]].kvs| <= 2 * T.t - 1
    ensures CanRecut(T, p, i, T.t)
    ensures Balanced(T, p, T.store[p].kids[i], Recut(T, p, i, T.t), T.store[p].kids[i])
  {
    CanBorrow(T, p, i, T.t);
    SiblingsExist(T, p, i);
    RecutValid(T, p, i, T.t);
    RecutFacts(T, p, i, T.t);
    var both := BothKids(T, p, i);
    assert both.kvs[T.t - 1] == T.store[p].kvs[i];
  }

  /** Both siblings at the minimum: they fit into one block, with the key between them. */
  ghost predicate BothSmall(T: Tree, p: nat, i: nat) {
    && Siblings(T, p, i) && Spare(T, p)
    && |T.store[T.store[p].kids[i]].kvs| == T.t - 1 == |T.store[T.store[p].kids[i + 1]].kvs|
  }

  lemma MergeFrames(T: Tree, p: nat, i: nat)
    requires Valid(T) && Siblings(T, p, i)
    ensures AboveSame(T, Merge(T, p, i), T.info[p].height) && SameHeights(T, Merge(T, p, i))
  {
    MergeFrame(T, p, i);
    FrameAbove(T, Merge(T, p, i), p, i);
    FrameHeights(T, Merge(T, p, i), p, i);
  }

  lemma MergeFacts(T: Tree, p: nat, i: nat)
    requires Valid(T) && BothSmall(T, p, i)
    ensures CanMerge(T, p, i) && Inv(Merge(T, p, i))
    ensures var S := Merge(T, p, i);
      var l, r := T.store[p].kids[i], T.store[p].kids[i + 1];
      && S.store.Keys == T.store.Keys - {r} && p in S.info && S.info[p] == T.info[p]
      && l in S.store && l in S.info && l != S.root && S.info[l].height + 1 == T.info[p].height
      && |S.store[l].kvs| == 2 * T.t - 1 && S.store[p].kids[i] == l
      && S.info[l].lo == T.info[l].lo && S.info[l].hi == T.info[r].hi
      && T.info[l].lo < T.store[p].kvs[i].k < T.info[r].hi
      && T.info[l].hi == T.store[p].kvs[i].k == T.info[r].lo
  {
    var l, r := T.store[p].kids[i], T.store[p].kids[i + 1];
    SiblingsExist(T, p, i);
    MergeKeeps(T, p, i);
    KidFacts(T, p, i);
    KidFacts(T, p, i + 1);
    assert BlockOk(T, l);
    assert BlockOk(T, r);
    assert T.info[l].lo < T.store[l].kvs[0].k && T.store[r].kvs[0].k < T.info[r].hi;
  }

  /** A merge that leaves its parent with keys is a balancing step for either sibling. */
  lemma Merged(T: Tree, p: nat, i: nat)
    requires Valid(T) && BothSmall(T, p, i) && |T.store[p].kvs| >= 2
    ensures var l, r := T.store[p].kids[i], T.store[p].kids[i + 1];
      Balanced(T, p, l, Merge(T, p, i), l) && Balanced(T, p, r, Merge(T, p, i), l)
  {
    MergeFacts(T, p, i);
    MergeFrames(T, p, i);
    assert BlockOk(T, p);
  }

  /** A merge that takes the root's last key makes the tree lower. */
  lemma Collapsed(T: Tree, i: nat)
    requires Valid(T) && BothSmall(T, T.root, i) && |T.store[T.root].kvs| == 1
    ensures Inv(Merge(T, T.root, i)) && CanShrink(Merge(T, T.root, i))
    ensures Merge(T, T.root, i).store[T.root].kids[0] == T.store[T.root].kids[0]
    ensures var S := Shrink(Merge(T, T.root, i));
      && Valid(S) && S.m == T.m && S.t == T.t && S.root == T.root
      && S.store.Keys == T.store.Keys - {T.store[T.root].kids[0], T.store[T.root].kids[1]}
      && S.info[T.root].height + 1 == T.info[T.root].height
  {
    MergeFacts(T, T.root, i);
    ShrinkKeeps(Merge(T, T.root, i));
  }

  // ---------------------------------------------------------------- neighbours in key order

  /** The last key of the leaf left of `k` is the one before `k`. */
  lemma LastIsBefore(T: Tree, l: nat, k: int)
    requires Inv(T) && l in T.store && l in T.info && T.store[l].leaf && |T.store[l].kvs| >= 1
    requires T.info[l].hi == k && k in T.m
    ensures Neighbours(T.m, k, T.store[l].kvs[|T.store[l].kvs| - 1].k)
  {
    var s := T.store[l].kvs;
    var last := s[|s| - 1].k;
    assert BlockOk(T, l);
    forall x | last < x < k
      ensures x !in T.m
    {
      LeafDecides(T, l, x);
      InGapAbsent(T.store[l], |s|, x);
    }
  }

  lemma FirstIsAfter(T: Tree, l: nat, k: int)
    requires Inv(T) && l in T.store && l in T.info && T.store[l].leaf && |T.store[l].kvs| >= 1
    requires T.info[l].lo == k && k in T.m
    ensures Neighbours(T.m, k, T.store[l].kvs[0].k)
  {
    var s := T.store[l].kvs;
    assert BlockOk(T, l);
    forall x | k < x < s[0].k
      ensures x !in T.m
    {
      LeafDecides(T, l, x);
      InGapAbsent(T.store[l], 0, x);
    }
  }
}
