/** A B-tree node in memory: fixed arrays of key-value slots and child slots, changed in place by the
    slot loops of core/btree.c. Each operation is specified by the node value the used slots spell. */
module NodeBuffer {
  import opened BtreeShape
  import opened BtreeSteps
  import opened BtreeEdits

  /** Moves slots from..n-1 one up, last first. */
  method ShiftUp<T>(a: array<T>, from: nat, n: nat)
    requires from <= n < a.Length
    modifies a
    ensures forall j :: 0 <= j < a.Length && (j <= from || j > n) ==> a[j] == old(a[j])
    ensures forall j :: from < j <= n ==> a[j] == old(a[j - 1])
  {
    var i := n;
    while i > from
      invariant from <= i <= n
      invariant forall j :: 0 <= j <= i ==> a[j] == old(a[j])
      invariant forall j :: i < j <= n ==> a[j] == old(a[j - 1])
      invariant forall j :: n < j < a.Length ==> a[j] == old(a[j])
    {
      a[i] := a[i - 1];
      i := i - 1;
    }
  }

  /** Moves slots i+1..n-1 one down over slot i and clears the last. */
  method ShiftDown<T>(a: array<T>, i: nat, n: nat, zero: T)
    requires i < n <= a.Length
    modifies a
    ensures a[..n - 1] == RemoveAt(old(a[..n]), i)
    ensures a[n - 1] == zero
  {
    var j := i + 1;
    while j < n
      invariant i < j <= n
      invariant forall x :: 0 <= x < i ==> a[x] == old(a[x])
      invariant forall x :: i <= x < j - 1 ==> a[x] == old(a[x + 1])
      invariant forall x :: j - 1 <= x < n ==> a[x] == old(a[x])
    {
      a[j - 1] := a[j];
      j := j + 1;
    }
    a[j - 1] := zero;
  }

  /** Copies n slots. */
  method CopySlots<T>(dst: array<T>, at: nat, src: array<T>, from: nat, n: nat)
    requires dst != src && at + n <= dst.Length && from + n <= src.Length
    modifies dst
    ensures dst[at..at + n] == src[from..from + n]
    ensures dst[..at] == old(dst[..at]) && dst[at + n..] == old(dst[at + n..])
  {
    var i := 0;
    while i < n
      invariant i <= n
      invariant dst[at..at + i] == src[from..from + i]
      invariant forall x :: 0 <= x < dst.Length && (x < at || x >= at + i) ==> dst[x] == old(dst[x])
    {
      dst[at + i] := src[from + i];
      i := i + 1;
    }
  }

  function FirstKid(n: Node): nat {
    if n.kids == [] then 0 else n.kids[0]
  }

  function LastKid(n: Node): nat {
    if n.kids == [] then 0 else n.kids[|n.kids| - 1]
  }

  function Appended(n: Node, x: KV, b: nat): Node {
    Node(n.leaf, n.kvs + [x], if n.leaf then [] else n.kids + [b])
  }

  function Prepended(n: Node, x: KV, b: nat): Node {
    Node(n.leaf, [x] + n.kvs, if n.leaf then [] else [b] + n.kids)
  }

  function WithoutFirst(n: Node): Node
    requires |n.kvs| >= 1 && (!n.leaf ==> |n.kids| >= 1)
  {
    Node(n.leaf, n.kvs[1..], if n.leaf then [] else n.kids[1..])
  }

  function WithoutLast(n: Node): Node
    requires |n.kvs| >= 1 && (!n.leaf ==> |n.kids| >= 1)
  {
    Node(n.leaf, n.kvs[..|n.kvs| - 1], if n.leaf then [] else n.kids[..|n.kids| - 1])
  }

  class NodeBuf {
    const t: nat
    var leaf: bool
    var nrKeys: nat
    const kv: array<KV>
    const kid: array<nat>

    ghost predicate Valid()
      reads this
    {
      t >= 2 && kv.Length == 2 * t && kid.Length == 2 * t && nrKeys <= 2 * t - 1
    }

    ghost function Value(): Node
      reads this, kv, kid
      requires Valid()
    {
      Node(leaf, kv[..nrKeys], if leaf then [] else kid[..nrKeys + 1])
    }

    ghost predicate Apart(o: NodeBuf)
      reads {}
    {
      this != o && kv != o.kv && kid != o.kid
    }

    /** A zeroed node. */
    constructor (t: nat)
      requires t >= 2
      ensures Valid() && this.t == t && fresh(kv) && fresh(kid)
      ensures !leaf && nrKeys == 0
    {
      this.t := t;
      leaf, nrKeys := false, 0;
      kv := new KV[2 * t](_ => KV(0, 0));
      kid := new nat[2 * t](_ => 0);
    }

    /** Reads a node as its block stores it. */
    constructor Read(t: nat, n: Node)
      requires t >= 2 && |n.kvs| <= 2 * t - 1 && |n.kids| == (if n.leaf then 0 else |n.kvs| + 1)
      ensures Valid() && this.t == t && fresh(kv) && fresh(kid)
      ensures Value() == n
    {
      this.t := t;
      leaf, nrKeys := n.leaf, |n.kvs|;
      kv := new KV[2 * t](i => if 0 <= i < |n.kvs| then n.kvs[i] else KV(0, 0));
      kid := new nat[2 * t](i => if 0 <= i < |n.kids| then n.kids[i] else 0);
    }

    /** What goes to the block on write. */
    method Written() returns (n: Node)
      requires Valid()
      ensures n == Value()
    {
      n := Node(leaf, kv[..nrKeys], if leaf then [] else kid[..nrKeys + 1]);
    }

    // -------------------------------------------------------------- searching

    method HasKeyAt(k: int) returns (i: int)
      requires Valid() && Sorted(Value().kvs)
      ensures -1 <= i < nrKeys
      ensures i >= 0 ==> Value().kvs[i].k == k
      ensures i < 0 ==> !HasKey(Value().kvs, k)
    {
      if nrKeys == 0 || k > kv[nrKeys - 1].k || k < kv[0].k {
        return -1;
      }
      var start, end := 0, nrKeys;
      while start < end
        invariant 0 <= start <= end <= nrKeys
        invariant forall j :: 0 <= j < start ==> kv[j].k < k
        invariant forall j :: end <= j < nrKeys ==> k < kv[j].k
      {
        var mid := (start + end) / 2;
        if k == kv[mid].k {
          return mid;
        } else if k < kv[mid].k {
          end := mid;
        } else {
          start := mid + 1;
        }
      }
      i := -1;
    }

    method FindKeyIndex(k: int) returns (i: nat)
      requires Valid() && Sorted(Value().kvs)
      ensures HasKey(Value().kvs, k) ==> i < nrKeys && Value().kvs[i].k == k
      ensures !HasKey(Value().kvs, k) ==> InGap(Value(), i, k)
    {
      var start, end := 0, nrKeys;
      if nrKeys == 0 {
        return 0;
      } else if k > kv[end - 1].k {
        return end;
      } else if k < kv[start].k {
        return 0;
      }
      while start < end
        invariant 0 <= start <= end <= nrKeys
        invariant forall j :: 0 <= j < start ==> kv[j].k < k
        invariant forall j :: end <= j < nrKeys ==> k < kv[j].k
      {
        var mid := (start + end) / 2;
        if k == kv[mid].k {
          return mid;
        } else if k < kv[mid].k {
          end := mid;
        } else {
          start := mid + 1;
        }
      }
      i := end;
    }

    // -------------------------------------------------------------- single slots

    method PutKv(i: nat, x: KV)
      requires Valid() && i <= nrKeys
      modifies kv
      ensures kv[..nrKeys + 1] == InsertAt(old(kv[..nrKeys]), i, x)
    {
      ShiftUp(kv, i, nrKeys);
      kv[i] := x;
    }

    method PutChildVal(i: nat, b: nat)
      requires Valid() && i <= nrKeys + 1 && nrKeys + 1 < 2 * t
      modifies kid
      ensures kid[..nrKeys + 2] == InsertAt(old(kid[..nrKeys + 1]), i, b)
    {
      ShiftUp(kid, i, nrKeys + 1);
      kid[i] := b;
    }

    method DeleteKeyIndex(i: nat)
      requires Valid() && i < nrKeys
      modifies kv
      ensures kv[..nrKeys - 1] == RemoveAt(old(kv[..nrKeys]), i)
    {
      ShiftDown(kv, i, nrKeys, KV(0, 0));
    }

    /** The slot shift the source's comment describes; its code moves page pointers (core/btree.c:1158). */
    method DeleteChildIndex(i: nat)
      requires Valid() && i <= nrKeys
      modifies kid
      ensures kid[..nrKeys] == RemoveAt(old(kid[..nrKeys + 1]), i)
    {
      ShiftDown(kid, i, nrKeys + 1, 0);
    }

    // -------------------------------------------------------------- whole nodes

    method InsertKey(i: nat, x: KV)
      requires Valid() && leaf && i <= nrKeys < 2 * t - 1
      modifies this`nrKeys, kv
      ensures Valid() && Value() == WithKey(old(Value()), i, x)
    {
      PutKv(i, x);
      nrKeys := nrKeys + 1;
    }

    method LeafDeleteKey(k: int)
      requires Valid() && leaf && Sorted(Value().kvs) && HasKey(Value().kvs, k)
      modifies this`nrKeys, kv
      ensures Valid()
      ensures forall i :: 0 <= i < old(nrKeys) && old(Value()).kvs[i].k == k ==> Value() == WithoutKey(old(Value()), i)
    {
      var i := HasKeyAt(k);
      DeleteKeyIndex(i);
      nrKeys := nrKeys - 1;
    }

    method SetValue(i: nat, v: int)
      requires Valid() && i < nrKeys
      modifies kv
      ensures Value() == WithValue(old(Value()), i, v)
    {
      kv[i] := KV(kv[i].k, v);
    }

    method SetKv(i: nat, x: KV)
      requires Valid() && i < nrKeys
      modifies kv
      ensures Value() == WithSep(old(Value()), i, x)
    {
      kv[i] := x;
    }

    method CopyFrom(src: NodeBuf)
      requires Valid() && src.Valid() && Apart(src) && t == src.t
      modifies this`nrKeys, this`leaf, kv, kid
      ensures Valid() && Value() == src.Value()
    {
      CopySlots(kv, 0, src.kv, 0, src.nrKeys);
      CopySlots(kid, 0, src.kid, 0, src.nrKeys + 1);
      nrKeys := src.nrKeys;
      leaf := src.leaf;
    }

    /** Takes the upper T-1 keys, and their children, of a full node. */
    method MoveUpperHalf(child: NodeBuf)
      requires Valid() && child.Valid() && t == child.t && Apart(child) && child.nrKeys == 2 * t - 1
      modifies this`leaf, this`nrKeys, kv, kid, child`nrKeys
      ensures Valid() && child.Valid()
      ensures child.Value() == Lower(old(child.Value()), t - 1) && child.kv[t - 1] == old(child.kv[t - 1])
      ensures Value() == Upper(old(child.Value()), t - 1)
    {
      ghost var c := child.Value();
      leaf := child.leaf;
      CopySlots(kv, 0, child.kv, t, t - 1);
      assert kv[..t - 1] == c.kvs[t..];
      nrKeys := t - 1;
      if !child.leaf {
        CopySlots(kid, 0, child.kid, t, t);
        assert kid[..t] == c.kids[t..];
      }
      child.nrKeys := t - 1;
    }

    /** Makes room for a key and, after it, a child. */
    method AddKid(i: nat, x: KV, b: nat)
      requires Valid() && !leaf && i <= nrKeys < 2 * t - 1
      modifies this`nrKeys, kv, kid
      ensures Valid() && Value() == WithKid(old(Value()), i, x, b)
    {
      PutChildVal(i + 1, b);
      PutKv(i, x);
      nrKeys := nrKeys + 1;
    }

    method AppendKeys(src: NodeBuf, sep: KV)
      requires Valid() && src.Valid() && Apart(src) && nrKeys + 1 + src.nrKeys <= kv.Length
      modifies kv
      ensures kv[..nrKeys + 1 + src.nrKeys] == old(kv[..nrKeys]) + [sep] + src.kv[..src.nrKeys]
    {
      var pos, n := nrKeys + 1, src.nrKeys;
      kv[nrKeys] := sep;
      assert kv[..pos] == old(kv[..nrKeys]) + [sep];
      CopySlots(kv, pos, src.kv, 0, n);
      assert kv[..pos + n] == kv[..pos] + kv[pos..pos + n];
    }

    method AppendChildren(src: NodeBuf)
      requires Valid() && src.Valid() && Apart(src) && nrKeys + 2 + src.nrKeys <= kid.Length
      modifies kid
      ensures kid[..nrKeys + 2 + src.nrKeys] == old(kid[..nrKeys + 1]) + src.kid[..src.nrKeys + 1]
    {
      var pos, n := nrKeys + 1, src.nrKeys + 1;
      CopySlots(kid, pos, src.kid, 0, n);
      assert kid[..pos + n] == kid[..pos] + kid[pos..pos + n];
    }

    /** Appends `sep` and all of `src`. Child slots are copied for leaves too, where nobody reads them. */
    method MergeFrom(src: NodeBuf, sep: KV)
      requires Valid() && src.Valid() && t == src.t && Apart(src) && leaf == src.leaf
      requires nrKeys + 1 + src.nrKeys <= 2 * t - 1
      modifies this`nrKeys, kv, kid
      ensures Valid() && Value() == Joined(old(Value()), sep, src.Value())
    {
      AppendKeys(src, sep);
      AppendChildren(src);
      nrKeys := nrKeys + 1 + src.nrKeys;
    }

    method RemoveKid(i: nat)
      requires Valid() && !leaf && i < nrKeys
      modifies this`nrKeys, kv, kid
      ensures Valid() && Value() == WithoutKid(old(Value()), i)
    {
      DeleteKeyIndex(i);
      DeleteChildIndex(i + 1);
      nrKeys := nrKeys - 1;
    }

    method Append(x: KV, b: nat)
      requires Valid() && nrKeys < 2 * t - 1
      modifies this`nrKeys, kv, kid
      ensures Valid() && Value() == Appended(old(Value()), x, b)
    {
      kv[nrKeys] := x;
      kid[nrKeys + 1] := b;
      nrKeys := nrKeys + 1;
    }

    method Prepend(x: KV, b: nat)
      requires Valid() && nrKeys < 2 * t - 1
      modifies this`nrKeys, kv, kid
      ensures Valid() && Value() == Prepended(old(Value()), x, b)
    {
      PutKv(0, x);
      PutChildVal(0, b);
      nrKeys := nrKeys + 1;
    }

    method DropFirst()
      requires Valid() && nrKeys >= 1
      modifies this`nrKeys, kv, kid
      ensures Valid() && Value() == WithoutFirst(old(Value()))
    {
      DeleteKeyIndex(0);
      DeleteChildIndex(0);
      nrKeys := nrKeys - 1;
    }

    method DropLast()
      requires Valid() && nrKeys >= 1
      modifies this`nrKeys, kv, kid
      ensures Valid() && Value() == WithoutLast(old(Value()))
    {
      DeleteKeyIndex(nrKeys - 1);
      DeleteChildIndex(nrKeys);
      nrKeys := nrKeys - 1;
    }
  }

  ghost predicate KidCount(n: Node) {
    |n.kids| == if n.leaf then 0 else |n.kvs| + 1
  }

  /** What borrowing does, said as a redistribution of the two siblings. */
  lemma BorrowRight(c: Node, sep: KV, s: Node)
    requires |s.kvs| >= 1 && c.leaf == s.leaf && KidCount(c) && KidCount(s)
    ensures var both, j := Joined(c, sep, s), |c.kvs| + 1;
      && Cuttable(both, j) && both.kvs[j] == s.kvs[0]
      && Lower(both, j) == Appended(c, sep, FirstKid(s)) && Upper(both, j) == WithoutFirst(s)
  {
  }

  lemma BorrowLeft(s: Node, sep: KV, c: Node)
    requires |s.kvs| >= 1 && c.leaf == s.leaf && KidCount(c) && KidCount(s)
    ensures var both, j := Joined(s, sep, c), |s.kvs| - 1;
      && Cuttable(both, j) && both.kvs[j] == s.kvs[j]
      && Lower(both, j) == WithoutLast(s) && Upper(both, j) == Prepended(c, sep, LastKid(s))
  {
  }

  // ---------------------------------------------------------------- one operation on node contents

  ghost predicate Fits(t: nat, n: Node) {
    t >= 2 && |n.kvs| <= 2 * t - 1 && KidCount(n)
  }

  /** nkfs_btree_node_has_key, then nkfs_btree_node_find_key_index if it is not there. */
  method Search(t: nat, n: Node, k: int) returns (found: bool, i: nat)
    requires Fits(t, n) && Sorted(n.kvs)
    ensures found <==> HasKey(n.kvs, k)
    ensures found ==> i < |n.kvs| && n.kvs[i].k == k
    ensures !found ==> InGap(n, i, k)
  {
    var buf := new NodeBuf.Read(t, n);
    var at := buf.HasKeyAt(k);
    if at >= 0 {
      assert n.kvs[at].k == k;
      return true, at;
    }
    i := buf.FindKeyIndex(k);
    found := false;
  }

  method HalveNode(t: nat, c: Node) returns (c': Node, n: Node)
    requires Fits(t, c) && |c.kvs| == 2 * t - 1
    ensures c' == Lower(c, t - 1) && n == Upper(c, t - 1)
  {
    var cb := new NodeBuf.Read(t, c);
    var nb := new NodeBuf(t);
    nb.MoveUpperHalf(cb);
    c' := cb.Written();
    n := nb.Written();
  }

  method AddKidTo(t: nat, p: Node, i: nat, x: KV, b: nat) returns (p': Node)
    requires Fits(t, p) && !p.leaf && i <= |p.kvs| < 2 * t - 1
    ensures p' == WithKid(p, i, x, b)
  {
    var pb := new NodeBuf.Read(t, p);
    pb.AddKid(i, x, b);
    p' := pb.Written();
  }

  /** nkfs_btree_node_split_child. */
  method SplitNodes(t: nat, p: Node, c: Node, i: nat, newBlock: nat) returns (p': Node, c': Node, n: Node)
    requires Fits(t, p) && Fits(t, c) && !p.leaf && i <= |p.kvs| < 2 * t - 1 && |c.kvs| == 2 * t - 1
    ensures p' == WithKid(p, i, c.kvs[t - 1], newBlock) && c' == Lower(c, t - 1) && n == Upper(c, t - 1)
  {
    c', n := HalveNode(t, c);
    p' := AddKidTo(t, p, i, c.kvs[t - 1], newBlock);
  }

  method JoinNodes(t: nat, l: Node, sep: KV, r: Node) returns (l': Node)
    requires Fits(t, l) && Fits(t, r) && l.leaf == r.leaf && |l.kvs| + 1 + |r.kvs| <= 2 * t - 1
    ensures l' == Joined(l, sep, r)
  {
    var lb := new NodeBuf.Read(t, l);
    var rb := new NodeBuf.Read(t, r);
    lb.MergeFrom(rb, sep);
    l' := lb.Written();
  }

  method DropKid(t: nat, p: Node, i: nat) returns (p': Node)
    requires Fits(t, p) && !p.leaf && i < |p.kvs|
    ensures p' == WithoutKid(p, i)
  {
    var pb := new NodeBuf.Read(t, p);
    pb.RemoveKid(i);
    p' := pb.Written();
  }

  method AppendTo(t: nat, n: Node, x: KV, b: nat) returns (n': Node)
    requires Fits(t, n) && |n.kvs| < 2 * t - 1
    ensures n' == Appended(n, x, b)
  {
    var buf := new NodeBuf.Read(t, n);
    buf.Append(x, b);
    n' := buf.Written();
  }

  method PrependTo(t: nat, n: Node, x: KV, b: nat) returns (n': Node)
    requires Fits(t, n) && |n.kvs| < 2 * t - 1
    ensures n' == Prepended(n, x, b)
  {
    var buf := new NodeBuf.Read(t, n);
    buf.Prepend(x, b);
    n' := buf.Written();
  }

  method DropFirstOf(t: nat, n: Node) returns (n': Node)
    requires Fits(t, n) && |n.kvs| >= 1
    ensures n' == WithoutFirst(n)
  {
    var buf := new NodeBuf.Read(t, n);
    buf.DropFirst();
    n' := buf.Written();
  }

  method DropLastOf(t: nat, n: Node) returns (n': Node)
    requires Fits(t, n) && |n.kvs| >= 1
    ensures n' == WithoutLast(n)
  {
    var buf := new NodeBuf.Read(t, n);
    buf.DropLast();
    n' := buf.Written();
  }

  /** nkfs_btree_node_child_give_key from the right: a key moves from the sibling through the parent into
      child i, and the sibling's first child with it. */
  method BorrowFromRight(t: nat, p: Node, i: nat, c: Node, s: Node) returns (p': Node, c': Node, s': Node)
    requires Fits(t, p) && Fits(t, c) && Fits(t, s) && i < |p.kvs| && |c.kvs| < 2 * t - 1 && |s.kvs| >= 1
    ensures p' == WithSep(p, i, s.kvs[0])
    ensures c' == Appended(c, p.kvs[i], FirstKid(s)) && s' == WithoutFirst(s)
  {
    c' := AppendTo(t, c, p.kvs[i], FirstKid(s));
    p' := ReplaceKv(t, p, i, s.kvs[0]);
    s' := DropFirstOf(t, s);
  }

  /** The mirror image: a key moves from the left sibling through the parent to the front of child i. */
  method BorrowFromLeft(t: nat, p: Node, i: nat, c: Node, s: Node) returns (p': Node, c': Node, s': Node)
    requires Fits(t, p) && Fits(t, c) && Fits(t, s) && 0 < i <= |p.kvs| && |c.kvs| < 2 * t - 1 && |s.kvs| >= 1
    ensures p' == WithSep(p, i - 1, s.kvs[|s.kvs| - 1])
    ensures c' == Prepended(c, p.kvs[i - 1], LastKid(s)) && s' == WithoutLast(s)
  {
    c' := PrependTo(t, c, p.kvs[i - 1], LastKid(s));
    p' := ReplaceKv(t, p, i - 1, s.kvs[|s.kvs| - 1]);
    s' := DropLastOf(t, s);
  }

  /** nkfs_btree_node_copy onto another node. */
  method CopyNode(t: nat, dst: Node, src: Node) returns (dst': Node)
    requires Fits(t, dst) && Fits(t, src)
    ensures dst' == src
  {
    var db := new NodeBuf.Read(t, dst);
    var sb := new NodeBuf.Read(t, src);
    db.CopyFrom(sb);
    dst' := db.Written();
  }

  method LeafInsert(t: nat, n: Node, i: nat, x: KV) returns (n': Node)
    requires Fits(t, n) && n.leaf && i <= |n.kvs| < 2 * t - 1
    ensures n' == WithKey(n, i, x)
  {
    var b := new NodeBuf.Read(t, n);
    b.InsertKey(i, x);
    n' := b.Written();
  }

  method LeafDelete(t: nat, n: Node, k: int) returns (n': Node)
    requires Fits(t, n) && n.leaf && Sorted(n.kvs) && HasKey(n.kvs, k)
    ensures forall i :: 0 <= i < |n.kvs| && n.kvs[i].k == k ==> n' == WithoutKey(n, i)
  {
    var b := new NodeBuf.Read(t, n);
    b.LeafDeleteKey(k);
    n' := b.Written();
  }

  method ReplaceValue(t: nat, n: Node, i: nat, v: int) returns (n': Node)
    requires Fits(t, n) && i < |n.kvs|
    ensures n' == WithValue(n, i, v)
  {
    var b := new NodeBuf.Read(t, n);
    b.SetValue(i, v);
    n' := b.Written();
  }

  method ReplaceKv(t: nat, n: Node, i: nat, x: KV) returns (n': Node)
    requires Fits(t, n) && i < |n.kvs|
    ensures n' == WithSep(n, i, x)
  {
    var b := new NodeBuf.Read(t, n);
    b.SetKv(i, x);
    n' := b.Written();
  }
}
