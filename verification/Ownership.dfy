/** Which block belongs to whom: the header and bitmap, the inode tree, or one object. */
module Ownership {

  ghost function AllOwned(own: map<int, set<nat>>): (r: set<nat>) {
    set b, x | b in own && x in own[b] :: x
  }

  /** Every used block has exactly one owner. */
  ghost predicate Partition(meta: set<nat>, nodes: set<nat>, own: map<int, set<nat>>, used: set<nat>) {
    && used == meta + nodes + AllOwned(own) && 0 in meta && meta !! nodes
    && (forall b :: b in own ==> own[b] !! meta + nodes)
    && forall b, c :: b in own && c in own && b != c ==> own[b] !! own[c]
  }

  lemma AllOwnedPut(own: map<int, set<nat>>, b: int, S: set<nat>)
    requires b !in own
    ensures AllOwned(own[b := S]) == AllOwned(own) + S
  {
    var r := AllOwned(own[b := S]);
    forall x | x in AllOwned(own) + S
      ensures x in r
    {
      if x in S {
        assert x in own[b := S][b];
      } else {
        var c :| c in own && x in own[c];
        assert x in own[b := S][c];
      }
    }
  }

  lemma AllOwnedDrop(own: map<int, set<nat>>, b: int)
    requires b in own && forall c :: c in own && c != b ==> own[b] !! own[c]
    ensures AllOwned(own - {b}) == AllOwned(own) - own[b]
  {
    forall x | x in AllOwned(own) - own[b]
      ensures x in AllOwned(own - {b})
    {
      var c :| c in own && x in own[c];
      assert x in (own - {b})[c];
    }
  }

  /** A new owner takes blocks that were free. */
  lemma Joins(meta: set<nat>, nodes: set<nat>, own: map<int, set<nat>>, used: set<nat>, b: int, S: set<nat>)
    requires Partition(meta, nodes, own, used) && b !in own && S !! used
    ensures Partition(meta, nodes, own[b := S], used + S)
  {
    AllOwnedPut(own, b, S);
    assert forall c :: c in own ==> own[c] <= AllOwned(own);
  }

  lemma Leaves(meta: set<nat>, nodes: set<nat>, own: map<int, set<nat>>, used: set<nat>, b: int)
    requires Partition(meta, nodes, own, used) && b in own
    ensures Partition(meta, nodes, own - {b}, used - own[b])
  {
    AllOwnedDrop(own, b);
  }

  /** One owner has changed what it has. */
  lemma Resized(meta: set<nat>, nodes: set<nat>, own: map<int, set<nat>>, used: set<nat>, b: int, S: set<nat>, used': set<nat>)
    requires Partition(meta, nodes, own, used) && b in own && used' == used - own[b] + S && S !! used - own[b]
    ensures Partition(meta, nodes, own[b := S], used')
  {
    Leaves(meta, nodes, own, used, b);
    Joins(meta, nodes, own - {b}, used - own[b], b, S);
    assert (own - {b})[b := S] == own[b := S];
  }

  lemma NodesChanged(meta: set<nat>, nodes: set<nat>, own: map<int, set<nat>>, used: set<nat>, nodes': set<nat>, used': set<nat>)
    requires Partition(meta, nodes, own, used) && used' == used - nodes + nodes' && used - nodes !! nodes'
    ensures Partition(meta, nodes', own, used')
  {
    assert used - nodes == meta + AllOwned(own) by {
      forall x | x in AllOwned(own)
        ensures x !in nodes
      {
        var c :| c in own && x in own[c];
      }
    }
    forall c | c in own
      ensures own[c] <= used - nodes
    {
    }
  }

  lemma OwnPart(meta: set<nat>, nodes: set<nat>, own: map<int, set<nat>>, used: set<nat>, b: int)
    requires Partition(meta, nodes, own, used) && b in own
    ensures own[b] <= used && meta <= used && nodes <= used && 0 !in own[b] && 0 in used && 0 !in nodes
  {
  }

  /** Blocks that nobody has claimed yet are counted with the header and the bitmap. */
  lemma Unclaimed(meta: set<nat>, nodes: set<nat>, own: map<int, set<nat>>, used: set<nat>, S: set<nat>)
    requires Partition(meta, nodes, own, used) && S !! used
    ensures Partition(meta + S, nodes, own, used + S)
  {
    assert forall c :: c in own ==> own[c] <= AllOwned(own);
  }

  lemma Freed(meta: set<nat>, nodes: set<nat>, own: map<int, set<nat>>, used: set<nat>, S: set<nat>)
    requires Partition(meta + S, nodes, own, used) && S !! meta && 0 in meta
    ensures Partition(meta, nodes, own, used - S)
  {
    assert AllOwned(own) !! S by {
      forall x | x in AllOwned(own)
        ensures x !in S
      {
        var c :| c in own && x in own[c];
      }
    }
  }

  lemma Claimed(meta: set<nat>, nodes: set<nat>, own: map<int, set<nat>>, used: set<nat>, b: int, S: set<nat>)
    requires Partition(meta + S, nodes, own, used) && S !! meta && 0 in meta && b !in own
    ensures Partition(meta, nodes, own[b := S], used)
  {
    Freed(meta, nodes, own, used, S);
    Joins(meta, nodes, own, used - S, b, S);
    assert used - S + S == used;
  }

  lemma Abandoned(meta: set<nat>, nodes: set<nat>, own: map<int, set<nat>>, used: set<nat>, b: int)
    requires Partition(meta, nodes, own, used) && b in own
    ensures Partition(meta + own[b], nodes, own - {b}, used)
  {
    OwnPart(meta, nodes, own, used, b);
    Leaves(meta, nodes, own, used, b);
    Unclaimed(meta, nodes, own - {b}, used - own[b], own[b]);
    assert used - own[b] + own[b] == used;
  }
}
