/** Aging and eviction: core/dio.c:281-314, 355-466, 837-876. */
module DioShrink {
  import opened Common
  import opened Stripes
  import opened DioAge
  import opened Dio

  // ---------------------------------------------------------------- references of a walk

  /** One more reference on each cluster of S. */
  ghost function Marks(n: nat, S: set<nat>): (r: seq<nat>)
    ensures |r| == n && forall i :: 0 <= i < n ==> r[i] == if i in S then 1 else 0
  {
    seq(n, i => if i in S then 1 else 0)
  }

  ghost predicate Marked(d: Dev, S: set<nat>)
    reads d
  {
    d.With(Marks(|d.disk|, S)) && S <= d.clus.Keys
  }

  lemma NoMarks(d: Dev)
    ensures d.Valid() <==> Marked(d, {})
  {
    assert d.None() == Marks(|d.disk|, {});
  }

  method RefBatch(d: Dev, batch: seq<nat>, ghost S: set<nat>)
    requires Marked(d, S) && Elements(batch) <= d.clus.Keys - S
    requires Ascending(batch)
    modifies d`clus
    ensures Marked(d, S + Elements(batch)) && d.clus.Keys == old(d.clus).Keys
  {
    var j := 0;
    assert S + Elements(batch[..0]) == S;
    while j < |batch|
      invariant 0 <= j <= |batch| && Marked(d, S + Elements(batch[..j])) && d.clus.Keys == old(d.clus).Keys
    {
      ghost var T := S + Elements(batch[..j]);
      assert batch[j] in Elements(batch);
      assert batch[j] !in T;
      d.SeenAsIs(batch[j]);
      d.Ref(batch[j], Marks(|d.disk|, T), false);
      d.SeenAsIs(batch[j]);
      assert Marks(|d.disk|, T)[batch[j] := 1] == Marks(|d.disk|, T + {batch[j]});
      assert T + {batch[j]} == S + Elements(batch[..j + 1]);
      j := j + 1;
    }
    assert batch[..j] == batch;
  }

  method DerefOne(d: Dev, i: nat, ghost S: set<nat>)
    requires Marked(d, S) && i in S
    modifies d`clus
    ensures Marked(d, S - {i}) && d.clus.Keys == old(d.clus).Keys
  {
    d.Deref(i, Marks(|d.disk|, S));
    assert Marks(|d.disk|, S)[i := 0] == Marks(|d.disk|, S - {i});
  }

  // ---------------------------------------------------------------- aging

  ghost function TickOne(h: seq<bool>): seq<bool> {
    if h == [] then [] else Ticked(h)
  }

  /** The histories after a tick that has come to index n, except for S. */
  ghost function TickBelow(hist: seq<seq<bool>>, n: nat, S: set<nat>): (r: seq<seq<bool>>)
    ensures |r| == |hist|
    ensures forall i :: 0 <= i < |hist| ==> r[i] == if i < n && i !in S then TickOne(hist[i]) else hist[i]
  {
    seq(|hist|, i requires 0 <= i < |hist| => if i < n && i !in S then TickOne(hist[i]) else hist[i])
  }

  /** dio_clu_age. */
  method AgeOne(d: Dev, i: nat, ghost S: set<nat>)
    requires Marked(d, S) && i in S
    modifies d
    ensures Marked(d, S) && d.disk == old(d.disk) && d.clus.Keys == old(d.clus).Keys
    ensures d.g == old(d.g.(hist := d.g.hist[i := TickOne(d.g.hist[i])]))
  {
    ghost var extra := Marks(|d.disk|, S);
    SlotAt(d.np, i, d.disk, d.clus, d.nrClus, d.g, extra);
    TickAge(d.g.hist[i]);
    var c := d.clus[i];
    c := c.(age := Tick(c.age));
    ghost var g' := d.g.(hist := d.g.hist[i := TickOne(d.g.hist[i])]);
    StepPut(d.np, i, d.disk, d.clus, d.nrClus, d.g, extra, c, d.disk, g', extra);
    d.clus := d.clus[i := c];
    d.g := g';
  }

  ghost predicate Ascending(s: seq<nat>) {
    forall p, q :: 0 <= p < q < |s| ==> s[p] < s[q]
  }

  ghost predicate NoRepeat(s: seq<nat>) {
    forall p, q :: 0 <= p < q < |s| ==> s[p] != s[q]
  }

  lemma RestOf(s: seq<nat>, j: nat)
    requires j < |s| && NoRepeat(s)
    ensures s[j] in Elements(s[j..]) && Elements(s[j..]) - {s[j]} == Elements(s[j + 1..])
  {
    assert s[j..] == [s[j]] + s[j + 1..];
    assert s[j] !in s[j + 1..];
  }

  ghost function TickedTo(g: Shadow, next: nat, S: set<nat>): Shadow {
    g.(hist := TickBelow(g.hist, next, S))
  }

  lemma TickStep(g: Shadow, next: nat, S: set<nat>, i: nat, g': Shadow)
    requires i in S && i < next && i < |g.hist| && g' == TickedTo(g, next, S)
    ensures g'.(hist := g'.hist[i := TickOne(g'.hist[i])]) == TickedTo(g, next, S - {i})
  {
    assert TickBelow(g.hist, next, S)[i := TickOne(g.hist[i])] == TickBelow(g.hist, next, S - {i});
  }

  /** Between first and next, what is not in the batch is not cached. */
  lemma SkipGaps(d: Dev, batch: seq<nat>, first: nat, next: nat, g: Shadow)
    requires first <= next <= |d.disk| && batch == InOrder(d.clus.Keys, first, next) && d.Valid()
    requires |g.hist| == |d.disk| && d.g == TickedTo(g, first, {})
    ensures d.g == TickedTo(g, next, Elements(batch))
  {
    var T := TickBelow(g.hist, next, Elements(batch));
    InOrderFacts(d.clus.Keys, first, next);
    forall i | 0 <= i < |g.hist|
      ensures d.g.hist[i] == T[i]
    {
      SlotAt(d.np, i, d.disk, d.clus, d.nrClus, d.g, d.None());
    }
    assert d.g.hist == T;
  }

  method AgeAndDeref(d: Dev, i: nat, ghost S: set<nat>, ghost next: nat, ghost g: Shadow)
    requires Marked(d, S) && i in S && i < next && d.g == TickedTo(g, next, S)
    modifies d
    ensures Marked(d, S - {i}) && d.disk == old(d.disk) && d.clus.Keys == old(d.clus).Keys
    ensures d.g == TickedTo(g, next, S - {i})
  {
    TickStep(g, next, S, i, d.g);
    AgeOne(d, i, S);
    DerefOne(d, i, S);
  }

  method AgeBatch(d: Dev, batch: seq<nat>, ghost next: nat, ghost g: Shadow)
    requires Marked(d, Elements(batch)) && d.g == TickedTo(g, next, Elements(batch))
    requires NoRepeat(batch) && forall p :: 0 <= p < |batch| ==> batch[p] < next
    modifies d
    ensures Marked(d, {}) && d.disk == old(d.disk) && d.clus.Keys == old(d.clus).Keys
    ensures d.g == TickedTo(g, next, {})
  {
    var j := 0;
    ghost var S := Elements(batch);
    assert batch[0..] == batch;
    while j < |batch|
      invariant 0 <= j <= |batch| && S == Elements(batch[j..]) && Marked(d, S)
      invariant d.disk == old(d.disk) && d.clus.Keys == old(d.clus).Keys
      invariant d.g == TickedTo(g, next, S)
    {
      RestOf(batch, j);
      AgeAndDeref(d, batch[j], S, next, g);
      S := S - {batch[j]};
      j := j + 1;
    }
    assert S == {};
  }

  /** dio_clus_age: one tick for every cached cluster. */
  method AgeAll(d: Dev)
    requires d.Valid()
    modifies d
    ensures d.Valid() && d.disk == old(d.disk) && d.clus.Keys == old(d.clus).Keys
    ensures d.g == TickedTo(old(d.g), |d.disk|, {})
  {
    ghost var g := d.g;
    var first := 0;
    assert TickBelow(g.hist, 0, {}) == g.hist;
    while true
      invariant first <= |d.disk| && d.Valid() && d.disk == old(d.disk) && d.clus.Keys == old(d.clus).Keys
      invariant d.g == TickedTo(g, first, {})
      decreases |d.disk| - first
    {
      var batch, next := d.GangLookup(first);
      SkipGaps(d, batch, first, next, g);
      InOrderFacts(d.clus.Keys, first, next);
      NoMarks(d);
      assert {} + Elements(batch) == Elements(batch);
      RefBatch(d, batch, {});
      if batch == [] {
        assert Elements(batch) == {};
        NoMarks(d);
        break;
      }
      AgeBatch(d, batch, next, g);
      NoMarks(d);
      first := next;
    }
  }

  // ---------------------------------------------------------------- candidates

  const LIMIT := 512

  ghost predicate Free(g: Shadow, i: nat)
    requires i < |g.hist| && i < |g.held|
  {
    g.hist[i] != [] && g.held[i] == 0
  }

  /** The cached clusters below n that nobody holds, in order; at most as many as a page has room for. */
  ghost function Candidates(g: Shadow, n: nat): (r: seq<nat>)
    requires n <= |g.hist| == |g.held|
    ensures |r| <= LIMIT && Ascending(r)
    ensures forall p :: 0 <= p < |r| ==> r[p] < n && Free(g, r[p])
  {
    if n == 0 then [] else
      var r := Candidates(g, n - 1);
      if |r| < LIMIT && Free(g, n - 1) then r + [n - 1] else r
  }

  /** The cached clusters below n that nobody holds. */
  ghost function FreeBelow(g: Shadow, n: nat): set<nat>
    requires n <= |g.hist| == |g.held|
  {
    set i | 0 <= i < n && Free(g, i)
  }

  lemma FreeNext(g: Shadow, n: nat)
    requires n < |g.hist| == |g.held|
    ensures FreeBelow(g, n + 1) == FreeBelow(g, n) + (if Free(g, n) then {n} else {})
    ensures |FreeBelow(g, n + 1)| == |FreeBelow(g, n)| + if Free(g, n) then 1 else 0
  {
    assert FreeBelow(g, n + 1) == FreeBelow(g, n) + (if Free(g, n) then {n} else {});
  }

  /** c has all of F if that is at most 512; otherwise the first 512 of it. */
  ghost predicate FirstOf(F: set<nat>, c: seq<nat>) {
    && Elements(c) <= F && |c| == (if |F| <= 512 then |F| else 512) && (|F| <= 512 ==> Elements(c) == F)
    && forall i, p :: i in F && i !in c && 0 <= p < |c| ==> c[p] < i
  }

  lemma FirstNext(F: set<nat>, c: seq<nat>, m: nat)
    requires FirstOf(F, c) && forall i :: i in F ==> i < m
    ensures FirstOf(F + {m}, if |c| < 512 then c + [m] else c)
  {
    assert |F + {m}| == |F| + 1;
    if |c| < 512 {
      assert Elements(c + [m]) == F + {m};
    } else {
      forall p | 0 <= p < |c|
        ensures c[p] < m
      {
        assert c[p] in Elements(c);
      }
    }
  }

  /** Which of the free clusters are candidates. */
  lemma {:induction false} CandidatesAre(g: Shadow, n: nat)
    requires n <= |g.hist| == |g.held|
    ensures FirstOf(FreeBelow(g, n), Candidates(g, n))
  {
    hide FirstOf;
    if n == 0 {
      FirstOfNone();
      assert FreeBelow(g, 0) == {};
    } else {
      CandidatesAre(g, n - 1);
      FreeNext(g, n - 1);
      if Free(g, n - 1) {
        FirstNext(FreeBelow(g, n - 1), Candidates(g, n - 1), n - 1);
      } else {
        assert FreeBelow(g, n) == FreeBelow(g, n - 1);
      }
    }
  }

  lemma FirstOfNone()
    ensures FirstOf({}, [])
  {
  }

  lemma {:induction false} CandidatesFull(g: Shadow, a: nat, b: nat)
    requires a <= b <= |g.hist| == |g.held| && |Candidates(g, a)| == LIMIT
    ensures Candidates(g, b) == Candidates(g, a)
    decreases b
  {
    if a < b {
      CandidatesFull(g, a, b - 1);
      assert |Candidates(g, b - 1)| == LIMIT;
    }
  }

  lemma NotFree(g: Shadow, i: nat)
    requires i < |g.hist| == |g.held| && !Free(g, i)
    ensures Candidates(g, i + 1) == Candidates(g, i)
  {
  }

  lemma {:induction false} CandidatesGap(g: Shadow, a: nat, b: nat)
    requires a <= b <= |g.hist| == |g.held| && forall x :: a <= x < b ==> g.hist[x] == []
    ensures Candidates(g, b) == Candidates(g, a)
    decreases b
  {
    if a < b {
      CandidatesGap(g, a, b - 1);
      NotFree(g, b - 1);
    }
  }

  /** Keeps cluster i as a candidate or lets go of it. */
  method Consider(d: Dev, i: nat, nodes: seq<nat>, ghost S: set<nat>) returns (nodes': seq<nat>, ghost S': set<nat>)
    requires Marked(d, S) && i in S && i < |d.disk| && nodes == Candidates(d.g, i)
    modifies d`clus
    ensures nodes' == Candidates(d.g, i + 1) && Marked(d, S') && d.clus.Keys == old(d.clus).Keys
    ensures if i in nodes' then nodes' == nodes + [i] && S' == S else nodes' == nodes && S' == S - {i}
  {
    SlotAt(d.np, i, d.disk, d.clus, d.nrClus, d.g, Marks(|d.disk|, S));
    nodes', S' := nodes, S;
    if d.clus[i].pins == 0 && |nodes| < LIMIT {
      nodes' := nodes + [i];
    } else {
      DerefOne(d, i, S);
      S' := S - {i};
    }
  }

  lemma GapBefore(d: Dev, S: set<nat>, a: nat, b: nat)
    requires Marked(d, S) && a <= b <= |d.disk| && forall x :: a <= x < b ==> x !in d.clus
    ensures Sizes(d.disk, d.g, Marks(|d.disk|, S)) && Candidates(d.g, b) == Candidates(d.g, a)
  {
    forall x | a <= x < b
      ensures d.g.hist[x] == []
    {
      SlotAt(d.np, x, d.disk, d.clus, d.nrClus, d.g, Marks(|d.disk|, S));
    }
    CandidatesGap(d.g, a, b);
  }

  /** The rest of a batch, after its first cluster. */
  lemma {:induction false} InOrderRest(keys: set<nat>, a: nat, b: nat)
    ensures var r := InOrder(keys, a, b);
      if r == [] then forall x :: a <= x < b ==> x !in keys
      else a <= r[0] < b && r[0] in keys && r[1..] == InOrder(keys, r[0] + 1, b) && forall x :: a <= x < r[0] ==> x !in keys
    decreases b
  {
    if b > a {
      InOrderRest(keys, a, b - 1);
    }
  }

  /** `rest` of a batch is still to be considered. */
  ghost predicate Considering(d: Dev, nodes: seq<nat>, rest: seq<nat>, at: nat, next: nat)
    reads d
  {
    && Marked(d, Elements(nodes) + Elements(rest)) && rest == InOrder(d.clus.Keys, at, next)
    && at <= |d.g.hist| && at <= next && nodes == Candidates(d.g, at)
  }

  lemma NextFacts(d: Dev, nodes: seq<nat>, rest: seq<nat>, at: nat, next: nat)
    requires Considering(d, nodes, rest, at, next) && rest != []
    ensures rest[0] in Elements(nodes) + Elements(rest) && rest[0] < |d.disk| && rest[0] < next
    ensures rest[1..] == InOrder(d.clus.Keys, rest[0] + 1, next)
    ensures |d.g.hist| == |d.g.held| == |d.disk| && nodes == Candidates(d.g, rest[0])
  {
    assert rest[0] in rest;
    InOrderRest(d.clus.Keys, at, next);
    GapBefore(d, Elements(nodes) + Elements(rest), at, rest[0]);
  }

  method ConsiderNext(d: Dev, i: nat, nodes: seq<nat>, ghost rest: seq<nat>, ghost at: nat, ghost next: nat)
    returns (nodes': seq<nat>)
    requires Considering(d, nodes, rest, at, next) && rest != [] && rest[0] == i
    modifies d`clus
    ensures Considering(d, nodes', rest[1..], i + 1, next) && d.clus.Keys == old(d.clus).Keys
  {
    hide InOrder, Candidates;
    NextFacts(d, nodes, rest, at, next);
    ghost var S';
    nodes', S' := Consider(d, i, nodes, Elements(nodes) + Elements(rest));
    KeptOrNot(nodes, nodes', rest, d.clus.Keys, at, next, S');
  }

  lemma KeptOrNot(nodes: seq<nat>, nodes': seq<nat>, rest: seq<nat>, keys: set<nat>, at: nat, next: nat, S: set<nat>)
    requires rest == InOrder(keys, at, next) && rest != [] && forall p :: 0 <= p < |nodes| ==> nodes[p] < rest[0]
    requires if rest[0] in nodes' then nodes' == nodes + [rest[0]] && S == Elements(nodes) + Elements(rest)
      else nodes' == nodes && S == Elements(nodes) + Elements(rest) - {rest[0]}
    ensures S == Elements(nodes') + Elements(rest[1..])
  {
    InOrderFacts(keys, at, next);
    assert rest == [rest[0]] + rest[1..];
    assert rest[0] !in nodes && rest[0] !in rest[1..];
  }

  method ConsiderAll(d: Dev, batch: seq<nat>, nodes: seq<nat>, ghost first: nat, ghost next: nat)
    returns (nodes': seq<nat>, ghost at: nat)
    requires Considering(d, nodes, batch, first, next)
    modifies d`clus
    ensures Considering(d, nodes', [], at, next) && d.clus.Keys == old(d.clus).Keys
  {
    nodes', at := nodes, first;
    var j := 0;
    ghost var rest := batch;
    while j < |batch|
      invariant 0 <= j <= |batch| && rest == batch[j..]
      invariant Considering(d, nodes', rest, at, next) && d.clus.Keys == old(d.clus).Keys
    {
      nodes' := ConsiderNext(d, batch[j], nodes', rest, at, next);
      at, rest := batch[j] + 1, rest[1..];
      j := j + 1;
    }
  }

  method ConsiderBatch(d: Dev, batch: seq<nat>, nodes: seq<nat>, ghost first: nat, ghost next: nat) returns (nodes': seq<nat>)
    requires next <= |d.disk| && Considering(d, nodes, batch, first, next)
    modifies d`clus
    ensures next <= |d.g.hist| && |d.g.hist| == |d.g.held| && nodes' == Candidates(d.g, next) && Marked(d, Elements(nodes')) && d.clus.Keys == old(d.clus).Keys
  {
    ghost var at;
    nodes', at := ConsiderAll(d, batch, nodes, first, next);
    ConsiderEnd(d, nodes', at, next);
  }

  lemma ConsiderEnd(d: Dev, nodes: seq<nat>, at: nat, next: nat)
    requires Considering(d, nodes, [], at, next) && at <= next <= |d.disk|
    ensures next <= |d.g.hist| && |d.g.hist| == |d.g.held| && nodes == Candidates(d.g, next) && Marked(d, Elements(nodes))
  {
    InOrderRest(d.clus.Keys, at, next);
    assert Elements(nodes) + Elements([]) == Elements(nodes);
    GapBefore(d, Elements(nodes), at, next);
  }

  /** The first loop of dio_clus_lru_frees: the candidates, each with a reference. */
  method Gather(d: Dev) returns (nodes: seq<nat>)
    requires d.Valid()
    modifies d`clus
    ensures |d.disk| == |d.g.hist| == |d.g.held| && nodes == Candidates(d.g, |d.disk|)
    ensures FirstOf(FreeBelow(d.g, |d.disk|), nodes)
    ensures Marked(d, Elements(nodes)) && d.clus.Keys == old(d.clus).Keys
  {
    hide FirstOf;
    nodes := [];
    NoMarks(d);
    assert Elements(nodes) == {};
    var first := 0;
    while |nodes| < LIMIT
      invariant first <= |d.disk| == |d.g.hist| == |d.g.held| && nodes == Candidates(d.g, first)
      invariant Marked(d, Elements(nodes)) && d.clus.Keys == old(d.clus).Keys
      decreases |d.disk| - first
    {
      var batch, next := d.GangLookup(first);
      FreshBatch(d, nodes, first, next);
      RefBatch(d, batch, Elements(nodes));
      nodes := ConsiderBatch(d, batch, nodes, first, next);
      first := next;
      if batch == [] {
        break;
      }
    }
    if first < |d.disk| {
      CandidatesFull(d.g, first, |d.disk|);
    }
    CandidatesAre(d.g, |d.disk|);
  }

  /** A batch has nothing of the candidates before it. */
  lemma FreshBatch(d: Dev, nodes: seq<nat>, first: nat, next: nat)
    requires first <= |d.g.hist| && |d.g.hist| == |d.g.held| && nodes == Candidates(d.g, first)
    ensures Elements(InOrder(d.clus.Keys, first, next)) <= d.clus.Keys - Elements(nodes)
    ensures Ascending(InOrder(d.clus.Keys, first, next))
  {
    InOrderFacts(d.clus.Keys, first, next);
  }

  // ---------------------------------------------------------------- eviction

  ghost predicate ByAge(g: Shadow, s: seq<nat>) {
    forall p, q :: 0 <= p < q < |s| && s[p] < |g.hist| && s[q] < |g.hist| ==> AgeOf(g.hist[s[p]]) <= AgeOf(g.hist[s[q]])
  }

  function AgeIn(clus: Clus, i: nat): nat {
    if i in clus then clus[i].age else 0
  }

  ghost predicate InAges(clus: Clus, s: seq<nat>) {
    forall p, q :: 0 <= p < q < |s| ==> AgeIn(clus, s[p]) <= AgeIn(clus, s[q])
  }

  method FindPlace(clus: Clus, s: seq<nat>, x: nat) returns (k: nat)
    ensures k <= |s| && (k > 0 ==> AgeIn(clus, s[k - 1]) <= AgeIn(clus, x))
    ensures forall p :: k <= p < |s| ==> AgeIn(clus, s[p]) > AgeIn(clus, x)
  {
    k := |s|;
    while k > 0 && AgeIn(clus, s[k - 1]) > AgeIn(clus, x)
      invariant 0 <= k <= |s|
      invariant forall p :: k <= p < |s| ==> AgeIn(clus, s[p]) > AgeIn(clus, x)
    {
      k := k - 1;
    }
  }

  function Placed(s: seq<nat>, x: nat, k: nat): seq<nat>
    requires k <= |s|
  {
    s[..k] + [x] + s[k..]
  }

  lemma PlacedElements(s: seq<nat>, x: nat, k: nat)
    requires k <= |s|
    ensures multiset(Placed(s, x, k)) == multiset(s) + multiset{x}
  {
    assert s == s[..k] + s[k..];
  }

  /** sort() with dio_clu_age_cmp: here by insertion. */
  method Insert(clus: Clus, s: seq<nat>, x: nat) returns (r: seq<nat>)
    requires InAges(clus, s)
    ensures multiset(r) == multiset(s) + multiset{x} && InAges(clus, r)
  {
    var k := FindPlace(clus, s, x);
    InsertedInAges(clus, s, x, k);
    PlacedElements(s, x, k);
    r := Placed(s, x, k);
  }

  lemma InsertedInAges(clus: Clus, s: seq<nat>, x: nat, k: nat)
    requires InAges(clus, s) && k <= |s| && (k > 0 ==> AgeIn(clus, s[k - 1]) <= AgeIn(clus, x))
    requires forall p :: k <= p < |s| ==> AgeIn(clus, s[p]) > AgeIn(clus, x)
    ensures InAges(clus, Placed(s, x, k))
  {
    var r := Placed(s, x, k);
    forall p, q | 0 <= p < q < |r|
      ensures AgeIn(clus, r[p]) <= AgeIn(clus, r[q])
    {
      var a, b := if p < k then p else p - 1, if q < k then q else q - 1;
      if p != k {
        assert r[p] == s[a];
      }
      if q != k {
        assert r[q] == s[b];
      }
      if q == k && p < k - 1 {
        assert AgeIn(clus, s[p]) <= AgeIn(clus, s[k - 1]);
      }
    }
  }

  method SortNodes(clus: Clus, nodes: seq<nat>) returns (order: seq<nat>)
    ensures multiset(order) == multiset(nodes) && InAges(clus, order)
  {
    order := [];
    var j := 0;
    while j < |nodes|
      invariant 0 <= j <= |nodes| && multiset(order) == multiset(nodes[..j]) && InAges(clus, order)
    {
      assert nodes[..j + 1] == nodes[..j] + [nodes[j]];
      order := Insert(clus, order, nodes[j]);
      j := j + 1;
    }
    assert nodes[..j] == nodes;
  }

  lemma AgesAreTrue(d: Dev, S: set<nat>, order: seq<nat>)
    requires Marked(d, S) && InAges(d.clus, order) && Elements(order) <= S
    ensures ByAge(d.g, order)
  {
    forall p, q | 0 <= p < q < |order| && order[p] < |d.g.hist| && order[q] < |d.g.hist|
      ensures AgeOf(d.g.hist[order[p]]) <= AgeOf(d.g.hist[order[q]])
    {
      assert order[p] in Elements(order) && order[q] in Elements(order);
      SlotAt(d.np, order[p], d.disk, d.clus, d.nrClus, d.g, Marks(|d.disk|, S));
      SlotAt(d.np, order[q], d.disk, d.clus, d.nrClus, d.g, Marks(|d.disk|, S));
      assert AgeIn(d.clus, order[p]) <= AgeIn(d.clus, order[q]);
    }
  }

  // ---------------------------------------------------------------- removal

  ghost function Dropped(g: Shadow, i: nat): Shadow
    requires i < |g.hist|
  {
    g.(hist := g.hist[i := []])
  }

  /** What readers see when cluster i is gone: if its dirty flag was missing, what is on disk. */
  ghost function Reread(g: Shadow, i: nat, disk: seq<Bytes>, lost: bool): Shadow
    requires i < |g.flat| && i < |disk|
  {
    if lost then g.(flat := g.flat[i := disk[i]]) else g
  }

  /** dio_clu_remove of a cluster that nobody holds, dio_clu_sync, and the references of the tree and of its making. `loose`:
      the dirty flag may be missing. */
  method Evict(d: Dev, i: nat, ghost S: set<nat>, ghost loose: bool) returns (node: Clu)
    requires d.WithFlag(Marks(|d.disk|, S), i, loose) && S <= d.clus.Keys && i in S
    requires i < |d.disk| && i < |d.g.held| && i < |d.g.flat| && i < |d.g.hist| && d.g.held[i] == 0
    modifies d
    ensures Marked(d, S - {i}) && d.clus.Keys == old(d.clus).Keys - {i} && d.nrClus == old(d.nrClus) - 1
    ensures i in old(d.clus) && |d.disk| == |old(d.disk)|
    ensures d.g == Dropped(Reread(old(d.g), i, old(d.disk), loose && !old(d.clus)[i].dirty), i)
    ensures node.ref == 1 && !node.dirty
  {
    ghost var n, seen, lost := |d.disk|, d.Seen(i, loose), loose && !d.clus[i].dirty;
    ghost var g' := Dropped(Reread(d.g, i, d.disk, lost), i);
    SlotAt(d.np, i, d.disk, seen, d.nrClus, d.g, Marks(n, S));
    node := d.clus[i];
    var disk' := d.disk;
    if node.dirty {
      disk' := d.disk[i := Concat(node.pages)];
      node := node.(dirty := false);
    }
    StepDrop(d.np, i, d.disk, seen, d.nrClus, d.g, Marks(n, S), disk', g', Marks(n, S)[i := 0]);
    assert Marks(n, S)[i := 0] == Marks(n, S - {i});
    assert seen - {i} == d.clus - {i};
    d.clus, d.nrClus, d.disk := d.clus - {i}, d.nrClus - 1, disk';
    d.g := g';
    node := node.(ref := node.ref - 1);
    node := node.(ref := node.ref - 1);
  }

  /** The shadow without the clusters of `done`. */
  ghost function DroppedAll(g: Shadow, done: set<nat>): (r: Shadow)
    ensures r.flat == g.flat && r.held == g.held && |r.hist| == |g.hist|
    ensures forall i :: 0 <= i < |g.hist| ==> r.hist[i] == if i in done then [] else g.hist[i]
  {
    g.(hist := seq(|g.hist|, i requires 0 <= i < |g.hist| => if i in done then [] else g.hist[i]))
  }

  lemma DropNext(g: Shadow, done: set<nat>, i: nat)
    requires i < |g.hist|
    ensures Dropped(DroppedAll(g, done), i) == DroppedAll(g, done + {i})
  {
    assert Dropped(DroppedAll(g, done), i).hist == DroppedAll(g, done + {i}).hist;
  }

  /** Removed from the cache, with the reference of the walk left. */
  ghost predicate Loose(out: Clus, done: set<nat>) {
    out.Keys == done && forall i :: i in out ==> out[i].ref == 1 && !out[i].dirty
  }

  /** The walk has evicted `done`, and holds `rest`. */
  ghost predicate Evicting(d: Dev, rest: set<nat>, done: set<nat>, out: Clus, g: Shadow, keys: set<nat>, n: int)
    reads d
  {
    && Marked(d, rest) && Loose(out, done) && d.g == DroppedAll(g, done)
    && d.clus.Keys == keys - done && d.nrClus == n - |done|
  }

  method EvictNext(d: Dev, i: nat, out: Clus, ghost rest: set<nat>, ghost done: set<nat>, ghost g: Shadow,
      ghost keys: set<nat>, ghost n: int) returns (out': Clus)
    requires Evicting(d, rest, done, out, g, keys, n) && i in rest && i < |g.held| == |g.hist| && g.held[i] == 0
    modifies d
    ensures Evicting(d, rest - {i}, done + {i}, out', g, keys, n) && |d.disk| == |old(d.disk)|
  {
    DropNext(g, done, i);
    OneMore(keys, done, i);
    d.SeenAsIs(i);
    var node := Evict(d, i, rest, false);
    out' := out[i := node];
    LooseNext(out, done, i, node);
  }

  lemma OneMore(keys: set<nat>, done: set<nat>, i: nat)
    requires i in keys - done
    ensures keys - done - {i} == keys - (done + {i}) && |done + {i}| == |done| + 1
  {
  }

  lemma LooseNext(out: Clus, done: set<nat>, i: nat, node: Clu)
    requires Loose(out, done) && node.ref == 1 && !node.dirty
    ensures Loose(out[i := node], done + {i})
  {
  }

  ghost predicate CutAt(order: seq<nat>, k: nat, done: set<nat>, rest: set<nat>) {
    k <= |order| && done == Elements(order[..k]) && rest == Elements(order[k..]) && |done| == k
  }

  lemma CutStart(order: seq<nat>)
    ensures CutAt(order, 0, {}, Elements(order))
  {
    assert order[..0] == [] && order[0..] == order;
  }

  lemma CutNext(order: seq<nat>, k: nat, done: set<nat>, rest: set<nat>)
    requires CutAt(order, k, done, rest) && k < |order| && NoRepeat(order)
    ensures order[k] in rest && order[k] !in done && CutAt(order, k + 1, done + {order[k]}, rest - {order[k]})
  {
    RestOf(order, k);
    assert order[..k + 1] == order[..k] + [order[k]];
    assert order[k] !in order[..k];
  }

  lemma EvictingStart(d: Dev, S: set<nat>)
    requires Marked(d, S)
    ensures Evicting(d, S, {}, map[], d.g, d.clus.Keys, d.nrClus)
  {
    assert DroppedAll(d.g, {}).hist == d.g.hist;
  }

  lemma EvictingCount(d: Dev, rest: set<nat>, done: set<nat>, out: Clus, g: Shadow, keys: set<nat>, n: int)
    requires Evicting(d, rest, done, out, g, keys, n)
    ensures d.nrClus == n - |done|
  {
  }

  /** The second loop of dio_clus_lru_frees: the first of `order` go until the cache is small enough. */
  method EvictOldest(d: Dev, order: seq<nat>) returns (out: Clus, ghost k: nat, ghost done: set<nat>, ghost rest: set<nat>)
    requires Marked(d, Elements(order)) && NoRepeat(order) && |d.g.held| == |d.g.hist| && d.nrClus > d.nrMax
    requires forall p :: 0 <= p < |order| ==> order[p] < |d.g.held| && d.g.held[order[p]] == 0
    modifies d
    ensures CutAt(order, k, done, rest) && Evicting(d, rest, done, out, old(d.g), old(d.clus).Keys, old(d.nrClus))
    ensures |d.disk| == |old(d.disk)|
    ensures k == if old(d.nrClus) - d.nrMax < |order| then old(d.nrClus) - d.nrMax else |order|
  {
    hide Evicting, Marked;
    out, k, done, rest := map[], 0, {}, Elements(order);
    CutStart(order);
    ghost var g, keys, n := d.g, d.clus.Keys, d.nrClus;
    EvictingStart(d, Elements(order));
    var j := 0;
    while j < |order|
      invariant 0 <= k <= j <= |order| && CutAt(order, k, done, rest) && Evicting(d, rest, done, out, g, keys, n)
      invariant |d.disk| == |old(d.disk)| && k <= n - d.nrMax && (k < j ==> k == n - d.nrMax)
    {
      EvictingCount(d, rest, done, out, g, keys, n);
      if d.nrClus > d.nrMax {
        CutNext(order, k, done, rest);
        out := EvictNext(d, order[j], out, rest, done, g, keys, n);
        k, done, rest := k + 1, done + {order[j]}, rest - {order[j]};
      }
      j := j + 1;
    }
  }

  /** References of the walk that are still there: on evicted clusters and on cached ones. */
  ghost predicate Letting(d: Dev, out: Clus, rest: set<nat>, all: set<nat>)
    reads d
  {
    Marked(d, rest) && Loose(out, out.Keys) && out.Keys !! rest && out.Keys + rest == all
  }

  method LetGoOne(d: Dev, i: nat, out: Clus, ghost rest: set<nat>, ghost all: set<nat>) returns (out': Clus, ghost rest': set<nat>)
    requires Letting(d, out, rest, all) && i in all
    modifies d`clus
    ensures Letting(d, out', rest', all - {i}) && d.clus.Keys == old(d.clus).Keys
  {
    out', rest' := out, rest;
    if i in out {
      // the last reference: dio_clu_release has nothing to write
      assert out[i].ref == 1 && !out[i].dirty;
      out' := out - {i};
    } else {
      DerefOne(d, i, rest);
      rest' := rest - {i};
    }
  }

  /** The last loop: every reference of the walk goes, and with it every cluster that was evicted. */
  method LetGo(d: Dev, order: seq<nat>, out0: Clus, ghost rest0: set<nat>)
    requires Letting(d, out0, rest0, Elements(order)) && NoRepeat(order)
    modifies d`clus
    ensures d.Valid() && d.clus.Keys == old(d.clus).Keys
  {
    var out, j := out0, 0;
    ghost var rest, all := rest0, Elements(order);
    assert order[0..] == order;
    while j < |order|
      invariant 0 <= j <= |order| && all == Elements(order[j..]) && Letting(d, out, rest, all)
      invariant d.clus.Keys == old(d.clus).Keys
    {
      RestOf(order, j);
      out, rest := LetGoOne(d, order[j], out, rest, all);
      all := all - {order[j]};
      j := j + 1;
    }
    assert rest == {};
    NoMarks(d);
  }

  lemma WholeCut(order: seq<nat>, k: nat, done: set<nat>, rest: set<nat>)
    requires CutAt(order, k, done, rest) && NoRepeat(order)
    ensures done !! rest && done + rest == Elements(order)
  {
    assert order == order[..k] + order[k..];
    forall x | x in done
      ensures x !in rest
    {
      assert x in order[..k];
    }
  }

  /** The candidates by age, each with a reference. */
  method GatherSorted(d: Dev) returns (order: seq<nat>)
    requires d.Valid()
    modifies d`clus
    ensures |d.disk| == |d.g.hist| == |d.g.held| && multiset(order) == multiset(Candidates(d.g, |d.disk|)) && ByAge(d.g, order)
    ensures Marked(d, Elements(order)) && d.clus.Keys == old(d.clus).Keys && NoRepeat(order)
    ensures forall p :: 0 <= p < |order| ==> order[p] < |d.g.held| && d.g.held[order[p]] == 0
  {
    var nodes := Gather(d);
    order := SortNodes(d.clus, nodes);
    SortedFacts(d, nodes, order);
  }

  /** The work of dio_clus_lru_frees, for a cache that is too large. */
  method ShrinkOnce(d: Dev) returns (order: seq<nat>, ghost k: nat)
    requires d.Valid() && d.nrClus > d.nrMax
    modifies d
    ensures d.Valid() && |d.disk| == |old(d.disk)| && |old(d.g.hist)| == |old(d.g.held)| == |old(d.disk)|
    ensures multiset(order) == multiset(Candidates(old(d.g), |old(d.disk)|)) && ByAge(old(d.g), order)
    ensures k == if old(d.nrClus) - d.nrMax < |order| then old(d.nrClus) - d.nrMax else |order|
    ensures d.g == DroppedAll(old(d.g), Elements(order[..k])) && d.nrClus == old(d.nrClus) - k
    ensures d.clus.Keys == old(d.clus).Keys - Elements(order[..k])
  {
    hide Candidates, ByAge, Inv;
    order := GatherSorted(d);
    var out;
    ghost var done, rest;
    out, k, done, rest := EvictOldest(d, order);
    WholeCut(order, k, done, rest);
    LetGo(d, order, out, rest);
  }

  /** `gone` is what a walk takes of the free clusters F when it wants so many: of all of them, or of the first 512, those
      with the smallest ages. */
  ghost predicate OldestOf(g: Shadow, F: set<nat>, c: seq<nat>, gone: set<nat>, wanted: nat) {
    && FirstOf(F, c) && gone <= Elements(c) && |gone| == (if wanted < |c| then wanted else |c|)
    && (forall i, j :: i in gone && j in c && j !in gone && i < |g.hist| && j < |g.hist| ==> AgeOf(g.hist[i]) <= AgeOf(g.hist[j]))
  }

  lemma Oldest(g: Shadow, F: set<nat>, c: seq<nat>, order: seq<nat>, k: nat, wanted: nat)
    requires FirstOf(F, c) && multiset(order) == multiset(c) && ByAge(g, order) && NoRepeat(order)
    requires k == if wanted < |order| then wanted else |order|
    ensures OldestOf(g, F, c, Elements(order[..k]), wanted)
  {
    hide FirstOf;
    var gone := Elements(order[..k]);
    SameElements(order, c);
    NoRepeatCount(order[..k]);
    assert |multiset(order)| == |order| && |multiset(c)| == |c|;
    forall i | i in gone
      ensures i in Elements(c)
    {
      assert i in Elements(order);
    }
    forall i, j | i in gone && j in c && j !in gone && i < |g.hist| && j < |g.hist|
      ensures AgeOf(g.hist[i]) <= AgeOf(g.hist[j])
    {
      assert j in Elements(order);
      var p :| 0 <= p < k && order[p] == i;
      var q :| 0 <= q < |order| && order[q] == j;
    }
  }

  lemma OldestGone(g: Shadow, n: nat, order: seq<nat>, k: nat, wanted: nat)
    requires n <= |g.hist| == |g.held| && multiset(order) == multiset(Candidates(g, n)) && ByAge(g, order)
    requires k == if wanted < |order| then wanted else |order|
    ensures OldestOf(g, FreeBelow(g, n), Candidates(g, n), Elements(order[..k]), wanted)
  {
    hide FirstOf, FreeBelow, OldestOf;
    CandidatesAre(g, n);
    NoRepeatMultiset(Candidates(g, n), order);
    Oldest(g, FreeBelow(g, n), Candidates(g, n), order, k, wanted);
  }

  /** With at most 512 of them free, no free cluster that stays is older than one that goes. */
  lemma NoOlderStays(g: Shadow, F: set<nat>, c: seq<nat>, gone: set<nat>, wanted: nat, i: nat, j: nat)
    requires OldestOf(g, F, c, gone, wanted) && |F| <= 512 && i in gone && j in F - gone && i < |g.hist| && j < |g.hist|
    ensures AgeOf(g.hist[i]) <= AgeOf(g.hist[j])
    ensures var h, l := g.hist[i], g.hist[j];
      LastTouch(h) < |h| && LastTouch(h) <= 63 ==> LastTouch(l) <= LastTouch(h) && LastTouch(l) < |l|
  {
    assert j in Elements(c);
    var h, l := g.hist[i], g.hist[j];
    if LastTouch(h) < |h| && LastTouch(h) <= 63 && (LastTouch(l) > LastTouch(h) || LastTouch(l) == |l|) {
      LaterTouchIsGreater(h, l);
    }
  }

  lemma SameElements(r: seq<nat>, s: seq<nat>)
    requires multiset(r) == multiset(s)
    ensures Elements(r) == Elements(s)
  {
    forall x
      ensures x in Elements(r) <==> x in Elements(s)
    {
      assert x in r <==> x in multiset(r);
      assert x in s <==> x in multiset(s);
    }
  }

  lemma {:induction false} NoRepeatCount(s: seq<nat>)
    requires NoRepeat(s)
    ensures |Elements(s)| == |s|
  {
    if s != [] {
      var n := |s| - 1;
      NoRepeatCount(s[..n]);
      assert s == s[..n] + [s[n]];
      assert Elements(s) == Elements(s[..n]) + {s[n]};
    }
  }

  /** dio_clus_lru_frees: of the candidates, the oldest are evicted, until the cache is small enough or none is left.
      `order` is the candidates by age, if there is anything to do. */
  method LruFrees(d: Dev) returns (ghost order: seq<nat>, ghost k: nat)
    requires d.Valid()
    modifies d
    ensures d.Valid() && |d.disk| == |old(d.disk)| && |old(d.g.hist)| == |old(d.g.held)| == |old(d.disk)|
    ensures old(d.nrClus) <= d.nrMax ==> k == 0
    ensures old(d.nrClus) > d.nrMax ==>
      && multiset(order) == multiset(Candidates(old(d.g), |old(d.disk)|)) && ByAge(old(d.g), order)
      && k == if old(d.nrClus) - d.nrMax < |order| then old(d.nrClus) - d.nrMax else |order|
    ensures k <= |order| && d.g == DroppedAll(old(d.g), Elements(order[..k])) && d.nrClus == old(d.nrClus) - k
    ensures d.clus.Keys == old(d.clus).Keys - Elements(order[..k])
    ensures old(d.nrClus) > d.nrMax ==>
      OldestOf(old(d.g), FreeBelow(old(d.g), |old(d.disk)|), Candidates(old(d.g), |old(d.disk)|), Elements(order[..k]),
        old(d.nrClus) - d.nrMax)
  {
    hide OldestOf, FreeBelow;
    order, k := [], 0;
    assert DroppedAll(d.g, {}).hist == d.g.hist;
    ghost var g, wanted := d.g, d.nrClus - d.nrMax;
    if d.nrClus > d.nrMax {
      order, k := ShrinkOnce(d);
      OldestGone(g, |d.disk|, order, k, wanted);
    }
  }

  lemma SortedFacts(d: Dev, nodes: seq<nat>, sorted: seq<nat>)
    requires |d.disk| == |d.g.hist| == |d.g.held| && nodes == Candidates(d.g, |d.disk|) && Marked(d, Elements(nodes))
    requires multiset(sorted) == multiset(nodes) && InAges(d.clus, sorted)
    ensures Elements(sorted) == Elements(nodes) && NoRepeat(sorted) && ByAge(d.g, sorted)
    ensures forall p :: 0 <= p < |sorted| ==> sorted[p] < |d.g.held| && d.g.held[sorted[p]] == 0
  {
    SameElements(sorted, nodes);
    NoRepeatMultiset(nodes, sorted);
    AgesAreTrue(d, Elements(nodes), sorted);
    forall p | 0 <= p < |sorted|
      ensures sorted[p] < |d.g.held| && d.g.held[sorted[p]] == 0
    {
      assert sorted[p] in Elements(sorted);
      var q :| 0 <= q < |nodes| && nodes[q] == sorted[p];
      assert Free(d.g, nodes[q]);
    }
  }

  lemma NoRepeatMultiset(s: seq<nat>, r: seq<nat>)
    requires Ascending(s) && multiset(r) == multiset(s)
    ensures NoRepeat(r)
  {
    forall p, q | 0 <= p < q < |r|
      ensures r[p] != r[q]
    {
      if r[p] == r[q] {
        assert r == r[..p] + [r[p]] + r[p + 1..q] + [r[q]] + r[q + 1..];
        assert multiset(r)[r[p]] >= 2;
        OnlyOnce(s, r[p]);
      }
    }
  }

  lemma {:induction false} OnlyOnce(s: seq<nat>, x: nat)
    requires Ascending(s)
    ensures multiset(s)[x] <= 1
  {
    if s != [] {
      var n := |s| - 1;
      OnlyOnce(s[..n], x);
      assert s == s[..n] + [s[n]];
      if s[n] == x {
        assert x !in s[..n];
      }
    }
  }

  /** Of two candidates, the one that goes first was not touched in a later tick, as far as 63 ticks back. */
  lemma LeastRecentFirst(g: Shadow, order: seq<nat>, p: nat, q: nat)
    requires ByAge(g, order) && p < q < |order| && order[p] < |g.hist| && order[q] < |g.hist|
    ensures var h, l := g.hist[order[p]], g.hist[order[q]];
      LastTouch(h) < |h| && LastTouch(h) <= 63 ==> LastTouch(l) <= LastTouch(h) && LastTouch(l) < |l|
  {
    var h, l := g.hist[order[p]], g.hist[order[q]];
    if LastTouch(h) < |h| && LastTouch(h) <= 63 && (LastTouch(l) > LastTouch(h) || LastTouch(l) == |l|) {
      LaterTouchIsGreater(h, l);
    }
  }

  // ---------------------------------------------------------------- dio_clus_shrink

  /** The blocks that somebody holds. */
  ghost function Pinned(g: Shadow): set<nat> {
    set i | 0 <= i < |g.held| && g.held[i] > 0
  }

  /** What is held is cached, and stays cached. */
  lemma PinnedAreCached(d: Dev)
    requires d.Valid()
    ensures Pinned(d.g) <= d.clus.Keys && |Pinned(d.g)| <= d.nrClus
  {
    forall i | i in Pinned(d.g)
      ensures i in d.clus
    {
      SlotAt(d.np, i, d.disk, d.clus, d.nrClus, d.g, d.None());
    }
    SubsetSize(Pinned(d.g), d.clus.Keys);
    assert |d.clus| == |d.clus.Keys|;
  }

  /** No candidates: everything cached is held. */
  lemma AllPinned(d: Dev)
    requires d.Valid() && |d.g.hist| == |d.g.held| == |d.disk| && Candidates(d.g, |d.disk|) == []
    ensures d.nrClus <= |Pinned(d.g)|
  {
    forall i | i in d.clus
      ensures i in Pinned(d.g)
    {
      SlotAt(d.np, i, d.disk, d.clus, d.nrClus, d.g, d.None());
      NoneFree(d.g, |d.disk|, i);
    }
    SubsetSize(d.clus.Keys, Pinned(d.g));
    assert |d.clus| == |d.clus.Keys|;
  }

  lemma {:induction false} NoneFree(g: Shadow, n: nat, i: nat)
    requires i < n <= |g.hist| == |g.held| && Candidates(g, n) == []
    ensures !Free(g, i)
    decreases n
  {
    if i < n - 1 {
      NoneFree(g, n - 1, i);
    }
  }

  /** More is held than the cache may have: it is too large, whatever has been evicted. */
  lemma HeldTooMany(d: Dev)
    requires d.Valid() && |Pinned(d.g)| > d.nrMax
    ensures d.nrClus > d.nrMax
  {
    PinnedAreCached(d);
  }

  /** dio_clus_shrink, seen for so many rounds of its loop. If no more is held than the cache may have, it has ended after
      at most as many rounds as there were clusters; otherwise it has not ended after any number of them. */
  method Shrink(d: Dev, rounds: nat) returns (ended: bool)
    requires d.Valid()
    modifies d
    ensures d.Valid() && |d.disk| == |old(d.disk)| && (ended <==> d.nrClus <= d.nrMax)
    ensures d.g.flat == old(d.g.flat) && d.g.held == old(d.g.held) && d.clus.Keys <= old(d.clus).Keys
    ensures |Pinned(d.g)| <= d.nrMax && rounds >= old(d.nrClus) ==> ended
    ensures |Pinned(d.g)| > d.nrMax ==> !ended
  {
    var i := 0;
    while i < rounds && d.nrClus > d.nrMax
      invariant i <= rounds && d.Valid() && |d.disk| == |old(d.disk)|
      invariant d.g.flat == old(d.g.flat) && d.g.held == old(d.g.held) && d.clus.Keys <= old(d.clus).Keys
      invariant |Pinned(d.g)| <= d.nrMax ==> d.nrClus + i <= old(d.nrClus)
    {
      ShrinkRound(d);
      i := i + 1;
    }
    ended := d.nrClus <= d.nrMax;
    if |Pinned(d.g)| > d.nrMax {
      HeldTooMany(d);
    }
  }

  /** A cache for one cluster with two of them held. */
  method TwoHeld() returns (d: Dev)
    ensures d.Valid() && d.nrMax == 1 && |Pinned(d.g)| == 2
  {
    var block := seq(4096, _ => 0);
    d := new Dev([block, block], 1, 1);
    d.Get(0);
    d.Get(1);
    assert Pinned(d.g) == {0, 1};
  }

  /** One round: some clusters go, if not all of the cached ones are held. */
  method ShrinkRound(d: Dev)
    requires d.Valid() && d.nrMax < d.nrClus
    modifies d
    ensures d.Valid() && |d.disk| == |old(d.disk)|
    ensures d.g.flat == old(d.g.flat) && d.g.held == old(d.g.held) && d.clus.Keys <= old(d.clus).Keys
    ensures |Pinned(d.g)| <= d.nrMax ==> d.nrClus < old(d.nrClus)
  {
    assert |d.g.hist| == |d.g.held| == |d.disk|;
    if Candidates(d.g, |d.disk|) == [] {
      AllPinned(d);
    }
    ghost var order, k := LruFrees(d);
    assert |order| == |multiset(order)|;
  }

  // ---------------------------------------------------------------- dio_clus_release

  /** The shadow when cluster i is dropped and its gets are forgotten. */
  ghost function Forgotten(g: Shadow, i: nat): Shadow
    requires i < |g.held| && i < |g.hist|
  {
    g.(held := g.held[i := 0], hist := g.hist[i := []])
  }

  /** A cluster that the device has dropped while n gets of it were outstanding: what it holds is on disk. */
  ghost predicate Orphan(c: Clu, f: Bytes, n: nat) {
    c.ref == n && c.pins == 0 && !c.dirty && Concat(c.pages) == f
  }

  /** The pins are reset, the cluster is removed and synced, and three references go: of the tree, of its making, and of
      the batch. What is left are those of its holders. */
  method ReleaseOne(d: Dev, i: nat, ghost S: set<nat>) returns (node: Clu)
    requires Marked(d, S) && i in S && i < |d.g.held| && i < |d.g.hist| && i < |d.g.flat|
    modifies d
    ensures Marked(d, S - {i}) && d.nrClus == old(d.nrClus) - 1 && |d.disk| == |old(d.disk)|
    ensures d.g == Forgotten(old(d.g), i) && Orphan(node, old(d.g.flat)[i], old(d.g.held)[i])
  {
    ghost var n, g' := |d.disk|, Forgotten(d.g, i);
    SlotAt(d.np, i, d.disk, d.clus, d.nrClus, d.g, Marks(n, S));
    node := d.clus[i].(pins := 0);
    var disk' := d.disk;
    if node.dirty {
      disk' := d.disk[i := Concat(node.pages)];
      node := node.(dirty := false);
    }
    StepDrop(d.np, i, d.disk, d.clus, d.nrClus, d.g, Marks(n, S), disk', g', Marks(n, S)[i := 0]);
    assert Marks(n, S)[i := 0] == Marks(n, S - {i});
    d.clus, d.nrClus, d.disk := d.clus - {i}, d.nrClus - 1, disk';
    d.g := g';
    node := node.(ref := node.ref - 1);
    node := node.(ref := node.ref - 1);
    node := node.(ref := node.ref - 1);
  }

  /** Cluster i, of which n gets were outstanding at first and m are now: its holders have kept it just if it is gone. */
  ghost predicate LeftAt(out: Clus, f: Bytes, n: nat, m: nat, i: nat) {
    && (m == n || m == 0) && (i in out <==> n > 0 && m == 0) && (i in out ==> Orphan(out[i], f, n))
  }

  /** The clusters that are left with their holders, so far. */
  ghost predicate Left(out: Clus, flat: seq<Bytes>, held0: seq<nat>, held: seq<nat>) {
    && |held0| == |held| == |flat| && (forall i :: i in out ==> i < |flat|)
    && forall i :: 0 <= i < |flat| ==> LeftAt(out, flat[i], held0[i], held[i], i)
  }

  lemma LeftNext(out: Clus, flat: seq<Bytes>, held0: seq<nat>, held: seq<nat>, i: nat, node: Clu)
    requires Left(out, flat, held0, held) && i < |flat| && Orphan(node, flat[i], held[i])
    ensures Left(if node.ref > 0 then out[i := node] else out, flat, held0, held[i := 0])
  {
    var out', held' := if node.ref > 0 then out[i := node] else out, held[i := 0];
    forall j | 0 <= j < |flat|
      ensures LeftAt(out', flat[j], held0[j], held'[j], j)
    {
      assert LeftAt(out, flat[j], held0[j], held[j], j);
    }
  }

  method ReleaseBatch(d: Dev, batch: seq<nat>, out: Clus, ghost held0: seq<nat>) returns (out': Clus)
    requires Marked(d, Elements(batch)) && NoRepeat(batch) && Left(out, d.g.flat, held0, d.g.held)
    modifies d
    ensures Marked(d, {}) && d.g.flat == old(d.g.flat) && Left(out', d.g.flat, held0, d.g.held) && |d.disk| == |old(d.disk)|
    ensures d.nrClus == old(d.nrClus) - |batch|
  {
    hide Left;
    out' := out;
    var j := 0;
    ghost var S := Elements(batch);
    assert batch[0..] == batch;
    while j < |batch|
      invariant 0 <= j <= |batch| && S == Elements(batch[j..]) && Marked(d, S) && |d.disk| == |old(d.disk)|
      invariant d.g.flat == old(d.g.flat) && Left(out', d.g.flat, held0, d.g.held) && d.nrClus == old(d.nrClus) - j
    {
      RestOf(batch, j);
      ghost var held := d.g.held;
      var node := ReleaseOne(d, batch[j], S);
      LeftNext(out', d.g.flat, held0, held, batch[j], node);
      // without a reference left the cluster is freed
      if node.ref > 0 {
        out' := out'[batch[j] := node];
      }
      S := S - {batch[j]};
      j := j + 1;
    }
    assert S == {};
  }

  /** dio_clus_release, whatever is held: what the users saw is on disk, and nothing is left in the cache. The clusters that
      were held stay with their holders, clean and without pins; no get of theirs is known to the device any more. */
  method Release(d: Dev) returns (orphans: Clus)
    requires d.Valid()
    modifies d
    ensures d.Valid() && d.nrClus == 0 && d.clus == map[] && d.disk == d.g.flat == old(d.g.flat)
    ensures |d.g.held| == |old(d.g.held)| && forall i :: 0 <= i < |d.g.held| ==> d.g.held[i] == 0
    ensures forall i: nat :: i in orphans <==> i < |old(d.g.held)| && old(d.g.held)[i] > 0
    ensures forall i :: i in orphans ==> i < |d.g.flat| && Orphan(orphans[i], d.g.flat[i], old(d.g.held)[i])
  {
    hide Left;
    orphans := map[];
    ghost var held0 := d.g.held;
    NoneLeft(d.g.flat, held0);
    while true
      invariant d.Valid() && d.g.flat == old(d.g.flat) && Left(orphans, d.g.flat, held0, d.g.held)
      decreases d.nrClus
    {
      var batch, next := d.GangLookup(0);
      InOrderFacts(d.clus.Keys, 0, next);
      NoMarks(d);
      assert {} + Elements(batch) == Elements(batch);
      RefBatch(d, batch, {});
      if batch == [] {
        assert Elements(batch) == {};
        NoMarks(d);
        break;
      }
      orphans := ReleaseBatch(d, batch, orphans, held0);
      NoMarks(d);
    }
    Emptied(d);
    AllLeft(orphans, d.g.flat, held0, d.g.held);
  }

  lemma NoneLeft(flat: seq<Bytes>, held: seq<nat>)
    requires |held| == |flat|
    ensures Left(map[], flat, held, held)
  {
  }

  lemma AllLeft(out: Clus, flat: seq<Bytes>, held0: seq<nat>, held: seq<nat>)
    requires Left(out, flat, held0, held) && forall i :: 0 <= i < |held| ==> held[i] == 0
    ensures |held0| == |held| == |flat|
    ensures forall i: nat :: i in out <==> i < |held0| && held0[i] > 0
    ensures forall i :: i in out ==> i < |flat| && Orphan(out[i], flat[i], held0[i])
  {
    forall i: nat
      ensures i in out <==> i < |held0| && held0[i] > 0
      ensures i in out ==> i < |flat| && Orphan(out[i], flat[i], held0[i])
    {
      if i < |flat| {
        assert LeftAt(out, flat[i], held0[i], held[i], i);
      }
    }
  }

  lemma Emptied(d: Dev)
    requires d.Valid() && InOrder(d.clus.Keys, 0, |d.disk|) == []
    ensures d.clus == map[] && d.nrClus == 0 && d.disk == d.g.flat
    ensures forall i :: 0 <= i < |d.g.held| ==> d.g.held[i] == 0
  {
    InOrderFacts(d.clus.Keys, 0, |d.disk|);
    forall i: nat
      ensures i !in d.clus
    {
    }
    assert d.clus == map[];
    forall i | 0 <= i < |d.disk|
      ensures d.disk[i] == d.g.flat[i] && d.g.held[i] == 0
    {
      SlotAt(d.np, i, d.disk, d.clus, d.nrClus, d.g, d.None());
    }
  }
}
