/** The buffering that XXH32_update_endian and XXH64_update_endian of crt/xxhash.c share: input is folded in stripes
    of n bytes, and what does not fill a stripe waits in a buffer. */
module Stripes {
  import opened Common

  type Bytes = seq<bv8>

  /** The pieces one after the other. */
  function Concat(pieces: seq<Bytes>): Bytes {
    if pieces == [] then [] else Concat(pieces[..|pieces| - 1]) + pieces[|pieces| - 1]
  }

  /** The accumulator after every whole stripe of d. */
  function Fold<A>(step: (A, Bytes) -> A, n: nat, a: A, d: Bytes): A
    requires n > 0
    decreases |d|
  {
    if |d| < n then a else Fold(step, n, step(a, d[..n]), d[n..])
  }

  /** What is left of d after its whole stripes. */
  function Rest(n: nat, d: Bytes): (r: Bytes)
    requires n > 0
    ensures |r| < n && |r| <= |d|
    decreases |d|
  {
    if |d| < n then d else Rest(n, d[n..])
  }

  /** Folding d and then what comes after it, behind the rest of d. */
  lemma {:induction false} FoldAppend<A>(step: (A, Bytes) -> A, n: nat, a: A, d: Bytes, e: Bytes)
    requires n > 0
    ensures Fold(step, n, a, d + e) == Fold(step, n, Fold(step, n, a, d), Rest(n, d) + e)
    ensures Rest(n, d + e) == Rest(n, Rest(n, d) + e)
    decreases |d|
  {
    if |d| >= n {
      assert (d + e)[..n] == d[..n] && (d + e)[n..] == d[n..] + e;
      FoldAppend(step, n, step(a, d[..n]), d[n..], e);
    }
  }

  /** The do-while loop over the stripes of the input from position p on. */
  method FoldFrom<A>(step: (A, Bytes) -> A, n: nat, a: A, input: Bytes, p: nat) returns (r: A, q: nat)
    requires n > 0 && p <= |input|
    ensures r == Fold(step, n, a, input[p..])
    ensures p <= q <= |input| && input[q..] == Rest(n, input[p..])
  {
    r, q := a, p;
    while q + n <= |input|
      invariant p <= q <= |input|
      invariant Fold(step, n, r, input[q..]) == Fold(step, n, a, input[p..])
      invariant Rest(n, input[q..]) == Rest(n, input[p..])
    {
      assert input[q..][..n] == input[q..q + n] && input[q..][n..] == input[q + n..];
      r := step(r, input[q..q + n]);
      q := q + n;
    }
  }

  class Stream<A> {
    const n: nat
    const step: (A, Bytes) -> A
    const start: A
    var acc: A
    const mem: array<bv8>
    var memsize: nat
    var total: nat
    ghost var data: Bytes

    /** `data` is everything since the reset. */
    ghost predicate Valid()
      reads this, mem
    {
      && n > 0 && mem.Length == n && memsize < n && total == |data| < U64
      && acc == Fold(step, n, start, data)
      && mem[..memsize] == Rest(n, data)
    }

    /** Reset. */
    constructor (n: nat, step: (A, Bytes) -> A, start: A)
      requires n > 0
      ensures Valid() && data == [] && fresh(mem) && this.n == n && this.step == step && this.start == start
    {
      this.n, this.step, this.start := n, step, start;
      acc, memsize, total, data := start, 0, 0, [];
      mem := new bv8[n](_ => 0);
    }

    /** memcpy into the buffer. */
    method Fill(at: nat, input: Bytes, from: nat, len: nat)
      requires at + len <= mem.Length && from + len <= |input|
      modifies mem
      ensures mem[..at] == old(mem[..at]) && mem[at..at + len] == input[from..from + len]
    {
      var i := 0;
      while i < len
        invariant 0 <= i <= len
        invariant mem[..at] == old(mem[..at]) && mem[at..at + i] == input[from..from + i]
      {
        mem[at + i] := input[from + i];
        i := i + 1;
      }
    }

    /** The buffered bytes and the first of the input make a stripe. */
    method FillStripe(input: Bytes) returns (p: nat)
      requires Valid() && memsize + |input| >= n
      modifies this, mem
      ensures p <= |input| && total == old(total) && data == old(data) && mem.Length == n && memsize == 0
      ensures Fold(step, n, acc, input[p..]) == old(Fold(step, n, acc, Rest(n, data) + input))
      ensures Rest(n, input[p..]) == old(Rest(n, Rest(n, data) + input))
    {
      p := 0;
      if memsize > 0 {
        p := n - memsize;
        ghost var joined := Rest(n, data) + input;
        Fill(memsize, input, 0, p);
        assert mem[..] == mem[..memsize] + mem[memsize..memsize + p];
        assert |Rest(n, data)| == memsize && joined[..n] == Rest(n, data) + input[..p];
        assert joined[n..] == input[p..];
        assert input[0..0 + p] == input[..p];
        acc := step(acc, mem[..]);
        memsize := 0;
      } else {
        assert Rest(n, data) + input == input;
      }
    }

    /** The input does not fill a stripe. */
    method Keep(input: Bytes)
      requires Valid() && memsize + |input| < n && |data| + |input| < U64
      modifies this, mem
      ensures Valid() && data == old(data) + input
    {
      FoldAppend(step, n, start, data, input);
      Fill(memsize, input, 0, |input|);
      assert mem[..memsize + |input|] == mem[..memsize] + mem[memsize..memsize + |input|];
      total, memsize, data := total + |input|, memsize + |input|, data + input;
    }

    method Update(input: Bytes)
      requires Valid() && |data| + |input| < U64
      modifies this, mem
      ensures Valid() && data == old(data) + input
    {
      if memsize + |input| < n {
        Keep(input);
        return;
      }
      FoldAppend(step, n, start, data, input);
      var p := FillStripe(input);
      var q;
      acc, q := FoldFrom(step, n, acc, input, p);
      if q < |input| {
        Fill(0, input, q, |input| - q);
        memsize := |input| - q;
      }
      assert input[q..|input|] == input[q..];
      total, data := total + |input|, data + input;
    }
  }
}
