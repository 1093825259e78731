/** A buffer that is kept in pages, and dio_pages_io of core/dio.c:39-72. */
module Pages {
  import opened Stripes

  const PAGE_SIZE := 4096

  ghost predicate Paged(pages: seq<Bytes>) {
    forall i :: 0 <= i < |pages| ==> |pages[i]| == 4096
  }

  lemma {:induction false} ConcatLength(pages: seq<Bytes>)
    requires forall i :: 0 <= i < |pages| ==> |pages[i]| == 4096
    ensures |Concat(pages)| == 4096 * |pages|
  {
    if pages != [] {
      ConcatLength(pages[..|pages| - 1]);
    }
  }

  /** The first len bytes of page i come after all the pages before it. */
  lemma {:induction false} PageBytes(pages: seq<Bytes>, i: nat, len: nat)
    requires (forall x :: 0 <= x < |pages| ==> |pages[x]| == 4096) && i < |pages| && len <= 4096
    ensures 4096 * i + len <= |Concat(pages)|
    ensures Concat(pages)[..4096 * i + len] == Concat(pages)[..4096 * i] + pages[i][..len]
    decreases |pages|
  {
    var n := |pages| - 1;
    var before := Concat(pages[..n]);
    ConcatLength(pages);
    ConcatLength(pages[..n]);
    if i < n {
      PageBytes(pages[..n], i, len);
      assert Concat(pages)[..4096 * i + len] == before[..4096 * i + len];
      assert Concat(pages)[..4096 * i] == before[..4096 * i];
    }
  }

  /** b with s written at off. */
  function Splice(b: Bytes, off: nat, s: Bytes): (r: Bytes)
    requires off + |s| <= |b|
    ensures |r| == |b|
  {
    b[..off] + s + b[off + |s|..]
  }

  /** Two writes in a row are one. */
  lemma SpliceTwice(b: Bytes, off: nat, s: Bytes, t: Bytes)
    requires off + |s| + |t| <= |b|
    ensures Splice(Splice(b, off, s), off + |s|, t) == Splice(b, off, s + t)
  {
  }

  /** Writing inside page i writes inside the buffer. */
  lemma {:induction false} SplicePage(pages: seq<Bytes>, i: nat, o: nat, s: Bytes)
    requires Paged(pages) && i < |pages| && o + |s| <= 4096
    ensures |Concat(pages)| == 4096 * |pages|
    ensures Concat(pages[i := Splice(pages[i], o, s)]) == Splice(Concat(pages), 4096 * i + o, s)
    decreases |pages|
  {
    var n := |pages| - 1;
    var r := pages[i := Splice(pages[i], o, s)];
    ConcatLength(pages);
    ConcatLength(pages[..n]);
    if i < n {
      SplicePage(pages[..n], i, o, s);
      assert r[..n] == pages[..n][i := Splice(pages[i], o, s)];
    } else {
      assert r[..n] == pages[..n];
    }
  }

  /** Bytes o..o + len of page i. */
  lemma PageRange(pages: seq<Bytes>, i: nat, o: nat, len: nat)
    requires Paged(pages) && i < |pages| && o + len <= 4096
    ensures 4096 * i + o + len <= |Concat(pages)|
    ensures Concat(pages)[4096 * i + o..4096 * i + o + len] == pages[i][o..o + len]
  {
    PageBytes(pages, i, 4096);
    ConcatLength(pages);
    var b := Concat(pages);
    assert pages[i][..4096] == pages[i];
    assert b[..4096 * i + 4096][4096 * i..] == pages[i][..4096];
    assert b[4096 * i + o..4096 * i + o + len] == b[..4096 * i + 4096][4096 * i..][o..o + len];
  }

  method ReadPages(pages: seq<Bytes>, off: nat, len: nat) returns (buf: Bytes)
    requires Paged(pages) && off + len <= 4096 * |pages|
    ensures off + len <= |Concat(pages)| && buf == Concat(pages)[off..off + len]
  {
    ConcatLength(pages);
    buf := [];
    var read, pgIdx, pgOff := 0, off / 4096, off % 4096;
    while read < len
      invariant 0 <= read <= len && 0 <= pgOff < 4096 && buf == Concat(pages)[off..off + read]
      invariant read < len ==> off + read == 4096 * pgIdx + pgOff
    {
      var step := if len - read > 4096 - pgOff then 4096 - pgOff else len - read;
      PageRange(pages, pgIdx, pgOff, step);
      assert Concat(pages)[off..off + read + step]
        == Concat(pages)[off..off + read] + Concat(pages)[off + read..off + read + step];
      buf := buf + pages[pgIdx][pgOff..pgOff + step];
      read, pgOff, pgIdx := read + step, 0, pgIdx + 1;
    }
  }

  method WritePages(pages: seq<Bytes>, buf: Bytes, off: nat) returns (r: seq<Bytes>)
    requires Paged(pages) && off + |buf| <= 4096 * |pages|
    ensures Paged(r) && |r| == |pages| && |Concat(pages)| == 4096 * |pages|
    ensures Concat(r) == Splice(Concat(pages), off, buf)
  {
    ConcatLength(pages);
    r := pages;
    var done, pgIdx, pgOff := 0, off / 4096, off % 4096;
    assert Splice(Concat(pages), off, buf[..0]) == Concat(pages);
    while done < |buf|
      invariant 0 <= done <= |buf| && 0 <= pgOff < 4096 && Paged(r) && |r| == |pages|
      invariant Concat(r) == Splice(Concat(pages), off, buf[..done])
      invariant done < |buf| ==> off + done == 4096 * pgIdx + pgOff
    {
      var step := if |buf| - done > 4096 - pgOff then 4096 - pgOff else |buf| - done;
      var piece := buf[done..done + step];
      SplicePage(r, pgIdx, pgOff, piece);
      SpliceTwice(Concat(pages), off, buf[..done], piece);
      assert buf[..done] + piece == buf[..done + step];
      r := r[pgIdx := Splice(r[pgIdx], pgOff, piece)];
      done, pgOff, pgIdx := done + step, 0, pgIdx + 1;
    }
    assert buf[..done] == buf;
  }
}
