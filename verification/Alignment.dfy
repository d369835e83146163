/** Chunk cuts, carries and the oversize split never cut file data off an 8-byte grid that starts at
    the beginning of the file's data, provided that no two data tokens are neighbours. */
module Alignment {
  import opened Segments
  import opened Sequences

  /** The piece p at offset a lies inside token i, at a multiple of 8 from its start. */
  ghost predicate InToken(toks: seq<Seg>, i: nat, a: nat, p: Seg)
    requires i < |toks|
  {
    var start := Total(toks[..i]);
    toks[i].tag == p.tag && start <= a && (a - start) % 8 == 0 && a + p.size <= start + toks[i].size
  }

  ghost predicate EndsToken(toks: seq<Seg>, i: nat, a: nat, p: Seg)
    requires i < |toks|
  {
    a + p.size == Total(toks[..i]) + toks[i].size
  }

  /** The piece is on the grid of some token, and its size is a multiple of 8 unless it ends the token. */
  ghost predicate Aligned(toks: seq<Seg>, a: nat, p: Seg) {
    exists i :: 0 <= i < |toks| && InToken(toks, i, a, p) && (p.size % 8 == 0 || EndsToken(toks, i, a, p))
  }

  /** The piece is on the grid and ends its token. */
  ghost predicate Tail(toks: seq<Seg>, a: nat, p: Seg) {
    exists i :: 0 <= i < |toks| && InToken(toks, i, a, p) && EndsToken(toks, i, a, p)
  }

  /** All data pieces of a list that starts at `base` are aligned. */
  ghost predicate AllAligned(toks: seq<Seg>, base: nat, segs: seq<Seg>)
    decreases |segs|
  {
    segs == [] ||
    (AllAligned(toks, base, Init(segs)) &&
     (Last(segs).tag == METADATA || Aligned(toks, base + Total(Init(segs)), Last(segs))))
  }

  ghost predicate AllTails(toks: seq<Seg>, base: nat, segs: seq<Seg>)
    decreases |segs|
  {
    segs == [] ||
    (AllTails(toks, base, Init(segs)) &&
     (Last(segs).tag == METADATA || Tail(toks, base + Total(Init(segs)), Last(segs))))
  }

  lemma {:induction false} TailsAligned(toks: seq<Seg>, base: nat, segs: seq<Seg>)
    requires AllTails(toks, base, segs)
    ensures AllAligned(toks, base, segs)
    decreases |segs|
  {
    if segs != [] {
      TailsAligned(toks, base, Init(segs));
    }
  }

  lemma AlignedSnoc(toks: seq<Seg>, base: nat, segs: seq<Seg>, p: Seg)
    requires AllAligned(toks, base, segs) && (p.tag == METADATA || Aligned(toks, base + Total(segs), p))
    ensures AllAligned(toks, base, segs + [p])
  {
    assert Init(segs + [p]) == segs;
  }

  lemma TailsSnoc(toks: seq<Seg>, base: nat, segs: seq<Seg>, p: Seg)
    requires AllTails(toks, base, segs) && (p.tag == METADATA || Tail(toks, base + Total(segs), p))
    ensures AllTails(toks, base, segs + [p])
  {
    assert Init(segs + [p]) == segs;
  }

  lemma {:induction false} AlignedConcat(toks: seq<Seg>, base: nat, a: seq<Seg>, b: seq<Seg>)
    requires AllAligned(toks, base, a) && AllAligned(toks, base + Total(a), b)
    ensures AllAligned(toks, base, a + b)
    decreases |b|
  {
    if b == [] {
      assert a + b == a;
    } else {
      AlignedConcat(toks, base, a, Init(b));
      TotalConcat(a, Init(b));
      AlignedSnoc(toks, base, a + Init(b), Last(b));
      assert a + b == (a + Init(b)) + [Last(b)];
    }
  }

  // ---------------------------------------------------------------- chunk cuts

  /** No two data tokens are neighbours. */
  ghost predicate Separated(toks: seq<Seg>) {
    forall i :: 0 <= i < |toks| - 1 && toks[i].tag != METADATA ==> toks[i + 1].tag == METADATA
  }

  /** Flushed chunks are aligned, and pending data segments end their tokens. */
  ghost predicate OnGrid(toks: seq<Seg>, st: State) {
    && AllAligned(toks, 0, Flatten(st.chunks))
    && AllTails(toks, Total(Flatten(st.chunks)), st.segs)
  }

  /** Cutting a multiple of 8 bytes off the end of a token leaves both parts on the grid. */
  lemma CutTail(toks: seq<Seg>, at: nat, p: Seg, split: nat)
    requires Tail(toks, at, p) && split <= p.size && split % 8 == 0
    ensures Aligned(toks, at, Seg(split, p.tag)) && Tail(toks, at + split, Seg(p.size - split, p.tag))
  {
    hide Total;
    var i :| 0 <= i < |toks| && InToken(toks, i, at, p) && EndsToken(toks, i, at, p);
    var head, rest := Seg(split, p.tag), Seg(p.size - split, p.tag);
    assert InToken(toks, i, at, head);
    assert InToken(toks, i, at + split, rest) && EndsToken(toks, i, at + split, rest);
  }

  lemma CutOnGrid(toks: seq<Seg>, base: nat, segs: seq<Seg>, limit: nat)
    requires Overflows(segs, limit) && AllTails(toks, base, segs)
    ensures AllAligned(toks, base, Flushed(segs, limit))
    ensures AllTails(toks, base + Total(Flushed(segs, limit)), [Carried(segs, limit)])
  {
    hide Aligned, Tail;
    var last, split, carry := Last(segs), SplitSize(segs, limit), Carried(segs, limit);
    TailsAligned(toks, base, Init(segs));
    TotalSnoc(Init(segs), Seg(split, last.tag));
    if last.tag != METADATA {
      CutTail(toks, base + Total(Init(segs)), last, split);
    }
    if split > 0 {
      AlignedSnoc(toks, base, Init(segs), Seg(split, last.tag));
    }
    TailsSnoc(toks, base + Total(Flushed(segs, limit)), [], carry);
    assert [] + [carry] == [carry];
  }

  lemma CarriedTag(segs: seq<Seg>, limit: nat)
    requires Overflows(segs, limit)
    ensures Carried(segs, limit).tag == Last(segs).tag
  {
  }

  /** One flush keeps everything on the grid. */
  lemma FlushStepOnGrid(toks: seq<Seg>, st: State, limit: nat)
    requires Overflows(st.segs, limit) && OnGrid(toks, st)
    ensures var next := State(st.chunks + [Flushed(st.segs, limit)], [Carried(st.segs, limit)]);
            && OnGrid(toks, next) && Total(Output(next)) == Total(Output(st))
            && Total(Init(next.segs)) == 0 && Total(next.segs) < Total(st.segs)
  {
    hide Total, Flatten, AllAligned, AllTails, Flushed, Carried, Overflows;
    var out, carry := Flushed(st.segs, limit), Carried(st.segs, limit);
    FlushedSize(st.segs, limit);
    NoBytesBefore(carry);
    CutOnGrid(toks, Total(Flatten(st.chunks)), st.segs, limit);
    AlignedConcat(toks, 0, Flatten(st.chunks), out);
    FlattenSnoc(st.chunks, out);
    TotalConcat(Flatten(st.chunks), out);
    TotalConcat(Flatten(st.chunks) + out, [carry]);
    TotalConcat(Flatten(st.chunks), st.segs);
  }

  lemma {:induction false} FlushOnGrid(toks: seq<Seg>, st: State, limit: nat)
    requires Limit(limit) && (st.segs == [] || Total(Init(st.segs)) <= limit) && OnGrid(toks, st)
    ensures OnGrid(toks, Flush(st, limit))
    ensures st.segs != [] ==> Last(Flush(st, limit).segs).tag == Last(st.segs).tag
    ensures Total(Output(Flush(st, limit))) == Total(Output(st))
    decreases Total(st.segs)
  {
    if Total(st.segs) > limit {
      FlushStepOnGrid(toks, st, limit);
      CarriedTag(st.segs, limit);
      hide Total, OnGrid, Output, Flushed, Carried;
      FlushOnGrid(toks, State(st.chunks + [Flushed(st.segs, limit)], [Carried(st.segs, limit)]), limit);
    }
  }

  /** Adding token k keeps the pending segments on the grid: data is never merged. */
  lemma PushOnGrid(toks: seq<Seg>, k: nat, base: nat, segs: seq<Seg>)
    requires k < |toks| && AllTails(toks, base, segs) && base + Total(segs) == Total(toks[..k])
    requires segs != [] && Last(segs).tag == toks[k].tag ==> toks[k].tag == METADATA
    ensures AllTails(toks, base, Push(segs, toks[k]))
  {
    var s := toks[k];
    if segs != [] && Last(segs).tag == s.tag {
      TailsSnoc(toks, base, Init(segs), Seg(Last(segs).size + s.size, s.tag));
    } else {
      assert InToken(toks, k, base + Total(segs), s);
      TailsSnoc(toks, base, segs, s);
    }
  }

  lemma FeedOnGrid(toks: seq<Seg>, k: nat, st: State, limit: nat)
    requires Limit(limit) && Total(st.segs) <= limit && k < |toks|
    requires OnGrid(toks, st) && Total(Output(st)) == Total(toks[..k])
    requires st.segs != [] && Last(st.segs).tag == toks[k].tag ==> toks[k].tag == METADATA
    ensures var r := Feed(st, toks[k], limit);
            OnGrid(toks, r) && Total(Output(r)) == Total(toks[..k + 1]) && r.segs != [] && Last(r.segs).tag == toks[k].tag
  {
    hide AllAligned, AllTails, Total, Flush, Flatten;
    var s := toks[k];
    TotalConcat(Flatten(st.chunks), st.segs);
    PushOnGrid(toks, k, Total(Flatten(st.chunks)), st.segs);
    PushInit(st.segs, s);
    FlushOnGrid(toks, State(st.chunks, Push(st.segs, s)), limit);
    TotalConcat(Flatten(st.chunks), Push(st.segs, s));
    assert toks[..k + 1] == toks[..k] + [s];
    TotalSnoc(toks[..k], s);
  }

  lemma {:induction false} FeedAllOnGrid(toks: seq<Seg>, k: nat, limit: nat)
    requires Limit(limit) && Separated(toks) && k <= |toks|
    ensures OnGrid(toks, FeedAll(toks[..k], limit))
    ensures Total(Output(FeedAll(toks[..k], limit))) == Total(toks[..k])
    ensures k > 0 ==> Last(FeedAll(toks[..k], limit).segs).tag == toks[k - 1].tag
    decreases k
  {
    if k > 0 {
      hide OnGrid, Output, Feed, Total;
      assert Init(toks[..k]) == toks[..k - 1] && Last(toks[..k]) == toks[k - 1];
      FeedAllOnGrid(toks, k - 1, limit);
      FeedOnGrid(toks, k - 1, FeedAll(toks[..k - 1], limit), limit);
    }
  }

  lemma ChunksOnGrid(toks: seq<Seg>, limit: nat)
    requires Limit(limit) && Separated(toks)
    ensures AllAligned(toks, 0, Flatten(Chunks(toks, limit)))
  {
    assert toks[..|toks|] == toks;
    FeedAllOnGrid(toks, |toks|, limit);
    var st := FeedAll(toks, limit);
    TailsAligned(toks, Total(Flatten(st.chunks)), st.segs);
    AlignedConcat(toks, 0, Flatten(st.chunks), st.segs);
    OutputChunks(toks, limit);
  }

  // ---------------------------------------------------------------- the oversize split

  /** A segment in pieces of at most `max` bytes. */
  function Split(s: Seg, max: nat): (r: seq<Seg>)
    requires max > 0
    decreases s.size
  {
    if s.size <= max then [s] else [Seg(max, s.tag)] + Split(Seg(s.size - max, s.tag), max)
  }

  function SplitAll(segs: seq<Seg>, max: nat): seq<Seg>
    requires max > 0
  {
    if segs == [] then [] else SplitAll(Init(segs), max) + Split(Last(segs), max)
  }

  /** The pieces of each chunk: every chunk is split by itself. */
  function PiecesOf(chunks: seq<seq<Seg>>, max: nat): (r: seq<seq<Seg>>)
    requires max > 0
    ensures |r| == |chunks| && forall k :: 0 <= k < |r| ==> r[k] == SplitAll(chunks[k], max)
  {
    seq(|chunks|, k requires 0 <= k < |chunks| => SplitAll(chunks[k], max))
  }

  lemma {:induction false} SplitAllConcat(a: seq<Seg>, b: seq<Seg>, max: nat)
    requires max > 0
    ensures SplitAll(a + b, max) == SplitAll(a, max) + SplitAll(b, max)
    decreases |b|
  {
    if b == [] {
      assert a + b == a;
    } else {
      hide Split, SplitAll;
      assert Init(a + b) == a + Init(b) && Last(a + b) == Last(b);
      SplitAllLast(a + b, max);
      SplitAllLast(b, max);
      SplitAllConcat(a, Init(b), max);
      var x, y, z := SplitAll(a, max), SplitAll(Init(b), max), Split(Last(b), max);
      assert (x + y) + z == x + (y + z);
    }
  }

  lemma SplitAllLast(segs: seq<Seg>, max: nat)
    requires max > 0 && segs != []
    ensures SplitAll(segs, max) == SplitAll(Init(segs), max) + Split(Last(segs), max)
  {
  }

  /** Splitting chunk by chunk gives the pieces of the whole list of segments. */
  lemma {:induction false} SplitEachChunk(chunks: seq<seq<Seg>>, max: nat)
    requires max > 0
    ensures Flatten(PiecesOf(chunks, max)) == SplitAll(Flatten(chunks), max)
    decreases |chunks|
  {
    if chunks != [] {
      hide SplitAll;
      assert PiecesOf(chunks, max)[1..] == PiecesOf(chunks[1..], max);
      SplitEachChunk(chunks[1..], max);
      SplitAllConcat(chunks[0], Flatten(chunks[1..]), max);
    }
  }

  lemma {:induction false} SplitBytes(s: Seg, max: nat)
    requires max > 0
    ensures Expand(Split(s, max)) == Repeat(s.tag, s.size) && Total(Split(s, max)) == s.size
    decreases s.size
  {
    if s.size <= max {
      assert Init([s]) == [];
    } else {
      var head, rest := Seg(max, s.tag), Seg(s.size - max, s.tag);
      SplitBytes(rest, max);
      assert Init([head]) == [];
      ExpandConcat([head], Split(rest, max));
      TotalConcat([head], Split(rest, max));
      assert Repeat(s.tag, max) + Repeat(s.tag, s.size - max) == Repeat(s.tag, s.size);
    }
  }

  /** The pieces of a segment: all but the last have the maximum size, none exceeds it, and none is
      empty unless the segment is. */
  lemma {:induction false} SplitCount(s: Seg, max: nat)
    requires max > 0
    ensures forall k :: 0 <= k < |Split(s, max)| ==> Split(s, max)[k].size <= max && Split(s, max)[k].tag == s.tag
    ensures Split(s, max) != [] && max * (|Split(s, max)| - 1) <= s.size
    ensures forall k :: 0 <= k < |Split(s, max)| - 1 ==> Split(s, max)[k].size == max
    ensures s.size > 0 ==> Last(Split(s, max)).size > 0
    decreases s.size
  {
    if s.size > max {
      var rest := Seg(s.size - max, s.tag);
      SplitCount(rest, max);
      Distribute(max, |Split(rest, max)| - 1, 1);
    }
  }

  lemma Distribute(m: nat, x: int, y: int)
    ensures m * (x + y) == m * x + m * y
  {
  }

  lemma ProductSign(m: nat, x: int)
    ensures x >= 0 ==> m * x >= 0
  {
  }

  lemma Quotient(k: int, n: nat, q: nat, r: nat, m: nat)
    requires n == m * q + r && r < m && m * k <= n
    ensures k <= q
  {
    Distribute(m, q + 1, k - q - 1);
    Distribute(m, q, 1);
    ProductSign(m, k - q - 1);
  }

  lemma QuotientBound(k: int, n: nat, m: nat)
    requires m > 0 && m * k <= n
    ensures k <= n / m
  {
    Quotient(k, n, n / m, n % m, m);
  }

  /** The pieces keep every byte under its tag, none is longer than the maximum, and there are at
      most one more per segment than whole maximums in the input: the array is never exceeded. */
  lemma SplitAllKeeps(segs: seq<Seg>, max: nat)
    requires max > 0
    ensures Expand(SplitAll(segs, max)) == Expand(segs) && Total(SplitAll(segs, max)) == Total(segs)
    ensures forall k :: 0 <= k < |SplitAll(segs, max)| ==> SplitAll(segs, max)[k].size <= max
    ensures |SplitAll(segs, max)| <= |segs| + Total(segs) / max
  {
    SplitAllSteps(segs, max);
    QuotientBound(|SplitAll(segs, max)| - |segs|, Total(segs), max);
  }

  lemma {:induction false} SplitAllSteps(segs: seq<Seg>, max: nat)
    requires max > 0
    ensures Expand(SplitAll(segs, max)) == Expand(segs) && Total(SplitAll(segs, max)) == Total(segs)
    ensures forall k :: 0 <= k < |SplitAll(segs, max)| ==> SplitAll(segs, max)[k].size <= max
    ensures max * (|SplitAll(segs, max)| - |segs|) <= Total(segs)
    decreases |segs|
  {
    if segs != [] {
      SplitAllSteps(Init(segs), max);
      SplitBytes(Last(segs), max);
      SplitCount(Last(segs), max);
      ExpandConcat(SplitAll(Init(segs), max), Split(Last(segs), max));
      TotalConcat(SplitAll(Init(segs), max), Split(Last(segs), max));
      Distribute(max, |SplitAll(Init(segs), max)| - |Init(segs)|, |Split(Last(segs), max)| - 1);
    }
  }

  lemma {:induction false} SplitAligned(toks: seq<Seg>, a: nat, s: Seg, max: nat)
    requires Limit(max) && (s.tag == METADATA || Aligned(toks, a, s))
    ensures AllAligned(toks, a, Split(s, max))
    decreases s.size
  {
    if s.size <= max {
      AlignedSnoc(toks, a, [], s);
      assert [] + [s] == [s];
    } else {
      var head, rest := Seg(max, s.tag), Seg(s.size - max, s.tag);
      if s.tag != METADATA {
        var i :| 0 <= i < |toks| && InToken(toks, i, a, s) && (s.size % 8 == 0 || EndsToken(toks, i, a, s));
        assert InToken(toks, i, a, head) && InToken(toks, i, a + max, rest);
        assert EndsToken(toks, i, a, s) ==> EndsToken(toks, i, a + max, rest);
      }
      SplitAligned(toks, a + max, rest, max);
      AlignedSnoc(toks, a, [], head);
      assert [] + [head] == [head] && Init([head]) == [];
      AlignedConcat(toks, a, [head], Split(rest, max));
    }
  }

  lemma {:induction false} SplitAllAligned(toks: seq<Seg>, base: nat, segs: seq<Seg>, max: nat)
    requires Limit(max) && AllAligned(toks, base, segs)
    ensures AllAligned(toks, base, SplitAll(segs, max))
    decreases |segs|
  {
    if segs != [] {
      SplitAllAligned(toks, base, Init(segs), max);
      SplitAllKeeps(Init(segs), max);
      SplitAligned(toks, base + Total(Init(segs)), Last(segs), max);
      AlignedConcat(toks, base, SplitAll(Init(segs), max), Split(Last(segs), max));
    }
  }

  lemma {:induction false} AlignedAt(toks: seq<Seg>, base: nat, segs: seq<Seg>, j: nat)
    requires AllAligned(toks, base, segs) && j < |segs| && segs[j].tag != METADATA
    ensures Aligned(toks, base + Total(segs[..j]), segs[j])
    decreases |segs|
  {
    if j < |segs| - 1 {
      assert Init(segs)[..j] == segs[..j];
      AlignedAt(toks, base, Init(segs), j);
    }
  }

  /** After chunk cuts, carries and the oversize split, every piece of file data starts at a
      multiple of 8 from the start of its token, stays inside the token, and has a size that is a
      multiple of 8 unless it is the token's last. */
  lemma PiecesAligned(toks: seq<Seg>, limit: nat, max: nat, j: nat)
    requires Limit(limit) && Limit(max) && Separated(toks)
    requires j < |SplitAll(Flatten(Chunks(toks, limit)), max)|
    ensures var pieces := SplitAll(Flatten(Chunks(toks, limit)), max);
            pieces[j].tag != METADATA ==> Aligned(toks, Total(pieces[..j]), pieces[j])
  {
    var pieces := SplitAll(Flatten(Chunks(toks, limit)), max);
    ChunksOnGrid(toks, limit);
    SplitAllAligned(toks, 0, Flatten(Chunks(toks, limit)), max);
    if pieces[j].tag != METADATA {
      AlignedAt(toks, 0, pieces, j);
    }
  }
}
