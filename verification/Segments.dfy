/** Cutting a stream of tagged segments into chunks, as pytorchModelSegmenter in
    custom_parsers/pytorch_model_parser.c does: neighbours with the same tag are merged, a chunk that
    exceeds the limit is flushed up to a multiple of 8 bytes of its last segment, and the rest of that
    segment is carried into the next chunk. Then segments longer than a maximum are split again. */
module Segments {
  import opened Sequences

  datatype Seg = Seg(size: nat, tag: nat)

  /** The tag of everything that is not file data. */
  const METADATA := 6

  function Last(s: seq<Seg>): Seg
    requires s != []
  {
    s[|s| - 1]
  }

  function Init(s: seq<Seg>): seq<Seg>
    requires s != []
  {
    s[..|s| - 1]
  }

  function Total(segs: seq<Seg>): nat {
    if segs == [] then 0 else Total(Init(segs)) + Last(segs).size
  }

  lemma {:induction false} TotalConcat(a: seq<Seg>, b: seq<Seg>)
    ensures Total(a + b) == Total(a) + Total(b)
    decreases |b|
  {
    if b == [] {
      assert a + b == a;
    } else {
      assert Init(a + b) == a + Init(b);
      TotalConcat(a, Init(b));
    }
  }

  lemma TotalSnoc(a: seq<Seg>, s: Seg)
    ensures Total(a + [s]) == Total(a) + s.size
  {
    assert Init(a + [s]) == a;
  }

  // ---------------------------------------------------------------- the algorithm

  /** Adds a segment, merging it with the last one when the tags agree. */
  function Push(segs: seq<Seg>, s: Seg): (r: seq<Seg>)
    ensures r != [] && Last(r).tag == s.tag && s.size <= Last(r).size
  {
    if segs != [] && Last(segs).tag == s.tag then Init(segs) + [Seg(Last(segs).size + s.size, s.tag)]
    else segs + [s]
  }

  predicate Limit(limit: nat) {
    limit > 0 && limit % 8 == 0
  }

  /** The bytes of the last segment that still fit, rounded down to a multiple of 8. */
  function SplitSize(segs: seq<Seg>, limit: nat): (r: nat)
    requires Overflows(segs, limit)
    ensures r <= Last(segs).size && r % 8 == 0
  {
    var fits := Last(segs).size - (Total(segs) - limit);
    fits - fits % 8
  }

  /** The chunk exceeds the limit, but without its last segment it would not. */
  predicate Overflows(segs: seq<Seg>, limit: nat) {
    Limit(limit) && segs != [] && Total(Init(segs)) <= limit < Total(segs)
  }

  function Flushed(segs: seq<Seg>, limit: nat): seq<Seg>
    requires Overflows(segs, limit)
  {
    var split := SplitSize(segs, limit);
    if split == 0 then Init(segs) else Init(segs) + [Seg(split, Last(segs).tag)]
  }

  function Carried(segs: seq<Seg>, limit: nat): Seg
    requires Overflows(segs, limit)
  {
    Seg(Last(segs).size - SplitSize(segs, limit), Last(segs).tag)
  }

  /** A flush takes at least one byte out and fills the chunk to within 8 bytes of the limit. */
  lemma FlushedSize(segs: seq<Seg>, limit: nat)
    requires Overflows(segs, limit)
    ensures Flushed(segs, limit) != []
    ensures Total(Flushed(segs, limit)) + Carried(segs, limit).size == Total(segs)
    ensures 0 < Carried(segs, limit).size == Total([Carried(segs, limit)]) < Total(segs)
    ensures 0 < Total(Flushed(segs, limit)) <= limit < Total(Flushed(segs, limit)) + 8
  {
    var split := SplitSize(segs, limit);
    TotalSnoc(Init(segs), Seg(split, Last(segs).tag));
    assert Init([Carried(segs, limit)]) == [];
  }

  datatype State = State(chunks: seq<seq<Seg>>, segs: seq<Seg>)

  /** Flushes until the pending segments fit. */
  function Flush(st: State, limit: nat): (r: State)
    requires Limit(limit) && (st.segs == [] || Total(Init(st.segs)) <= limit)
    ensures Total(r.segs) <= limit && (r.segs == [] <==> st.segs == [])
    decreases Total(st.segs)
  {
    if Total(st.segs) <= limit then st
    else
      FlushedSize(st.segs, limit);
      Flush(State(st.chunks + [Flushed(st.segs, limit)], [Carried(st.segs, limit)]), limit)
  }

  /** One token: add it, then flush. */
  function Feed(st: State, s: Seg, limit: nat): (r: State)
    requires Limit(limit) && Total(st.segs) <= limit
    ensures Total(r.segs) <= limit && r.segs != []
  {
    PushInit(st.segs, s);
    Flush(State(st.chunks, Push(st.segs, s)), limit)
  }

  lemma PushInit(segs: seq<Seg>, s: Seg)
    ensures Total(Init(Push(segs, s))) <= Total(segs)
    ensures Total(Push(segs, s)) == Total(segs) + s.size
  {
    if segs != [] && Last(segs).tag == s.tag {
      assert Init(Push(segs, s)) == Init(segs);
    } else {
      assert Init(Push(segs, s)) == segs;
    }
  }

  function FeedAll(toks: seq<Seg>, limit: nat): (r: State)
    requires Limit(limit)
    ensures Total(r.segs) <= limit && (r.segs == [] <==> toks == [])
    decreases |toks|
  {
    if toks == [] then State([], []) else Feed(FeedAll(Init(toks), limit), Last(toks), limit)
  }

  /** The chunks of a whole stream; what is pending at the end is the last one. */
  function Chunks(toks: seq<Seg>, limit: nat): seq<seq<Seg>>
    requires Limit(limit)
  {
    var st := FeedAll(toks, limit);
    if st.segs == [] then st.chunks else st.chunks + [st.segs]
  }

  // ---------------------------------------------------------------- an invariant principle

  /** Everything the stream read so far has in the chunks and in the pending segments. */
  function Output(st: State): seq<Seg> {
    Flatten(st.chunks) + st.segs
  }

  lemma OutputChunks(toks: seq<Seg>, limit: nat)
    requires Limit(limit)
    ensures Flatten(Chunks(toks, limit)) == Output(FeedAll(toks, limit))
  {
    var st := FeedAll(toks, limit);
    if st.segs == [] {
      assert Output(st) == Flatten(st.chunks);
    } else {
      FlattenSnoc(st.chunks, st.segs);
    }
  }

  // ---------------------------------------------------------------- every byte keeps its tag

  function Repeat(tag: nat, n: nat): seq<nat> {
    seq(n, _ => tag)
  }

  /** The tag of each byte. */
  function Expand(segs: seq<Seg>): seq<nat> {
    if segs == [] then [] else Expand(Init(segs)) + Repeat(Last(segs).tag, Last(segs).size)
  }

  lemma ExpandSnoc(a: seq<Seg>, s: Seg)
    ensures Expand(a + [s]) == Expand(a) + Repeat(s.tag, s.size)
  {
    assert Init(a + [s]) == a;
  }

  lemma {:induction false} ExpandConcat(a: seq<Seg>, b: seq<Seg>)
    ensures Expand(a + b) == Expand(a) + Expand(b)
    decreases |b|
  {
    if b == [] {
      assert a + b == a;
    } else {
      hide Repeat;
      assert Init(a + b) == a + Init(b) && Last(a + b) == Last(b);
      ExpandConcat(a, Init(b));
    }
  }

  lemma {:induction false} ExpandSize(segs: seq<Seg>)
    ensures |Expand(segs)| == Total(segs)
    decreases |segs|
  {
    if segs != [] {
      ExpandSize(Init(segs));
    }
  }

  lemma ExpandPush(segs: seq<Seg>, s: Seg)
    ensures Expand(Push(segs, s)) == Expand(segs) + Repeat(s.tag, s.size)
  {
    if segs != [] && Last(segs).tag == s.tag {
      ExpandSnoc(Init(segs), Seg(Last(segs).size + s.size, s.tag));
      assert Repeat(s.tag, Last(segs).size + s.size) == Repeat(s.tag, Last(segs).size) + Repeat(s.tag, s.size);
    } else {
      ExpandSnoc(segs, s);
    }
  }

  lemma ExpandCut(segs: seq<Seg>, limit: nat)
    requires Overflows(segs, limit)
    ensures Expand(Flushed(segs, limit)) + Expand([Carried(segs, limit)]) == Expand(segs)
  {
    var last, split := Last(segs), SplitSize(segs, limit);
    ExpandSnoc(Init(segs), Seg(split, last.tag));
    ExpandSnoc([], Carried(segs, limit));
    assert [] + [Carried(segs, limit)] == [Carried(segs, limit)];
    assert Repeat(last.tag, split) + Repeat(last.tag, last.size - split) == Repeat(last.tag, last.size);
  }

  lemma NoBytesBefore(s: Seg)
    ensures Total(Init([s])) == 0
  {
    assert Init([s]) == [];
  }

  lemma {:induction false} ExpandFlush(st: State, limit: nat)
    requires Limit(limit) && (st.segs == [] || Total(Init(st.segs)) <= limit)
    ensures Expand(Output(Flush(st, limit))) == Expand(Output(st))
    decreases Total(st.segs)
  {
    if Total(st.segs) > limit {
      hide Expand, Total, Flushed, Carried;
      var out, carry := Flushed(st.segs, limit), Carried(st.segs, limit);
      FlushedSize(st.segs, limit);
      NoBytesBefore(carry);
      ExpandFlush(State(st.chunks + [out], [carry]), limit);
      FlattenSnoc(st.chunks, out);
      ExpandConcat(Flatten(st.chunks), out);
      ExpandConcat(Flatten(st.chunks) + out, [carry]);
      ExpandConcat(Flatten(st.chunks), st.segs);
      ExpandCut(st.segs, limit);
    }
  }

  lemma {:induction false} ExpandFeedAll(toks: seq<Seg>, limit: nat)
    requires Limit(limit)
    ensures Expand(Output(FeedAll(toks, limit))) == Expand(toks)
    decreases |toks|
  {
    if toks != [] {
      hide Push, Flush, Flatten;
      var st, s := FeedAll(Init(toks), limit), Last(toks);
      var pushed := State(st.chunks, Push(st.segs, s));
      PushInit(st.segs, s);
      calc {
        Expand(Output(FeedAll(toks, limit)));
        { ExpandFlush(pushed, limit); }
        Expand(Flatten(st.chunks) + Push(st.segs, s));
        { ExpandConcat(Flatten(st.chunks), Push(st.segs, s)); ExpandPush(st.segs, s); }
        Expand(Flatten(st.chunks)) + (Expand(st.segs) + Repeat(s.tag, s.size));
        (Expand(Flatten(st.chunks)) + Expand(st.segs)) + Repeat(s.tag, s.size);
        { ExpandConcat(Flatten(st.chunks), st.segs); }
        Expand(Output(st)) + Repeat(s.tag, s.size);
        { ExpandFeedAll(Init(toks), limit); }
        Expand(toks);
      }
    }
  }

  /** The chunks hold every byte of the stream once, in order, under the tag of its token. */
  lemma ChunksKeepBytes(toks: seq<Seg>, limit: nat)
    requires Limit(limit)
    ensures Expand(Flatten(Chunks(toks, limit))) == Expand(toks)
    ensures Total(Flatten(Chunks(toks, limit))) == Total(toks)
  {
    OutputChunks(toks, limit);
    ExpandFeedAll(toks, limit);
    ExpandSize(toks);
    ExpandSize(Output(FeedAll(toks, limit)));
  }

  // ---------------------------------------------------------------- chunk sizes

  /** A flushed chunk is not empty, within the limit and filled to within 8 bytes of it. */
  predicate Full(chunk: seq<Seg>, limit: nat) {
    chunk != [] && 0 < Total(chunk) <= limit < Total(chunk) + 8
  }

  lemma {:induction false} FlushFull(st: State, limit: nat)
    requires Limit(limit) && (st.segs == [] || Total(Init(st.segs)) <= limit)
    requires forall c :: c in st.chunks ==> Full(c, limit)
    ensures forall c :: c in Flush(st, limit).chunks ==> Full(c, limit)
    ensures Total(st.segs) > 0 ==> Total(Flush(st, limit).segs) > 0
    decreases Total(st.segs)
  {
    if Total(st.segs) > limit {
      FlushedSize(st.segs, limit);
      FlushFull(State(st.chunks + [Flushed(st.segs, limit)], [Carried(st.segs, limit)]), limit);
    }
  }

  lemma {:induction false} FeedAllFull(toks: seq<Seg>, limit: nat)
    requires Limit(limit)
    ensures forall c :: c in FeedAll(toks, limit).chunks ==> Full(c, limit)
    ensures Total(FeedAll(toks, limit).segs) > 0 <==> Total(toks) > 0
    decreases |toks|
  {
    if toks != [] {
      var st, s := FeedAll(Init(toks), limit), Last(toks);
      FeedAllFull(Init(toks), limit);
      PushInit(st.segs, s);
      FlushFull(State(st.chunks, Push(st.segs, s)), limit);
    }
  }

  /** Every chunk but the last is full; no chunk exceeds the limit; and no chunk is empty unless
      the whole stream is. */
  lemma ChunkSizes(toks: seq<Seg>, limit: nat)
    requires Limit(limit)
    ensures var cs := Chunks(toks, limit);
            && (forall k :: 0 <= k < |cs| - 1 ==> Full(cs[k], limit))
            && (forall k :: 0 <= k < |cs| ==> cs[k] != [] && Total(cs[k]) <= limit)
            && (Total(toks) > 0 ==> forall k :: 0 <= k < |cs| ==> Total(cs[k]) > 0)
  {
    FeedAllFull(toks, limit);
    var st := FeedAll(toks, limit);
    forall k | 0 <= k < |st.chunks| ensures Full(st.chunks[k], limit) {
      assert st.chunks[k] in st.chunks;
    }
  }

  // ---------------------------------------------------------------- how many segments are pending

  function CountDataSegments(segs: seq<Seg>): nat {
    if segs == [] then 0 else CountDataSegments(Init(segs)) + if Last(segs).tag == METADATA then 0 else 1
  }

  /** Neighbours have different tags. */
  ghost predicate Alternating(segs: seq<Seg>) {
    forall i :: 0 <= i < |segs| - 1 ==> segs[i].tag != segs[i + 1].tag
  }

  /** Metadata segments are separated by data, so they are at most one more. */
  lemma {:induction false} AlternatingLength(segs: seq<Seg>)
    requires Alternating(segs)
    ensures |segs| <= 2 * CountDataSegments(segs) + if segs != [] && Last(segs).tag == METADATA then 1 else 0
    decreases |segs|
  {
    if segs != [] {
      var rest := Init(segs);
      AlternatingLength(rest);
      assert rest != [] ==> Last(rest) == segs[|segs| - 2] && Last(segs) == segs[|segs| - 1];
    }
  }

  lemma PushAlternating(segs: seq<Seg>, s: Seg)
    requires Alternating(segs)
    ensures Alternating(Push(segs, s))
    ensures CountDataSegments(Push(segs, s)) <= CountDataSegments(segs) + CountDataSegments([s])
  {
    assert Init([s]) == [];
    if segs != [] && Last(segs).tag == s.tag {
      assert Init(Push(segs, s)) == Init(segs);
    } else {
      assert Init(Push(segs, s)) == segs;
    }
  }

  lemma {:induction false} FlushAlternating(st: State, limit: nat)
    requires Limit(limit) && (st.segs == [] || Total(Init(st.segs)) <= limit) && Alternating(st.segs)
    ensures Alternating(Flush(st, limit).segs) && CountDataSegments(Flush(st, limit).segs) <= CountDataSegments(st.segs)
    decreases Total(st.segs)
  {
    if Total(st.segs) > limit {
      FlushedSize(st.segs, limit);
      assert Init([Carried(st.segs, limit)]) == [];
      FlushAlternating(State(st.chunks + [Flushed(st.segs, limit)], [Carried(st.segs, limit)]), limit);
    }
  }

  lemma {:induction false} FeedAllAlternating(toks: seq<Seg>, limit: nat)
    requires Limit(limit)
    ensures Alternating(FeedAll(toks, limit).segs)
    ensures CountDataSegments(FeedAll(toks, limit).segs) <= CountDataSegments(toks)
    decreases |toks|
  {
    if toks != [] {
      var st, s := FeedAll(Init(toks), limit), Last(toks);
      FeedAllAlternating(Init(toks), limit);
      PushInit(st.segs, s);
      PushAlternating(st.segs, s);
      assert Init([s]) == [];
      FlushAlternating(State(st.chunks, Push(st.segs, s)), limit);
    }
  }

  /** However long the stream, a stream with n data tokens never has more than 2n + 1 pending
      segments, right after a token is added as well as after flushing. */
  lemma PendingBound(toks: seq<Seg>, s: Seg, limit: nat)
    requires Limit(limit)
    ensures |FeedAll(toks, limit).segs| <= 2 * CountDataSegments(toks) + 1
    ensures |Push(FeedAll(toks, limit).segs, s)| <= 2 * CountDataSegments(toks + [s]) + 1
  {
    var segs := FeedAll(toks, limit).segs;
    FeedAllAlternating(toks, limit);
    AlternatingLength(segs);
    PushAlternating(segs, s);
    AlternatingLength(Push(segs, s));
    assert Init([s]) == [] && Init(toks + [s]) == toks;
  }
}
