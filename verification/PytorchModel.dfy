/** The segmenter and the inner graph of custom_parsers/pytorch_model_parser.c, on top of the lexer. */
module PytorchModel {
  import opened Bytes
  import opened ZipFormat
  import opened ZipPlan
  import opened ZipLexer
  import opened Segments
  import opened Sequences
  import opened TokenStreams
  import opened Alignment

  const SIZE_MAX: nat := 0xFFFF_FFFF_FFFF_FFFF

  const U8 := 0
  const F16 := 1
  const F32 := 2
  const F64 := 3
  const OTHER_FILES := 4
  const PRECOMPRESSED := 5

  const SLASH: byte := 0x2F
  const DATA_DIR: bytes := [0x64, 0x61, 0x74, 0x61, SLASH]
  const WEIGHTS_DIR: bytes := [0x78, 0x6C, 0x5F, 0x6D, 0x6F, 0x64, 0x65, 0x6C, 0x5F, 0x77, 0x65, 0x69, 0x67, 0x68, 0x74, 0x73, SLASH]

  // ---------------------------------------------------------------- the tag of a token

  /** The name has the directory at its start or right after a slash. */
  ghost predicate InDir(name: bytes, dir: bytes) {
    exists k :: DirAt(name, dir, k)
  }

  ghost predicate DirAt(name: bytes, dir: bytes, k: int) {
    0 <= k <= |name| && (k == 0 || name[k - 1] == SLASH) && dir <= name[k..]
  }

  method IndexOf(s: bytes, from: nat, b: byte) returns (r: Option<nat>)
    requires from <= |s|
    ensures r.Some? ==> from <= r.value < |s| && s[r.value] == b && b !in s[from..r.value]
    ensures r.None? ==> b !in s[from..]
  {
    for i := from to |s|
      invariant b !in s[from..i]
    {
      if s[i] == b {
        return Some(i);
      }
    }
    return None;
  }

  method HasDir(name: bytes, dir: bytes) returns (r: bool)
    ensures r <==> InDir(name, dir)
  {
    var at := 0;
    while true
      invariant at <= |name| && (at == 0 || name[at - 1] == SLASH)
      invariant forall k :: 0 <= k < at ==> !DirAt(name, dir, k)
      decreases |name| - at
    {
      if |name| - at >= |dir| && name[at..at + |dir|] == dir {
        assert dir <= name[at..];
        assert DirAt(name, dir, at);
        return true;
      }
      assert !(dir <= name[at..]);
      var slash := IndexOf(name, at, SLASH);
      if slash.None? {
        forall k ensures !DirAt(name, dir, k) {
          if k > at && k <= |name| {
            assert name[k - 1] in name[at..];
          }
        }
        return false;
      }
      forall k | at < k <= slash.value ensures !DirAt(name, dir, k) {
        assert name[k - 1] in name[at..slash.value];
      }
      at := slash.value + 1;
    }
  }

  ghost predicate IsDataFile(name: bytes) {
    InDir(name, DATA_DIR) || InDir(name, WEIGHTS_DIR)
  }

  /** The successor for a guessed float width. */
  function Selected(width: nat): nat {
    if width == 2 then F16 else if width == 4 then F32 else if width == 8 then F64 else U8
  }

  function Name(src: bytes, t: Token): bytes
    requires t.NameEnd() <= |src|
  {
    if t.filename.Some? then src[t.filename.value..t.NameEnd()] else []
  }

  ghost function Tag(src: bytes, guess: bytes -> nat, t: Token): nat
    requires t.End() <= |src| && t.NameEnd() <= |src|
  {
    if t.kind != CompressedData then METADATA
    else if t.compressionMethod != 0 then PRECOMPRESSED
    else if IsDataFile(Name(src, t)) then Selected(guess(src[t.ptr..t.End()]))
    else OTHER_FILES
  }

  method TagOf(src: bytes, guess: bytes -> nat, t: Token) returns (tag: nat)
    requires t.End() <= |src| && t.NameEnd() <= |src|
    ensures tag == Tag(src, guess, t)
  {
    if t.kind != CompressedData {
      return METADATA;
    }
    if t.compressionMethod != 0 {
      return PRECOMPRESSED;
    }
    var isData := HasDir(Name(src, t), DATA_DIR);
    if !isData {
      isData := HasDir(Name(src, t), WEIGHTS_DIR);
    }
    return if isData then Selected(guess(src[t.ptr..t.End()])) else OTHER_FILES;
  }

  /** The tokens as tagged segments. */
  ghost function Tagged(src: bytes, guess: bytes -> nat, tokens: seq<Token>): seq<Seg>
    requires InBounds(tokens, |src|)
  {
    seq(|tokens|, i requires 0 <= i < |tokens| => Seg(tokens[i].size, Tag(src, guess, tokens[i])))
  }

  // ---------------------------------------------------------------- the pending segments

  function Zip(sizes: seq<nat>, tags: seq<nat>): seq<Seg>
    requires |sizes| == |tags|
  {
    seq(|sizes|, i requires 0 <= i < |sizes| => Seg(sizes[i], tags[i]))
  }

  /** The first n entries of the two arrays. */
  ghost function Pending(sizes: array<nat>, tags: array<nat>, n: nat): (r: seq<Seg>)
    requires n <= sizes.Length && n <= tags.Length
    reads sizes, tags
    ensures |r| == n
  {
    Zip(sizes[..n], tags[..n])
  }

  /** Adds a token to the pending segments, or reports that the arrays are full. */
  method Add(sizes: array<nat>, tags: array<nat>, nb: nat, s: Seg) returns (ok: bool, nb': nat)
    requires sizes != tags && nb <= sizes.Length == tags.Length
    modifies sizes, tags
    ensures ok <==> |Push(old(Pending(sizes, tags, nb)), s)| <= sizes.Length
    ensures ok ==> nb' <= sizes.Length && Pending(sizes, tags, nb') == Push(old(Pending(sizes, tags, nb)), s)
  {
    ghost var segs := Pending(sizes, tags, nb);
    if nb > 0 && tags[nb - 1] == s.tag {
      sizes[nb - 1] := sizes[nb - 1] + s.size;
      assert Pending(sizes, tags, nb) == Init(segs) + [Seg(Last(segs).size + s.size, s.tag)];
      return true, nb;
    }
    if nb >= sizes.Length {
      return false, nb;
    }
    sizes[nb] := s.size;
    tags[nb] := s.tag;
    assert Pending(sizes, tags, nb + 1) == segs + [s];
    return true, nb + 1;
  }

  /** One flush: the chunk that goes out, its size, and the rest of its last segment carried over. */
  method FlushOne(sizes: array<nat>, tags: array<nat>, nb: nat, bytes: nat, limit: nat)
    returns (chunk: seq<Seg>, flushBytes: nat, excess: nat)
    requires sizes != tags && 0 < nb <= sizes.Length == tags.Length
    requires Overflows(Pending(sizes, tags, nb), limit) && bytes == Total(Pending(sizes, tags, nb))
    modifies sizes, tags
    ensures chunk == Flushed(old(Pending(sizes, tags, nb)), limit)
    ensures Pending(sizes, tags, 1) == [Carried(old(Pending(sizes, tags, nb)), limit)]
    ensures excess == Carried(old(Pending(sizes, tags, nb)), limit).size > 0
    ensures flushBytes == Total(chunk) <= limit
  {
    hide Total, Overflows, SplitSize;
    ghost var segs := Pending(sizes, tags, nb);
    FlushFacts(segs, limit);
    var carryTag := tags[nb - 1];
    assert Last(segs) == Seg(sizes[nb - 1], carryTag);
    var overflowBytes := bytes - limit;
    var splitSize := sizes[nb - 1] - overflowBytes;
    splitSize := splitSize - splitSize % 8;
    excess := sizes[nb - 1] - splitSize;
    flushBytes := bytes - excess;
    sizes[nb - 1] := splitSize;
    var n := if splitSize == 0 then nb - 1 else nb;
    chunk := Zip(sizes[..n], tags[..n]);
    assert Zip(sizes[..nb - 1], tags[..nb - 1]) == Init(segs);
    assert splitSize > 0 ==> chunk == Init(segs) + [Seg(splitSize, carryTag)];
    sizes[0], tags[0] := excess, carryTag;
  }

  lemma FlushFacts(segs: seq<Seg>, limit: nat)
    requires Overflows(segs, limit)
    ensures limit < Total(segs) && Total(segs) - limit <= Last(segs).size
    ensures var fits := Last(segs).size - (Total(segs) - limit); SplitSize(segs, limit) == fits - fits % 8
    ensures 0 < Carried(segs, limit).size && Total(Flushed(segs, limit)) == Total(segs) - Carried(segs, limit).size <= limit
  {
    TotalLast(segs);
    hide Total, Flushed, Carried;
    FlushedSize(segs, limit);
  }

  lemma TotalLast(segs: seq<Seg>)
    requires segs != []
    ensures Total(segs) == Total(Init(segs)) + Last(segs).size
  {
  }

  /** Flushes chunks while the pending bytes exceed the limit. The limit is a positive multiple of
      8, or there is nothing to flush. */
  method FlushChunks(sizes: array<nat>, tags: array<nat>, nb: nat, bytes: nat, limit: nat, chunks: seq<seq<Seg>>)
    returns (nb': nat, bytes': nat, chunks': seq<seq<Seg>>)
    requires sizes != tags && 0 < nb <= sizes.Length == tags.Length
    requires bytes == Total(Pending(sizes, tags, nb)) && Total(Init(Pending(sizes, tags, nb))) <= limit
    requires Limit(limit) || bytes <= limit
    modifies sizes, tags
    ensures 0 < nb' <= sizes.Length && bytes' == Total(Pending(sizes, tags, nb')) <= limit
    ensures if Limit(limit) then State(chunks', Pending(sizes, tags, nb')) == Flush(State(chunks, old(Pending(sizes, tags, nb))), limit)
            else chunks' == chunks && Pending(sizes, tags, nb') == old(Pending(sizes, tags, nb))
  {
    hide Zip, Flushed, Carried, SplitSize;
    nb', bytes', chunks' := nb, bytes, chunks;
    while bytes' > limit
      invariant 0 < nb' <= sizes.Length && bytes' == Total(Pending(sizes, tags, nb'))
      invariant Total(Init(Pending(sizes, tags, nb'))) <= limit
      invariant Limit(limit) || bytes' <= limit
      invariant if Limit(limit) then Flush(State(chunks', Pending(sizes, tags, nb')), limit) == Flush(State(chunks, old(Pending(sizes, tags, nb))), limit)
                else chunks' == chunks && Pending(sizes, tags, nb') == old(Pending(sizes, tags, nb))
      decreases bytes'
    {
      FlushedSize(Pending(sizes, tags, nb'), limit);
      var chunk, _, excess := FlushOne(sizes, tags, nb', bytes', limit);
      chunks' := chunks' + [chunk];
      nb', bytes' := 1, excess;
      assert Init(Pending(sizes, tags, 1)) == [];
    }
  }

  // ---------------------------------------------------------------- the segmenter

  /** The limit in force: a format version without chunks has none, and SIZE_MAX stands for that. */
  function LimitOf(chunked: bool, maxChunk: nat): nat {
    if chunked then maxChunk else SIZE_MAX
  }

  /** The same limit as a multiple of 8; no input is longer than SIZE_MAX. */
  function RoundLimit(chunked: bool, maxChunk: nat): nat {
    if chunked then maxChunk else SIZE_MAX + 1
  }

  lemma NoFlush(st: State, s: Seg, limit: nat)
    requires Limit(limit) && Total(st.segs) <= limit && Total(st.segs) + s.size <= limit
    ensures Feed(st, s, limit) == State(st.chunks, Push(st.segs, s))
  {
    PushInit(st.segs, s);
  }

  method FeedToken(sizes: array<nat>, tags: array<nat>, nb: nat, bytes: nat, chunks: seq<seq<Seg>>, s: Seg,
                   chunked: bool, maxChunk: nat, ghost toks: seq<Seg>)
    returns (ok: bool, nb': nat, bytes': nat, chunks': seq<seq<Seg>>)
    requires sizes != tags && nb <= sizes.Length == tags.Length && Limit(maxChunk)
    requires State(chunks, Pending(sizes, tags, nb)) == FeedAll(toks, RoundLimit(chunked, maxChunk))
    requires bytes == Total(Pending(sizes, tags, nb)) && bytes + s.size <= SIZE_MAX
    requires 2 * CountDataSegments(toks + [s]) + 1 <= sizes.Length
    modifies sizes, tags
    ensures ok && nb' <= sizes.Length && bytes' == Total(Pending(sizes, tags, nb'))
    ensures State(chunks', Pending(sizes, tags, nb')) == FeedAll(toks + [s], RoundLimit(chunked, maxChunk))
  {
    hide Push, Flush;
    ghost var segs, limit := Pending(sizes, tags, nb), RoundLimit(chunked, maxChunk);
    assert Init(toks + [s]) == toks && Last(toks + [s]) == s;
    PendingBound(toks, s, limit);
    PushInit(segs, s);
    ok, nb' := Add(sizes, tags, nb, s);
    bytes' := bytes + s.size;
    if !chunked {
      NoFlush(State(chunks, segs), s, limit);
    }
    nb', bytes', chunks' := FlushChunks(sizes, tags, nb', bytes', LimitOf(chunked, maxChunk), chunks);
  }

  // ---------------------------------------------------------------- what the token stream gives

  lemma TaggedSplit(src: bytes, guess: bytes -> nat, a: seq<Token>, b: seq<Token>)
    requires InBounds(a + b, |src|)
    ensures InBounds(a, |src|) && InBounds(b, |src|)
    ensures Tagged(src, guess, a + b) == Tagged(src, guess, a) + Tagged(src, guess, b)
  {
    assert forall i :: 0 <= i < |a| ==> (a + b)[i] == a[i];
    assert forall i :: 0 <= i < |b| ==> (a + b)[|a| + i] == b[i];
  }

  lemma TagIsData(src: bytes, guess: bytes -> nat, t: Token)
    requires t.End() <= |src| && t.NameEnd() <= |src|
    ensures Tag(src, guess, t) != METADATA <==> t.kind == CompressedData
  {
  }

  lemma {:induction false} TaggedCount(src: bytes, guess: bytes -> nat, tokens: seq<Token>)
    requires InBounds(tokens, |src|)
    ensures CountDataSegments(Tagged(src, guess, tokens)) == CountDataTokens(tokens)
    decreases |tokens|
  {
    if tokens != [] {
      var n := |tokens| - 1;
      var init, last := tokens[..n], tokens[n..];
      assert tokens == init + last;
      TaggedSplit(src, guess, init, last);
      TaggedCount(src, guess, init);
      CountDataTokensSplit(init, last);
      assert last[1..] == [];
      assert Init(Tagged(src, guess, tokens)) == Tagged(src, guess, init);
      assert Last(Tagged(src, guess, tokens)) == Seg(tokens[n].size, Tag(src, guess, tokens[n]));
      hide Tag;
      TagIsData(src, guess, tokens[n]);
    }
  }

  lemma {:induction false} TaggedTotal(src: bytes, guess: bytes -> nat, tokens: seq<Token>, pos: nat, last: nat)
    requires InBounds(tokens, |src|) && Tiles(tokens, pos, last)
    ensures pos <= last && Total(Tagged(src, guess, tokens)) == last - pos
    decreases |tokens|
  {
    if tokens != [] {
      assert tokens == [tokens[0]] + tokens[1..];
      TaggedSplit(src, guess, [tokens[0]], tokens[1..]);
      TaggedTotal(src, guess, tokens[1..], tokens[0].End(), last);
      TotalConcat(Tagged(src, guess, [tokens[0]]), Tagged(src, guess, tokens[1..]));
      assert Init(Tagged(src, guess, [tokens[0]])) == [];
    }
  }

  lemma {:induction false} TotalPrefix(segs: seq<Seg>, k: nat)
    requires k <= |segs|
    ensures Total(segs[..k]) <= Total(segs)
  {
    TotalConcat(segs[..k], segs[k..]);
    assert segs == segs[..k] + segs[k..];
  }

  lemma {:induction false} CountPrefix(segs: seq<Seg>, k: nat)
    requires k <= |segs|
    ensures CountDataSegments(segs[..k]) <= CountDataSegments(segs)
    decreases |segs| - k
  {
    if k < |segs| {
      CountPrefix(segs, k + 1);
      assert Init(segs[..k + 1]) == segs[..k];
    } else {
      assert segs[..k] == segs;
    }
  }

  /** Facts about the tagged tokens of any zip file: they are no more than the source, at most
      one of them per file is data, and no two data tokens are neighbours. */
  lemma TaggedFacts(src: bytes, guess: bytes -> nat, numFiles: nat, r: Stream<Token>)
    requires WellLexed(src, numFiles, r)
    ensures var toks := Tagged(src, guess, r.tokens);
            && Total(toks) <= |src| && (r.ok ==> Total(toks) == |src|)
            && CountDataSegments(toks) <= numFiles && Separated(toks)
  {
    var last: nat :| Tiles(r.tokens, 0, last) && last <= |src| && Text(src, r.tokens) == src[..last];
    TilesText(src, r.tokens, 0, last);
    TaggedTotal(src, guess, r.tokens, 0, last);
    TaggedCount(src, guess, r.tokens);
    assert r.ok ==> |src[..last]| == |src|;
  }

  /** The loop over one batch of tokens: `done` tokens of the stream have been fed before it. */
  method FeedBatch(src: bytes, guess: bytes -> nat, batch: array<Token>, n: nat,
                   sizes: array<nat>, tags: array<nat>, nb: nat, bytes: nat, chunks: seq<seq<Seg>>,
                   chunked: bool, maxChunk: nat, ghost all: seq<Token>, ghost done: nat)
    returns (ok: bool, nb': nat, bytes': nat, chunks': seq<seq<Seg>>)
    requires |src| <= SIZE_MAX && Limit(maxChunk) && InBounds(all, |src|)
    requires n <= batch.Length && done + n <= |all| && batch[..n] == all[done..done + n]
    requires sizes != tags && nb <= sizes.Length == tags.Length
    requires Total(Tagged(src, guess, all)) <= |src|
    requires 2 * CountDataSegments(Tagged(src, guess, all)) + 1 <= sizes.Length
    requires State(chunks, Pending(sizes, tags, nb)) == FeedAll(Tagged(src, guess, all)[..done], RoundLimit(chunked, maxChunk))
    requires bytes == Total(Pending(sizes, tags, nb))
    modifies sizes, tags
    ensures ok && nb' <= sizes.Length && bytes' == Total(Pending(sizes, tags, nb'))
    ensures State(chunks', Pending(sizes, tags, nb')) == FeedAll(Tagged(src, guess, all)[..done + n], RoundLimit(chunked, maxChunk))
  {
    hide Tag, FeedAll, Total;
    ghost var toks, limit := Tagged(src, guess, all), RoundLimit(chunked, maxChunk);
    ok, nb', bytes', chunks' := true, nb, bytes, chunks;
    for i := 0 to n
      invariant ok && nb' <= sizes.Length && bytes' == Total(Pending(sizes, tags, nb'))
      invariant State(chunks', Pending(sizes, tags, nb')) == FeedAll(toks[..done + i], limit)
    {
      var token := batch[i];
      assert token == batch[..n][i] == all[done + i];
      var tag := TagOf(src, guess, token);
      var s := Seg(token.size, tag);
      assert toks[done + i] == s;
      assert toks[..done + i] + [s] == toks[..done + i + 1];
      CountPrefix(toks, done + i + 1);
      PendingTotal(toks, done + i, limit);
      ok, nb', bytes', chunks' := FeedToken(sizes, tags, nb', bytes', chunks', s, chunked, maxChunk, toks[..done + i]);
    }
  }

  /** What is pending and the next token are together no more than the stream. */
  lemma PendingTotal(toks: seq<Seg>, k: nat, limit: nat)
    requires Limit(limit) && k < |toks|
    ensures Total(FeedAll(toks[..k], limit).segs) + toks[k].size <= Total(toks)
  {
    var st := FeedAll(toks[..k], limit);
    ExpandFeedAll(toks[..k], limit);
    ExpandSize(toks[..k]);
    ExpandSize(Output(st));
    TotalConcat(Flatten(st.chunks), st.segs);
    TotalPrefix(toks, k + 1);
    assert Init(toks[..k + 1]) == toks[..k];
  }

  /** The chunks of a token stream, under the limit in force. */
  ghost function ChunksOf(src: bytes, guess: bytes -> nat, chunked: bool, maxChunk: nat, tokens: seq<Token>): seq<seq<Seg>>
    requires Limit(maxChunk) && InBounds(tokens, |src|)
  {
    Chunks(Tagged(src, guess, tokens), RoundLimit(chunked, maxChunk))
  }

  /** With chunks, none exceeds the limit and each but the last is filled to within 8 bytes of it;
      without, there is one chunk at most. */
  ghost predicate WithinLimit(chunks: seq<seq<Seg>>, chunked: bool, maxChunk: nat) {
    if chunked
    then forall k :: 0 <= k < |chunks| ==> 0 < Total(chunks[k]) <= maxChunk && (k < |chunks| - 1 ==> maxChunk < Total(chunks[k]) + 8)
    else |chunks| <= 1
  }

  /** The segmenter of a zip file: it fails exactly when no end record opens or when the stream of
      the one that is chosen is corrupt, never for lack of room in its arrays; otherwise it gives
      the chunks of that stream. */
  method Segment(src: bytes, chunked: bool, maxChunk: nat, guess: bytes -> nat)
    returns (ok: bool, chunks: seq<seq<Seg>>)
    requires |src| <= SIZE_MAX && Limit(maxChunk)
    ensures ok ==> exists e :: Chosen(src, e)
    ensures forall e :: Chosen(src, e) ==> ok == StreamOf(src, e).ok
    ensures ok ==> WithinLimit(chunks, chunked, maxChunk)
    ensures forall e :: Chosen(src, e) && ok ==>
              && InBounds(StreamOf(src, e).tokens, |src|)
              && Expand(Flatten(chunks)) == Expand(Tagged(src, guess, StreamOf(src, e).tokens))
              && chunks == ChunksOf(src, guess, chunked, maxChunk, StreamOf(src, e).tokens)
  {
    hide StreamOf, WellLexed, ParseEocd, ChunksOf, InBounds, Chosen, NextFile, Expand, Tagged, Total, WithinLimit;
    chunks := [];
    var lexer := new Lexer(src);
    ghost var eocd;
    ok, eocd := lexer.Init();
    if !ok {
      NoneChosen(src);
      return;
    }
    lexer.StartedStream(eocd);
    StreamIsWellLexed(src, eocd);
    WellLexedInBounds(src, lexer.cdfhNum, StreamOf(src, eocd));
    NonEmptySource(src, eocd);
    OnlyChosen(src, eocd);
    ok, chunks := SegmentLexed(src, lexer, chunked, maxChunk, guess, StreamOf(src, eocd));
  }

  lemma OnlyChosen(src: bytes, eocd: nat)
    requires Chosen(src, eocd)
    ensures forall e :: Chosen(src, e) <==> e == eocd
  {
    forall e | Chosen(src, e) ensures e == eocd {
      ChosenIsUnique(src, e, eocd);
    }
  }

  /** What the limit means for the chunks of a stream that is not corrupt. */
  lemma ChunksAre(src: bytes, guess: bytes -> nat, chunked: bool, maxChunk: nat, numFiles: nat, all: Stream<Token>)
    requires 0 < |src| <= SIZE_MAX && Limit(maxChunk) && InBounds(all.tokens, |src|) && WellLexed(src, numFiles, all) && all.ok
    ensures var chunks := ChunksOf(src, guess, chunked, maxChunk, all.tokens);
            && WithinLimit(chunks, chunked, maxChunk)
            && Expand(Flatten(chunks)) == Expand(Tagged(src, guess, all.tokens))
  {
    hide WellLexed, Tagged, Chunks, Expand, Total, InBounds;
    var toks, limit := Tagged(src, guess, all.tokens), RoundLimit(chunked, maxChunk);
    TaggedFacts(src, guess, numFiles, all);
    ChunksKeepBytes(toks, limit);
    ChunkSizes(toks, limit);
    if !chunked {
      OneChunk(toks, limit);
    }
  }

  /** A stream within the limit is one chunk at most. */
  lemma OneChunk(toks: seq<Seg>, limit: nat)
    requires Limit(limit) && Total(toks) <= limit
    ensures |Chunks(toks, limit)| <= 1
  {
    NoChunks(toks, limit);
  }

  lemma {:induction false} NoChunks(toks: seq<Seg>, limit: nat)
    requires Limit(limit) && Total(toks) <= limit
    ensures FeedAll(toks, limit).chunks == [] && Total(FeedAll(toks, limit).segs) == Total(toks)
    decreases |toks|
  {
    if toks != [] {
      hide Push, Flush;
      var st, s := FeedAll(Init(toks), limit), Last(toks);
      NoChunks(Init(toks), limit);
      NoFlush(st, s, limit);
      PushInit(st.segs, s);
    }
  }

  method SegmentLexed(src: bytes, lexer: Lexer, chunked: bool, maxChunk: nat, guess: bytes -> nat, ghost all: Stream<Token>)
    returns (ok: bool, chunks: seq<seq<Seg>>)
    requires 0 < |src| <= SIZE_MAX && Limit(maxChunk) && lexer.src == src
    requires InBounds(all.tokens, |src|) && WellLexed(src, lexer.cdfhNum, all)
    requires lexer.Valid() && lexer.Pending() == all
    modifies lexer
    ensures ok <==> all.ok
    ensures ok ==> chunks == ChunksOf(src, guess, chunked, maxChunk, all.tokens) && WithinLimit(chunks, chunked, maxChunk)
    ensures ok ==> Expand(Flatten(chunks)) == Expand(Tagged(src, guess, all.tokens))
  {
    hide WellLexed, ChunksOf, Expand, Tagged, WithinLimit, InBounds, Lexer.Valid, Lexer.Pending;
    if all.ok {
      ChunksAre(src, guess, chunked, maxChunk, lexer.cdfhNum, all);
    }
    ok, chunks := FeedLexed(src, lexer, chunked, maxChunk, guess, all);
  }

  method FeedLexed(src: bytes, lexer: Lexer, chunked: bool, maxChunk: nat, guess: bytes -> nat, ghost all: Stream<Token>)
    returns (ok: bool, chunks: seq<seq<Seg>>)
    requires |src| <= SIZE_MAX && Limit(maxChunk) && lexer.src == src
    requires InBounds(all.tokens, |src|) && WellLexed(src, lexer.cdfhNum, all)
    requires lexer.Valid() && lexer.Pending() == all
    modifies lexer
    ensures ok <==> all.ok
    ensures ok ==> chunks == ChunksOf(src, guess, chunked, maxChunk, all.tokens)
  {
    hide WellLexed, Tag, FeedAll, Total, InBounds, Lexer.Valid, Lexer.Pending, CountDataSegments;
    ghost var limit := RoundLimit(chunked, maxChunk);
    TaggedFacts(src, guess, lexer.cdfhNum, all);
    ghost var toks := Tagged(src, guess, all.tokens);
    var maxNbSegs := lexer.cdfhNum * 4 + 2;
    var sizes, tags := new nat[maxNbSegs], new nat[maxNbSegs];
    var nb: nat, bytes: nat := 0, 0;
    chunks := [];
    ghost var done := 0;
    FeedNothing(toks, limit);
    TotalNothing();
    assert Pending(sizes, tags, 0) == [];
    while !lexer.Finished()
      invariant lexer.Valid() && done <= |all.tokens|
      invariant lexer.Pending() == Stream(all.tokens[done..], all.ok)
      invariant nb <= maxNbSegs && bytes == Total(Pending(sizes, tags, nb))
      invariant State(chunks, Pending(sizes, tags, nb)) == FeedAll(toks[..done], limit)
      decreases |all.tokens| - done
    {
      lexer.FinishedStream();
      var batch := new Token[32](_ => Plain(Unknown, 0, 0));
      var n;
      ok, n := lexer.Lex(batch, 32);
      if !ok {
        return;
      }
      assert all.tokens[done..][..n] == all.tokens[done..done + n];
      assert all.tokens[done..][n..] == all.tokens[done + n..];
      ok, nb, bytes, chunks := FeedBatch(src, guess, batch, n, sizes, tags, nb, bytes, chunks, chunked, maxChunk, all.tokens, done);
      done := done + n;
    }
    lexer.FinishedStream();
    assert done == |all.tokens| && toks[..done] == toks;
    if nb > 0 {
      chunks := chunks + [Zip(sizes[..nb], tags[..nb])];
    }
    ok := true;
  }

  lemma WellLexedInBounds(src: bytes, numFiles: nat, r: Stream<Token>)
    requires WellLexed(src, numFiles, r)
    ensures InBounds(r.tokens, |src|)
  {
  }

  lemma TotalNothing()
    ensures Total([]) == 0
  {
  }

  lemma FeedNothing(toks: seq<Seg>, limit: nat)
    requires Limit(limit)
    ensures FeedAll(toks[..0], limit) == State([], [])
  {
  }

  // ---------------------------------------------------------------- the inner graph

  /** The pieces of the segments of one chunk, none longer than `max`. The arrays are sized as in
      the source, and are never exceeded. */
  method SplitOversized(inSizes: seq<nat>, inTags: seq<nat>, max: nat) returns (ok: bool, pieces: seq<Seg>)
    requires |inSizes| == |inTags| && max > 0
    ensures ok && pieces == SplitAll(Zip(inSizes, inTags), max)
  {
    hide SplitAll, Split, Total, Expand, Zip;
    ghost var input := Zip(inSizes, inTags);
    ZipEntries(inSizes, inTags);
    var totalBytes := SumSizes(inSizes, inTags);
    var maxNb := |inSizes| + totalBytes / max + 1;
    SplitAllKeeps(input, max);
    var sizes, tags := new nat[maxNb], new nat[maxNb];
    var nb: nat := 0;
    SplitNothing(input, max);
    for i := 0 to |inSizes|
      invariant nb <= maxNb && Pending(sizes, tags, nb) == SplitAll(input[..i], max)
    {
      SplitPrefix(input, i + 1, max);
      SplitNext(input, i, max);
      if nb >= maxNb {
        assert false;
      }
      ok, nb := AppendSplit(sizes, tags, nb, Seg(inSizes[i], inTags[i]), max);
    }
    assert input[..|inSizes|] == input;
    ok, pieces := true, Zip(sizes[..nb], tags[..nb]);
  }

  lemma ZipEntries(sizes: seq<nat>, tags: seq<nat>)
    requires |sizes| == |tags|
    ensures |Zip(sizes, tags)| == |sizes|
    ensures forall i :: 0 <= i < |sizes| ==> Zip(sizes, tags)[i] == Seg(sizes[i], tags[i])
  {
  }

  lemma SplitNothing(segs: seq<Seg>, max: nat)
    requires max > 0
    ensures SplitAll(segs[..0], max) == []
  {
  }

  lemma SplitNext(segs: seq<Seg>, i: nat, max: nat)
    requires i < |segs| && max > 0
    ensures SplitAll(segs[..i + 1], max) == SplitAll(segs[..i], max) + Split(segs[i], max)
    ensures |Split(segs[i], max)| >= 1
  {
    assert Init(segs[..i + 1]) == segs[..i];
    SplitCount(segs[i], max);
  }

  method SumSizes(inSizes: seq<nat>, inTags: seq<nat>) returns (totalBytes: nat)
    requires |inSizes| == |inTags|
    ensures totalBytes == Total(Zip(inSizes, inTags))
  {
    ghost var input := Zip(inSizes, inTags);
    totalBytes := 0;
    for i := 0 to |inSizes|
      invariant totalBytes == Total(input[..i])
    {
      assert Init(input[..i + 1]) == input[..i];
      totalBytes := totalBytes + inSizes[i];
    }
    assert input[..|inSizes|] == input;
  }

  /** Appends a segment, then splits it. */
  method AppendSplit(sizes: array<nat>, tags: array<nat>, nb: nat, s: Seg, max: nat) returns (ok: bool, nb': nat)
    requires sizes != tags && nb < sizes.Length == tags.Length && max > 0
    requires nb + |Split(s, max)| <= sizes.Length
    modifies sizes, tags
    ensures ok && nb' <= sizes.Length
    ensures Pending(sizes, tags, nb') == old(Pending(sizes, tags, nb)) + Split(s, max)
  {
    hide Split;
    ghost var before := Pending(sizes, tags, nb);
    sizes[nb], tags[nb] := s.size, s.tag;
    assert Pending(sizes, tags, nb + 1) == before + [s];
    assert Init(before + [s]) == before;
    ok, nb' := SplitLast(sizes, tags, nb + 1, max);
  }

  /** Splits the last pending segment while it is longer than the maximum. */
  method SplitLast(sizes: array<nat>, tags: array<nat>, nb: nat, max: nat) returns (ok: bool, nb': nat)
    requires sizes != tags && 0 < nb <= sizes.Length == tags.Length && max > 0
    requires nb - 1 + |Split(Last(Pending(sizes, tags, nb)), max)| <= sizes.Length
    modifies sizes, tags
    ensures ok && nb' <= sizes.Length
    ensures Pending(sizes, tags, nb') == Init(old(Pending(sizes, tags, nb))) + Split(Last(old(Pending(sizes, tags, nb))), max)
  {
    ghost var whole := Init(Pending(sizes, tags, nb)) + Split(Last(Pending(sizes, tags, nb)), max);
    nb' := nb;
    while sizes[nb' - 1] > max
      invariant 0 < nb' <= sizes.Length
      invariant Init(Pending(sizes, tags, nb')) + Split(Last(Pending(sizes, tags, nb')), max) == whole
      decreases sizes[nb' - 1]
    {
      ghost var segs := Pending(sizes, tags, nb');
      var segmentSize := sizes[nb' - 1];
      assert Last(segs) == Seg(segmentSize, tags[nb' - 1]);
      SplitTwo(segs, max, whole, sizes.Length);
      if nb' >= sizes.Length {
        assert false;
      }
      sizes[nb' - 1] := max;
      sizes[nb'] := segmentSize - max;
      tags[nb'] := tags[nb' - 1];
      nb' := nb' + 1;
      assert Pending(sizes, tags, nb') == Init(segs) + [Seg(max, Last(segs).tag)] + [Seg(segmentSize - max, Last(segs).tag)];
      assert Init(Pending(sizes, tags, nb')) == Init(segs) + [Seg(max, Last(segs).tag)];
    }
    ok := true;
    assert Pending(sizes, tags, nb') == Init(Pending(sizes, tags, nb')) + [Last(Pending(sizes, tags, nb'))];
  }

  lemma SplitTwo(segs: seq<Seg>, max: nat, whole: seq<Seg>, capacity: nat)
    requires segs != [] && max > 0 && Last(segs).size > max && |whole| <= capacity
    requires whole == Init(segs) + Split(Last(segs), max)
    ensures |segs| < capacity
    ensures var head, rest := Seg(max, Last(segs).tag), Seg(Last(segs).size - max, Last(segs).tag);
            whole == (Init(segs) + [head]) + Split(rest, max)
  {
    SplitCount(Seg(Last(segs).size - max, Last(segs).tag), max);
  }

  lemma {:induction false} SplitPrefix(segs: seq<Seg>, k: nat, max: nat)
    requires k <= |segs| && max > 0
    ensures |SplitAll(segs[..k], max)| <= |SplitAll(segs, max)|
    decreases |segs| - k
  {
    if k < |segs| {
      SplitPrefix(segs, k + 1, max);
      assert Init(segs[..k + 1]) == segs[..k];
    } else {
      assert segs[..k] == segs;
    }
  }

  // ---------------------------------------------------------------- the whole way

  /** For every source whose stream is not corrupt: the chunks hold its bytes once and in order,
      each byte under its token's tag; every chunk but the last is full, none is empty and none
      exceeds the limit; and after the oversize split every piece is within the maximum and
      file data is cut only on the 8-byte grid of its token. */
  lemma ModelChunks(src: bytes, eocd: nat, guess: bytes -> nat, limit: nat, max: nat)
    requires ParseEocd(src, eocd).Some? && StreamOf(src, eocd).ok && Limit(limit) && Limit(max)
    ensures InBounds(StreamOf(src, eocd).tokens, |src|)
    ensures var toks := Tagged(src, guess, StreamOf(src, eocd).tokens);
            ModelOk(toks, Chunks(toks, limit), limit, max) && Total(Flatten(Chunks(toks, limit))) == |src|
  {
    hide ParseEocd, StreamOf, WellLexed, Tag, Chunks, Full;
    StreamIsWellLexed(src, eocd);
    var all := StreamOf(src, eocd);
    WellLexedInBounds(src, FileCount(src, eocd), all);
    TaggedFacts(src, guess, FileCount(src, eocd), all);
    var toks := Tagged(src, guess, all.tokens);
    NonEmptySource(src, eocd);
    StreamChunks(toks, limit, max);
  }

  ghost predicate ModelOk(toks: seq<Seg>, chunks: seq<seq<Seg>>, limit: nat, max: nat)
    requires max > 0
  {
    var pieces := Flatten(PiecesOf(chunks, max));
    && Expand(Flatten(chunks)) == Expand(toks) && Expand(pieces) == Expand(toks)
    && (forall k :: 0 <= k < |chunks| - 1 ==> Full(chunks[k], limit))
    && (forall k :: 0 <= k < |chunks| ==> 0 < Total(chunks[k]) <= limit)
    && (forall j :: 0 <= j < |pieces| ==> pieces[j].size <= max)
    && (forall j :: 0 <= j < |pieces| && pieces[j].tag != METADATA ==> Aligned(toks, Total(pieces[..j]), pieces[j]))
  }

  lemma StreamChunks(toks: seq<Seg>, limit: nat, max: nat)
    requires Limit(limit) && Limit(max) && Separated(toks) && Total(toks) > 0
    ensures ModelOk(toks, Chunks(toks, limit), limit, max)
    ensures Total(Flatten(Chunks(toks, limit))) == Total(toks)
  {
    hide Chunks, Aligned;
    SplitEachChunk(Chunks(toks, limit), max);
    ChunksKeepBytes(toks, limit);
    ChunkSizes(toks, limit);
    SplitAllKeeps(Flatten(Chunks(toks, limit)), max);
    var pieces := SplitAll(Flatten(Chunks(toks, limit)), max);
    forall j | 0 <= j < |pieces| && pieces[j].tag != METADATA ensures Aligned(toks, Total(pieces[..j]), pieces[j]) {
      PiecesAligned(toks, limit, max, j);
    }
  }

  lemma NonEmptySource(src: bytes, eocd: nat)
    requires ParseEocd(src, eocd).Some?
    ensures |src| > 0
  {
    hide ParseEocd;
  }
}
