/** The MBP-10 parser of examples/mbp10.cpp: three nested dispatch steps over market data records. */
module Mbp10 {
  import opened Bytes
  import opened Segments
  import opened Dispatch
  import opened Sequences

  const RECORD_SIZE := 368
  const MBP10_RTYPE: byte := 0x0A
  const LEVELS := 10
  const BOOK_SIZE := 344
  const INSTRUMENT_IN_BOOK := 4
  const MAX_INSTRUMENTS := 32

  const BOOK := 0
  const EVENT := 1
  const RECV := 2
  const IN_DELTA := 3
  const SEQUENCE := 4
  const OTHER := 5

  const DBN: bytes := [0x44, 0x42, 0x4E]

  /** Byte ranges of a record and the stream each one goes to. */
  const RECORD_RANGES: seq<Seg> :=
    [Seg(8, BOOK), Seg(8, EVENT), Seg(16, BOOK), Seg(8, RECV), Seg(4, IN_DELTA), Seg(4, SEQUENCE), Seg(320, BOOK)]

  // ---------------------------------------------------------------- records

  predicate IsMbp10(s: bytes) {
    |s| >= RECORD_SIZE && s[0] as int * 4 == RECORD_SIZE && s[1] == MBP10_RTYPE
  }

  /** The length of the record that s starts with: its own, or all of s when that is 0 or too long. */
  function RecordLen(s: bytes): (r: nat)
    requires s != []
    ensures 0 < r <= |s|
  {
    var len := s[0] as int * 4;
    if len != 0 && len <= |s| then len else |s|
  }

  /** The size of the DBN metadata block that s starts with, or 0. */
  function HeaderSize(s: bytes): (r: nat)
    ensures r <= |s|
  {
    if |s| < 8 || s[..3] != DBN then 0
    else
      var len := 8 + LE32(s, 4);
      if len <= |s| then len else 0
  }

  function Records(s: bytes): (r: seq<bytes>)
    ensures Flatten(r) == s
    decreases |s|
  {
    if s == [] then []
    else
      var n := RecordLen(s);
      var rest := Records(s[n..]);
      assert ([s[..n]] + rest)[1..] == rest;
      [s[..n]] + rest
  }

  /** A record that is dispatched field by field. */
  predicate IsBookRecord(x: bytes) {
    |x| == RECORD_SIZE && IsMbp10(x)
  }

  lemma RecordKind(s: bytes)
    requires s != []
    ensures IsMbp10(s) <==> IsBookRecord(s[..RecordLen(s)])
  {
  }

  lemma RangesTotal()
    ensures Total(RECORD_RANGES) == RECORD_SIZE
  {
    var r := RECORD_RANGES;
    assert Init(r[..1]) == [] && Total(r[..1]) == 8;
    assert Init(r[..2]) == r[..1] && Total(r[..2]) == 16;
    assert Init(r[..3]) == r[..2] && Total(r[..3]) == 32;
    assert Init(r[..4]) == r[..3] && Total(r[..4]) == 40;
    assert Init(r[..5]) == r[..4] && Total(r[..5]) == 44;
    assert Init(r[..6]) == r[..5] && Total(r[..6]) == 48;
    assert Init(r) == r[..6];
  }

  /** The segments of one record. */
  function RecordSegs(x: bytes): (r: seq<Seg>)
    ensures Total(r) == |x|
    ensures TagsBelow(r, OTHER + 1)
  {
    RangesTotal();
    assert Init([Seg(|x|, OTHER)]) == [];
    if IsBookRecord(x) then RECORD_RANGES else [Seg(|x|, OTHER)]
  }

  function HeaderSegs(h: nat): seq<Seg> {
    if h > 0 then [Seg(h, OTHER)] else []
  }

  /** The segments of a whole input: the header, then each record. */
  function InputSegs(src: bytes): (r: seq<Seg>)
    ensures Total(r) == |src|
  {
    var h := HeaderSize(src);
    var header := HeaderSegs(h);
    var recs := Records(src[h..]);
    StreamGather(recs, RecordSegs, OTHER);
    TotalConcat(header, SegsOf(recs, RecordSegs));
    assert Total(header) == h by { assert Init([Seg(h, OTHER)]) == []; }
    header + SegsOf(recs, RecordSegs)
  }

  /** The number of streams: the last one exists only when something is kept verbatim. */
  function NbTags(segs: seq<Seg>): (n: nat)
    ensures n == OTHER || n == OTHER + 1
  {
    if exists i :: 0 <= i < |segs| && segs[i].tag == OTHER then OTHER + 1 else OTHER
  }

  lemma NbTagsConcat(a: seq<Seg>, b: seq<Seg>)
    ensures NbTags(a + b) == if NbTags(a) == OTHER then NbTags(b) else OTHER + 1
  {
    if i :| 0 <= i < |a| && a[i].tag == OTHER {
      assert (a + b)[i].tag == OTHER;
    }
    if i :| 0 <= i < |b| && b[i].tag == OTHER {
      assert (a + b)[|a| + i].tag == OTHER;
    }
  }

  lemma RecordNbTags(x: bytes)
    ensures NbTags(RecordSegs(x)) == if IsBookRecord(x) then OTHER else OTHER + 1
  {
    if !IsBookRecord(x) {
      assert RecordSegs(x)[0].tag == OTHER;
    }
  }

  lemma {:induction false} RecordsTags(recs: seq<bytes>)
    ensures TagsBelow(SegsOf(recs, RecordSegs), OTHER + 1)
  {
    if recs != [] {
      hide RecordSegs;
      RecordsTags(recs[1..]);
    }
  }

  lemma InputTags(src: bytes)
    ensures TagsBelow(InputSegs(src), NbTags(InputSegs(src)))
  {
    hide Records, RecordSegs, Total, HeaderSize;
    RecordsTags(Records(src[HeaderSize(src)..]));
  }

  // ---------------------------------------------------------------- step 1

  /** Dispatch instructions that merge neighbours with the same tag. */
  class SegmentList {
    var segs: seq<Seg>
    var nbTags: nat

    constructor (n: nat)
      ensures segs == [] && nbTags == n
    {
      segs, nbTags := [], n;
    }

    method Add(tag: nat, size: nat)
      modifies this`segs
      ensures segs == Push(old(segs), Seg(size, tag))
    {
      if |segs| > 0 && segs[|segs| - 1].tag == tag {
        var last := segs[|segs| - 1];
        segs := segs[..|segs| - 1] + [Seg(last.size + size, tag)];
      } else {
        segs := segs + [Seg(size, tag)];
      }
    }

    /** Adds segments one by one. */
    method AddAll(more: seq<Seg>, ghost before: seq<Seg>)
      requires segs == MergeAll(before)
      modifies this`segs
      ensures segs == MergeAll(before + more)
    {
      hide MergeAll, Push;
      assert before + more[..0] == before;
      for i := 0 to |more|
        invariant segs == MergeAll(before + more[..i])
      {
        assert before + more[..i + 1] == (before + more[..i]) + [more[i]];
        MergeAllSnoc(before + more[..i], more[i]);
        Add(more[i].tag, more[i].size);
      }
      assert more[..|more|] == more;
    }
  }

  function CountBooks(recs: seq<bytes>): nat {
    if recs == [] then 0 else (if IsBookRecord(recs[0]) then 1 else 0) + CountBooks(recs[1..])
  }

  lemma {:induction false} CountBooksSnoc(recs: seq<bytes>, x: bytes)
    ensures CountBooks(recs + [x]) == CountBooks(recs) + if IsBookRecord(x) then 1 else 0
  {
    if recs != [] {
      assert (recs + [x])[1..] == recs[1..] + [x];
      CountBooksSnoc(recs[1..], x);
    } else {
      assert (recs + [x])[1..] == [];
    }
  }

  lemma {:induction false} SegsOfSnoc(xs: seq<bytes>, x: bytes, part: bytes -> seq<Seg>)
    ensures SegsOf(xs + [x], part) == SegsOf(xs, part) + part(x)
  {
    if xs == [] {
      assert (xs + [x])[1..] == [];
    } else {
      assert (xs + [x])[1..] == xs[1..] + [x];
      SegsOfSnoc(xs[1..], x, part);
    }
  }

  /** Adds the segments of the record that `rest` starts with. */
  method DispatchRecord(list: SegmentList, rest: bytes, ghost all: seq<Seg>) returns (len: nat, isBook: bool)
    requires rest != [] && list.segs == MergeAll(all) && list.nbTags == NbTags(all)
    modifies list
    ensures len == RecordLen(rest) && (isBook <==> IsBookRecord(rest[..len]))
    ensures list.segs == MergeAll(all + RecordSegs(rest[..len])) && list.nbTags == NbTags(all + RecordSegs(rest[..len]))
  {
    hide MergeAll, Push, NbTags;
    len := RecordLen(rest);
    RecordNbTags(rest[..len]);
    NbTagsConcat(all, RecordSegs(rest[..len]));
    isBook := IsMbp10(rest);
    RecordKind(rest);
    if isBook {
      list.AddAll(RECORD_RANGES, all);
    } else {
      list.AddAll([Seg(len, OTHER)], all);
      list.nbTags := OTHER + 1;
    }
  }

  /** Adds the segment of a header of the given size, if there is one. */
  method DispatchHeader(list: SegmentList, h: nat)
    requires list.segs == [] && list.nbTags == OTHER
    modifies list
    ensures list.segs == MergeAll(HeaderSegs(h)) && list.nbTags == NbTags(HeaderSegs(h))
  {
    hide MergeAll, NbTags;
    HeaderTags(h);
    if h > 0 {
      list.AddAll([Seg(h, OTHER)], []);
      list.nbTags := OTHER + 1;
    }
  }

  lemma InputSegsAre(src: bytes)
    ensures var h := HeaderSize(src);
            InputSegs(src) == HeaderSegs(h) + SegsOf(Records(src[h..]), RecordSegs)
  {
  }

  /** Step 1: the merged segments of the header and the records. */
  method DispatchRecords(src: bytes) returns (segs: seq<Seg>, nbTags: nat, nbRecords: nat)
    ensures segs == MergeAll(InputSegs(src))
    ensures nbTags == NbTags(InputSegs(src))
    ensures nbRecords == CountBooks(Records(src[HeaderSize(src)..]))
  {
    hide MergeAll, Records, SegsOf, CountBooks, RecordSegs, RecordLen, HeaderSize, NbTags, IsBookRecord, HeaderSegs, InputSegs;
    var list := new SegmentList(OTHER);
    var pos := HeaderSize(src);
    ghost var h := pos;
    ghost var header := HeaderSegs(h);
    DispatchHeader(list, pos);
    ghost var done: seq<bytes> := [];
    ghost var all := header;
    nbRecords := 0;
    FirstRecord(header, src[h..]);
    while pos < |src|
      invariant pos <= |src| && fresh(list)
      invariant Records(src[h..]) == done + Records(src[pos..])
      invariant all == header + SegsOf(done, RecordSegs) && list.segs == MergeAll(all)
      invariant list.nbTags == NbTags(all)
      invariant nbRecords == CountBooks(done)
    {
      var rest := src[pos..];
      var len, isBook := DispatchRecord(list, rest, all);
      if isBook {
        nbRecords := nbRecords + 1;
      }
      NextRecord(header, done, rest);
      assert rest[len..] == src[pos + len..];
      all := all + RecordSegs(rest[..len]);
      done := done + [rest[..len]];
      pos := pos + len;
    }
    FirstRecord([], src[pos..]);
    assert done + [] == done;
    InputSegsAre(src);
    segs, nbTags := list.segs, list.nbTags;
  }

  lemma FirstRecord(header: seq<Seg>, s: bytes)
    ensures header + SegsOf([], RecordSegs) == header && CountBooks([]) == 0
    ensures [] + Records(s) == Records(s) && (s == [] ==> Records(s) == [])
  {
  }

  /** One more record read. */
  lemma NextRecord(header: seq<Seg>, done: seq<bytes>, rest: bytes)
    requires rest != []
    ensures var n := RecordLen(rest);
            var x := rest[..n];
            && done + Records(rest) == (done + [x]) + Records(rest[n..])
            && header + SegsOf(done + [x], RecordSegs) == (header + SegsOf(done, RecordSegs)) + RecordSegs(x)
            && CountBooks(done + [x]) == CountBooks(done) + if IsBookRecord(x) then 1 else 0
  {
    hide *;
    var n := RecordLen(rest);
    var x := rest[..n];
    RecordsUnfold(rest);
    assert done + ([x] + Records(rest[n..])) == (done + [x]) + Records(rest[n..]);
    CountBooksSnoc(done, x);
    SegsOfSnoc(done, x, RecordSegs);
    assert header + (SegsOf(done, RecordSegs) + RecordSegs(x)) == (header + SegsOf(done, RecordSegs)) + RecordSegs(x);
  }

  lemma RecordsUnfold(s: bytes)
    requires s != []
    ensures Records(s) == [s[..RecordLen(s)]] + Records(s[RecordLen(s)..])
  {
  }

  lemma HeaderTags(h: nat)
    ensures MergeAll([]) == [] && NbTags(HeaderSegs(h)) == if h > 0 then OTHER + 1 else OTHER
    ensures h > 0 ==> HeaderSegs(h) == [] + [Seg(h, OTHER)]
    ensures h == 0 ==> HeaderSegs(h) == []
  {
    if h > 0 {
      assert HeaderSegs(h)[0].tag == OTHER;
    }
  }

  // ---------------------------------------------------------------- what the streams hold

  /** What remains of a record in the book stream. */
  function Book(x: bytes): (r: bytes)
    requires |x| == RECORD_SIZE
    ensures |r| == BOOK_SIZE
  {
    x[..8] + x[16..32] + x[48..]
  }

  /** What a record contributes to each stream. */
  function Part(x: bytes, tag: nat): bytes {
    if !IsBookRecord(x) then (if tag == OTHER then x else [])
    else if tag == BOOK then Book(x)
    else if tag == EVENT then x[8..16]
    else if tag == RECV then x[32..40]
    else if tag == IN_DELTA then x[40..44]
    else if tag == SEQUENCE then x[44..48]
    else []
  }

  function Collect(recs: seq<bytes>, tag: nat): bytes {
    if recs == [] then [] else Part(recs[0], tag) + Collect(recs[1..], tag)
  }

  lemma RecordStream(x: bytes, tag: nat)
    ensures Stream(x, RecordSegs(x), tag) == Part(x, tag)
  {
    if IsBookRecord(x) {
      BookRecordStream(x, tag);
    } else {
      StreamOne(x, Seg(|x|, OTHER), tag);
    }
  }

  lemma StreamFrom(x: bytes, at: nat, segs: seq<Seg>, k: nat, tag: nat)
    requires at <= |x| && k < |segs| && Total(segs[k..]) == |x| - at
    ensures var next := at + segs[k].size;
            && next <= |x| && Total(segs[k + 1..]) == |x| - next
            && Stream(x[at..], segs[k..], tag) == (if segs[k].tag == tag then x[at..next] else []) + Stream(x[next..], segs[k + 1..], tag)
  {
    hide Stream, Total;
    var s, y := segs[k..], x[at..];
    assert s[1..] == segs[k + 1..];
    TotalCons(s);
    var n := segs[k].size;
    assert y == y[..n] + y[n..] && y[..n] == x[at..at + n] && y[n..] == x[at + n..];
    StreamUnfold(y, s, tag, y[..n], y[n..], s[1..]);
  }

  lemma BookRecordStream(x: bytes, tag: nat)
    requires IsBookRecord(x)
    ensures Total(RECORD_RANGES) == |x| && Stream(x, RECORD_RANGES, tag) == Part(x, tag)
  {
    hide Stream, Total;
    var r := RECORD_RANGES;
    RangesTotal();
    assert x[0..] == x && r[0..] == r && r[7..] == [] && x[RECORD_SIZE..] == [];
    StreamFrom(x, 0, r, 0, tag);
    StreamFrom(x, 8, r, 1, tag);
    StreamFrom(x, 16, r, 2, tag);
    StreamFrom(x, 32, r, 3, tag);
    StreamFrom(x, 40, r, 4, tag);
    StreamFrom(x, 44, r, 5, tag);
    StreamFrom(x, 48, r, 6, tag);
    StreamNone([], tag);
  }

  lemma {:induction false} GatherRecords(recs: seq<bytes>, tag: nat)
    ensures Gather(recs, RecordSegs, tag) == Collect(recs, tag)
  {
    if recs != [] {
      hide RecordSegs, Part, Stream;
      RecordStream(recs[0], tag);
      GatherRecords(recs[1..], tag);
    }
  }

  lemma HeaderStream(header: bytes, tag: nat)
    ensures Total(HeaderSegs(|header|)) == |header|
    ensures Stream(header, HeaderSegs(|header|), tag) == if tag == OTHER then header else []
  {
    if header != [] {
      StreamOne(header, Seg(|header|, OTHER), tag);
    }
  }

  /** For every byte string: merged or not, each stream is the concatenation of what the header and
      the records contribute to it. */
  lemma InputStreams(src: bytes, tag: nat)
    ensures var h := HeaderSize(src);
            Stream(src, MergeAll(InputSegs(src)), tag) == (if tag == OTHER then src[..h] else []) + Collect(Records(src[h..]), tag)
  {
    hide Stream, MergeAll, Total, Gather, Collect, Records, HeaderSegs, HeaderSize, RecordSegs, SegsOf;
    var h := HeaderSize(src);
    var recs := Records(src[h..]);
    StreamMerge(src, InputSegs(src), tag);
    HeaderStream(src[..h], tag);
    StreamGather(recs, RecordSegs, tag);
    GatherRecords(recs, tag);
    StreamConcat(src[..h], src[h..], HeaderSegs(h), SegsOf(recs, RecordSegs), tag);
    assert src == src[..h] + src[h..];
  }

  function Width(tag: nat): nat
    requires tag < OTHER
  {
    if tag == BOOK then BOOK_SIZE else if tag <= RECV then 8 else 4
  }

  /** The five record streams hold a whole number of integers of their width: one per record. */
  lemma {:induction false} CollectLength(recs: seq<bytes>, tag: nat)
    requires tag < OTHER
    ensures |Collect(recs, tag)| == Width(tag) * CountBooks(recs)
  {
    if recs != [] {
      CollectLength(recs[1..], tag);
    }
  }

  /** The book parts of the records, one by one. */
  function Books(recs: seq<bytes>): (r: seq<bytes>)
    ensures forall b :: b in r ==> |b| == BOOK_SIZE
  {
    if recs == [] then [] else (if IsBookRecord(recs[0]) then [Book(recs[0])] else []) + Books(recs[1..])
  }

  lemma {:induction false} BooksFlatten(recs: seq<bytes>)
    ensures Flatten(Books(recs)) == Collect(recs, BOOK)
  {
    if recs != [] {
      BooksFlatten(recs[1..]);
      var rest := Books(recs[1..]);
      if IsBookRecord(recs[0]) {
        assert ([Book(recs[0])] + rest)[1..] == rest;
      } else {
        assert [] + rest == rest && [] + Collect(recs[1..], BOOK) == Collect(recs[1..], BOOK);
      }
    }
  }
}
