/** The streams of the MBP-10 parser said on the bytes of the original records. */
module Mbp10Bytes {
  import opened Bytes
  import opened Segments
  import opened Sequences
  import opened Dispatch
  import opened Mbp10
  import opened Mbp10Book

  // ---------------------------------------------------------------- records and header

  /** A record of 92 words and of type 10. */
  predicate IsBook(x: bytes) {
    |x| == 368 && x[0] == 92 && x[1] == 10
  }

  lemma IsBookExactly(x: bytes)
    ensures IsBookRecord(x) <==> IsBook(x)
  {
  }

  /** The first byte is the length in words; without it, or when it is too long, the record is the rest. */
  lemma RecordLength(s: bytes)
    requires s != []
    ensures RecordLen(s) == if 0 < 4 * s[0] as int <= |s| then 4 * s[0] as int else |s|
  {
  }

  function Number(a: byte, b: byte, c: byte, d: byte): nat {
    a as int + 0x100 * b as int + 0x1_0000 * c as int + 0x100_0000 * d as int
  }

  predicate StartsWithDbn(src: bytes) {
    |src| >= 8 && src[0] == 'D' as int && src[1] == 'B' as int && src[2] == 'N' as int
  }

  /** The metadata block: the letters DBN, a version, the length of the metadata and the metadata. */
  lemma HeaderExactly(src: bytes)
    ensures HeaderSize(src) ==
            if StartsWithDbn(src) && 8 + Number(src[4], src[5], src[6], src[7]) <= |src|
            then 8 + Number(src[4], src[5], src[6], src[7]) else 0
  {
    if |src| >= 8 {
      LittleEndian32(src, 4);
      assert src[..3] == [src[0], src[1], src[2]];
    }
  }

  /** The records of a DBN file start right after its metadata. */
  lemma RecordsAfterMetadata(src: bytes, version: byte, a: byte, b: byte, c: byte, d: byte, meta: bytes, rest: bytes)
    requires src == ['D' as int, 'B' as int, 'N' as int, version, a, b, c, d] + meta + rest && |meta| == Number(a, b, c, d)
    ensures HeaderSize(src) == 8 + |meta| && src[HeaderSize(src)..] == rest
  {
    HeaderExactly(src);
  }

  function RecordsOf(src: bytes): seq<bytes> {
    Records(src[HeaderSize(src)..])
  }

  // ---------------------------------------------------------------- step 1

  /** What remains of a record in the book stream. */
  function BookOf(x: bytes): bytes
    requires |x| == 368
  {
    x[0..8] + x[16..32] + x[48..368]
  }

  /** These bytes of every book record, one after the other. */
  function Slices(recs: seq<bytes>, from: nat, to: nat): bytes
    requires from <= to <= 368
  {
    if recs == [] then [] else (if IsBook(recs[0]) then recs[0][from..to] else []) + Slices(recs[1..], from, to)
  }

  function BookSlices(recs: seq<bytes>): bytes {
    if recs == [] then [] else (if IsBook(recs[0]) then BookOf(recs[0]) else []) + BookSlices(recs[1..])
  }

  /** The records that are not book records. */
  function Others(recs: seq<bytes>): bytes {
    if recs == [] then [] else (if IsBook(recs[0]) then [] else recs[0]) + Others(recs[1..])
  }

  lemma PartIs(x: bytes)
    ensures IsBook(x) ==> Part(x, 0) == BookOf(x) && Part(x, 5) == []
    ensures IsBook(x) ==> Part(x, 1) == x[8..16] && Part(x, 2) == x[32..40] && Part(x, 3) == x[40..44] && Part(x, 4) == x[44..48]
    ensures !IsBook(x) ==> (forall tag :: tag != 5 ==> Part(x, tag) == []) && Part(x, 5) == x
  {
    IsBookExactly(x);
  }

  lemma {:induction false} CollectIs(recs: seq<bytes>)
    ensures Collect(recs, 0) == BookSlices(recs) && Collect(recs, 5) == Others(recs)
    ensures Collect(recs, 1) == Slices(recs, 8, 16) && Collect(recs, 2) == Slices(recs, 32, 40)
    ensures Collect(recs, 3) == Slices(recs, 40, 44) && Collect(recs, 4) == Slices(recs, 44, 48)
  {
    if recs != [] {
      hide Part, BookOf, IsBook;
      PartIs(recs[0]);
      CollectIs(recs[1..]);
    }
  }

  /** The streams of step 1: what is left for the books, receive and event times, deltas, sequence
      numbers, and everything that is kept verbatim. */
  lemma StreamsOnBytes(src: bytes)
    ensures var recs, segs := RecordsOf(src), MergeAll(InputSegs(src));
            && Stream(src, segs, 0) == BookSlices(recs)
            && Stream(src, segs, 1) == Slices(recs, 8, 16) && Stream(src, segs, 2) == Slices(recs, 32, 40)
            && Stream(src, segs, 3) == Slices(recs, 40, 44) && Stream(src, segs, 4) == Slices(recs, 44, 48)
            && Stream(src, segs, 5) == src[..HeaderSize(src)] + Others(recs)
  {
    hide Stream, MergeAll, InputSegs, Collect, Slices, BookSlices, Others, HeaderSize, Records;
    CollectIs(RecordsOf(src));
    InputStreams(src, 0); InputStreams(src, 1); InputStreams(src, 2);
    InputStreams(src, 3); InputStreams(src, 4); InputStreams(src, 5);
  }

  /** The parser gives the input as it is without a book record; otherwise the streams of step 1, the
      last of them only when something is kept verbatim, and the books split again. */
  lemma ParsedOnBytes(src: bytes, byInstrument: bool)
    ensures var recs, node := RecordsOf(src), Parse(src, byInstrument);
            if forall x :: x in recs ==> !IsBook(x) then node == Leaf(src)
            else
              && node.Split? && |node.parts| == (if HeaderSize(src) > 0 || exists x :: x in recs && !IsBook(x) then 6 else 5)
              && node.parts[1] == Leaf(Slices(recs, 8, 16)) && node.parts[2] == Leaf(Slices(recs, 32, 40))
              && node.parts[3] == Leaf(Slices(recs, 40, 44)) && node.parts[4] == Leaf(Slices(recs, 44, 48))
              && node.parts[0] == if byInstrument then InstrumentsNode(Books(recs)) else (FieldsCover(Books(recs)); FieldsNode(Books(recs)))
  {
    hide Stream, MergeAll, InputSegs, Slices, BookSlices, Others, HeaderSize, Records, FieldsNode, InstrumentsNode, NbTags, CountBooks, Books;
    StreamsOnBytes(src);
    CountIs(RecordsOf(src));
    NbTagsIs(src);
  }

  lemma {:induction false} CountIs(recs: seq<bytes>)
    ensures CountBooks(recs) == 0 <==> forall x :: x in recs ==> !IsBook(x)
  {
    if recs != [] {
      IsBookExactly(recs[0]);
      CountIs(recs[1..]);
      assert forall x :: x in recs <==> x == recs[0] || x in recs[1..];
    }
  }

  lemma {:induction false} SegsNbTags(recs: seq<bytes>)
    ensures NbTags(SegsOf(recs, RecordSegs)) == if exists x :: x in recs && !IsBook(x) then 6 else 5
  {
    if recs != [] {
      hide NbTags, RecordSegs;
      IsBookExactly(recs[0]);
      RecordNbTags(recs[0]);
      SegsNbTags(recs[1..]);
      NbTagsConcat(RecordSegs(recs[0]), SegsOf(recs[1..], RecordSegs));
      assert forall x :: x in recs <==> x == recs[0] || x in recs[1..];
    }
  }

  lemma NbTagsIs(src: bytes)
    ensures NbTags(InputSegs(src)) == if HeaderSize(src) > 0 || exists x :: x in RecordsOf(src) && !IsBook(x) then 6 else 5
  {
    hide NbTags, SegsOf, HeaderSize, Records;
    var h := HeaderSize(src);
    InputSegsAre(src);
    HeaderTags(h);
    SegsNbTags(RecordsOf(src));
    NbTagsConcat(HeaderSegs(h), SegsOf(RecordsOf(src), RecordSegs));
  }

  // ---------------------------------------------------------------- step 2

  /** The instrument of a book record. */
  function Instrument(x: bytes): nat
    requires |x| == 368
  {
    Number(x[4], x[5], x[6], x[7])
  }

  function BookRecords(recs: seq<bytes>): (r: seq<bytes>)
    ensures forall x :: x in r ==> |x| == 368
  {
    if recs == [] then [] else (if IsBook(recs[0]) then [recs[0]] else []) + BookRecords(recs[1..])
  }

  /** The instruments in the order of their first record. */
  function Instruments(xs: seq<bytes>): seq<nat>
    requires forall x :: x in xs ==> |x| == 368
  {
    if xs == [] then []
    else
      var ids, id := Instruments(xs[..|xs| - 1]), Instrument(xs[|xs| - 1]);
      if id in ids then ids else ids + [id]
  }

  /** What is left of the records whose instrument is among some, or is not, in input order. */
  function BooksAmong(xs: seq<bytes>, ids: seq<nat>, isIn: bool): bytes
    requires forall x :: x in xs ==> |x| == 368
  {
    if xs == [] then []
    else (if (Instrument(xs[0]) in ids) == isIn then BookOf(xs[0]) else []) + BooksAmong(xs[1..], ids, isIn)
  }

  function AllBooks(xs: seq<bytes>): (r: seq<bytes>)
    requires forall x :: x in xs ==> |x| == 368
    ensures |r| == |xs| && forall i :: 0 <= i < |r| ==> r[i] == BookOf(xs[i]) && |r[i]| == 344
  {
    seq(|xs|, i requires 0 <= i < |xs| => BookOf(xs[i]))
  }

  lemma IdIs(x: bytes)
    requires |x| == 368
    ensures |BookOf(x)| == 344 && Id(BookOf(x)) == Instrument(x)
  {
    var b := BookOf(x);
    LittleEndian32(b, 4);
    assert b[4] == x[4] && b[5] == x[5] && b[6] == x[6] && b[7] == x[7];
  }

  lemma {:induction false} BooksAre(recs: seq<bytes>)
    ensures Books(recs) == AllBooks(BookRecords(recs))
  {
    if recs != [] {
      hide IsBook, IsBookRecord, BookOf, Book, AllBooks;
      IsBookExactly(recs[0]);
      BooksAre(recs[1..]);
      var rest := BookRecords(recs[1..]);
      assert [] + rest == rest && [] + AllBooks(rest) == AllBooks(rest);
      if IsBook(recs[0]) {
        IsBookLength(recs[0]);
        BookIs(recs[0]);
        AllBooksCons(recs[0], rest);
      }
    }
  }

  lemma IsBookLength(x: bytes)
    requires IsBook(x)
    ensures |x| == 368
  {
  }

  lemma AllBooksCons(x: bytes, rest: seq<bytes>)
    requires |x| == 368 && forall y :: y in rest ==> |y| == 368
    ensures AllBooks([x] + rest) == [BookOf(x)] + AllBooks(rest)
  {
    hide BookOf;
  }

  lemma BookIs(x: bytes)
    requires |x| == 368
    ensures Book(x) == BookOf(x)
  {
  }

  lemma {:induction false} SeenIs(xs: seq<bytes>)
    requires forall x :: x in xs ==> |x| == 368
    ensures Seen(AllBooks(xs)) == Instruments(xs)
    decreases |xs|
  {
    if xs != [] {
      hide Id, BookOf, Instrument;
      var n := |xs| - 1;
      var bs := AllBooks(xs);
      assert bs[..n] == AllBooks(xs[..n]) && bs[n] == BookOf(xs[n]);
      hide AllBooks;
      SeenIs(xs[..n]);
      IdIs(xs[n]);
    }
  }

  lemma {:induction false} AmongIs(xs: seq<bytes>, ids: seq<nat>, isIn: bool)
    requires forall x :: x in xs ==> |x| == 368
    ensures Flatten(Among(AllBooks(xs), ids, isIn)) == BooksAmong(xs, ids, isIn)
    decreases |xs|
  {
    if xs != [] {
      hide Id, BookOf, Instrument;
      var rest := Among(AllBooks(xs[1..]), ids, isIn);
      assert AllBooks(xs)[1..] == AllBooks(xs[1..]);
      AmongIs(xs[1..], ids, isIn);
      IdIs(xs[0]);
      var b := BookOf(xs[0]);
      assert ([b] + rest)[1..] == rest && [] + rest == rest;
      assert [] + BooksAmong(xs[1..], ids, isIn) == BooksAmong(xs[1..], ids, isIn);
    }
  }

  /** Each of the first 32 streams of step 2 holds the books of one instrument in input order, bytes 4 to
      8 of a record being its instrument; stream 32 holds those of all instruments after the first 32. */
  lemma InstrumentsOnBytes(src: bytes, slot: nat)
    requires slot < Min(|Instruments(BookRecords(RecordsOf(src)))|, 33)
    ensures var xs, bs := BookRecords(RecordsOf(src)), Books(RecordsOf(src));
            var segs := MergeAll(InstrumentSegs(bs, Seen(bs)));
            && Total(segs) == |Flatten(bs)| && Flatten(bs) == BookSlices(RecordsOf(src))
            && Stream(Flatten(bs), segs, slot)
               == if slot < 32 then BooksAmong(xs, [Instruments(xs)[slot]], true) else BooksAmong(xs, Instruments(xs)[..32], false)
  {
    hide Stream, MergeAll, Seen, Among, Flatten, InstrumentSegs, BookSlices, BookRecords, Instruments, Books, AllBooks, BooksAmong, Total, Collect;
    var recs := RecordsOf(src);
    var xs := BookRecords(recs);
    BooksAre(recs);
    SeenIs(xs);
    BooksFlatten(recs);
    CollectIs(recs);
    PerInstrument(Books(recs), slot);
    if slot < 32 {
      AmongIs(xs, [Instruments(xs)[slot]], true);
    } else {
      AmongIs(xs, Instruments(xs)[..32], false);
    }
  }

  /** Step 2 has a part for each of these streams. */
  lemma InstrumentParts(src: bytes)
    ensures var node := InstrumentsNode(Books(RecordsOf(src)));
            node.Split? && |node.parts| == Min(|Instruments(BookRecords(RecordsOf(src)))|, 33)
  {
    hide MergeAll, Seen, InstrumentSegs, BookRecords, Instruments, Books, AllBooks;
    BooksAre(RecordsOf(src));
    SeenIs(BookRecords(RecordsOf(src)));
  }

  // ---------------------------------------------------------------- step 3

  /** Where field f of a book begins, and its width: length and type, publisher, instrument, price, size,
      action and side, flags, depth; then per level bid and ask price, size and count. */
  function FieldOffset(f: nat): nat {
    if f == 0 then 0 else if f == 1 then 2 else if f == 2 then 4 else if f == 3 then 8
    else if f == 4 then 16 else if f == 5 then 20 else if f == 6 then 22 else if f == 7 then 23
    else
      var level, k := (f - 8) / 6, (f - 8) % 6;
      24 + 32 * level + if k == 0 then 0 else if k == 1 then 8 else if k == 2 then 16 else if k == 3 then 20 else if k == 4 then 24 else 28
  }

  function FieldWidth(f: nat): nat {
    if f == 0 || f == 1 || f == 5 then 2 else if f == 2 || f == 4 then 4 else if f == 3 then 8 else if f == 6 || f == 7 then 1
    else if (f - 8) % 6 < 2 then 8 else 4
  }

  lemma {:induction false} FieldsAre(levels: nat, f: nat)
    requires f < 8 + 6 * levels
    ensures |Fields(levels)| == 8 + 6 * levels
    ensures Fields(levels)[f].width == FieldWidth(f) && (Fields(levels)[f].delta <==> f == 3 || f >= 8)
    ensures Total(FieldSegs(Fields(levels))[..f]) == FieldOffset(f)
  {
    FieldsTotal(levels);
    FieldsUnfold(levels);
    hide Total, Fields;
    if levels == 0 {
      HeadFields(f);
    } else {
      FieldsTotal(levels - 1);
      var m := 8 + 6 * (levels - 1);
      var before := FieldSegs(Fields(levels - 1));
      var all := FieldSegs(Fields(levels));
      if f < m {
        FieldsAre(levels - 1, f);
        assert all[..f] == before[..f];
      } else {
        assert all[..m] == before;
        LevelFields(all, levels - 1, m, f);
      }
    }
  }

  lemma HeadFields(f: nat)
    requires f < 8
    ensures HEAD_FIELDS[f].width == FieldWidth(f) && (HEAD_FIELDS[f].delta <==> f == 3)
    ensures Total(FieldSegs(HEAD_FIELDS)[..f]) == FieldOffset(f)
  {
    hide Total;
    var s := FieldSegs(HEAD_FIELDS);
    TotalNone(s);
    TotalStep(s, 0); TotalStep(s, 1); TotalStep(s, 2); TotalStep(s, 3);
    TotalStep(s, 4); TotalStep(s, 5); TotalStep(s, 6);
  }

  lemma LevelFields(all: seq<Seg>, level: nat, m: nat, f: nat)
    requires m == 8 + 6 * level && m <= f < m + 6 && |all| == m + 6 && Total(all[..m]) == 24 + 32 * level
    requires all[m].size == all[m + 1].size == 8 && all[m + 2].size == all[m + 3].size == all[m + 4].size == all[m + 5].size == 4
    ensures Total(all[..f]) == FieldOffset(f) && all[f].size == FieldWidth(f)
  {
    hide Total;
    TotalStep(all, m); TotalStep(all, m + 1); TotalStep(all, m + 2); TotalStep(all, m + 3); TotalStep(all, m + 4);
    assert (f - 8) / 6 == level && (f - 8) % 6 == f - m;
  }

  /** The bytes of field f of every book. */
  function FieldSlices(bs: seq<bytes>, f: nat): bytes
    requires f < 68 && forall b :: b in bs ==> |b| == 344
  {
    if bs == [] then [] else FieldBytes(bs[0], f) + FieldSlices(bs[1..], f)
  }

  function FieldBytes(b: bytes, f: nat): bytes
    requires f < 68 && |b| == 344
  {
    b[FieldOffset(f)..FieldOffset(f) + FieldWidth(f)]
  }

  lemma {:induction false} GatherFields(bs: seq<bytes>, f: nat)
    requires f < 68 && (forall b :: b in bs ==> |b| == 344) && forall b :: b in bs ==> Total(FieldPart(b)) == |b|
    ensures Gather(bs, FieldPart, f) == FieldSlices(bs, f)
  {
    if bs != [] {
      hide Stream, Total, FieldPart, FieldBytes;
      assert bs[0] in bs;
      OneField(bs[0], f);
      GatherFields(bs[1..], f);
    }
  }

  lemma OneField(b: bytes, f: nat)
    requires f < 68 && |b| == 344
    ensures Total(FieldPart(b)) == |b| && Stream(b, FieldPart(b), f) == FieldBytes(b, f)
  {
    hide Stream, Total, Fields;
    FieldsTotal(10);
    FieldsAre(10, f);
    FieldStream(b, Fields(10), f);
  }

  /** Step 3 of some books: a stream per field, which holds these bytes of every book. */
  lemma FieldsOnBytes(bs: seq<bytes>)
    requires forall b :: b in bs ==> |b| == 344
    ensures Total(SegsOf(bs, FieldPart)) == |Flatten(bs)|
    ensures var node := FieldsNode(bs);
            node.Split? && |node.parts| == 68 && forall f :: 0 <= f < 68 ==> node.parts[f] == Leaf(FieldSlices(bs, f))
  {
    hide Stream, Total, SegsOf, Flatten, FieldSlices, Fields, FieldPart;
    FieldsCover(bs);
    FieldsTotal(10);
    forall b | b in bs ensures Total(FieldPart(b)) == |b| {
      OneField(b, 0);
    }
    forall f | 0 <= f < 68 ensures FieldsNode(bs).parts[f] == Leaf(FieldSlices(bs, f)) {
      StreamGather(bs, FieldPart, f);
      GatherFields(bs, f);
    }
  }
}
