/** Steps 2 and 3 of the MBP-10 parser: the book stream by instrument, each instrument by field; and
    the round trip of all three steps. */
module Mbp10Book {
  import opened Bytes
  import opened Segments
  import opened Dispatch
  import opened Sequences
  import opened Mbp10

  // ---------------------------------------------------------------- step 2: instruments

  /** The instrument of a book record. */
  function Id(b: bytes): nat {
    if |b| >= INSTRUMENT_IN_BOOK + 4 then LE32(b, INSTRUMENT_IN_BOOK) else 0
  }

  ghost predicate AreBooks(bs: seq<bytes>) {
    forall b :: b in bs ==> |b| == BOOK_SIZE
  }

  /** The instruments in the order of their first record. */
  function Seen(bs: seq<bytes>): (r: seq<nat>)
    ensures forall i, j :: 0 <= i < j < |r| ==> r[i] != r[j]
    ensures forall b :: b in bs ==> Id(b) in r
  {
    if bs == [] then []
    else
      var init, id := Seen(bs[..|bs| - 1]), Id(bs[|bs| - 1]);
      if id in init then init else init + [id]
  }

  function IndexIn(ids: seq<nat>, id: nat): (r: nat)
    ensures r <= |ids| && (r < |ids| ==> ids[r] == id) && id !in ids[..r]
  {
    if ids == [] || ids[0] == id then 0 else 1 + IndexIn(ids[1..], id)
  }

  /** The first 32 instruments have a stream each, all others share stream 32. */
  function Slot(ids: seq<nat>, id: nat): nat {
    Min(IndexIn(ids, id), MAX_INSTRUMENTS)
  }

  function SlotPart(ids: seq<nat>): bytes -> seq<Seg> {
    b => [Seg(|b|, Slot(ids, Id(b)))]
  }

  /** The segments of the book records, before merging. */
  function InstrumentSegs(bs: seq<bytes>, ids: seq<nat>): seq<Seg> {
    SegsOf(bs, SlotPart(ids))
  }

  /** The slots of ids already seen do not change as more are seen. */
  lemma IndexStable(ids: seq<nat>, more: seq<nat>, id: nat)
    requires id in ids
    ensures IndexIn(ids + more, id) == IndexIn(ids, id)
  {
    if ids[0] != id {
      assert (ids + more)[1..] == ids[1..] + more;
      IndexStable(ids[1..], more, id);
    }
  }

  lemma {:induction false} IndexAt(ids: seq<nat>, i: nat)
    requires i < |ids| && forall j, k :: 0 <= j < k < |ids| ==> ids[j] != ids[k]
    ensures IndexIn(ids, ids[i]) == i
  {
    if i > 0 {
      IndexAt(ids[1..], i - 1);
    }
  }

  lemma {:induction false} SegsStable(bs: seq<bytes>, ids: seq<nat>, more: seq<nat>)
    requires forall b :: b in bs ==> Id(b) in ids
    ensures InstrumentSegs(bs, ids + more) == InstrumentSegs(bs, ids)
  {
    if bs != [] {
      IndexStable(ids, more, Id(bs[0]));
      SegsStable(bs[1..], ids, more);
    }
  }

  lemma {:induction false} SeenPrefix(bs: seq<bytes>, k: nat)
    requires k < |bs|
    ensures Seen(bs[..k + 1]) == if Id(bs[k]) in Seen(bs[..k]) then Seen(bs[..k]) else Seen(bs[..k]) + [Id(bs[k])]
  {
    assert bs[..k + 1][..k] == bs[..k];
  }

  /** The map holds the slot of each instrument seen. */
  ghost predicate SlotsOf(slots: map<nat, nat>, ids: seq<nat>) {
    && |slots| == |ids|
    && (forall id :: id in slots <==> id in ids)
    && (forall id :: id in slots ==> slots[id] == Slot(ids, id))
  }

  lemma AddSlot(slots: map<nat, nat>, ids: seq<nat>, id: nat)
    requires SlotsOf(slots, ids) && id !in ids
    ensures SlotsOf(slots[id := Min(|ids|, MAX_INSTRUMENTS)], ids + [id])
  {
    hide IndexIn;
    var more, ids' := slots[id := Min(|ids|, MAX_INSTRUMENTS)], ids + [id];
    assert more.Keys == slots.Keys + {id};
    assert |more| == |more.Keys| == |slots.Keys| + 1 == |slots| + 1;
    IndexNew(ids, id);
    forall x | x in more ensures x in ids' && more[x] == Slot(ids', x) {
      if x != id {
        IndexStable(ids, [id], x);
      }
    }
  }

  lemma {:induction false} IndexNew(ids: seq<nat>, id: nat)
    requires id !in ids
    ensures IndexIn(ids + [id], id) == |ids|
  {
    if ids != [] {
      assert (ids + [id])[1..] == ids[1..] + [id];
      IndexNew(ids[1..], id);
    }
  }

  /** Step 2: walks the book stream record by record. Reading the instrument is always in bounds,
      because the stream is a whole number of book records. */
  method SplitInstruments(book: bytes, ghost bs: seq<bytes>) returns (segs: seq<Seg>, nbTags: nat)
    requires AreBooks(bs) && book == Flatten(bs)
    ensures segs == MergeAll(InstrumentSegs(bs, Seen(bs))) && nbTags == Min(|Seen(bs)|, MAX_INSTRUMENTS + 1)
  {
    hide MergeAll, Slot, Seen, Id;
    FlattenLength(bs);
    var slots: map<nat, nat> := map[];
    var list := new SegmentList(0);
    var pos := 0;
    ghost var k := 0;
    StartInstruments(bs);
    while pos < |book|
      invariant fresh(list) && k <= |bs| && pos == BOOK_SIZE * k
      invariant SlotsOf(slots, Seen(bs[..k]))
      invariant list.segs == MergeAll(InstrumentSegs(bs[..k], Seen(bs[..k])))
      decreases |book| - pos
    {
      FlattenAt(bs, k);
      var id := LE32(book, pos + INSTRUMENT_IN_BOOK);
      IdAt(book, bs[k], pos);
      ghost var ids := Seen(bs[..k]);
      NextInstrument(bs, k);
      if id !in slots {
        AddSlot(slots, ids, id);
        slots := slots[id := Min(|slots|, MAX_INSTRUMENTS)];
      }
      list.AddAll([Seg(BOOK_SIZE, slots[id])], InstrumentSegs(bs[..k], Seen(bs[..k + 1])));
      k := k + 1;
      pos := pos + BOOK_SIZE;
    }
    assert bs[..k] == bs;
    segs, nbTags := list.segs, Min(|slots|, MAX_INSTRUMENTS + 1);
  }

  lemma StartInstruments(bs: seq<bytes>)
    ensures SlotsOf(map[], Seen(bs[..0])) && MergeAll(InstrumentSegs(bs[..0], Seen(bs[..0]))) == []
  {
  }

  lemma NextInstrument(bs: seq<bytes>, k: nat)
    requires k < |bs| && AreBooks(bs)
    ensures var ids, ids' := Seen(bs[..k]), Seen(bs[..k + 1]);
            && ids' == (if Id(bs[k]) in ids then ids else ids + [Id(bs[k])])
            && InstrumentSegs(bs[..k], ids') == InstrumentSegs(bs[..k], ids)
            && InstrumentSegs(bs[..k + 1], ids') == InstrumentSegs(bs[..k], ids') + [Seg(BOOK_SIZE, Slot(ids', Id(bs[k])))]
  {
    hide Seen, Id, Slot, SegsOf;
    var ids := Seen(bs[..k]);
    SeenPrefix(bs, k);
    SegsStable(bs[..k], ids, [Id(bs[k])]);
    assert bs[..k + 1] == bs[..k] + [bs[k]];
    SegsOfSnoc(bs[..k], bs[k], SlotPart(Seen(bs[..k + 1])));
    assert bs[k] in bs;
  }

  lemma IdAt(book: bytes, b: bytes, pos: nat)
    requires |b| == BOOK_SIZE && pos + BOOK_SIZE <= |book| && book[pos..pos + BOOK_SIZE] == b
    ensures LE32(book, pos + INSTRUMENT_IN_BOOK) == Id(b)
  {
    assert forall i :: 0 <= i < BOOK_SIZE ==> b[i] == book[pos + i];
  }

  lemma {:induction false} FlattenLength(bs: seq<bytes>)
    requires AreBooks(bs)
    ensures |Flatten(bs)| == BOOK_SIZE * |bs|
  {
    if bs != [] {
      assert bs[0] in bs;
      FlattenLength(bs[1..]);
    }
  }

  lemma {:induction false} FlattenAt(bs: seq<bytes>, k: nat)
    requires AreBooks(bs) && |Flatten(bs)| > BOOK_SIZE * k
    ensures k < |bs| && BOOK_SIZE * k + BOOK_SIZE <= |Flatten(bs)|
    ensures Flatten(bs)[BOOK_SIZE * k..BOOK_SIZE * k + BOOK_SIZE] == bs[k]
    decreases k
  {
    FlattenLength(bs);
    assert bs[0] in bs;
    if k > 0 {
      FlattenAt(bs[1..], k - 1);
      var rest := Flatten(bs[1..]);
      assert (bs[0] + rest)[BOOK_SIZE * k..BOOK_SIZE * k + BOOK_SIZE]
          == rest[BOOK_SIZE * (k - 1)..BOOK_SIZE * (k - 1) + BOOK_SIZE];
    }
  }

  /** The book records of one stream. */
  function Select(bs: seq<bytes>, ids: seq<nat>, slot: nat): (r: seq<bytes>)
    ensures forall b :: b in r ==> b in bs
  {
    if bs == [] then []
    else (if Slot(ids, Id(bs[0])) == slot then [bs[0]] else []) + Select(bs[1..], ids, slot)
  }

  lemma {:induction false} GatherSelect(bs: seq<bytes>, ids: seq<nat>, slot: nat)
    requires forall b :: b in bs ==> Total(SlotPart(ids)(b)) == |b|
    ensures Gather(bs, SlotPart(ids), slot) == Flatten(Select(bs, ids, slot))
  {
    if bs != [] {
      StreamOne(bs[0], Seg(|bs[0]|, Slot(ids, Id(bs[0]))), slot);
      GatherSelect(bs[1..], ids, slot);
      var rest := Select(bs[1..], ids, slot);
      assert ([bs[0]] + rest)[1..] == rest && [] + rest == rest;
    }
  }

  lemma SlotPartTotal(ids: seq<nat>, b: bytes)
    ensures Total(SlotPart(ids)(b)) == |b|
  {
    assert Init(SlotPart(ids)(b)) == [];
  }

  /** Instrument streams are the selections of book records, merged or not. */
  lemma InstrumentStreams(bs: seq<bytes>, slot: nat)
    requires AreBooks(bs)
    ensures Total(MergeAll(InstrumentSegs(bs, Seen(bs)))) == |Flatten(bs)|
    ensures Stream(Flatten(bs), MergeAll(InstrumentSegs(bs, Seen(bs))), slot) == Flatten(Select(bs, Seen(bs), slot))
  {
    hide Stream, MergeAll, Seen, Slot, Id;
    var ids := Seen(bs);
    forall b | b in bs ensures Total(SlotPart(ids)(b)) == |b| {
      SlotPartTotal(ids, b);
    }
    StreamGather(bs, SlotPart(ids), slot);
    StreamMerge(Flatten(bs), InstrumentSegs(bs, ids), slot);
    GatherSelect(bs, ids, slot);
  }

  lemma SlotMeaning(bs: seq<bytes>, b: bytes, slot: nat)
    requires b in bs && slot < Min(|Seen(bs)|, MAX_INSTRUMENTS + 1)
    ensures slot < MAX_INSTRUMENTS ==> (Slot(Seen(bs), Id(b)) == slot <==> Id(b) == Seen(bs)[slot])
    ensures slot == MAX_INSTRUMENTS ==> (Slot(Seen(bs), Id(b)) == slot <==> Id(b) !in Seen(bs)[..MAX_INSTRUMENTS])
    ensures Slot(Seen(bs), Id(b)) < Min(|Seen(bs)|, MAX_INSTRUMENTS + 1)
  {
    var ids := Seen(bs);
    var i := IndexIn(ids, Id(b));
    IndexAt(ids, slot);
    assert Id(b) in ids && i < |ids|;
    if slot == MAX_INSTRUMENTS {
      assert i < MAX_INSTRUMENTS ==> ids[i] == ids[..MAX_INSTRUMENTS][i];
      assert i >= MAX_INSTRUMENTS ==> ids[..i][..MAX_INSTRUMENTS] == ids[..MAX_INSTRUMENTS];
    }
  }

  /** The book records whose instrument is among some, or is not, in input order. */
  function Among(bs: seq<bytes>, ids: seq<nat>, isIn: bool): seq<bytes> {
    if bs == [] then []
    else (if (Id(bs[0]) in ids) == isIn then [bs[0]] else []) + Among(bs[1..], ids, isIn)
  }

  lemma {:induction false} SelectAmong(bs: seq<bytes>, all: seq<bytes>, slot: nat)
    requires (forall b :: b in bs ==> b in all) && slot < Min(|Seen(all)|, MAX_INSTRUMENTS + 1)
    ensures Select(bs, Seen(all), slot)
         == if slot < MAX_INSTRUMENTS then Among(bs, [Seen(all)[slot]], true) else Among(bs, Seen(all)[..slot], false)
  {
    if bs != [] {
      hide Seen, Slot, Id;
      SlotMeaning(all, bs[0], slot);
      SelectAmong(bs[1..], all, slot);
    }
  }

  /** Each of the first 32 instrument streams holds exactly the book records of one instrument in
      input order, and stream 32 those of all instruments after the first 32. */
  lemma PerInstrument(bs: seq<bytes>, slot: nat)
    requires AreBooks(bs) && slot < Min(|Seen(bs)|, MAX_INSTRUMENTS + 1)
    ensures Total(MergeAll(InstrumentSegs(bs, Seen(bs)))) == |Flatten(bs)|
    ensures var records := if slot < MAX_INSTRUMENTS then Among(bs, [Seen(bs)[slot]], true) else Among(bs, Seen(bs)[..slot], false);
            Stream(Flatten(bs), MergeAll(InstrumentSegs(bs, Seen(bs))), slot) == Flatten(records)
  {
    hide Stream, MergeAll, Seen, Slot, Id, Among, Select, Flatten;
    InstrumentStreams(bs, slot);
    SelectAmong(bs, bs, slot);
  }

  // ---------------------------------------------------------------- step 3: fields

  datatype Field = Field(width: nat, delta: bool)

  /** length and rtype, publisher_id, instrument_id, price, size, action and side, flags, depth */
  const HEAD_FIELDS: seq<Field> :=
    [Field(2, false), Field(2, false), Field(4, false), Field(8, true),
     Field(4, false), Field(2, false), Field(1, false), Field(1, false)]

  /** bid and ask price, size and count of one level */
  const LEVEL_FIELDS: seq<Field> :=
    [Field(8, true), Field(8, true), Field(4, true), Field(4, true), Field(4, true), Field(4, true)]

  function Fields(levels: nat): seq<Field> {
    if levels == 0 then HEAD_FIELDS else Fields(levels - 1) + LEVEL_FIELDS
  }

  method BookFields() returns (fields: seq<Field>)
    ensures fields == Fields(LEVELS)
  {
    fields := HEAD_FIELDS;
    for lvl := 0 to LEVELS
      invariant fields == Fields(lvl)
    {
      ghost var before := fields;
      fields := fields + [Field(8, true)];
      fields := fields + [Field(8, true)];
      fields := fields + [Field(4, true)];
      fields := fields + [Field(4, true)];
      fields := fields + [Field(4, true)];
      fields := fields + [Field(4, true)];
      assert fields == before + LEVEL_FIELDS;
    }
  }

  /** One segment per field, tagged with the index of the field. */
  function FieldSegs(fields: seq<Field>): seq<Seg> {
    seq(|fields|, i requires 0 <= i < |fields| => Seg(fields[i].width, i))
  }

  /** The fields of a book record cover it exactly. */
  lemma {:induction false} FieldsTotal(levels: nat)
    ensures |Fields(levels)| == 8 + 6 * levels
    ensures Total(FieldSegs(Fields(levels))) == 24 + 32 * levels
  {
    hide Total, Fields;
    FieldsUnfold(levels);
    var fields := Fields(levels);
    var f := FieldSegs(fields);
    if levels == 0 {
      TotalStep(f, 0); TotalStep(f, 1); TotalStep(f, 2); TotalStep(f, 3);
      TotalStep(f, 4); TotalStep(f, 5); TotalStep(f, 6); TotalStep(f, 7);
      TotalNone(f);
      assert f[..8] == f;
    } else {
      FieldsTotal(levels - 1);
      var m := |Fields(levels - 1)|;
      assert f[..m] == FieldSegs(Fields(levels - 1));
      TotalStep(f, m); TotalStep(f, m + 1); TotalStep(f, m + 2);
      TotalStep(f, m + 3); TotalStep(f, m + 4); TotalStep(f, m + 5);
      assert f[..m + 6] == f;
    }
  }

  lemma FieldsUnfold(levels: nat)
    ensures Fields(levels) == if levels == 0 then HEAD_FIELDS else Fields(levels - 1) + LEVEL_FIELDS
  {
  }

  lemma TotalNone(f: seq<Seg>)
    ensures Total(f[..0]) == 0
  {
  }

  lemma TotalStep(f: seq<Seg>, k: nat)
    requires k < |f|
    ensures Total(f[..k + 1]) == Total(f[..k]) + f[k].size
  {
    assert Init(f[..k + 1]) == f[..k];
  }

  function FieldPart(b: bytes): seq<Seg> {
    FieldSegs(Fields(LEVELS))
  }

  /** Step 3: the fields of each record, not merged. */
  method SplitFields(book: bytes, ghost bs: seq<bytes>) returns (segs: seq<Seg>, nbTags: nat)
    requires AreBooks(bs) && book == Flatten(bs)
    ensures segs == SegsOf(bs, FieldPart) && nbTags == |Fields(LEVELS)|
  {
    hide Fields;
    FlattenLength(bs);
    var fields := BookFields();
    var nbRecs := |book| / BOOK_SIZE;
    segs, nbTags := [], |fields|;
    for r := 0 to nbRecs
      invariant segs == SegsOf(bs[..r], FieldPart)
    {
      ghost var before := segs;
      for f := 0 to |fields|
        invariant segs == before + FieldSegs(fields)[..f]
      {
        assert FieldSegs(fields)[..f + 1] == FieldSegs(fields)[..f] + [Seg(fields[f].width, f)];
        segs := segs + [Seg(fields[f].width, f)];
      }
      assert FieldSegs(fields)[..|fields|] == FieldSegs(fields);
      assert bs[..r + 1] == bs[..r] + [bs[r]];
      SegsOfSnoc(bs[..r], bs[r], FieldPart);
    }
    assert bs[..nbRecs] == bs;
  }

  lemma {:induction false} NoTag(input: bytes, segs: seq<Seg>, tag: nat)
    requires Total(segs) == |input| && forall s :: s in segs ==> s.tag != tag
    ensures Stream(input, segs, tag) == []
    decreases |segs|
  {
    if segs != [] {
      TotalCons(segs);
      assert segs[0] in segs;
      NoTag(input[segs[0].size..], segs[1..], tag);
    }
  }

  /** The stream of a field of one record is the field's bytes. */
  lemma FieldStream(b: bytes, fields: seq<Field>, f: nat)
    requires f < |fields| && Total(FieldSegs(fields)) == |b|
    ensures var segs := FieldSegs(fields);
            var at := Total(segs[..f]);
            at + fields[f].width <= |b| && Stream(b, segs, f) == b[at..at + fields[f].width]
  {
    hide Stream;
    var segs := FieldSegs(fields);
    var x, y, z := segs[..f], [segs[f]], segs[f + 1..];
    assert segs == x + (y + z);
    TotalConcat(x, y + z);
    TotalConcat(y, z);
    assert Init(y) == [];
    var at := Total(x);
    var n := at + fields[f].width;
    assert b == b[..at] + (b[at..n] + b[n..]);
    NoTag(b[..at], x, f);
    NoTag(b[n..], z, f);
    StreamOne(b[at..n], segs[f], f);
    StreamConcat(b[at..n], b[n..], y, z, f);
    StreamConcat(b[..at], b[at..n] + b[n..], x, y + z, f);
  }

  /** Each field stream holds one integer of the field's width per record. */
  lemma FieldStreams(bs: seq<bytes>, f: nat)
    requires AreBooks(bs) && f < |Fields(LEVELS)|
    ensures Total(SegsOf(bs, FieldPart)) == |Flatten(bs)|
    ensures |Stream(Flatten(bs), SegsOf(bs, FieldPart), f)| == Fields(LEVELS)[f].width * |bs|
  {
    hide Stream, Fields, FieldSegs, Total, SegsOf, Flatten;
    FieldsTotal(LEVELS);
    StreamGather(bs, FieldPart, f);
    forall b | b in bs ensures |Stream(b, FieldPart(b), f)| == Fields(LEVELS)[f].width {
      FieldStream(b, Fields(LEVELS), f);
    }
    GatherLength(bs, FieldPart, f, Fields(LEVELS)[f].width);
  }

  // ---------------------------------------------------------------- the round trip

  /** What the parser hands on: data, or a dispatch into parts. */
  datatype Node = Leaf(data: bytes) | Split(segs: seq<Seg>, parts: seq<Node>)

  /** Undoes every dispatch. */
  function Decode(n: Node): Option<bytes> {
    match n
    case Leaf(data) => Some(data)
    case Split(segs, parts) =>
      match DecodeAll(parts)
      case None => None
      case Some(streams) => Restore(segs, streams)
  }

  function DecodeAll(parts: seq<Node>): Option<seq<bytes>> {
    if parts == [] then Some([])
    else
      match (Decode(parts[0]), DecodeAll(parts[1..]))
      case (Some(x), Some(xs)) => Some([x] + xs)
      case _ => None
  }

  lemma {:induction false} DecodeEach(parts: seq<Node>, streams: seq<bytes>)
    requires |parts| == |streams| && forall i :: 0 <= i < |parts| ==> Decode(parts[i]) == Some(streams[i])
    ensures DecodeAll(parts) == Some(streams)
  {
    if parts != [] {
      DecodeEach(parts[1..], streams[1..]);
      assert streams == [streams[0]] + streams[1..];
    }
  }

  /** A dispatch whose parts decode to its streams decodes to its input. */
  lemma DecodeSplit(input: bytes, segs: seq<Seg>, parts: seq<Node>)
    requires Total(segs) == |input| && TagsBelow(segs, |parts|)
    requires forall i :: 0 <= i < |parts| ==> Decode(parts[i]) == Some(Stream(input, segs, i))
    ensures Decode(Split(segs, parts)) == Some(input)
  {
    hide Stream;
    DecodeEach(parts, Streams(input, segs, |parts|));
    RestoreStreams(input, segs, |parts|);
  }

  /** Step 3 of some book records. */
  function FieldsNode(bs: seq<bytes>): Node
    requires Total(SegsOf(bs, FieldPart)) == |Flatten(bs)|
  {
    var segs := SegsOf(bs, FieldPart);
    Split(segs, seq(|Fields(LEVELS)|, f requires 0 <= f < |Fields(LEVELS)| => Leaf(Stream(Flatten(bs), segs, f))))
  }

  lemma {:induction false} FieldTags(bs: seq<bytes>)
    ensures TagsBelow(SegsOf(bs, FieldPart), |Fields(LEVELS)|)
  {
    if bs != [] {
      hide Fields;
      FieldTags(bs[1..]);
    }
  }

  lemma FieldsCover(bs: seq<bytes>)
    requires AreBooks(bs)
    ensures Total(SegsOf(bs, FieldPart)) == |Flatten(bs)|
  {
    FieldsTotal(LEVELS);
    StreamGather(bs, FieldPart, 0);
  }

  lemma DecodeFields(bs: seq<bytes>)
    requires AreBooks(bs)
    ensures Total(SegsOf(bs, FieldPart)) == |Flatten(bs)|
    ensures Decode(FieldsNode(bs)) == Some(Flatten(bs))
  {
    hide Fields, Stream, SegsOf, Flatten, Restore;
    FieldsCover(bs);
    FieldTags(bs);
    DecodeSplit(Flatten(bs), SegsOf(bs, FieldPart), FieldsNode(bs).parts);
  }

  /** Step 2 of the book records, with step 3 of each instrument. */
  ghost function InstrumentsNode(bs: seq<bytes>): Node
    requires AreBooks(bs)
  {
    var ids := Seen(bs);
    Split(MergeAll(InstrumentSegs(bs, ids)),
          seq(Min(|ids|, MAX_INSTRUMENTS + 1), i => InstrumentNode(bs, i)))
  }

  ghost function InstrumentNode(bs: seq<bytes>, i: int): Node
    requires AreBooks(bs)
  {
    if i < 0 then Leaf([])
    else
      FieldsCover(Select(bs, Seen(bs), i));
      FieldsNode(Select(bs, Seen(bs), i))
  }

  lemma {:induction false} InstrumentTags(bs: seq<bytes>, all: seq<bytes>)
    requires forall b :: b in bs ==> b in all
    ensures TagsBelow(InstrumentSegs(bs, Seen(all)), Min(|Seen(all)|, MAX_INSTRUMENTS + 1))
  {
    if bs != [] {
      hide Seen, Slot, Id;
      SeenSome(all, bs[0]);
      SlotMeaning(all, bs[0], 0);
      InstrumentTags(bs[1..], all);
    }
  }

  lemma SeenSome(all: seq<bytes>, b: bytes)
    requires b in all
    ensures Seen(all) != []
  {
    assert Id(b) in Seen(all);
  }

  lemma DecodeInstruments(bs: seq<bytes>)
    requires AreBooks(bs)
    ensures Decode(InstrumentsNode(bs)) == Some(Flatten(bs))
  {
    hide Stream, MergeAll, Seen, Flatten, FieldsNode, InstrumentSegs, Restore, TagsBelow;
    var segs, parts := MergeAll(InstrumentSegs(bs, Seen(bs))), InstrumentsNode(bs).parts;
    InstrumentStreams(bs, 0);
    InstrumentTags(bs, bs);
    MergeTags(InstrumentSegs(bs, Seen(bs)), |parts|);
    forall i | 0 <= i < |parts| ensures Decode(parts[i]) == Some(Stream(Flatten(bs), segs, i)) {
      InstrumentStreams(bs, i);
      DecodeFields(Select(bs, Seen(bs), i));
    }
    DecodeSplit(Flatten(bs), segs, parts);
  }

  /** The book part of the parser's result. */
  ghost function BookNode(bs: seq<bytes>, byInstrument: bool): Node
    requires AreBooks(bs)
  {
    FieldsCover(bs);
    if byInstrument then InstrumentsNode(bs) else FieldsNode(bs)
  }

  /** All three steps on a whole input; an input without book records is passed on as it is. */
  ghost function Parse(src: bytes, byInstrument: bool): Node {
    var recs := Records(src[HeaderSize(src)..]);
    if CountBooks(recs) == 0 then Leaf(src)
    else
      var segs := MergeAll(InputSegs(src));
      var nbTags := NbTags(InputSegs(src));
      Split(segs, seq(nbTags, t requires 0 <= t < nbTags =>
        if t == BOOK then BookNode(Books(recs), byInstrument) else Leaf(Stream(src, segs, t))))
  }

  /** For every byte string, with or without the instrument split, undoing the three dispatches
      restores the input. */
  lemma RoundTrip(src: bytes, byInstrument: bool)
    ensures Decode(Parse(src, byInstrument)) == Some(src)
  {
    hide Stream, MergeAll, Records, InputSegs, Restore, TagsBelow, BookNode, Books, Collect, HeaderSize, CountBooks, DecodeAll, NbTags;
    var recs := Records(src[HeaderSize(src)..]);
    if CountBooks(recs) > 0 {
      var segs, parts := MergeAll(InputSegs(src)), Parse(src, byInstrument).parts;
      InputTags(src);
      MergeTags(InputSegs(src), |parts|);
      BookPart(src, byInstrument);
      DecodeSplit(src, segs, parts);
    }
  }

  lemma BookPart(src: bytes, byInstrument: bool)
    ensures var recs := Records(src[HeaderSize(src)..]);
            Decode(BookNode(Books(recs), byInstrument)) == Some(Stream(src, MergeAll(InputSegs(src)), BOOK))
  {
    hide Stream, MergeAll, Records, InputSegs, FieldsNode, InstrumentsNode, HeaderSize, Collect, Books, Flatten, Decode;
    var recs := Records(src[HeaderSize(src)..]);
    InputStreams(src, BOOK);
    BooksFlatten(recs);
    DecodeFields(Books(recs));
    DecodeInstruments(Books(recs));
    assert [] + Collect(recs, BOOK) == Collect(recs, BOOK);
  }

  // ---------------------------------------------------------------- the parser

  method ParseFields(book: bytes, ghost bs: seq<bytes>) returns (node: Node)
    requires AreBooks(bs) && book == Flatten(bs)
    ensures Total(SegsOf(bs, FieldPart)) == |Flatten(bs)| && node == FieldsNode(bs)
  {
    hide Fields, Stream, SegsOf, Flatten;
    FieldsCover(bs);
    var segs, nbTags := SplitFields(book, bs);
    node := Split(segs, seq(nbTags, f requires 0 <= f < nbTags => Leaf(Stream(book, segs, f))));
    assert node.parts == FieldsNode(bs).parts;
  }

  method ParseInstruments(book: bytes, ghost bs: seq<bytes>) returns (node: Node)
    requires AreBooks(bs) && book == Flatten(bs)
    ensures node == InstrumentsNode(bs)
  {
    hide MergeAll, Stream, Flatten, Seen, FieldsNode, InstrumentSegs, Select, Slot, Id, SegsOf, Total, IndexIn;
    var segs, nbTags := SplitInstruments(book, bs);
    InstrumentStreams(bs, 0);
    var parts: seq<Node> := [];
    for i := 0 to nbTags
      invariant |parts| == i && forall k :: 0 <= k < i ==> parts[k] == InstrumentNode(bs, k)
    {
      InstrumentStreams(bs, i);
      var part := ParseFields(Stream(book, segs, i), Select(bs, Seen(bs), i));
      parts := parts + [part];
    }
    node := Split(segs, parts);
    assert parts == InstrumentsNode(bs).parts;
  }

  /** The whole parser; whatever it hands on for an input can be restored to the input. */
  method ParseInput(src: bytes, byInstrument: bool) returns (node: Node)
    ensures node == Parse(src, byInstrument) && Decode(node) == Some(src)
  {
    hide MergeAll, Stream, Flatten, InputSegs, Records, HeaderSize, Books, Collect, CountBooks, FieldsNode, InstrumentsNode, Decode, NbTags;
    var segs, nbTags, nbRecords := DispatchRecords(src);
    RoundTrip(src, byInstrument);
    if nbRecords == 0 {
      return Leaf(src);
    }
    ghost var recs := Records(src[HeaderSize(src)..]);
    InputStreams(src, BOOK);
    BooksFlatten(recs);
    assert [] + Collect(recs, BOOK) == Collect(recs, BOOK);
    var book := Stream(src, segs, BOOK);
    var bookNode;
    if byInstrument {
      bookNode := ParseInstruments(book, Books(recs));
    } else {
      bookNode := ParseFields(book, Books(recs));
    }
    node := Split(segs, seq(nbTags, t requires 0 <= t < nbTags => if t == BOOK then bookNode else Leaf(Stream(src, segs, t))));
    assert node.parts == Parse(src, byInstrument).parts;
  }
}
