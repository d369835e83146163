/** Zip archives described by APPNOTE.TXT sections 4.3.6 to 4.3.16 instead of by the lexer: files in
    order of occurrence, the central directory, a Zip64 end record with its locator or none, and the
    end record with its comment. Other bytes may come before, between and after them. Each of these
    archives is lexed into exactly its sections and the bytes around them. */
module ZipArchive {
  import opened Bytes
  import opened ZipFormat
  import opened ZipRecords
  import opened ZipPlan
  import opened ZipLexer
  import opened ZipCounts
  import opened TokenStreams

  /** One file: the number of bytes before it, its compression method, and the lengths of the parts
      of its two headers, of its data and of its data descriptor, which is 0 when there is none. */
  datatype Entry = Entry(gap: nat, compressionMethod: nat, name: nat, extra: nat, data: nat, descriptor: nat,
                         cdName: nat, cdExtra: nat, cdComment: nat)
  {
    function HeaderLength(): nat {
      30 + name + extra
    }

    function Length(): nat {
      HeaderLength() + data + descriptor
    }

    function DirectoryLength(): nat {
      46 + cdName + cdExtra + cdComment
    }
  }

  /** What follows the files: the number of bytes before the directory, then the end record after a
      number of bytes, or the Zip64 end record, its locator and right after it the end record. */
  datatype Ending =
    | Short(gap: nat, endGap: nat, comment: nat)
    | Zip64(gap: nat, recordGap: nat, recordSize: nat, locatorGap: nat, comment: nat)

  function FilesLength(entries: seq<Entry>): nat {
    if entries == [] then 0 else entries[0].gap + entries[0].Length() + FilesLength(entries[1..])
  }

  function DirectoryLength(entries: seq<Entry>): nat {
    if entries == [] then 0 else entries[0].DirectoryLength() + DirectoryLength(entries[1..])
  }

  /** Offsets from the beginning of the archive. */
  function DirectoryOffset(entries: seq<Entry>, ending: Ending): nat {
    FilesLength(entries) + ending.gap
  }

  function DirectoryEnd(entries: seq<Entry>, ending: Ending): nat {
    DirectoryOffset(entries, ending) + DirectoryLength(entries)
  }

  function RecordOffset(entries: seq<Entry>, ending: Ending): nat
    requires ending.Zip64?
  {
    DirectoryEnd(entries, ending) + ending.recordGap
  }

  function LocatorOffset(entries: seq<Entry>, ending: Ending): nat
    requires ending.Zip64?
  {
    RecordOffset(entries, ending) + ending.recordSize + ending.locatorGap
  }

  function EndOffset(entries: seq<Entry>, ending: Ending): nat {
    match ending
    case Short(_, endGap, _) => DirectoryEnd(entries, ending) + endGap
    case Zip64(_, _, _, _, _) => LocatorOffset(entries, ending) + 20
  }

  // ---------------------------------------------------------------- what an archive is

  /** Section 4.3.9: the descriptor may begin with a signature, and has 8-byte sizes for Zip64. */
  ghost predicate DescriptorAt(src: bytes, p: nat, length: nat, isZip64: bool) {
    && p + length <= |src| && length >= 12
    && length == (if Mark(src, p, 0x50, 0x4b, 7, 8) then 16 else 12) + (if isZip64 then 8 else 0)
  }

  /** Section 4.3.7: the local header at p and what follows it. Bit 3 of the flags announces a descriptor. */
  ghost predicate FileAt(src: bytes, p: nat, e: Entry) {
    && p + e.Length() <= |src|
    && Mark(src, p, 0x50, 0x4b, 3, 4)
    && LE16(src, p + 8) == e.compressionMethod
    && LE16(src, p + 26) == e.name && LE16(src, p + 28) == e.extra
    && (src[p + 6] % 16 >= 8 <==> e.descriptor > 0)
    && (e.descriptor > 0 ==>
          DescriptorAt(src, p + e.HeaderLength() + e.data, e.descriptor, HasZip64(src, p + 30 + e.name, p + e.HeaderLength())))
  }

  /** Section 4.3.12: the directory entry at cd, for the file at offset p. */
  ghost predicate DirectoryEntryAt(src: bytes, cd: nat, e: Entry, p: nat) {
    && cd + e.DirectoryLength() <= |src|
    && Mark(src, cd, 0x50, 0x4b, 1, 2)
    && LE16(src, cd + 28) == e.cdName && LE16(src, cd + 30) == e.cdExtra && LE16(src, cd + 32) == e.cdComment
    && var extra := cd + 46 + e.cdName;
       FieldIs(src, cd + 20, extra, extra + e.cdExtra, 0, e.data) && FieldIs(src, cd + 42, extra, extra + e.cdExtra, 16, p)
  }

  /** Files and directory entries from the offsets p and cd of an archive that begins at b. */
  ghost predicate EntriesAt(src: bytes, b: nat, entries: seq<Entry>, p: nat, cd: nat)
    decreases |entries|
  {
    entries == [] ||
    var e := entries[0];
    && FileAt(src, b + p + e.gap, e) && DirectoryEntryAt(src, b + cd, e, p + e.gap)
    && EntriesAt(src, b, entries[1..], p + e.gap + e.Length(), cd + e.DirectoryLength())
  }

  /** Section 4.3.16: the fields of the end record at p, for an archive without Zip64 end records. */
  predicate ShortEndAt(src: bytes, p: nat, entries: seq<Entry>, cdOffset: nat)
    requires p + 22 <= |src|
  {
    && LE16(src, p + 4) == LE16(src, p + 6) == 0
    && LE16(src, p + 8) == LE16(src, p + 10) == |entries| < 0xFFFF
    && LE32(src, p + 12) == DirectoryLength(entries) < 0xFFFF_FFFF
    && LE32(src, p + 16) == cdOffset < 0xFFFF_FFFF
  }

  /** Section 4.3.14: the Zip64 end record at p. Its size field does not count the first 12 bytes. */
  predicate RecordAt(src: bytes, p: nat, size: nat, entries: seq<Entry>, cdOffset: nat) {
    && 56 <= size && p + size <= |src|
    && Mark(src, p, 0x50, 0x4b, 6, 6) && LE64(src, p + 4) == size - 12
    && LE32(src, p + 16) == LE32(src, p + 20) == 0
    && LE64(src, p + 24) == LE64(src, p + 32) == |entries|
    && LE64(src, p + 40) == DirectoryLength(entries) && LE64(src, p + 48) == cdOffset
  }

  predicate EndingAt(src: bytes, b: nat, entries: seq<Entry>, ending: Ending) {
    var eocd := b + EndOffset(entries, ending);
    && eocd + 22 + ending.comment <= |src|
    && Mark(src, eocd, 0x50, 0x4b, 5, 6) && LE16(src, eocd + 20) == ending.comment
    && match ending
       case Short(_, _, _) => ShortEndAt(src, eocd, entries, DirectoryOffset(entries, ending))
       case Zip64(_, _, size, _, _) =>
         && Defers(EndFieldsAt(src, eocd))
         && RecordAt(src, b + RecordOffset(entries, ending), size, entries, DirectoryOffset(entries, ending))
         && LocatorIs(src, b + LocatorOffset(entries, ending), RecordOffset(entries, ending))
  }

  /** Section 4.3.6: the files, their directory, and the end records, from b on. */
  ghost predicate IsArchive(src: bytes, b: nat, entries: seq<Entry>, ending: Ending) {
    EntriesAt(src, b, entries, 0, DirectoryOffset(entries, ending)) && EndingAt(src, b, entries, ending)
  }

  /** Something tells where the archive begins: its first file, or that nothing comes before it. */
  predicate IsAnchored(b: nat, entries: seq<Entry>, ending: Ending) {
    entries != [] || (ending.Short? && b == 0)
  }

  /** The record by which the beginning is searched, its offset, its size at least, and where it has to end. */
  function AnchorKind(ending: Ending): RecordKind {
    if ending.Zip64? then Eocd64Record else DirectoryRecord
  }

  function AnchorOffset(entries: seq<Entry>, ending: Ending): nat {
    if ending.Zip64? then RecordOffset(entries, ending) else DirectoryOffset(entries, ending)
  }

  function AnchorSize(entries: seq<Entry>, ending: Ending): nat {
    if ending.Zip64? then 56 else DirectoryLength(entries)
  }

  function AnchorLimit(entries: seq<Entry>, ending: Ending): nat {
    if ending.Zip64? then LocatorOffset(entries, ending) else EndOffset(entries, ending)
  }

  /** No earlier place can be taken for that record. */
  ghost predicate NoneBefore(src: bytes, b: nat, entries: seq<Entry>, ending: Ending) {
    var offset := AnchorOffset(entries, ending);
    forall q :: offset <= q < b + offset ==> !Leads(src, AnchorKind(ending), offset, q)
  }

  // ---------------------------------------------------------------- the sections it has

  function EntryTokens(e: Entry, p: nat): seq<Token> {
    var data := p + e.HeaderLength();
    [Token(LocalFileHeader, p, e.HeaderLength(), e.compressionMethod, Some(p + 30), e.name),
     Token(CompressedData, data, e.data, e.compressionMethod, Some(p + 30), e.name)]
    + if e.descriptor == 0 then []
      else [Token(DataDescriptor, data + e.data, e.descriptor, e.compressionMethod, Some(p + 30), e.name)]
  }

  function FilesTokens(entries: seq<Entry>, p: nat): seq<Token> {
    if entries == [] then []
    else EntryTokens(entries[0], p + entries[0].gap) + FilesTokens(entries[1..], p + entries[0].gap + entries[0].Length())
  }

  function EndTokens(b: nat, entries: seq<Entry>, ending: Ending): seq<Token> {
    var directory := Token(CentralDirectory, b + DirectoryOffset(entries, ending), DirectoryLength(entries), 0, None, 0);
    var end := Token(EndRecord, b + EndOffset(entries, ending), 22 + ending.comment, 0, None, 0);
    match ending
    case Short(_, _, _) => [directory, end]
    case Zip64(_, _, size, _, _) =>
      [directory, Token(Zip64Record, b + RecordOffset(entries, ending), size, 0, None, 0),
       Token(Zip64Locator, b + LocatorOffset(entries, ending), 20, 0, None, 0), end]
  }

  function ArchiveTokens(b: nat, entries: seq<Entry>, ending: Ending): seq<Token> {
    FilesTokens(entries, b) + EndTokens(b, entries, ending)
  }

  /** The layout that the end records of the archive describe. */
  function ArchiveLayout(b: nat, entries: seq<Entry>, ending: Ending): Layout {
    var record, size, locator :=
      if ending.Zip64? then Some(b + RecordOffset(entries, ending)) else None,
      if ending.Zip64? then ending.recordSize else 0,
      if ending.Zip64? then Some(b + LocatorOffset(entries, ending)) else None;
    Layout(b, b + DirectoryOffset(entries, ending), b + DirectoryEnd(entries, ending), |entries|,
           record, size, locator, b + EndOffset(entries, ending), 22 + ending.comment)
  }

  // ---------------------------------------------------------------- the directory is read as written

  function StateOf(e: Entry, p: nat): FileState {
    var data := p + e.HeaderLength();
    FileState(Some(p), e.HeaderLength(), Some(data), e.data,
              if e.descriptor == 0 then None else Some(data + e.data), e.descriptor,
              e.compressionMethod, Some(p + 30), e.name)
  }

  lemma ReadFileAt(src: bytes, b: nat, e: Entry, p: nat, c: Cdfh)
    requires FileAt(src, b + p, e) && c.lfhOffset == p && c.compressedSize == e.data
    ensures b <= |src| && ReadFile(src, b, c) == Some(StateOf(e, b + p))
  {
    hide LE16, LE32, HasZip64, ReadFile;
    FileExactly(src, b, c, StateOf(e, b + p));
  }

  lemma ReadEntryAt(src: bytes, e: Entry, p: nat, cd: nat, cdEnd: nat)
    requires DirectoryEntryAt(src, cd, e, p) && cd + e.DirectoryLength() <= cdEnd <= |src|
    ensures ReadCdfh(src, cd, cdEnd) == Some(Cdfh(p, e.data, e.DirectoryLength()))
  {
    hide LE16, LE32, FieldIs, ReadCdfh;
    EntryExactly(src, cd, cdEnd, Cdfh(p, e.data, e.DirectoryLength()));
  }

  lemma StateTokens(e: Entry, p: nat)
    ensures FileSections(StateOf(e, p)) == EntryTokens(e, p)
  {
  }

  lemma EntryRead(src: bytes, b: nat, e: Entry, p: nat, cd: nat, cdEnd: nat)
    requires FileAt(src, b + p, e) && DirectoryEntryAt(src, cd, e, p) && cd + e.DirectoryLength() <= cdEnd <= |src|
    ensures b <= |src| && NextFile(src, b, cd, cdEnd) == Some((StateOf(e, b + p), cd + e.DirectoryLength()))
  {
    hide FileAt, DirectoryEntryAt, ReadCdfh, ReadFile, StateOf;
    ReadEntryAt(src, e, p, cd, cdEnd);
    ReadFileAt(src, b, e, p, Cdfh(p, e.data, e.DirectoryLength()));
  }

  /** The directory is read to its end and gives the sections of every file. */
  lemma {:induction false} EntriesRead(src: bytes, b: nat, entries: seq<Entry>, p: nat, cd: nat, cdEnd: nat, tail: seq<Token>)
    requires EntriesAt(src, b, entries, p, cd) && b + cd + DirectoryLength(entries) == cdEnd <= |src|
    ensures FilesPlan(ReadFiles(src, b, b + cd, cdEnd, |entries|), tail) == Plan(FilesTokens(entries, b + p) + tail, true)
    decreases |entries|
  {
    hide FileAt, DirectoryEntryAt, StateOf, FileSections, EntryTokens, NextFile;
    if entries == [] {
      assert FilesTokens(entries, b + p) + tail == tail;
    } else {
      var e, more := entries[0], entries[1..];
      var at := p + e.gap;
      EntryRead(src, b, e, at, b + cd, cdEnd);
      NextFilePlan(src, b, b + cd, cdEnd, |entries|, tail);
      hide ReadFiles, FilesPlan;
      EntriesRead(src, b, more, at + e.Length(), cd + e.DirectoryLength(), cdEnd, tail);
      StateTokens(e, b + at);
      var first, rest := EntryTokens(e, b + at), FilesTokens(more, b + at + e.Length());
      assert first + (rest + tail) == (first + rest) + tail;
    }
  }

  lemma {:induction false} EntriesSize(src: bytes, b: nat, entries: seq<Entry>, p: nat, cd: nat)
    requires EntriesAt(src, b, entries, p, cd)
    ensures 76 * |entries| <= FilesLength(entries) + DirectoryLength(entries)
    decreases |entries|
  {
    if entries != [] {
      var e := entries[0];
      EntriesSize(src, b, entries[1..], p + e.gap + e.Length(), cd + e.DirectoryLength());
    }
  }

  // ---------------------------------------------------------------- the end records are read as written

  function ArchiveFields(entries: seq<Entry>, ending: Ending): Eocd {
    Eocd(0, 0, |entries|, |entries|, DirectoryLength(entries), DirectoryOffset(entries, ending))
  }

  lemma RecordFields(src: bytes, p: nat, size: nat, entries: seq<Entry>, cdOffset: nat, end: nat)
    requires RecordAt(src, p, size, entries, cdOffset) && p + size <= end <= |src|
    ensures Record64Is(src, p, end, Eocd(0, 0, |entries|, |entries|, DirectoryLength(entries), cdOffset), size - 12)
  {
    hide LE32, LE64, DirectoryLength;
  }

  lemma ArchiveFits(src: bytes, b: nat, entries: seq<Entry>, ending: Ending)
    requires IsArchive(src, b, entries, ending)
    ensures DirectoryIs(src, ArchiveFields(entries, ending), ArchiveLayout(b, entries, ending))
  {
    hide LE16, LE32, LE64, EntriesAt, RecordAt, LocatorIs, ShortEndAt, Defers, EndFieldsAt;
    EntriesSize(src, b, entries, 0, DirectoryOffset(entries, ending));
  }

  /** The first directory entry leads to the first file. */
  lemma FirstEntry(src: bytes, b: nat, entries: seq<Entry>, ending: Ending)
    requires IsArchive(src, b, entries, ending) && entries != []
    ensures DirectoryLength(entries) >= 46 && EntryLeads(src, b, b + DirectoryOffset(entries, ending))
  {
    hide LE16, LE32, EndingAt, FieldIs, HasZip64;
    var e, cd := entries[0], b + DirectoryOffset(entries, ending);
    assert EntryIs(src, cd, |src|, Cdfh(e.gap, e.data, e.DirectoryLength()));
    assert Mark(src, b + e.gap, 0x50, 0x4b, 3, 4);
  }

  lemma AnchorLeads(src: bytes, b: nat, entries: seq<Entry>, ending: Ending)
    requires IsArchive(src, b, entries, ending) && entries != []
    ensures AnchorSize(entries, ending) >= 4
    ensures b + AnchorOffset(entries, ending) + AnchorSize(entries, ending) <= b + AnchorLimit(entries, ending) <= |src|
    ensures Leads(src, AnchorKind(ending), AnchorOffset(entries, ending), b + AnchorOffset(entries, ending))
  {
    hide LE16, LE32, LE64, EntriesAt, EntryLeads, DirectoryLength, FilesLength, Defers, EndFieldsAt, ShortEndAt, LocatorIs;
    FirstEntry(src, b, entries, ending);
    if ending.Zip64? {
      RecordFields(src, b + RecordOffset(entries, ending), ending.recordSize, entries, DirectoryOffset(entries, ending), |src|);
      hide Record64Is;
      assert RecordLeads(src, b, b + RecordOffset(entries, ending));
    }
  }

  /** The beginning is found exactly when no earlier place can be taken for the record it is searched by. */
  lemma BeginsExactly(src: bytes, b: nat, entries: seq<Entry>, ending: Ending)
    requires IsArchive(src, b, entries, ending) && entries != []
    ensures b + AnchorLimit(entries, ending) <= |src|
    ensures BeginsAt(src, AnchorKind(ending), b, AnchorOffset(entries, ending), AnchorSize(entries, ending), b + AnchorLimit(entries, ending))
            <==> NoneBefore(src, b, entries, ending)
    ensures Beginning(src, 0, AnchorKind(ending), AnchorOffset(entries, ending), AnchorSize(entries, ending), b + AnchorLimit(entries, ending)) == Some(b)
            <==> NoneBefore(src, b, entries, ending)
  {
    hide IsArchive, Leads, Beginning, AnchorOffset, AnchorSize, AnchorLimit, AnchorKind;
    AnchorLeads(src, b, entries, ending);
    BeginningExactly(src, AnchorKind(ending), b, AnchorOffset(entries, ending), AnchorSize(entries, ending), b + AnchorLimit(entries, ending));
  }

  lemma EndRecordRead(src: bytes, b: nat, entries: seq<Entry>, ending: Ending)
    requires IsArchive(src, b, entries, ending) && IsAnchored(b, entries, ending) && NoneBefore(src, b, entries, ending)
    ensures ParseEocd(src, b + EndOffset(entries, ending)) == Some(ArchiveLayout(b, entries, ending))
  {
    hide LE16, LE32, LE64, EntriesAt, BeginsAt, FilesLength, DirectoryLength, NoneBefore, DirectoryIs, Record64Is, LocatorIs, Leads, ParseEocd, Mark;
    var eocd, l := b + EndOffset(entries, ending), ArchiveLayout(b, entries, ending);
    ArchiveFits(src, b, entries, ending);
    if entries != [] {
      BeginsExactly(src, b, entries, ending);
    }
    ParsedExactly(src, eocd, l);
    if ending.Zip64? {
      RecordFields(src, b + RecordOffset(entries, ending), ending.recordSize, entries, DirectoryOffset(entries, ending),
                   b + LocatorOffset(entries, ending));
      hide RecordAt;
      assert LongIs(src, eocd, l, ArchiveFields(entries, ending), RecordOffset(entries, ending));
    } else {
      assert EndFieldsAt(src, eocd) == ArchiveFields(entries, ending);
      assert ShortIs(src, eocd, l);
    }
  }

  // ---------------------------------------------------------------- the stream

  /** The sections are in order and lie between two positions. */
  ghost predicate Spans(sections: seq<Token>, begin: nat, end: nat) {
    && begin <= end && InOrder(sections)
    && (sections != [] ==> begin <= sections[0].ptr && sections[|sections| - 1].End() <= end)
  }

  lemma SpansConcat(a: seq<Token>, b: seq<Token>, begin: nat, mid: nat, end: nat)
    requires Spans(a, begin, mid) && Spans(b, mid, end)
    ensures Spans(a + b, begin, end)
  {
    var all := a + b;
    forall i | 0 <= i < |all| - 1 ensures all[i].End() <= all[i + 1].ptr {
      if i + 1 < |a| {
        assert a[i].End() <= a[i + 1].ptr;
      } else if i >= |a| {
        assert b[i - |a|].End() <= b[i - |a| + 1].ptr;
      }
    }
    hide InOrder;
    if a == [] {
      assert all == b;
    }
  }

  lemma EntryInOrder(e: Entry, p: nat)
    ensures Spans(EntryTokens(e, p), p, p + e.Length())
  {
  }

  lemma {:induction false} FilesInOrder(entries: seq<Entry>, p: nat)
    ensures Spans(FilesTokens(entries, p), p, p + FilesLength(entries))
    decreases |entries|
  {
    if entries != [] {
      hide EntryTokens, Spans;
      var e, at := entries[0], p + entries[0].gap;
      EntryInOrder(e, at);
      SpansFrom(EntryTokens(e, at), p, at, at + e.Length());
      FilesInOrder(entries[1..], at + e.Length());
      SpansConcat(EntryTokens(e, at), FilesTokens(entries[1..], at + e.Length()), p, at + e.Length(), p + FilesLength(entries));
    }
  }

  lemma SpansFrom(sections: seq<Token>, begin: nat, later: nat, end: nat)
    requires Spans(sections, later, end) && begin <= later
    ensures Spans(sections, begin, end)
  {
  }

  lemma EndInOrder(b: nat, entries: seq<Entry>, ending: Ending)
    ensures Spans(EndTokens(b, entries, ending), b + FilesLength(entries), b + EndOffset(entries, ending) + 22 + ending.comment)
  {
    hide FilesLength, DirectoryLength;
  }

  lemma ArchiveInOrder(b: nat, entries: seq<Entry>, ending: Ending)
    ensures InOrder(ArchiveTokens(b, entries, ending))
  {
    hide FilesLength, DirectoryLength, FilesTokens, EndTokens, EndOffset;
    FilesInOrder(entries, b);
    EndInOrder(b, entries, ending);
    SpansConcat(FilesTokens(entries, b), EndTokens(b, entries, ending), b, b + FilesLength(entries),
                b + EndOffset(entries, ending) + 22 + ending.comment);
  }

  lemma ArchivePlan(src: bytes, b: nat, entries: seq<Entry>, ending: Ending)
    requires IsArchive(src, b, entries, ending) && LayoutOk(src, ArchiveLayout(b, entries, ending))
    ensures PlanOf(src, ArchiveLayout(b, entries, ending)) == Plan(ArchiveTokens(b, entries, ending), true)
  {
    hide EntriesAt, EndingAt, ReadFiles, FilesLength, DirectoryLength, FilesTokens, SectionsThen, FilesPlan;
    var l := ArchiveLayout(b, entries, ending);
    EntriesRead(src, b, entries, 0, DirectoryOffset(entries, ending), l.cdEnd, LayoutTail(src, l));
    assert LayoutTail(src, l) == EndTokens(b, entries, ending);
  }

  lemma ArchiveOpens(src: bytes, b: nat, entries: seq<Entry>, ending: Ending)
    requires IsArchive(src, b, entries, ending) && IsAnchored(b, entries, ending)
    requires NoneBefore(src, b, entries, ending)
    ensures Opens(src, b + EndOffset(entries, ending))
  {
    hide ParseEocd, FileAt, DirectoryEntryAt, NoneBefore, NextFile, EndingAt, LE16, LE32;
    EndRecordRead(src, b, entries, ending);
    if entries != [] {
      FirstRead(src, b, entries, ending);
    }
  }

  lemma FirstRead(src: bytes, b: nat, entries: seq<Entry>, ending: Ending)
    requires IsArchive(src, b, entries, ending) && entries != []
    ensures var cd, end := b + DirectoryOffset(entries, ending), b + DirectoryEnd(entries, ending);
            b <= |src| && end <= |src| && NextFile(src, b, cd, end).Some?
  {
    hide FileAt, DirectoryEntryAt, NextFile, LE16, LE32, LE64, ShortEndAt, Defers, EndFieldsAt, RecordAt, LocatorIs;
    EntryRead(src, b, entries[0], entries[0].gap, b + DirectoryOffset(entries, ending), b + DirectoryEnd(entries, ending));
  }

  /** Every archive with its files in order of occurrence, with or without Zip64 end records and
      whatever comes before, between and after its sections, is opened if no earlier place can be
      taken for the record by which its beginning is searched. It gives one header, one data token
      and, if it has one, one descriptor per file, the directory and the end records: all sections
      in order, the bytes between them, and no corruption. Its end record is the one chosen exactly
      when it is tried and none tried before it opens, and always when it ends the source. */
  lemma ArchiveLexed(src: bytes, b: nat, entries: seq<Entry>, ending: Ending)
    requires IsArchive(src, b, entries, ending) && IsAnchored(b, entries, ending)
    requires NoneBefore(src, b, entries, ending)
    ensures var eocd := b + EndOffset(entries, ending);
            && ParseEocd(src, eocd).Some?
            && StreamOf(src, eocd) == Stream(Filled(0, ArchiveTokens(b, entries, ending), |src|), true)
            && (Chosen(src, eocd) <==> Candidate(|src|, eocd) && forall e :: TriedBefore(|src|, e, eocd) ==> !Opens(src, e))
            && (eocd + 22 == |src| ==> Chosen(src, eocd))
  {
    hide ParseEocd, PlanOf, LayoutOk, IsArchive, IsAnchored, EndOffset, AnchorOffset, NoneBefore, ArchiveTokens, ArchiveLayout, Opens, Run,
      Chosen, Candidate, TriedBefore, Filled, InOrder, StreamOf, HasEnd, Known;
    EndRecordRead(src, b, entries, ending);
    ArchiveOpens(src, b, entries, ending);
    var eocd := b + EndOffset(entries, ending);
    ArchivePlan(src, b, entries, ending);
    ArchiveInOrder(b, entries, ending);
    ReachesEndExactly(src, eocd);
    ChosenExactly(src, eocd);
    if eocd + 22 == |src| {
      LastIsFirst(src, eocd);
    }
  }

  lemma LastIsFirst(src: bytes, eocd: nat)
    requires eocd + 22 == |src|
    ensures Candidate(|src|, eocd) && forall e :: !TriedBefore(|src|, e, eocd)
  {
  }

  /** The beginning of a Zip64 archive is found exactly when no earlier place can be taken for its
      record and a directory entry that leads to a file is found at the offset of its directory, even
      if the archive has no files and so no entry there. */
  lemma Zip64BeginsExactly(src: bytes, b: nat, entries: seq<Entry>, ending: Ending)
    requires IsArchive(src, b, entries, ending) && ending.Zip64?
    ensures var cd, limit := b + DirectoryOffset(entries, ending), b + LocatorOffset(entries, ending);
            && limit <= |src| && (entries != [] ==> EntryLeads(src, b, cd))
            && (Beginning(src, 0, Eocd64Record, RecordOffset(entries, ending), 56, limit) == Some(b)
                <==> NoneBefore(src, b, entries, ending) && EntryLeads(src, b, cd))
  {
    hide LE16, LE32, LE64, EntriesAt, EntryLeads, DirectoryLength, FilesLength, Defers, EndFieldsAt, LocatorIs, Beginning;
    var offset, limit := RecordOffset(entries, ending), b + LocatorOffset(entries, ending);
    if entries != [] {
      FirstEntry(src, b, entries, ending);
    }
    BeginningExactly(src, Eocd64Record, b, offset, 56, limit);
    var e := ArchiveFields(entries, ending);
    RecordFields(src, b + offset, ending.recordSize, entries, DirectoryOffset(entries, ending), |src|);
    assert RecordLeads(src, b, b + offset) <==> EntryLeads(src, b, b + e.cdOffset);
    hide RecordLeads, Record64Is, RecordAt;
    assert AnchorKind(ending) == Eocd64Record && AnchorOffset(entries, ending) == offset;
    assert Leads(src, Eocd64Record, offset, b + offset) <==> EntryLeads(src, b, b + e.cdOffset);
    assert b + offset + 56 <= limit <= |src|;
  }

  /** A Zip64 archive that is nothing but its end records is not read. */
  lemma EmptyZip64Rejected(src: bytes, ending: Ending)
    requires IsArchive(src, 0, [], ending) && ending.Zip64? && ending.gap == ending.recordGap == ending.locatorGap == 0
    requires ending.recordSize == 56
    ensures EndOffset([], ending) == 76 && ParseEocd(src, 76).None?
  {
    hide LE16, LE32, LE64;
    Zip64BeginsExactly(src, 0, [], ending);
    assert !EntryLeads(src, 0, 0);
    hide EntryLeads, ParseEocd;
    assert Mark(src, 76, 0x50, 0x4b, 5, 6) && Defers(EndFieldsAt(src, 76));
    if ParseEocd(src, 76).Some? {
      var l := ParseEocd(src, 76).value;
      ParsedExactly(src, 76, l);
      NoRecordThere(src, l);
    }
  }

  /** Before the locator at 56 there is room for a record only at 0. */
  lemma NoRecordThere(src: bytes, l: Layout)
    requires |src| >= 98 && Defers(EndFieldsAt(src, 76)) && LocatorIs(src, 56, 0)
    requires Record64Is(src, 0, |src|, Eocd(0, 0, 0, 0, 0, 0), 44) && !EntryLeads(src, 0, 0)
    ensures !ShortIs(src, 76, l) && !exists e, offset :: LongIs(src, 76, l, e, offset)
  {
    hide LE16, LE32, LE64, EntryLeads, Defers, EndFieldsAt;
    assert !RecordLeads(src, 0, 0);
    forall e, offset ensures !LongIs(src, 76, l, e, offset) {
    }
  }

  // ---------------------------------------------------------------- what is opened and what is read, for any source

  /** The entry at p, before the end of the directory, and the file that it leads to. */
  ghost predicate FileOfEntry(src: bytes, b: nat, p: nat, end: nat, c: Cdfh, f: FileState) {
    EntryIs(src, p, end, c) && FileIs(src, b + c.lfhOffset, c.compressedSize, f)
  }

  lemma NextFileExactly(src: bytes, b: nat, p: nat, end: nat)
    requires b <= |src| && p <= end <= |src|
    ensures NextFile(src, b, p, end).Some? <==> exists c, f :: FileOfEntry(src, b, p, end, c, f)
    ensures forall c, f :: FileOfEntry(src, b, p, end, c, f) ==> NextFile(src, b, p, end) == Some((f, p + c.length))
  {
    hide EntryIs, FileIs, ReadCdfh, ReadFile;
    forall c, f | FileOfEntry(src, b, p, end, c, f) ensures NextFile(src, b, p, end) == Some((f, p + c.length)) {
      EntryExactly(src, p, end, c);
      FileExactly(src, b, c, f);
    }
    if NextFile(src, b, p, end).Some? {
      var c := ReadCdfh(src, p, end).value;
      var f := ReadFile(src, b, c).value;
      EntryExactly(src, p, end, c);
      FileExactly(src, b, c, f);
      assert FileOfEntry(src, b, p, end, c, f);
    }
  }

  /** An end record opens exactly when it is accepted and, if there are files, the first directory
      entry and its file are readable. */
  lemma OpensExactly(src: bytes, eocd: nat)
    ensures Opens(src, eocd)
            <==> ParseEocd(src, eocd).Some?
                 && var l := ParseEocd(src, eocd).value;
                    l.count > 0 ==> exists c, f :: FileOfEntry(src, l.zipBegin, l.cdBegin, l.cdEnd, c, f)
  {
    hide ParseEocd, NextFile, FileOfEntry;
    if ParseEocd(src, eocd).Some? {
      var l := ParseEocd(src, eocd).value;
      NextFileExactly(src, l.zipBegin, l.cdBegin, l.cdEnd);
    }
  }

  /** Readable entries with readable files, one after the other, that end exactly at the end. */
  ghost predicate EntriesFill(src: bytes, b: nat, p: nat, end: nat, files: seq<FileState>)
    decreases |files|
  {
    if files == [] then p == end
    else exists c :: FileOfEntry(src, b, p, end, c, files[0]) && EntriesFill(src, b, p + c.length, end, files[1..])
  }

  lemma {:induction false} FilesExactly(src: bytes, b: nat, p: nat, end: nat, n: nat, files: seq<FileState>)
    requires b <= |src| && p <= end <= |src|
    ensures ReadFiles(src, b, p, end, n) == Files(files, true) <==> |files| == n && EntriesFill(src, b, p, end, files)
    decreases n
  {
    hide NextFile, FileOfEntry;
    NextFileExactly(src, b, p, end);
    if n > 0 && NextFile(src, b, p, end).Some? {
      var (f, next) := NextFile(src, b, p, end).value;
      var rest := ReadFiles(src, b, next, end, n - 1);
      if files != [] {
        FilesExactly(src, b, next, end, n - 1, files[1..]);
        assert files == [files[0]] + files[1..];
      }
    }
  }

  /** The directory of a source is read exactly when as many entries as the end records say fill it,
      each with a readable file. */
  lemma DirectoryReadExactly(src: bytes, eocd: nat)
    requires ParseEocd(src, eocd).Some?
    ensures var l := ParseEocd(src, eocd).value;
            DirectoryRead(src, eocd) <==> exists files :: |files| == l.count && EntriesFill(src, l.zipBegin, l.cdBegin, l.cdEnd, files)
  {
    hide ParseEocd, EntriesFill, ReadFiles;
    var l := ParseEocd(src, eocd).value;
    forall files ensures ReadFiles(src, l.zipBegin, l.cdBegin, l.cdEnd, l.count) == Files(files, true)
                         <==> |files| == l.count && EntriesFill(src, l.zipBegin, l.cdBegin, l.cdEnd, files) {
      FilesExactly(src, l.zipBegin, l.cdBegin, l.cdEnd, l.count, files);
    }
    var r := ReadFiles(src, l.zipBegin, l.cdBegin, l.cdEnd, l.count);
    assert r.complete ==> r == Files(r.list, true);
  }
}
