/** The records of a zip file said on their bytes, at the offsets of APPNOTE.TXT section 4.3, and that the
    readers accept exactly these bytes. */
module ZipRecords {
  import opened Bytes
  import opened ZipFormat

  /** The four bytes at p. */
  predicate Mark(src: bytes, p: nat, a: byte, b: byte, c: byte, d: byte) {
    p + 4 <= |src| && src[p] == a && src[p + 1] == b && src[p + 2] == c && src[p + 3] == d
  }

  lemma MarkValue(src: bytes, p: nat, c: byte, d: byte)
    requires p + 4 <= |src|
    ensures Mark(src, p, 0x50, 0x4b, c, d) <==> LE32(src, p) == 0x4b50 + 0x1_0000 * c + 0x100_0000 * d
  {
    LittleEndian32(src, p);
  }

  function Pair(low: byte, high: byte): nat {
    low as int + 0x100 * high as int
  }

  // ---------------------------------------------------------------- extra fields, section 4.5

  datatype Extra = Extra(id: nat, size: nat)

  /** These extra fields follow each other from p on: an id, a size and as many bytes. */
  predicate ExtrasAt(src: bytes, p: nat, fields: seq<Extra>)
    decreases |fields|
  {
    fields == [] ||
    var f := fields[0];
    && p + 4 + f.size <= |src|
    && Pair(src[p], src[p + 1]) == f.id && Pair(src[p + 2], src[p + 3]) == f.size
    && ExtrasAt(src, p + 4 + f.size, fields[1..])
  }

  function ExtrasLength(fields: seq<Extra>): nat {
    if fields == [] then 0 else 4 + fields[0].size + ExtrasLength(fields[1..])
  }

  /** After some fields with other ids comes the first one with id 1, with its content at q. */
  ghost predicate Zip64After(src: bytes, p: nat, end: nat, q: nat, size: nat, fields: seq<Extra>) {
    && ExtrasAt(src, p, fields) && (forall f :: f in fields ==> f.id != 1)
    && p + ExtrasLength(fields) + 4 == q && q + size <= end <= |src|
    && src[q - 4] == 1 && src[q - 3] == 0 && Pair(src[q - 2], src[q - 1]) == size
  }

  ghost predicate Zip64At(src: bytes, p: nat, end: nat, q: nat, size: nat) {
    exists fields :: Zip64After(src, p, end, q, size, fields)
  }

  ghost predicate HasZip64(src: bytes, p: nat, end: nat) {
    exists q: nat, size: nat :: Zip64At(src, p, end, q, size)
  }

  /** The scan finds exactly this entry. */
  lemma Zip64Exactly(src: bytes, p: nat, end: nat, q: nat, size: nat)
    requires p <= end <= |src|
    ensures FindZip64(src, p, end) == Some((q, size)) <==> Zip64At(src, p, end, q, size)
  {
    if FindZip64(src, p, end) == Some((q, size)) {
      var fields := FieldsBefore(src, p, end);
    }
    if Zip64At(src, p, end, q, size) {
      var fields :| Zip64After(src, p, end, q, size, fields);
      FoundAfter(src, p, end, q, size, fields);
    }
  }

  lemma HasZip64Exactly(src: bytes, p: nat, end: nat)
    requires p <= end <= |src|
    ensures FindZip64(src, p, end).Some? <==> HasZip64(src, p, end)
  {
    if FindZip64(src, p, end).Some? {
      var (q, size) := FindZip64(src, p, end).value;
      Zip64Exactly(src, p, end, q, size);
    }
    if HasZip64(src, p, end) {
      var q: nat, size: nat :| Zip64At(src, p, end, q, size);
      Zip64Exactly(src, p, end, q, size);
    }
  }

  lemma {:induction false} FieldsBefore(src: bytes, p: nat, end: nat) returns (fields: seq<Extra>)
    requires p <= end <= |src| && FindZip64(src, p, end).Some?
    ensures var (q, size) := FindZip64(src, p, end).value; Zip64After(src, p, end, q, size, fields)
    decreases end - p
  {
    var id, size := LE16(src, p), LE16(src, p + 2);
    if id == 1 {
      fields := [];
    } else {
      var rest := FieldsBefore(src, p + 4 + size, end);
      fields := [Extra(id, size)] + rest;
      assert fields[1..] == rest;
    }
  }

  lemma {:induction false} FoundAfter(src: bytes, p: nat, end: nat, q: nat, size: nat, fields: seq<Extra>)
    requires p <= end <= |src| && Zip64After(src, p, end, q, size, fields)
    ensures FindZip64(src, p, end) == Some((q, size))
    decreases |fields|
  {
    if fields != [] {
      var f := fields[0];
      assert f in fields;
      FoundAfter(src, p + 4 + f.size, end, q, size, fields[1..]);
    }
  }

  // ---------------------------------------------------------------- directory entries, section 4.3.12

  /** A 32-bit field, or when it is all ones the 8 bytes at an offset in the Zip64 entry. */
  ghost predicate FieldIs(src: bytes, field: nat, extra: nat, end: nat, offset: nat, value: nat)
    requires field + 4 <= |src|
  {
    if LE32(src, field) == 0xFFFF_FFFF
    then exists q: nat, size: nat :: Zip64At(src, extra, end, q, size) && offset + 8 <= size && LE64(src, q + offset) == value
    else value == LE32(src, field)
  }

  lemma FieldExactly(src: bytes, field: nat, extra: nat, end: nat, offset: nat, value: nat)
    requires field + 4 <= |src| && extra <= end <= |src|
    ensures FieldOrZip64(src, field, extra, end, offset) == Some(value) <==> FieldIs(src, field, extra, end, offset, value)
  {
    hide LE32, LE64, Zip64At;
    if LE32(src, field) == 0xFFFF_FFFF {
      match FindZip64(src, extra, end) {
        case None =>
          forall q: nat, size: nat ensures !Zip64At(src, extra, end, q, size) {
            Zip64Exactly(src, extra, end, q, size);
          }
        case Some((q, size)) =>
          forall q': nat, size': nat ensures Zip64At(src, extra, end, q', size') <==> q == q' && size == size' {
            Zip64Exactly(src, extra, end, q', size');
          }
          assert Zip64At(src, extra, end, q, size);
      }
    }
  }

  /** A directory entry at p for a header at an offset and data of a size. */
  ghost predicate EntryIs(src: bytes, p: nat, end: nat, c: Cdfh) {
    && p + 46 <= end <= |src| && Mark(src, p, 0x50, 0x4b, 1, 2)
    && var extra := p + 46 + LE16(src, p + 28);
       var extraEnd := extra + LE16(src, p + 30);
       && c.length == 46 + LE16(src, p + 28) + LE16(src, p + 30) + LE16(src, p + 32) && p + c.length <= end
       && FieldIs(src, p + 42, extra, extraEnd, 16, c.lfhOffset)
       && FieldIs(src, p + 20, extra, extraEnd, 0, c.compressedSize)
  }

  lemma EntryExactly(src: bytes, p: nat, end: nat, c: Cdfh)
    requires p <= end <= |src|
    ensures ReadCdfh(src, p, end) == Some(c) <==> EntryIs(src, p, end, c)
  {
    hide LE16, LE32, FieldOrZip64, FieldIs;
    if p + 46 <= end {
      MarkValue(src, p, 1, 2);
      var extra := p + 46 + LE16(src, p + 28);
      var extraEnd := extra + LE16(src, p + 30);
      if extraEnd + LE16(src, p + 32) <= end {
        FieldExactly(src, p + 42, extra, extraEnd, 16, c.lfhOffset);
        FieldExactly(src, p + 20, extra, extraEnd, 0, c.compressedSize);
      }
    }
  }

  // ---------------------------------------------------------------- local files, sections 4.3.7 and 4.3.9

  /** The sections of the file whose local header is at p and whose data has a size. Bit 3 of the
      flags says that a descriptor follows the data, with or without a signature, and with 8-byte
      sizes when the header has a Zip64 entry. */
  ghost predicate FileIs(src: bytes, p: nat, size: nat, f: FileState) {
    && p + 30 <= |src| && Mark(src, p, 0x50, 0x4b, 3, 4)
    && var name, extra := LE16(src, p + 26), LE16(src, p + 28);
       var data := p + 30 + name + extra;
       var dd := data + size;
       && dd <= |src|
       && f.lfh == Some(p) && f.lfhSize == 30 + name + extra
       && f.data == Some(data) && f.dataSize == size
       && f.compressionMethod == LE16(src, p + 8) && f.filename == Some(p + 30) && f.filenameSize == name
       && if src[p + 6] % 16 >= 8 then
            && f.dd == Some(dd) && dd + 4 <= |src| && dd + f.ddSize <= |src|
            && f.ddSize == (if Mark(src, dd, 0x50, 0x4b, 7, 8) then 16 else 12) + (if HasZip64(src, p + 30 + name, data) then 8 else 0)
          else f.dd == None && f.ddSize == 0
  }

  lemma FileExactly(src: bytes, b: nat, c: Cdfh, f: FileState)
    requires b <= |src|
    ensures ReadFile(src, b, c) == Some(f) <==> FileIs(src, b + c.lfhOffset, c.compressedSize, f)
  {
    hide LE32, FindZip64, HasZip64;
    var p := b + c.lfhOffset;
    if p + 30 <= |src| {
      MarkValue(src, p, 3, 4);
      Bit3(src, p + 6);
      hide LE16;
      var data := p + 30 + LE16(src, p + 26) + LE16(src, p + 28);
      var dd := data + c.compressedSize;
      if data <= |src| {
        HasZip64Exactly(src, p + 30 + LE16(src, p + 26), data);
      }
      if dd + 4 <= |src| {
        MarkValue(src, dd, 7, 8);
      }
    }
  }

  lemma Bit3(src: bytes, p: nat)
    requires p + 2 <= |src|
    ensures HasDescriptor(LE16(src, p)) <==> src[p] % 16 >= 8
  {
  }

  // ---------------------------------------------------------------- end records, sections 4.3.14 to 4.3.16

  /** The Zip64 end record at p, of size + 12 bytes, with its fields. */
  predicate Record64Is(src: bytes, p: nat, end: nat, e: Eocd, size: nat) {
    && p + 56 <= end <= |src| && Mark(src, p, 0x50, 0x4b, 6, 6)
    && LE64(src, p + 4) == size && 44 <= size && p + 12 + size <= end
    && e == Eocd(LE32(src, p + 16), LE32(src, p + 20), LE64(src, p + 24), LE64(src, p + 32), LE64(src, p + 40), LE64(src, p + 48))
  }

  lemma Record64Exactly(src: bytes, p: nat, end: nat, e: Eocd, size: nat)
    requires p <= end <= |src|
    ensures ReadEocd64(src, p, end) == Some((e, size)) <==> Record64Is(src, p, end, e, size)
  {
    hide LE32, LE64;
    if p + 56 <= end {
      MarkValue(src, p, 6, 6);
    }
  }

  predicate LocatorIs(src: bytes, p: nat, offset: nat) {
    && p + 20 <= |src| && Mark(src, p, 0x50, 0x4b, 6, 7)
    && LE32(src, p + 4) == 0 && LE64(src, p + 8) == offset && LE32(src, p + 16) == 1
  }

  /** A directory entry at p whose header, from the beginning b, is a local header. */
  ghost predicate EntryLeads(src: bytes, b: nat, p: nat) {
    b <= |src| && exists c :: EntryIs(src, p, |src|, c) && b + c.lfhOffset + 30 <= |src| && Mark(src, b + c.lfhOffset, 0x50, 0x4b, 3, 4)
  }

  lemma EntryLeadsExactly(src: bytes, b: nat, p: nat)
    requires b <= |src| && p <= |src|
    ensures ValidDirectory(src, b, p) <==> EntryLeads(src, b, p)
  {
    hide EntryIs, LE32, ReadCdfh;
    forall c ensures ReadCdfh(src, p, |src|) == Some(c) <==> EntryIs(src, p, |src|, c) {
      EntryExactly(src, p, |src|, c);
    }
    forall c: Cdfh | b + c.lfhOffset + 30 <= |src| ensures IsLocalHeader(src, b, c.lfhOffset) <==> Mark(src, b + c.lfhOffset, 0x50, 0x4b, 3, 4) {
      MarkValue(src, b + c.lfhOffset, 3, 4);
    }
  }

  /** A Zip64 end record at p whose directory, from the beginning b, leads to a file. */
  ghost predicate RecordLeads(src: bytes, b: nat, p: nat) {
    exists e: Eocd, size: nat :: Record64Is(src, p, |src|, e, size) && b + e.cdOffset <= |src| && EntryLeads(src, b, b + e.cdOffset)
  }

  lemma RecordLeadsExactly(src: bytes, b: nat, p: nat)
    requires b <= p <= |src|
    ensures ValidEocd64(src, b, p) <==> RecordLeads(src, b, p)
  {
    hide Record64Is, ReadEocd64, EntryLeads, ValidDirectory;
    forall e: Eocd, size: nat ensures ReadEocd64(src, p, |src|) == Some((e, size)) <==> Record64Is(src, p, |src|, e, size) {
      Record64Exactly(src, p, |src|, e, size);
    }
    forall e: Eocd | b + e.cdOffset <= |src| ensures ValidDirectory(src, b, b + e.cdOffset) <==> EntryLeads(src, b, b + e.cdOffset) {
      EntryLeadsExactly(src, b, b + e.cdOffset);
    }
  }

  /** The place p can be taken for the record by which the beginning is searched: from the beginning
      that its offset implies, it leads to a file. */
  ghost predicate Leads(src: bytes, kind: RecordKind, offset: nat, p: nat)
    requires offset <= p
  {
    if kind == DirectoryRecord then EntryLeads(src, p - offset, p) else RecordLeads(src, p - offset, p)
  }

  lemma IsRecordExactly(src: bytes, kind: RecordKind, offset: nat, p: nat)
    requires offset <= p && p + 4 <= |src|
    ensures IsRecord(src, kind, offset, p) <==> Leads(src, kind, offset, p)
  {
    hide LE32, ValidDirectory, ValidEocd64, LE64;
    EntryLeadsExactly(src, p - offset, p);
    RecordLeadsExactly(src, p - offset, p);
    MarkValue(src, p, 1, 2);
    MarkValue(src, p, 6, 6);
  }

  /** The record of at least a size before a limit by which the beginning b is found: no earlier place
      can be taken for it. */
  ghost predicate BeginsAt(src: bytes, kind: RecordKind, b: nat, offset: nat, size: nat, limit: nat) {
    && size >= 4 && b + offset + size <= limit <= |src|
    && Leads(src, kind, offset, b + offset)
    && forall q :: offset <= q < b + offset ==> !Leads(src, kind, offset, q)
  }

  lemma BeginningExactly(src: bytes, kind: RecordKind, b: nat, offset: nat, size: nat, limit: nat)
    requires limit <= |src|
    ensures Beginning(src, 0, kind, offset, size, limit) == Some(b) <==> BeginsAt(src, kind, b, offset, size, limit)
  {
    hide IsRecord, Leads;
    if size >= 4 && offset + size <= limit {
      var max := limit - size;
      var first := FirstRecord(src, kind, offset, offset, max);
      forall q | offset <= q <= max ensures IsRecord(src, kind, offset, q) <==> Leads(src, kind, offset, q) {
        IsRecordExactly(src, kind, offset, q);
      }
    }
  }

  /** The central directory that end records describe, and that of the layout. */
  predicate DirectoryIs(src: bytes, e: Eocd, l: Layout) {
    && e.disk == 0 && e.cdDisk == 0 && l.count == e.count
    && l.cdBegin == l.zipBegin + e.cdOffset && l.cdEnd == l.cdBegin + e.cdSize
    && l.cdEnd <= |src| && l.zipBegin + 76 * e.count <= |src|
  }

  /** The end record at eocd with its comment. */
  predicate EndIs(src: bytes, eocd: nat, l: Layout) {
    && eocd + 22 <= |src| && Mark(src, eocd, 0x50, 0x4b, 5, 6)
    && l.eocd == eocd && l.eocdSize == 22 + LE16(src, eocd + 20) && eocd + l.eocdSize <= |src|
  }

  /** The fields of the end record as they stand. */
  function EndFieldsAt(src: bytes, eocd: nat): Eocd
    requires eocd + 22 <= |src|
  {
    Eocd(LE16(src, eocd + 4), LE16(src, eocd + 6), LE16(src, eocd + 8), LE16(src, eocd + 10), LE32(src, eocd + 12), LE32(src, eocd + 16))
  }

  /** Section 4.4.1.4: some field is all ones, so that the Zip64 end record holds the values. */
  predicate Defers(e: Eocd) {
    e.disk == 0xFFFF || e.cdDisk == 0xFFFF || e.countOnDisk == 0xFFFF || e.count == 0xFFFF
    || e.cdSize == 0xFFFF_FFFF || e.cdOffset == 0xFFFF_FFFF
  }

  ghost predicate ShortIs(src: bytes, eocd: nat, l: Layout) {
    && EndIs(src, eocd, l)
    && var e := EndFieldsAt(src, eocd);
       && !Defers(e) && DirectoryIs(src, e, l)
       && l.record == None && l.recordSize == 0 && l.locator == None
       && if e.count == 0 then l.zipBegin == 0 else BeginsAt(src, DirectoryRecord, l.zipBegin, e.cdOffset, e.cdSize, eocd)
  }

  ghost predicate LongIs(src: bytes, eocd: nat, l: Layout, e: Eocd, offset: nat) {
    && EndIs(src, eocd, l) && Defers(EndFieldsAt(src, eocd)) && DirectoryIs(src, e, l)
    && 20 <= eocd && l.locator == Some(eocd - 20) && LocatorIs(src, eocd - 20, offset)
    && l.record == Some(l.zipBegin + offset) && 12 <= l.recordSize
    && Record64Is(src, l.zipBegin + offset, eocd - 20, e, l.recordSize - 12)
    && BeginsAt(src, Eocd64Record, l.zipBegin, offset, 56, eocd - 20)
  }

  lemma EndFieldsExactly(src: bytes, eocd: nat)
    requires eocd + 22 <= |src|
    ensures NeedZip64(EocdFields(src, eocd)) <==> Defers(EndFieldsAt(src, eocd))
    ensures !Defers(EndFieldsAt(src, eocd)) ==> EocdFields(src, eocd) == EndFieldsAt(src, eocd)
    ensures IsEocd(src, eocd) <==> Mark(src, eocd, 0x50, 0x4b, 5, 6)
  {
    hide LE16, LE32;
    MarkValue(src, eocd, 5, 6);
  }

  lemma FitsExactly(src: bytes, b: nat, e: Eocd)
    requires b <= |src|
    ensures DirectoryFits(src, b, e)
            <==> e.disk == 0 && e.cdDisk == 0 && b + e.cdOffset + e.cdSize <= |src| && b + 76 * e.count <= |src|
  {
  }

  /** The end record is accepted with a layout exactly when the bytes say so. */
  lemma ParsedExactly(src: bytes, eocd: nat, l: Layout)
    ensures ParseEocd(src, eocd) == Some(l) <==> ShortIs(src, eocd, l) || exists e, offset :: LongIs(src, eocd, l, e, offset)
  {
    hide LE16, LE32, LE64, Beginning, BeginsAt, DirectoryFits, EocdFields, EndFieldsAt, IsEocd, NeedZip64, Defers, FindZip64End, LocatorIs, Record64Is, LayoutOk;
    if eocd + 22 <= |src| {
      EndFieldsExactly(src, eocd);
      if Defers(EndFieldsAt(src, eocd)) {
        LongExactly(src, eocd, l);
      } else {
        ShortExactly(src, eocd, l);
      }
    }
  }

  lemma ShortExactly(src: bytes, eocd: nat, l: Layout)
    requires eocd + 22 <= |src| && !Defers(EndFieldsAt(src, eocd))
    ensures ParseEocd(src, eocd) == Some(l) <==> ShortIs(src, eocd, l)
  {
    hide LE16, LE32, LE64, Beginning, BeginsAt, DirectoryFits, EocdFields, EndFieldsAt, IsEocd, NeedZip64, Defers, FindZip64End, LayoutOk;
    EndFieldsExactly(src, eocd);
    var e := EndFieldsAt(src, eocd);
    forall b: nat ensures Beginning(src, 0, DirectoryRecord, e.cdOffset, e.cdSize, eocd) == Some(b)
                          <==> BeginsAt(src, DirectoryRecord, b, e.cdOffset, e.cdSize, eocd) {
      BeginningExactly(src, DirectoryRecord, b, e.cdOffset, e.cdSize, eocd);
    }
    forall b: nat | b <= |src| ensures DirectoryFits(src, b, e)
            <==> e.disk == 0 && e.cdDisk == 0 && b + e.cdOffset + e.cdSize <= |src| && b + 76 * e.count <= |src| {
      FitsExactly(src, b, e);
    }
  }

  lemma LongExactly(src: bytes, eocd: nat, l: Layout)
    requires eocd + 22 <= |src| && Defers(EndFieldsAt(src, eocd))
    ensures ParseEocd(src, eocd) == Some(l) <==> exists e, offset :: LongIs(src, eocd, l, e, offset)
  {
    hide LE16, LE32, LE64, DirectoryFits, EocdFields, EndFieldsAt, IsEocd, NeedZip64, Defers, FindZip64End, LayoutOk, Zip64Is;
    EndFieldsExactly(src, eocd);
    forall z ensures FindZip64End(src, 0, eocd) == Some(z) <==> Zip64Is(src, eocd, z) {
      Zip64EndExactly(src, eocd, z);
    }
    forall b: nat, e: Eocd | b <= |src| ensures DirectoryFits(src, b, e)
            <==> e.disk == 0 && e.cdDisk == 0 && b + e.cdOffset + e.cdSize <= |src| && b + 76 * e.count <= |src| {
      FitsExactly(src, b, e);
    }
    if ParseEocd(src, eocd) == Some(l) {
      var z := FindZip64End(src, 0, eocd).value;
      assert Zip64Is(src, eocd, z);
      LongFrom(src, eocd, l, z);
    }
    if e, offset :| LongIs(src, eocd, l, e, offset) {
      assert Zip64Is(src, eocd, Zip64End(l.zipBegin, e, l.zipBegin + offset, l.recordSize, eocd - 20)) by {
        LongGives(src, eocd, l, e, offset);
      }
    }
  }

  /** The Zip64 end record and the locator before the end record at eocd. */
  ghost predicate Zip64Is(src: bytes, eocd: nat, z: Zip64End) {
    && 20 <= eocd <= |src| && z.locator == eocd - 20 && z.zipBegin <= z.record && 12 <= z.recordSize
    && LocatorIs(src, z.locator, z.record - z.zipBegin)
    && Record64Is(src, z.record, z.locator, z.fields, z.recordSize - 12)
    && BeginsAt(src, Eocd64Record, z.zipBegin, z.record - z.zipBegin, 56, z.locator)
  }

  lemma LocatorExactly(src: bytes, p: nat, offset: nat)
    requires p + 20 <= |src|
    ensures SingleDiskLocator(src, p) && LE64(src, p + 8) == offset <==> LocatorIs(src, p, offset)
  {
    hide LE32, LE64;
    MarkValue(src, p, 6, 7);
  }

  lemma Zip64EndExactly(src: bytes, eocd: nat, z: Zip64End)
    requires eocd <= |src|
    ensures FindZip64End(src, 0, eocd) == Some(z) <==> Zip64Is(src, eocd, z)
  {
    hide LE32, LE64, SingleDiskLocator, LocatorIs, Beginning, BeginsAt, ReadEocd64, Record64Is;
    if 20 <= eocd {
      var p := eocd - 20;
      var offset := LE64(src, p + 8);
      LocatorExactly(src, p, offset);
      if z.zipBegin <= z.record {
        LocatorExactly(src, p, z.record - z.zipBegin);
        BeginningExactly(src, Eocd64Record, z.zipBegin, z.record - z.zipBegin, 56, p);
        BeginsBounds(src, z.zipBegin, z.record - z.zipBegin, p);
        if 12 <= z.recordSize && z.record <= p {
          Record64Exactly(src, z.record, p, z.fields, z.recordSize - 12);
        }
      }
    }
  }

  lemma BeginsBounds(src: bytes, b: nat, offset: nat, limit: nat)
    ensures BeginsAt(src, Eocd64Record, b, offset, 56, limit) ==> b + offset + 56 <= limit <= |src|
  {
  }

  lemma LongFrom(src: bytes, eocd: nat, l: Layout, z: Zip64End)
    requires Zip64Is(src, eocd, z) && EndIs(src, eocd, l) && Defers(EndFieldsAt(src, eocd)) && DirectoryIs(src, z.fields, l)
    requires l.zipBegin == z.zipBegin && l.record == Some(z.record) && l.recordSize == z.recordSize && l.locator == Some(z.locator)
    ensures exists e, offset :: LongIs(src, eocd, l, e, offset)
  {
    hide LE16, LE32, LE64, EndIs, Defers, EndFieldsAt, DirectoryIs, LocatorIs, Record64Is, BeginsAt;
    assert LongIs(src, eocd, l, z.fields, z.record - z.zipBegin);
  }

  lemma LongGives(src: bytes, eocd: nat, l: Layout, e: Eocd, offset: nat)
    requires LongIs(src, eocd, l, e, offset)
    ensures Zip64Is(src, eocd, Zip64End(l.zipBegin, e, l.zipBegin + offset, l.recordSize, eocd - 20))
  {
    hide LE16, LE32, LE64, Defers, EndFieldsAt, DirectoryIs, LocatorIs, Record64Is, BeginsAt;
  }
}
