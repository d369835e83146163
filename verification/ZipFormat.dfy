/** The records of a zip file, as custom_parsers/zip_lexer.c reads them.
    A pointer is an offset into the source; a reader that reports corruption returns None. */
module ZipFormat {
  import opened Bytes

  const NEG1 := 0xFFFF_FFFF_FFFF_FFFF
  const ZIP64_INFO_ID := 1
  const MIN_LFH := 30
  const MIN_CDFH := 46
  const MIN_EOCD := 22
  const MIN_EOCD64 := 56
  const LOCATOR_SIZE := 20

  const LFH_SIGNATURE := 0x04034b50
  const CDFH_SIGNATURE := 0x02014b50
  const EOCD_SIGNATURE := 0x06054b50
  const EOCD64_SIGNATURE := 0x06064b50
  const LOCATOR_SIGNATURE := 0x07064b50
  const DESCRIPTOR_SIGNATURE := 0x08074b50

  datatype Eocd = Eocd(disk: nat, cdDisk: nat, countOnDisk: nat, count: nat, cdSize: nat, cdOffset: nat)

  function Read16OrNeg1(src: bytes, p: nat): (r: nat)
    requires p + 2 <= |src|
  {
    if LE16(src, p) == 0xFFFF then NEG1 else LE16(src, p)
  }

  function Read32OrNeg1(src: bytes, p: nat): (r: nat)
    requires p + 4 <= |src|
  {
    if LE32(src, p) == 0xFFFF_FFFF then NEG1 else LE32(src, p)
  }

  predicate IsEocd(src: bytes, p: nat)
    requires p + 4 <= |src|
  {
    LE32(src, p) == EOCD_SIGNATURE
  }

  function EocdFields(src: bytes, p: nat): (e: Eocd)
    requires p + MIN_EOCD <= |src|
  {
    Eocd(Read16OrNeg1(src, p + 4), Read16OrNeg1(src, p + 6), Read16OrNeg1(src, p + 8),
         Read16OrNeg1(src, p + 10), Read32OrNeg1(src, p + 12), Read32OrNeg1(src, p + 16))
  }

  predicate NeedZip64(e: Eocd) {
    NEG1 in [e.disk, e.cdDisk, e.countOnDisk, e.count, e.cdSize, e.cdOffset]
  }

  // ---------------------------------------------------------------- extra fields

  /** The payload (position, size) of the first Zip64 entry of the extra fields in [p, end),
      or None when a malformed entry or the end comes first. */
  function FindZip64(src: bytes, p: nat, end: nat): (r: Option<(nat, nat)>)
    requires p <= end <= |src|
    ensures r.Some? ==> p + 4 <= r.value.0 && r.value.0 + r.value.1 <= end
    ensures r.Some? ==> LE16(src, r.value.0 - 4) == ZIP64_INFO_ID && LE16(src, r.value.0 - 2) == r.value.1
    decreases end - p
  {
    if end - p < 4 then None
    else
      var size := LE16(src, p + 2);
      if end - (p + 4) < size then None
      else if LE16(src, p) == ZIP64_INFO_ID then Some((p + 4, size))
      else FindZip64(src, p + 4 + size, end)
  }

  method HasZip64Info(src: bytes, extra: nat, length: nat) returns (r: bool)
    requires extra + length <= |src|
    ensures r <==> FindZip64(src, extra, extra + length).Some?
  {
    var p, end := extra, extra + length;
    while p < end
      invariant extra <= p <= end
      invariant FindZip64(src, extra, end) == FindZip64(src, p, end)
    {
      if end - p < 4 {
        return false;
      }
      var id, size := LE16(src, p), LE16(src, p + 2);
      p := p + 4;
      if end - p < size {
        return false;
      }
      if id == ZIP64_INFO_ID {
        return true;
      }
      p := p + size;
    }
    return false;
  }

  /** The 64-bit value at `offset` of the Zip64 entry. */
  function Zip64Value(src: bytes, extra: nat, end: nat, offset: nat): (r: Option<nat>)
    requires extra <= end <= |src|
  {
    match FindZip64(src, extra, end)
    case None => None
    case Some((p, size)) => if offset + 8 > size then None else Some(LE64(src, p + offset))
  }

  method ReadZip64Info(src: bytes, extra: nat, length: nat, offset: nat) returns (r: Option<nat>)
    requires extra + length <= |src|
    ensures r == Zip64Value(src, extra, extra + length, offset)
  {
    var p, end := extra, extra + length;
    while true
      invariant extra <= p <= end
      invariant FindZip64(src, extra, end) == FindZip64(src, p, end)
      decreases end - p
    {
      if end - p < 4 {
        return None;
      }
      var id, size := LE16(src, p), LE16(src, p + 2);
      p := p + 4;
      if end - p < size {
        return None;
      }
      if id == ZIP64_INFO_ID {
        if offset + 8 > size {
          return None;
        }
        return Some(LE64(src, p + offset));
      }
      p := p + size;
    }
  }

  // ---------------------------------------------------------------- central directory

  datatype Cdfh = Cdfh(lfhOffset: nat, compressedSize: nat, length: nat)

  /** A field whose 32-bit form is all ones is taken from the Zip64 entry instead. */
  function FieldOrZip64(src: bytes, field: nat, extra: nat, end: nat, offset: nat): (r: Option<nat>)
    requires field + 4 <= |src| && extra <= end <= |src|
  {
    if Read32OrNeg1(src, field) == NEG1 then Zip64Value(src, extra, end, offset) else Some(LE32(src, field))
  }

  function ReadCdfh(src: bytes, p: nat, end: nat): (r: Option<Cdfh>)
    requires p <= end <= |src|
    ensures r.Some? ==> MIN_CDFH <= r.value.length <= end - p && LE32(src, p) == CDFH_SIGNATURE
  {
    if end - p < MIN_CDFH || LE32(src, p) != CDFH_SIGNATURE then None
    else
      var nameLen, extraLen, commentLen := LE16(src, p + 28), LE16(src, p + 30), LE16(src, p + 32);
      var length := MIN_CDFH + nameLen + extraLen + commentLen;
      if end - p < length then None
      else
        var extra := p + MIN_CDFH + nameLen;
        match (FieldOrZip64(src, p + 42, extra, extra + extraLen, 16), FieldOrZip64(src, p + 20, extra, extra + extraLen, 0))
        case (Some(offset), Some(size)) => Some(Cdfh(offset, size, length))
        case _ => None
  }

  /** The Zip64 end record at p, and the value of its size field. */
  function ReadEocd64(src: bytes, p: nat, end: nat): (r: Option<(Eocd, nat)>)
    requires p <= end <= |src|
    ensures r.Some? ==> MIN_EOCD64 - 12 <= r.value.1 && p + 12 + r.value.1 <= end
  {
    if end - p < MIN_EOCD64 || LE32(src, p) != EOCD64_SIGNATURE then None
    else
      var size := LE64(src, p + 4);
      if size > end - (p + 12) || size < MIN_EOCD64 - 12 then None
      else Some((Eocd(LE32(src, p + 16), LE32(src, p + 20), LE64(src, p + 24),
                      LE64(src, p + 32), LE64(src, p + 40), LE64(src, p + 48)), size))
  }

  // ---------------------------------------------------------------- finding the beginning

  predicate IsLocalHeader(src: bytes, zipBegin: nat, offset: nat)
    requires zipBegin <= |src|
  {
    offset + MIN_LFH <= |src| - zipBegin && LE32(src, zipBegin + offset) == LFH_SIGNATURE
  }

  predicate ValidDirectory(src: bytes, zipBegin: nat, p: nat)
    requires zipBegin <= |src| && p <= |src|
  {
    match ReadCdfh(src, p, |src|)
    case None => false
    case Some(c) => IsLocalHeader(src, zipBegin, c.lfhOffset)
  }

  predicate ValidEocd64(src: bytes, zipBegin: nat, p: nat)
    requires zipBegin <= |src| && p <= |src|
  {
    match ReadEocd64(src, p, |src|)
    case None => false
    case Some((e, _)) => e.cdOffset <= |src| - zipBegin && ValidDirectory(src, zipBegin, zipBegin + e.cdOffset)
  }

  datatype RecordKind = DirectoryRecord | Eocd64Record

  /** The record at p has its signature, and following its pointers from the beginning that
      p and its recorded offset imply leads to a local file header. */
  predicate IsRecord(src: bytes, kind: RecordKind, offset: nat, p: nat)
    requires offset <= p && p + 4 <= |src|
  {
    match kind
    case DirectoryRecord => LE32(src, p) == CDFH_SIGNATURE && ValidDirectory(src, p - offset, p)
    case Eocd64Record => LE32(src, p) == EOCD64_SIGNATURE && ValidEocd64(src, p - offset, p)
  }

  /** The first record at or after p, not beyond max. */
  function FirstRecord(src: bytes, kind: RecordKind, offset: nat, p: nat, max: nat): (r: Option<nat>)
    requires offset <= p <= max && max + 4 <= |src|
    ensures r.Some? ==> p <= r.value <= max && IsRecord(src, kind, offset, r.value)
    ensures r.Some? ==> forall q :: p <= q < r.value ==> !IsRecord(src, kind, offset, q)
    ensures r.None? ==> forall q :: p <= q <= max ==> !IsRecord(src, kind, offset, q)
    decreases max - p
  {
    if IsRecord(src, kind, offset, p) then Some(p)
    else if p == max then None
    else FirstRecord(src, kind, offset, p + 1, max)
  }

  /** Where the zip file begins: the position of the first record, less its recorded offset. */
  function Beginning(src: bytes, begin: nat, kind: RecordKind, offset: nat, minSize: nat, maxEnd: nat): (r: Option<nat>)
    requires begin <= maxEnd <= |src|
    ensures r.Some? ==> begin <= r.value && r.value + offset + minSize <= maxEnd
  {
    if minSize < 4 || minSize > maxEnd - begin || offset > maxEnd - minSize - begin then None
    else
      match FirstRecord(src, kind, offset, begin + offset, maxEnd - minSize)
      case None => None
      case Some(p) => Some(p - offset)
  }

  // ---------------------------------------------------------------- the end records

  /** Where the sections after the files lie. */
  datatype Layout = Layout(zipBegin: nat, cdBegin: nat, cdEnd: nat, count: nat,
                           record: Option<nat>, recordSize: nat, locator: Option<nat>,
                           eocd: nat, eocdSize: nat)

  /** The Zip64 end record and locator that precede the end record at `eocd`. */
  datatype Zip64End = Zip64End(zipBegin: nat, fields: Eocd, record: nat, recordSize: nat, locator: nat)

  predicate SingleDiskLocator(src: bytes, p: nat)
    requires p + LOCATOR_SIZE <= |src|
  {
    LE32(src, p) == LOCATOR_SIGNATURE && LE32(src, p + 4) == 0 && LE32(src, p + 16) == 1
  }

  function FindZip64End(src: bytes, begin: nat, eocd: nat): (r: Option<Zip64End>)
    requires begin <= eocd <= |src|
    ensures r.Some? ==>
              var z := r.value;
              && begin <= z.zipBegin <= z.record
              && z.record + z.recordSize <= z.locator && z.locator + LOCATOR_SIZE == eocd
  {
    if eocd - begin < LOCATOR_SIZE then None
    else
      var locator := eocd - LOCATOR_SIZE;
      if !SingleDiskLocator(src, locator) || LE64(src, locator + 8) > locator - begin then None
      else
        var offset := LE64(src, locator + 8);
        match Beginning(src, begin, Eocd64Record, offset, MIN_EOCD64, locator)
        case None => None
        case Some(zipBegin) =>
          match ReadEocd64(src, zipBegin + offset, locator)
          case None => None
          case Some((fields, size)) => Some(Zip64End(zipBegin, fields, zipBegin + offset, size + 12, locator))
  }

  /** The final checks on the central directory that the end records describe. */
  predicate DirectoryFits(src: bytes, zipBegin: nat, e: Eocd)
    requires zipBegin <= |src|
  {
    var srcSize := |src| - zipBegin;
    && e.disk == 0 && e.cdDisk == 0
    && e.cdOffset <= srcSize && e.cdSize <= srcSize - e.cdOffset
    && e.count <= srcSize / (MIN_LFH + MIN_CDFH)
  }

  function ParseEocd(src: bytes, eocd: nat): (r: Option<Layout>)
    ensures r.Some? ==> LayoutOk(src, r.value) && r.value.eocd == eocd
    ensures r.Some? ==> eocd + MIN_EOCD <= |src| && IsEocd(src, eocd)
  {
    if eocd + MIN_EOCD > |src| || !IsEocd(src, eocd) then None
    else
      var e := EocdFields(src, eocd);
      var commentLength := LE16(src, eocd + 20);
      var eocdSize := MIN_EOCD + commentLength;
      if eocd + eocdSize > |src| then None
      else if NeedZip64(e) then
        match FindZip64End(src, 0, eocd)
        case None => None
        case Some(z) =>
          if !DirectoryFits(src, z.zipBegin, z.fields) then None
          else
            var cd := z.zipBegin + z.fields.cdOffset;
            Some(Layout(z.zipBegin, cd, cd + z.fields.cdSize, z.fields.count,
                        Some(z.record), z.recordSize, Some(z.locator), eocd, eocdSize))
      else
        match (if e.count > 0 then Beginning(src, 0, DirectoryRecord, e.cdOffset, e.cdSize, eocd) else Some(0))
        case None => None
        case Some(zipBegin) =>
          if !DirectoryFits(src, zipBegin, e) then None
          else
            var cd := zipBegin + e.cdOffset;
            Some(Layout(zipBegin, cd, cd + e.cdSize, e.count, None, 0, None, eocd, eocdSize))
  }

  /** Every section lies in the source, the Zip64 record ends before its locator, the locator ends
      exactly at the end record, and the number of files is plausible. */
  predicate LayoutOk(src: bytes, l: Layout) {
    && l.zipBegin <= l.cdBegin <= l.cdEnd <= |src|
    && l.count <= |src| / (MIN_LFH + MIN_CDFH)
    && l.eocd + l.eocdSize <= |src| && MIN_EOCD <= l.eocdSize
    && l.record.Some? == l.locator.Some?
    && (l.record.Some? ==> l.record.value + l.recordSize <= l.locator.value)
    && (l.locator.Some? ==> l.locator.value + LOCATOR_SIZE == l.eocd)
  }

  // ---------------------------------------------------------------- local files

  /** The sections of the current file; None is a section already lexed, or absent. */
  datatype FileState = FileState(lfh: Option<nat>, lfhSize: nat, data: Option<nat>, dataSize: nat,
                                 dd: Option<nat>, ddSize: nat,
                                 compressionMethod: nat, filename: Option<nat>, filenameSize: nat)
  {
    predicate Empty() {
      lfh.None? && data.None? && dd.None?
    }

    /** Pending sections are in the source, in order and back to back; the name is in the source. */
    predicate Ok(end: nat) {
      && (lfh.Some? ==> data.Some? && lfh.value + lfhSize == data.value)
      && (data.Some? ==> data.value + dataSize <= end)
      && (data.Some? && dd.Some? ==> data.value + dataSize == dd.value)
      && (dd.Some? ==> dd.value + ddSize <= end)
      && (filename.Some? ==> filename.value + filenameSize <= end)
    }
  }

  const NO_FILE := FileState(None, 0, None, 0, None, 0, 0, None, 0)

  /** Bit 3 of the general purpose flags: the sizes follow the data in a data descriptor. */
  predicate HasDescriptor(flags: nat) {
    (flags / 8) % 2 == 1
  }

  function DescriptorSize(src: bytes, dd: nat, isZip64: bool): (r: nat)
    requires dd + 4 <= |src|
    ensures 12 <= r <= 24
  {
    (if LE32(src, dd) == DESCRIPTOR_SIGNATURE then 4 else 0) + 4 + (if isZip64 then 16 else 8)
  }

  /** The sections of the file that a directory entry points to. */
  function ReadFile(src: bytes, zipBegin: nat, c: Cdfh): (r: Option<FileState>)
    requires zipBegin <= |src|
    ensures r.Some? ==> r.value.Ok(|src|) && r.value.lfh.Some? && r.value.data.Some?
    ensures r.Some? ==> MIN_LFH <= r.value.lfhSize
  {
    if !IsLocalHeader(src, zipBegin, c.lfhOffset) then None
    else
      var lfh := zipBegin + c.lfhOffset;
      var nameLen, extraLen := LE16(src, lfh + 26), LE16(src, lfh + 28);
      var lfhSize := MIN_LFH + nameLen + extraLen;
      var data := lfh + lfhSize;
      if data > |src| || c.compressedSize > |src| - data then None
      else
        var f := FileState(Some(lfh), lfhSize, Some(data), c.compressedSize, None, 0,
                           LE16(src, lfh + 8), Some(lfh + MIN_LFH), nameLen);
        if !HasDescriptor(LE16(src, lfh + 6)) then Some(f)
        else
          var dd := data + c.compressedSize;
          if |src| - dd < 4 then None
          else
            var isZip64 := FindZip64(src, lfh + MIN_LFH + nameLen, data).Some?;
            var ddSize := DescriptorSize(src, dd, isZip64);
            if |src| - dd < ddSize then None else Some(f.(dd := Some(dd), ddSize := ddSize))
  }
}
