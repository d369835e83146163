/** The resumable lexer of custom_parsers/zip_lexer.c, as a class whose methods update the lexer's
    fields, proved to give exactly the token stream of the plan. */
module ZipLexer {
  import opened Bytes
  import opened ZipFormat
  import opened ZipPlan
  import opened TokenStreams

  /** The end record at `eocd` leads to a readable directory, whose first file is readable. */
  predicate Opens(src: bytes, eocd: nat) {
    match ParseEocd(src, eocd)
    case None => false
    case Some(l) => l.count > 0 ==> NextFile(src, l.zipBegin, l.cdBegin, l.cdEnd).Some?
  }

  /** Where an end record sits when its comment is as long as it can be and nothing follows. */
  function LongestComment(size: nat): nat
    requires MIN_EOCD <= size
  {
    size - Min(MIN_EOCD + 65535, size)
  }

  /** The offsets that are tried for the end record. */
  predicate Candidate(size: nat, eocd: nat) {
    MIN_EOCD <= size && (0 < eocd <= size - MIN_EOCD || eocd == size - MIN_EOCD || eocd == LongestComment(size))
  }

  /** The offset that is used: the last possible one, else the one for the longest comment, else
      the greatest one that opens. */
  ghost predicate Chosen(src: bytes, eocd: nat) {
    && Candidate(|src|, eocd) && Opens(src, eocd)
    && var last, longest := |src| - MIN_EOCD, LongestComment(|src|);
       eocd == last ||
       (!Opens(src, last) &&
        (eocd == longest ||
         (!Opens(src, longest) && forall e :: eocd < e < last ==> !Opens(src, e))))
  }

  /** The offset e is tried before the offset eocd. */
  predicate TriedBefore(size: nat, e: nat, eocd: nat) {
    && Candidate(size, e) && e != eocd
    && var last, longest := size - MIN_EOCD, LongestComment(size);
       e == last || (eocd != last && (e == longest || (eocd != longest && e > eocd)))
  }

  /** The first offset tried that opens is chosen. */
  lemma ChosenExactly(src: bytes, eocd: nat)
    ensures Chosen(src, eocd)
            <==> Candidate(|src|, eocd) && Opens(src, eocd) && forall e :: TriedBefore(|src|, e, eocd) ==> !Opens(src, e)
  {
    hide Opens;
    if Candidate(|src|, eocd) && eocd != |src| - MIN_EOCD {
      assert TriedBefore(|src|, |src| - MIN_EOCD, eocd);
      if eocd != LongestComment(|src|) {
        assert LongestComment(|src|) == |src| - MIN_EOCD || TriedBefore(|src|, LongestComment(|src|), eocd);
        forall e | eocd < e < |src| - MIN_EOCD ensures TriedBefore(|src|, e, eocd) {
        }
      }
    }
  }

  lemma ChosenIsUnique(src: bytes, a: nat, b: nat)
    requires Chosen(src, a) && Chosen(src, b)
    ensures a == b
  {
    hide Opens;
  }

  lemma NoneChosen(src: bytes)
    ensures (exists e :: Chosen(src, e)) ==> exists e :: Candidate(|src|, e) && Opens(src, e)
  {
    hide Opens;
  }

  /** A readable end record is among the offsets tried, except one at the very beginning of a
      source longer than the longest end record. */
  lemma TriedUnlessFirst(src: bytes, eocd: nat)
    requires Opens(src, eocd)
    ensures Candidate(|src|, eocd) <==> !(eocd == 0 && |src| > MIN_EOCD + 65535)
  {
    hide NextFile;
  }

  /** An empty zip file followed by more than 65535 other bytes is readable at offset 0, but no
      offset that is tried can be opened. */
  lemma EmptyZipMissed(src: bytes)
    requires |src| > MIN_EOCD + 65535 && src[..4] == [0x50, 0x4b, 0x05, 0x06]
    requires forall i :: 4 <= i < |src| ==> src[i] == 0
    ensures Opens(src, 0) && !exists e :: Candidate(|src|, e) && Opens(src, e)
  {
    hide NextFile, FindZip64End, Beginning;
    assert src[0] == 0x50 && src[1] == 0x4b && src[2] == 0x05 && src[3] == 0x06;
    assert IsEocd(src, 0);
    assert EocdFields(src, 0) == Eocd(0, 0, 0, 0, 0, 0);
    assert !NeedZip64(EocdFields(src, 0));
    forall e: nat | e > 0 && e + MIN_EOCD <= |src| ensures !IsEocd(src, e) {
      assert src[e] != 0x50;
    }
  }

  /** The token stream of a source read from the end record at `eocd`. */
  ghost function StreamOf(src: bytes, eocd: nat): Stream<Token>
    requires ParseEocd(src, eocd).Some?
  {
    var l := ParseEocd(src, eocd).value;
    PlanIsWellLexed(src, l, ReadFiles(src, l.zipBegin, l.cdBegin, l.cdEnd, l.count));
    Run(0, PlanOf(src, l), |src|)
  }

  /** The number of files that the end records report. */
  ghost function FileCount(src: bytes, eocd: nat): nat
    requires ParseEocd(src, eocd).Some?
  {
    ParseEocd(src, eocd).value.count
  }

  /** Whatever the bytes are, the stream tiles the source, keeps the grammar and is bounded by the
      number of files, which is at most one per 76 bytes. */
  lemma StreamIsWellLexed(src: bytes, eocd: nat)
    requires ParseEocd(src, eocd).Some?
    ensures WellLexed(src, FileCount(src, eocd), StreamOf(src, eocd))
    ensures FileCount(src, eocd) <= |src| / (MIN_LFH + MIN_CDFH)
  {
    hide WellLexed, ParseEocd, Run, NextFile;
    var l := ParseEocd(src, eocd).value;
    PlanIsWellLexed(src, l, ReadFiles(src, l.zipBegin, l.cdBegin, l.cdEnd, l.count));
  }

  lemma NextOf(all: seq<Token>, n: nat, token: Token, rest: seq<Token>)
    requires n <= |all| && all[n..] == [token] + rest
    ensures n < |all| && all[n] == token && rest == all[n + 1..]
  {
    assert |all[n..]| > 0 && all[n] == all[n..][0];
    assert all[n + 1..] == all[n..][1..] == rest;
  }

  class Lexer {
    const src: bytes
    var srcPtr: nat
    var zipBegin: nat
    var cdfhPtr: nat
    var cdfhEnd: nat
    var cdfhIdx: nat
    var cdfhNum: nat
    var centralDirectoryPtr: Option<nat>
    var zip64RecordPtr: Option<nat>
    var zip64RecordSize: nat
    var zip64LocatorPtr: Option<nat>
    var endRecordPtr: Option<nat>
    var endRecordSize: nat
    var fileState: FileState

    constructor (source: bytes)
      ensures src == source
    {
      src := source;
      srcPtr, zipBegin, cdfhPtr, cdfhEnd, cdfhIdx, cdfhNum := 0, 0, 0, 0, 0, 0;
      centralDirectoryPtr, zip64RecordPtr, zip64LocatorPtr, endRecordPtr := None, None, None, None;
      zip64RecordSize, endRecordSize := 0, 0;
      fileState := NO_FILE;
    }

    /** Every pointer and every pending section lies inside the source. */
    ghost predicate Valid()
      reads this
    {
      && srcPtr <= |src| && zipBegin <= |src|
      && cdfhPtr <= cdfhEnd <= |src| && cdfhIdx <= cdfhNum
      && (centralDirectoryPtr.Some? ==> centralDirectoryPtr.value <= cdfhEnd)
      && (zip64RecordPtr.Some? ==> zip64RecordPtr.value + zip64RecordSize <= |src|)
      && (zip64LocatorPtr.Some? ==> zip64LocatorPtr.value + LOCATOR_SIZE <= |src|)
      && (endRecordPtr.Some? ==> endRecordPtr.value + endRecordSize <= |src|)
      && fileState.Ok(|src|)
    }

    ghost function Tail(): seq<Token>
      reads this
      requires Valid()
    {
      TailSections(centralDirectoryPtr, cdfhEnd, zip64RecordPtr, zip64RecordSize, zip64LocatorPtr,
                   endRecordPtr, endRecordSize)
    }

    /** The sections that are still to come. */
    ghost function Remaining(): Plan
      reads this
      requires Valid()
    {
      var rest := FilesPlan(ReadFiles(src, zipBegin, cdfhPtr, cdfhEnd, cdfhNum - cdfhIdx), Tail());
      Plan(FileSections(fileState) + rest.sections, rest.complete)
    }

    lemma RemainingInBounds()
      requires Valid()
      ensures InBounds(Remaining().sections, |src|)
    {
      hide ReadFiles, Tail, FileSections, InBounds;
      var files := ReadFiles(src, zipBegin, cdfhPtr, cdfhEnd, cdfhNum - cdfhIdx);
      TailInBounds();
      EmptyInBounds(|src|);
      SectionsInBounds(files.list, if files.complete then Tail() else [], |src|);
      FileInBounds(fileState, |src|);
      InBoundsConcat(FileSections(fileState), FilesPlan(files, Tail()).sections, |src|);
    }

    lemma TailInBounds()
      requires Valid()
      ensures InBounds(Tail(), |src|)
    {
    }

    /** The tokens that are still to come. */
    ghost function Pending(): Stream<Token>
      reads this
      requires Valid()
    {
      RemainingInBounds();
      Run(srcPtr, Remaining(), |src|)
    }

    // -------------------------------------------------------------- initialization

    method FindZipBegin(kind: RecordKind, recordOffset: nat, minRecordSize: nat, maxRecordEnd: nat) returns (ok: bool)
      requires zipBegin <= maxRecordEnd <= |src|
      modifies this`zipBegin
      ensures var r := Beginning(src, old(zipBegin), kind, recordOffset, minRecordSize, maxRecordEnd);
              (ok <==> r.Some?) && zipBegin == if ok then r.value else old(zipBegin)
    {
      hide IsRecord;
      if minRecordSize < 4 || minRecordSize > maxRecordEnd - zipBegin {
        return false;
      }
      var maxRecordBegin := maxRecordEnd - minRecordSize;
      if recordOffset > maxRecordBegin - zipBegin {
        return false;
      }
      var recordBegin := zipBegin + recordOffset;
      while !IsRecord(src, kind, recordOffset, recordBegin)
        invariant zipBegin + recordOffset <= recordBegin <= maxRecordBegin
        invariant FirstRecord(src, kind, recordOffset, zipBegin + recordOffset, maxRecordBegin)
               == FirstRecord(src, kind, recordOffset, recordBegin, maxRecordBegin)
        decreases maxRecordBegin - recordBegin
      {
        if recordBegin == maxRecordBegin {
          return false;
        }
        recordBegin := recordBegin + 1;
      }
      zipBegin := recordBegin - recordOffset;
      return true;
    }

    method FindEocd64(eocd: nat) returns (fields: Option<Eocd>)
      requires zipBegin <= eocd <= |src|
      modifies this
      ensures var z := FindZip64End(src, old(zipBegin), eocd);
              && (fields.None? <==> z.None?)
              && (z.Some? ==>
                    && fields.value == z.value.fields && zipBegin == z.value.zipBegin
                    && zip64RecordPtr == Some(z.value.record) && zip64RecordSize == z.value.recordSize
                    && zip64LocatorPtr == Some(z.value.locator))
      ensures srcPtr == old(srcPtr) && fileState == old(fileState)
    {
      hide Beginning, ReadEocd64, SingleDiskLocator, LE64;
      fields := None;
      if eocd - zipBegin < LOCATOR_SIZE {
        return;
      }
      var locator := eocd - LOCATOR_SIZE;
      if !SingleDiskLocator(src, locator) {
        return;
      }
      var eocd64Offset := LE64(src, locator + 8);
      if eocd64Offset > locator - zipBegin {
        return;
      }
      var ok := FindZipBegin(Eocd64Record, eocd64Offset, MIN_EOCD64, locator);
      if !ok {
        return;
      }
      var eocd64 := ReadEocd64(src, zipBegin + eocd64Offset, locator);
      if eocd64.None? {
        return;
      }
      zip64RecordPtr := Some(zipBegin + eocd64Offset);
      zip64RecordSize := eocd64.value.1 + 12;
      zip64LocatorPtr := Some(locator);
      fields := Some(eocd64.value.0);
    }

    /** The fields hold this layout and no directory entry has been read. */
    ghost predicate Holds(l: Layout)
      reads this
    {
      && zipBegin == l.zipBegin && cdfhPtr == l.cdBegin && cdfhEnd == l.cdEnd
      && cdfhIdx == 0 && cdfhNum == l.count
      && centralDirectoryPtr == Some(l.cdBegin) && zip64RecordPtr == l.record
      && (l.record.Some? ==> zip64RecordSize == l.recordSize)
      && zip64LocatorPtr == l.locator && endRecordPtr == Some(l.eocd) && endRecordSize == l.eocdSize
    }

    method ParseEndRecord(eocd: nat) returns (ok: bool)
      requires zipBegin == 0
      modifies this
      ensures ok <==> ParseEocd(src, eocd).Some?
      ensures ok ==> Holds(ParseEocd(src, eocd).value)
      ensures srcPtr == old(srcPtr) && fileState == old(fileState)
    {
      hide FindZip64End, Beginning, EocdFields, IsEocd, NeedZip64, LayoutOk, DirectoryFits, LE16;
      if eocd > |src| - zipBegin || |src| - eocd < MIN_EOCD || !IsEocd(src, eocd) {
        return false;
      }
      var e := EocdFields(src, eocd);
      var commentLength := LE16(src, eocd + 20);
      if commentLength > |src| - (eocd + MIN_EOCD) {
        return false;
      }
      if NeedZip64(e) {
        var fields := FindEocd64(eocd);
        if fields.None? {
          return false;
        }
        e := fields.value;
      } else {
        if e.count > 0 {
          var found := FindZipBegin(DirectoryRecord, e.cdOffset, e.cdSize, eocd);
          if !found {
            return false;
          }
        }
        zip64RecordPtr, zip64RecordSize, zip64LocatorPtr := None, 0, None;
      }
      if !DirectoryFits(src, zipBegin, e) {
        return false;
      }
      cdfhPtr := zipBegin + e.cdOffset;
      cdfhEnd := cdfhPtr + e.cdSize;
      cdfhIdx, cdfhNum := 0, e.count;
      centralDirectoryPtr, endRecordPtr := Some(cdfhPtr), Some(eocd);
      endRecordSize := MIN_EOCD + commentLength;
      return true;
    }

    /** The lexer is at the beginning of the zip file whose end record is at `eocd`. */
    ghost predicate Started(eocd: nat)
      reads this
    {
      && Valid() && srcPtr == 0
      && ParseEocd(src, eocd).Some?
      && var l := ParseEocd(src, eocd).value;
         cdfhNum == l.count && Remaining() == PlanOf(src, l)
    }

    lemma HoldsPlan(l: Layout)
      requires Holds(l) && LayoutOk(src, l) && srcPtr == 0 && fileState == NO_FILE
      ensures Valid() && Remaining() == PlanOf(src, l)
    {
      hide ReadFiles;
      assert FileSections(fileState) == [];
      assert Remaining().sections == PlanOf(src, l).sections;
    }

    method InitWithEocd(eocd: nat) returns (ok: bool)
      modifies this
      ensures ok <==> Opens(src, eocd)
      ensures ok ==> Started(eocd)
    {
      hide ParseEocd, Remaining, NextFile, PlanOf, LayoutOk;
      zipBegin, srcPtr, fileState := 0, 0, NO_FILE;
      ok := ParseEndRecord(eocd);
      if ok {
        HoldsPlan(ParseEocd(src, eocd).value);
        if cdfhIdx < cdfhNum {
          ok := SetFileState();
        }
      }
    }

    method TryInit(reverseOffset: nat) returns (ok: bool)
      requires MIN_EOCD <= reverseOffset <= |src|
      modifies this
      ensures ok <==> Opens(src, |src| - reverseOffset)
      ensures ok ==> Started(|src| - reverseOffset)
    {
      hide ParseEocd, Started, NextFile, IsEocd;
      if !IsEocd(src, |src| - reverseOffset) {
        return false;
      }
      ok := InitWithEocd(|src| - reverseOffset);
    }

    method Init() returns (ok: bool, ghost eocd: nat)
      modifies this
      ensures ok <==> exists e :: Candidate(|src|, e) && Opens(src, e)
      ensures ok ==> Chosen(src, eocd) && Started(eocd)
    {
      hide Opens, Started;
      eocd := 0;
      if |src| < MIN_EOCD {
        return false, 0;
      }
      var maxLegalReverseOffset := Min(MIN_EOCD + 65535, |src|);
      ok := TryInit(MIN_EOCD);
      if ok {
        return true, |src| - MIN_EOCD;
      }
      ok := TryInit(maxLegalReverseOffset);
      if ok {
        return true, LongestComment(|src|);
      }
      var reverseOffset := MIN_EOCD + 1;
      while reverseOffset < |src|
        invariant MIN_EOCD < reverseOffset
        invariant forall e :: 0 < e && |src| - reverseOffset < e < |src| - MIN_EOCD ==> !Opens(src, e)
      {
        ok := TryInit(reverseOffset);
        if ok {
          return true, |src| - reverseOffset;
        }
        reverseOffset := reverseOffset + 1;
      }
      return false, 0;
    }

    // -------------------------------------------------------------- lexing

    predicate Finished()
      reads this
    {
      srcPtr == |src|
    }

    /** Loads the file of the next directory entry. */
    method SetFileState() returns (ok: bool)
      requires Valid() && fileState.Empty() && cdfhIdx < cdfhNum
      modifies this`cdfhIdx, this`cdfhPtr, this`fileState
      ensures ok <==> NextFile(src, zipBegin, old(cdfhPtr), cdfhEnd).Some?
      ensures ok ==> Valid() && Remaining() == old(Remaining()) && fileState.lfh.Some? && fileState.data.Some?
    {
      hide ReadCdfh, ReadFile, TailSections, ReadFiles, FilesPlan;
      ghost var tail := Tail();
      assert FileSections(fileState) == [];
      if NextFile(src, zipBegin, cdfhPtr, cdfhEnd).Some? {
        NextFilePlan(src, zipBegin, cdfhPtr, cdfhEnd, cdfhNum - cdfhIdx, tail);
      }
      var cdfh := ReadCdfh(src, cdfhPtr, cdfhEnd);
      if cdfh.None? {
        return false;
      }
      cdfhIdx := cdfhIdx + 1;
      cdfhPtr := cdfhPtr + cdfh.value.length;
      var file := ReadFile(src, zipBegin, cdfh.value);
      if file.None? {
        return false;
      }
      fileState := file.value;
      assert Tail() == tail;
      assert old(Remaining()).sections == FilesPlan(ReadFiles(src, zipBegin, old(cdfhPtr), cdfhEnd, cdfhNum - old(cdfhIdx)), tail).sections;
      return true;
    }

    /** Emits the gap before a section, or the section itself, in which case it is consumed. */
    method LexSection(section: Token) returns (ok: bool, token: Token, consumed: bool)
      requires srcPtr < |src| && section.End() <= |src|
      modifies this`srcPtr
      ensures if ok then srcPtr == (if consumed then section.End() else section.ptr) else !consumed && srcPtr == old(srcPtr)
      ensures ok <==> old(srcPtr) <= section.ptr
      ensures ok ==> (consumed <==> old(srcPtr) == section.ptr)
      ensures ok ==> token == if consumed then section else Gap(old(srcPtr), section.ptr)
    {
      token, consumed := section, false;
      if srcPtr < section.ptr {
        token := Gap(srcPtr, section.ptr);
        srcPtr := section.ptr;
        return true, token, false;
      }
      if srcPtr > section.ptr {
        return false, token, false;
      }
      srcPtr := srcPtr + section.size;
      return true, section, true;
    }

    /** What one step of the reference says about this state. */
    twostate predicate Stepped(ok: bool, token: Token)
      requires old(Valid()) && old(srcPtr) < |src|
      reads this
    {
      match Step(old(srcPtr), old(Remaining()), |src|)
      case Corrupt => !ok
      case Emit(t, pos, plan) => ok && token == t && Valid() && srcPtr == pos && Remaining() == plan
    }

    lemma RemainingTail()
      requires Valid() && cdfhIdx == cdfhNum && fileState.Empty()
      ensures Remaining() == Plan(if cdfhPtr == cdfhEnd then Tail() else [], cdfhPtr == cdfhEnd)
    {
      assert FileSections(fileState) == [];
      assert Remaining().sections == if cdfhPtr == cdfhEnd then Tail() else [];
    }

    method LexTail() returns (ok: bool, token: Token)
      requires Valid() && !Finished() && cdfhIdx == cdfhNum && fileState.Empty()
      modifies this`srcPtr, this`centralDirectoryPtr, this`zip64RecordPtr, this`zip64LocatorPtr, this`endRecordPtr
      ensures Stepped(ok, token)
    {
      hide Remaining, FileState.Ok, FileState.Empty;
      RemainingTail();
      if cdfhPtr != cdfhEnd {
        return false, Gap(srcPtr, |src|);
      }
      if centralDirectoryPtr.Some? {
        var consumed;
        ok, token, consumed := LexSection(Plain(CentralDirectory, centralDirectoryPtr.value, cdfhEnd - centralDirectoryPtr.value));
        if consumed {
          centralDirectoryPtr := None;
          assert old(Tail()) == [token] + Tail();
        }
        RemainingTail();
      } else {
        ok, token := LexEndRecords();
      }
    }

    /** The sections after the central directory, and what follows them. */
    method LexEndRecords() returns (ok: bool, token: Token)
      requires Valid() && !Finished() && cdfhIdx == cdfhNum && fileState.Empty()
      requires cdfhPtr == cdfhEnd && centralDirectoryPtr.None?
      modifies this`srcPtr, this`zip64RecordPtr, this`zip64LocatorPtr, this`endRecordPtr
      ensures Stepped(ok, token)
    {
      hide Remaining, FileState.Ok, FileState.Empty;
      RemainingTail();
      var consumed := false;
      if zip64RecordPtr.Some? {
        ok, token, consumed := LexSection(Plain(Zip64Record, zip64RecordPtr.value, zip64RecordSize));
        if consumed {
          zip64RecordPtr := None;
          assert old(Tail()) == [token] + Tail();
        }
      } else if zip64LocatorPtr.Some? {
        ok, token, consumed := LexSection(Plain(Zip64Locator, zip64LocatorPtr.value, LOCATOR_SIZE));
        if consumed {
          zip64LocatorPtr := None;
          assert old(Tail()) == [token] + Tail();
        }
      } else if endRecordPtr.Some? {
        ok, token, consumed := LexSection(Plain(EndRecord, endRecordPtr.value, endRecordSize));
        if consumed {
          endRecordPtr := None;
          assert old(Tail()) == [token] + Tail();
        }
      } else {
        token := Gap(srcPtr, |src|);
        srcPtr := |src|;
        ok := true;
      }
      RemainingTail();
    }

    method LexFile() returns (ok: bool, token: Token)
      requires Valid() && !Finished() && (cdfhIdx < cdfhNum || !fileState.Empty())
      modifies this`srcPtr, this`cdfhIdx, this`cdfhPtr, this`fileState
      ensures Stepped(ok, token)
    {
      hide NextFile;
      if fileState.Empty() {
        ok := SetFileState();
        if !ok {
          assert old(FileSections(fileState)) == [];
          token := Gap(srcPtr, |src|);
          return;
        }
      }
      ok, token := LexFileSection();
    }

    /** The first section of the current file, and the file without it. */
    method NextSection() returns (section: Token, next: FileState)
      requires fileState.Ok(|src|) && !fileState.Empty()
      ensures next.Ok(|src|) && section.End() <= |src|
      ensures FileSections(fileState) == [section] + FileSections(next)
    {
      if fileState.lfh.Some? {
        section := FileToken(fileState, LocalFileHeader, fileState.lfh, fileState.lfhSize).value;
        next := fileState.(lfh := None);
      } else if fileState.data.Some? {
        section := FileToken(fileState, CompressedData, fileState.data, fileState.dataSize).value;
        next := fileState.(data := None);
      } else {
        section := FileToken(fileState, DataDescriptor, fileState.dd, fileState.ddSize).value;
        next := fileState.(dd := None);
      }
    }

    method LexFileSection() returns (ok: bool, token: Token)
      requires Valid() && !Finished() && !fileState.Empty()
      modifies this`srcPtr, this`fileState
      ensures Stepped(ok, token)
    {
      hide ReadFiles, FilesPlan, TailSections, FileSections, FileState.Ok, FileState.Empty;
      ghost var rest := FilesPlan(ReadFiles(src, zipBegin, cdfhPtr, cdfhEnd, cdfhNum - cdfhIdx), Tail());
      var section, next := NextSection();
      assert ([section] + FileSections(next)) + rest.sections == [section] + (FileSections(next) + rest.sections);
      var consumed;
      ok, token, consumed := LexSection(section);
      if consumed {
        fileState := next;
      }
    }

    /** The pending stream starts with the token, or reports corruption at once. */
    method LexOne() returns (ok: bool, token: Token)
      requires Valid() && !Finished()
      modifies this
      ensures cdfhNum == old(cdfhNum)
      ensures ok ==> Valid() && old(Pending()) == Stream([token] + Pending().tokens, Pending().ok)
      ensures !ok ==> old(Pending()) == Stream([], false)
    {
      hide Remaining, Step;
      if cdfhIdx == cdfhNum && fileState.Empty() {
        ok, token := LexTail();
      } else {
        ok, token := LexFile();
      }
    }

    /** Lexes up to `capacity` tokens. What comes out is the next part of the pending stream, and
        the rest of it stays pending: the stream does not depend on how calls divide it. */
    method Lex(out: array<Token>, capacity: nat) returns (ok: bool, n: nat)
      requires Valid() && capacity <= out.Length
      modifies this, out
      ensures var all := old(Pending());
              && (ok <==> all.ok || capacity <= |all.tokens|)
              && (ok ==>
                    && Valid() && n == Min(capacity, |all.tokens|)
                    && out[..n] == all.tokens[..n] && Pending() == Stream(all.tokens[n..], all.ok)
                    && (n < capacity ==> Finished()))
      ensures cdfhNum == old(cdfhNum)
    {
      hide Pending, Valid;
      n := 0;
      ghost var all := Pending();
      while !Finished() && n < capacity
        invariant Valid() && n <= capacity && cdfhNum == old(cdfhNum)
        invariant n <= |all.tokens| && out[..n] == all.tokens[..n]
        invariant Pending() == Stream(all.tokens[n..], all.ok)
      {
        var token;
        ok, token := LexOne();
        if !ok {
          return false, n;
        }
        NextOf(all.tokens, n, token, Pending().tokens);
        out[n] := token;
        n := n + 1;
        assert out[..n] == all.tokens[..n];
      }
      FinishedStream();
      ok := true;
    }

    lemma FinishedStream()
      requires Valid()
      ensures Finished() <==> Pending() == Stream([], true)
    {
    }

    lemma StartedStream(eocd: nat)
      requires Started(eocd)
      ensures Pending() == StreamOf(src, eocd) && cdfhNum == FileCount(src, eocd)
    {
      hide ParseEocd, Run, Remaining, PlanOf;
    }
  }

  // ---------------------------------------------------------------- sequences of calls

  function Sum(caps: seq<nat>): nat {
    if caps == [] then 0 else Sum(caps[..|caps| - 1]) + caps[|caps| - 1]
  }

  lemma {:induction false} SumPrefix(caps: seq<nat>, k: nat)
    requires k <= |caps|
    ensures Sum(caps[..k]) <= Sum(caps)
    ensures k < |caps| ==> Sum(caps[..k + 1]) == Sum(caps[..k]) + caps[k]
    decreases |caps| - k
  {
    if k < |caps| {
      assert caps[..k + 1][..k] == caps[..k];
      SumPrefix(caps, k + 1);
    } else {
      assert caps[..k] == caps;
    }
  }

  /** Calls the lexer with one capacity after the other, and collects what it gives. However the
      capacities are chosen, the tokens are the first Sum(caps) ones of the pending stream and the
      rest of it stays pending; calls fail exactly when they ask for more tokens than a corrupt
      stream has, and then the calls before the failing one have given all they were asked for. */
  method LexCalls(lexer: Lexer, caps: seq<nat>) returns (ok: bool, tokens: seq<Token>)
    requires lexer.Valid()
    modifies lexer
    ensures var all := old(lexer.Pending());
            && (ok <==> all.ok || Sum(caps) <= |all.tokens|)
            && tokens <= all.tokens
            && (ok ==>
                  && tokens == all.tokens[..Min(Sum(caps), |all.tokens|)]
                  && lexer.Valid() && lexer.Pending() == Stream(all.tokens[|tokens|..], all.ok)
                  && (Sum(caps) > |all.tokens| ==> lexer.Finished()))
            && (!ok ==> exists k :: 0 <= k < |caps| && |tokens| == Sum(caps[..k]) && |all.tokens| < Sum(caps[..k + 1]))
  {
    hide Lexer.Valid, Lexer.Pending, Sum;
    ghost var all := lexer.Pending();
    ok, tokens := true, [];
    SumNothing(caps);
    for k := 0 to |caps|
      invariant lexer.Valid() && |tokens| == Min(Sum(caps[..k]), |all.tokens|)
      invariant tokens == all.tokens[..|tokens|] && lexer.Pending() == Stream(all.tokens[|tokens|..], all.ok)
      invariant (all.ok || Sum(caps[..k]) <= |all.tokens|) && (Sum(caps[..k]) > |all.tokens| ==> lexer.Finished())
    {
      SumPrefix(caps, k);
      SumPrefix(caps, k + 1);
      lexer.FinishedStream();
      var out := new Token[caps[k]](_ => Plain(Unknown, 0, 0));
      var n;
      ok, n := lexer.Lex(out, caps[k]);
      if !ok {
        assert |tokens| == Sum(caps[..k]);
        return;
      }
      SlicesJoin(all.tokens, |tokens|, n);
      tokens := tokens + out[..n];
      lexer.FinishedStream();
    }
    assert caps[..|caps|] == caps;
  }

  lemma SumNothing(caps: seq<nat>)
    ensures Sum(caps[..0]) == 0
  {
  }

  lemma SlicesJoin(all: seq<Token>, a: nat, n: nat)
    requires a + n <= |all|
    ensures all[..a] + all[a..][..n] == all[..a + n] && all[a..][n..] == all[a + n..]
  {
  }
}
