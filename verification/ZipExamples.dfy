/** Sources that the lexer receives as they are, and what it gives for them. */
module ZipExamples {
  import opened Bytes
  import opened ZipFormat
  import opened ZipPlan
  import opened ZipLexer
  import opened ZipCounts

  // ---------------------------------------------------------------- success before the end record

  /** A local header, a directory entry that gives its file 68 bytes, and an end record at 76: the
      file's data covers everything after its header. */
  const EARLY: bytes := seq(98, i requires 0 <= i < 98 => EarlyByte(i))

  function EarlyByte(i: nat): byte {
    if i == 0 || i == 30 || i == 76 then 0x50
    else if i == 1 || i == 31 || i == 77 then 0x4b
    else if i == 2 then 3 else if i == 3 then 4
    else if i == 32 then 1 else if i == 33 then 2
    else if i == 50 then 68
    else if i == 78 then 5 else if i == 79 then 6
    else if i == 84 || i == 86 then 1
    else if i == 88 then 46
    else if i == 92 then 30
    else 0
  }

  lemma Two(s: bytes, i: nat, x: byte)
    requires i + 2 <= |s| && s[i] == x && s[i + 1] == 0
    ensures LE16(s, i) == x
  {
  }

  lemma Four(s: bytes, i: nat, x: byte)
    requires i + 4 <= |s| && s[i] == x && s[i + 1] == s[i + 2] == s[i + 3] == 0
    ensures LE32(s, i) == x
  {
  }

  lemma Signature(s: bytes, i: nat, x: byte, y: byte)
    requires i + 4 <= |s| && s[i] == 0x50 && s[i + 1] == 0x4b && s[i + 2] == x && s[i + 3] == y
    ensures LE32(s, i) == 0x4b50 + 0x1_0000 * x + 0x100_0000 * y
  {
  }

  lemma EarlyHeaders()
    ensures LE32(EARLY, 0) == LFH_SIGNATURE && LE16(EARLY, 6) == LE16(EARLY, 8) == LE16(EARLY, 26) == LE16(EARLY, 28) == 0
    ensures LE32(EARLY, 30) == CDFH_SIGNATURE && LE16(EARLY, 58) == LE16(EARLY, 60) == LE16(EARLY, 62) == 0
    ensures LE32(EARLY, 50) == 68 && LE32(EARLY, 72) == 0
  {
    hide LE16, LE32;
    Signature(EARLY, 0, 3, 4);
    Two(EARLY, 6, 0); Two(EARLY, 8, 0); Two(EARLY, 26, 0); Two(EARLY, 28, 0);
    Signature(EARLY, 30, 1, 2);
    Two(EARLY, 58, 0); Two(EARLY, 60, 0); Two(EARLY, 62, 0);
    Four(EARLY, 50, 68); Four(EARLY, 72, 0);
  }

  lemma EarlyEnd()
    ensures LE32(EARLY, 76) == EOCD_SIGNATURE && LE16(EARLY, 96) == 0
    ensures EocdFields(EARLY, 76) == Eocd(0, 0, 1, 1, 46, 30)
  {
    hide LE16, LE32;
    Signature(EARLY, 76, 5, 6);
    Two(EARLY, 80, 0); Two(EARLY, 82, 0); Two(EARLY, 84, 1); Two(EARLY, 86, 1); Two(EARLY, 96, 0);
    Four(EARLY, 88, 46); Four(EARLY, 92, 30);
  }

  const EARLY_FILE := FileState(Some(0), 30, Some(30), 68, None, 0, 0, Some(30), 0)

  lemma EarlyParsed()
    ensures ParseEocd(EARLY, 76) == Some(Layout(0, 30, 76, 1, None, 0, None, 76, 22))
    ensures NextFile(EARLY, 0, 30, 76) == Some((EARLY_FILE, 76))
  {
    EarlyHeaders();
    EarlyEnd();
    hide LE16, LE32, EocdFields, EarlyByte;
    assert ReadCdfh(EARLY, 30, 76) == ReadCdfh(EARLY, 30, |EARLY|) == Some(Cdfh(0, 68, 46));
    assert IsLocalHeader(EARLY, 0, 0);
    assert FirstRecord(EARLY, DirectoryRecord, 30, 30, 30) == Some(30);
  }

  /** The lexer opens this source and lexes it without error into two tokens: neither the directory
      nor the end record is among them. */
  lemma EarlySuccess()
    ensures Chosen(EARLY, 76) && StreamOf(EARLY, 76).ok
    ensures |StreamOf(EARLY, 76).tokens| == 2 && !ReachesEnd(EARLY, 76)
  {
    EarlyParsed();
    LastIsChosen(EARLY, 76);
    hide ParseEocd, NextFile, Chosen, EarlyByte;
    var l := ParseEocd(EARLY, 76).value;
    var tail := LayoutTail(EARLY, l);
    EarlyFile(tail);
    PlanIsWellLexed(EARLY, l, ReadFiles(EARLY, 0, 30, 76, 1));
    RunFirst(0, EARLY_HEAD, [EARLY_DATA] + tail, true, 98);
    RunFirst(30, EARLY_DATA, tail, true, 98);
    assert StreamOf(EARLY, 76).tokens == [EARLY_HEAD] + ([EARLY_DATA] + []);
  }

  const EARLY_HEAD := Token(LocalFileHeader, 0, 30, 0, Some(30), 0)
  const EARLY_DATA := Token(CompressedData, 30, 68, 0, Some(30), 0)

  lemma EarlyFile(tail: seq<Token>)
    ensures var files := ReadFiles(EARLY, 0, 30, 76, 1);
            files.complete && |files.list| == 1 && SectionsThen(files.list, tail) == [EARLY_HEAD] + ([EARLY_DATA] + tail)
  {
    EarlyParsed();
    hide ParseEocd, NextFile, EarlyByte;
    var rest := ReadFiles(EARLY, 0, 76, 76, 0);
    assert rest == Files([], true);
    var files := ReadFiles(EARLY, 0, 30, 76, 1);
    assert files == Files([EARLY_FILE] + rest.list, true);
    hide ReadFiles;
    assert files.list == [EARLY_FILE] && files.list[1..] == [];
    assert FileSections(EARLY_FILE) == [EARLY_HEAD] + ([EARLY_DATA] + []);
  }

  /** The last possible offset is chosen whenever it opens. */
  lemma LastIsChosen(src: bytes, eocd: nat)
    requires Opens(src, eocd) && eocd + MIN_EOCD == |src|
    ensures Chosen(src, eocd)
  {
    hide Opens;
  }

  // ---------------------------------------------------------------- more tokens than expected

  /** An end record at 2 of an archive without files, whose directory is said to be at 1. */
  const FIVE: bytes := seq(25, i requires 0 <= i < 25 => FiveByte(i))

  function FiveByte(i: nat): byte {
    if i == 2 then 0x50 else if i == 3 then 0x4b else if i == 4 then 5 else if i == 5 then 6
    else if i == 18 then 1 else 0
  }

  lemma FiveParsed()
    ensures ParseEocd(FIVE, 2) == Some(Layout(0, 1, 1, 0, None, 0, None, 2, 22))
  {
    hide LE16, LE32;
    Signature(FIVE, 2, 5, 6);
    Two(FIVE, 6, 0); Two(FIVE, 8, 0); Two(FIVE, 10, 0); Two(FIVE, 12, 0); Two(FIVE, 22, 0);
    Four(FIVE, 14, 0); Four(FIVE, 18, 1);
    assert EocdFields(FIVE, 2) == Eocd(0, 0, 0, 0, 0, 1);
  }

  /** A source with no files can have five tokens, one more than expected. */
  lemma FiveTokens()
    ensures Chosen(FIVE, 2) && FileCount(FIVE, 2) == 0
    ensures StreamOf(FIVE, 2).ok && |StreamOf(FIVE, 2).tokens| == 5
  {
    FiveParsed();
    OtherByte(FIVE, 3);
    NotOpened(FIVE, 3);
    OtherByte(FIVE, 0);
    NotOpened(FIVE, 0);
    ChosenAfterOthers(FIVE, 2);
    hide ParseEocd, Opens, Chosen, FiveByte;
    var l := ParseEocd(FIVE, 2).value;
    var cd, eocd := Plain(CentralDirectory, 1, 0), Plain(EndRecord, 2, 22);
    PlanIsWellLexed(FIVE, l, ReadFiles(FIVE, 0, 1, 1, 0));
    assert LayoutTail(FIVE, l) == [cd] + [eocd] && [eocd] == [eocd] + [];
    RunFirst(0, cd, [eocd], true, 25);
    RunFirst(1, eocd, [], true, 25);
    RunLast(24, true, 25);
  }

  /** What does not begin like an end record cannot be opened. */
  lemma NotOpened(src: bytes, e: nat)
    requires e + MIN_EOCD <= |src| && LE32(src, e) != EOCD_SIGNATURE
    ensures !Opens(src, e)
  {
    hide NextFile, LE32, LE16, FindZip64End, Beginning, DirectoryFits;
  }

  lemma OtherByte(src: bytes, e: nat)
    requires e + 4 <= |src| && src[e] != 0x50
    ensures LE32(src, e) != EOCD_SIGNATURE
  {
  }

  /** One byte before the last possible offset, with nothing to open at the other two. */
  lemma ChosenAfterOthers(src: bytes, eocd: nat)
    requires 0 < eocd && eocd + 1 + MIN_EOCD == |src| && Opens(src, eocd)
    requires !Opens(src, eocd + 1) && !Opens(src, LongestComment(|src|))
    ensures Chosen(src, eocd)
  {
    hide Opens;
  }

  /** Zip64 end records of an archive said to have no files, with bytes before, between and after
      them; its directory is an entry that is not counted. */
  const EIGHT: bytes := seq(176, i requires 0 <= i < 176 => EightByte(i))

  function EightByte(i: nat): byte {
    if i == 0 || i == 30 || i == 76 || i == 133 || i == 153 then 0x50
    else if i == 1 || i == 31 || i == 77 || i == 134 || i == 154 then 0x4b
    else if i == 2 then 3 else if i == 3 then 4
    else if i == 32 then 1 else if i == 33 then 2
    else if i == 78 || i == 79 || i == 135 || i == 156 then 6
    else if i == 136 then 7
    else if i == 155 then 5
    else if i == 80 then 44
    else if i == 124 then 30
    else if i == 141 then 76
    else if i == 149 then 1
    else if i == 157 || i == 158 then 0xFF
    else 0
  }

  lemma Eight(s: bytes, i: nat, x: byte)
    requires i + 8 <= |s| && s[i] == x && s[i + 1] == s[i + 2] == s[i + 3] == s[i + 4] == s[i + 5] == s[i + 6] == s[i + 7] == 0
    ensures LE64(s, i) == x
  {
    Four(s, i, x);
    Four(s, i + 4, 0);
  }

  lemma EightHeaders()
    ensures LE32(EIGHT, 0) == LFH_SIGNATURE && LE32(EIGHT, 30) == CDFH_SIGNATURE
    ensures LE16(EIGHT, 58) == LE16(EIGHT, 60) == LE16(EIGHT, 62) == 0 && LE32(EIGHT, 50) == LE32(EIGHT, 72) == 0
  {
    hide LE16, LE32;
    Signature(EIGHT, 0, 3, 4);
    Signature(EIGHT, 30, 1, 2);
    Two(EIGHT, 58, 0); Two(EIGHT, 60, 0); Two(EIGHT, 62, 0);
    Four(EIGHT, 50, 0); Four(EIGHT, 72, 0);
  }

  lemma EightRecord()
    ensures LE32(EIGHT, 76) == EOCD64_SIGNATURE && LE64(EIGHT, 80) == 44 && LE32(EIGHT, 92) == LE32(EIGHT, 96) == 0
    ensures LE64(EIGHT, 100) == LE64(EIGHT, 108) == LE64(EIGHT, 116) == 0 && LE64(EIGHT, 124) == 30
  {
    hide LE16, LE32, LE64;
    Signature(EIGHT, 76, 6, 6);
    Four(EIGHT, 92, 0); Four(EIGHT, 96, 0);
    Eight(EIGHT, 80, 44); Eight(EIGHT, 100, 0);
    EightCounts();
  }

  lemma EightCounts()
    ensures LE64(EIGHT, 108) == LE64(EIGHT, 116) == 0 && LE64(EIGHT, 124) == 30
  {
    hide LE16, LE32, LE64;
    Eight(EIGHT, 108, 0); Eight(EIGHT, 116, 0); Eight(EIGHT, 124, 30);
  }

  lemma EightEnd()
    ensures SingleDiskLocator(EIGHT, 133) && LE64(EIGHT, 141) == 76
    ensures IsEocd(EIGHT, 153) && NeedZip64(EocdFields(EIGHT, 153)) && LE16(EIGHT, 173) == 0
  {
    Signature(EIGHT, 133, 6, 7);
    Four(EIGHT, 137, 0); Four(EIGHT, 149, 1);
    Eight(EIGHT, 141, 76);
    Signature(EIGHT, 153, 5, 6);
    Two(EIGHT, 173, 0);
    assert LE16(EIGHT, 157) == 0xFFFF;
    hide LE16, LE32, LE64, EightByte;
    assert EocdFields(EIGHT, 153).disk == NEG1;
  }

  lemma EightParsed()
    ensures ParseEocd(EIGHT, 153) == Some(Layout(0, 30, 30, 0, Some(76), 56, Some(133), 153, 22))
  {
    EightHeaders();
    EightRecord();
    EightEnd();
    hide LE16, LE32, LE64, EightByte, IsEocd, SingleDiskLocator, EocdFields, NeedZip64;
    var fields := Eocd(0, 0, 0, 0, 0, 30);
    assert ReadEocd64(EIGHT, 76, 133) == ReadEocd64(EIGHT, 76, 176) == Some((fields, 44));
    assert ReadCdfh(EIGHT, 30, 176) == Some(Cdfh(0, 0, 46));
    assert IsLocalHeader(EIGHT, 0, 0);
    assert FirstRecord(EIGHT, Eocd64Record, 76, 76, 77) == Some(76);
    assert FindZip64End(EIGHT, 0, 153) == Some(Zip64End(0, fields, 76, 56, 133));
    assert DirectoryFits(EIGHT, 0, fields);
  }

  lemma EightChosen()
    ensures Chosen(EIGHT, 153)
  {
    hide Chosen, NextFile, LE32, LE16;
    EightParsed();
    hide ParseEocd;
    OtherByte(EIGHT, 154);
    NotOpened(EIGHT, 154);
    EightHeaders();
    NotOpened(EIGHT, 0);
    ChosenAfterOthers(EIGHT, 153);
  }

  /** The bound of 4n + 8 tokens is attained: by no files and eight tokens. */
  lemma EightTokens()
    ensures Chosen(EIGHT, 153) && FileCount(EIGHT, 153) == 0
    ensures StreamOf(EIGHT, 153).ok && |StreamOf(EIGHT, 153).tokens| == 8
  {
    EightParsed();
    EightChosen();
    hide ParseEocd, Opens, Chosen, EightByte;
    var l := ParseEocd(EIGHT, 153).value;
    var cd, record := Plain(CentralDirectory, 30, 0), Plain(Zip64Record, 76, 56);
    var locator, eocd := Plain(Zip64Locator, 133, 20), Plain(EndRecord, 153, 22);
    PlanIsWellLexed(EIGHT, l, ReadFiles(EIGHT, 0, 30, 30, 0));
    assert LayoutTail(EIGHT, l) == [cd] + ([record] + ([locator] + [eocd])) && [eocd] == [eocd] + [];
    RunFirst(0, cd, [record] + ([locator] + [eocd]), true, 176);
    RunFirst(30, record, [locator] + [eocd], true, 176);
    RunFirst(132, locator, [eocd], true, 176);
    RunFirst(153, eocd, [], true, 176);
    RunLast(175, true, 176);
  }
}
