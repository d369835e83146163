/** Which successor each byte of an archive goes to, said on the archive: on compression methods, names
    and guessed widths. */
module PytorchTags {
  import opened Bytes
  import opened ZipFormat
  import opened ZipRecords
  import opened ZipPlan
  import opened ZipLexer
  import opened ZipCounts
  import opened ZipArchive
  import opened Segments
  import opened PytorchModel
  import opened TokenStreams

  /** The codes of the characters. */
  function Ascii(s: string): bytes {
    seq(|s|, i requires 0 <= i < |s| => (s[i] as int) % 0x100)
  }

  /** The name has the directory at its start or right after a slash. */
  ghost predicate Under(name: bytes, dir: string) {
    exists k :: 0 <= k <= |name| && (k == 0 || name[k - 1] == '/' as int) && Ascii(dir) <= name[k..]
  }

  lemma UnderExactly(name: bytes)
    ensures InDir(name, DATA_DIR) <==> Under(name, "data/")
    ensures InDir(name, WEIGHTS_DIR) <==> Under(name, "xl_model_weights/")
  {
    assert Ascii("data/") == DATA_DIR;
    assert Ascii("xl_model_weights/") == WEIGHTS_DIR;
    forall dir: string ensures InDir(name, Ascii(dir)) <==> Under(name, dir) {
      if k :| DirAt(name, Ascii(dir), k) {
        assert Ascii(dir) <= name[k..];
      }
      if Under(name, dir) {
        var k :| 0 <= k <= |name| && (k == 0 || name[k - 1] == '/' as int) && Ascii(dir) <= name[k..];
        assert DirAt(name, Ascii(dir), k);
      }
    }
  }

  // ---------------------------------------------------------------- the tag of a byte

  /** In a stream that tiles the source, a byte has the tag of the token that holds it. */
  lemma {:induction false} ByteTag(src: bytes, guess: bytes -> nat, tokens: seq<Token>, pos: nat, last: nat, j: nat, x: nat)
    requires InBounds(tokens, |src|) && Tiles(tokens, pos, last) && j < |tokens| && tokens[j].ptr <= x < tokens[j].End()
    ensures pos <= x < last && |Expand(Tagged(src, guess, tokens))| == last - pos
    ensures Expand(Tagged(src, guess, tokens))[x - pos] == Tag(src, guess, tokens[j])
    decreases |tokens|
  {
    hide Tag, Expand;
    var t, rest := tokens[0], tokens[1..];
    assert tokens == [t] + rest;
    TaggedSplit(src, guess, [t], rest);
    var first := Tagged(src, guess, [t]);
    ExpandConcat(first, Tagged(src, guess, rest));
    ExpandSnoc([], Seg(t.size, Tag(src, guess, t)));
    assert [] + [Seg(t.size, Tag(src, guess, t))] == first;
    ExpandNothing();
    TaggedTotal(src, guess, rest, t.End(), last);
    ExpandSize(Tagged(src, guess, rest));
    if j > 0 {
      ByteTag(src, guess, rest, t.End(), last, j - 1, x);
    }
  }

  lemma ExpandNothing()
    ensures Expand([]) == []
  {
  }

  lemma {:induction false} TokenAt(tokens: seq<Token>, pos: nat, last: nat, x: nat) returns (j: nat)
    requires Tiles(tokens, pos, last) && pos <= x < last
    ensures j < |tokens| && tokens[j].ptr <= x < tokens[j].End()
    decreases |tokens|
  {
    if x < tokens[0].End() {
      j := 0;
    } else {
      j := TokenAt(tokens[1..], tokens[0].End(), last, x);
      j := j + 1;
    }
  }

  // ---------------------------------------------------------------- the data of an archive

  /** The offset of the local header of file i. */
  function FileOffset(entries: seq<Entry>, i: nat): nat
    requires i < |entries|
  {
    entries[0].gap + if i == 0 then 0 else entries[0].Length() + FileOffset(entries[1..], i - 1)
  }

  function DataOffset(entries: seq<Entry>, i: nat): nat
    requires i < |entries|
  {
    FileOffset(entries, i) + entries[i].HeaderLength()
  }

  /** The byte x is among the data of file i of an archive that begins at b. */
  predicate InData(b: nat, entries: seq<Entry>, i: nat, x: nat) {
    i < |entries| && b + DataOffset(entries, i) <= x < b + DataOffset(entries, i) + entries[i].data
  }

  function DataToken(entries: seq<Entry>, i: nat, p: nat): Token
    requires i < |entries|
  {
    Token(CompressedData, p + DataOffset(entries, i), entries[i].data, entries[i].compressionMethod,
          Some(p + FileOffset(entries, i) + 30), entries[i].name)
  }

  lemma {:induction false} HasDataToken(entries: seq<Entry>, i: nat, p: nat)
    requires i < |entries|
    ensures DataToken(entries, i, p) in FilesTokens(entries, p)
    decreases i
  {
    var at := p + entries[0].gap;
    if i == 0 {
      assert EntryTokens(entries[0], at)[1] == DataToken(entries, 0, p);
    } else {
      hide EntryTokens, DataToken;
      HasDataToken(entries[1..], i - 1, at + entries[0].Length());
      DataTokenNext(entries, i - 1, p);
    }
  }

  lemma {:induction false} OnlyDataTokens(entries: seq<Entry>, p: nat, t: Token) returns (i: nat)
    requires t in FilesTokens(entries, p) && t.kind == CompressedData
    ensures i < |entries| && t == DataToken(entries, i, p)
    decreases |entries|
  {
    var at := p + entries[0].gap;
    if t in EntryTokens(entries[0], at) {
      i := 0;
    } else {
      hide EntryTokens, DataToken;
      i := OnlyDataTokens(entries[1..], at + entries[0].Length(), t);
      DataTokenNext(entries, i, p);
      i := i + 1;
    }
  }

  lemma DataTokenNext(entries: seq<Entry>, i: nat, p: nat)
    requires entries != [] && i < |entries[1..]|
    ensures DataToken(entries, i + 1, p) == DataToken(entries[1..], i, p + entries[0].gap + entries[0].Length())
  {
  }

  lemma {:induction false} InFilled(pos: nat, sections: seq<Token>, end: nat, t: Token)
    ensures t in sections ==> t in Filled(pos, sections, end)
    ensures t in Filled(pos, sections, end) && t.kind != Unknown ==> t in sections
    decreases |sections|
  {
    if sections != [] {
      InFilled(sections[0].End(), sections[1..], end, t);
    }
  }

  // ---------------------------------------------------------------- the tags of an archive

  /** The successor of the data of a stored file, by the width that is guessed for it: 0 for bytes, 1, 2
      and 3 for floats of 2, 4 and 8 bytes, 4 for files outside the two directories. */
  ghost predicate StoredTag(name: bytes, width: nat, tag: nat) {
    if Under(name, "data/") || Under(name, "xl_model_weights/") then
      && (width == 1 ==> tag == 0) && (width == 2 ==> tag == 1)
      && (width == 4 ==> tag == 2) && (width == 8 ==> tag == 3)
    else tag == 4
  }

  lemma DataTag(src: bytes, guess: bytes -> nat, t: Token, p: nat, name: nat)
    requires t.End() <= |src| && t.NameEnd() <= |src|
    requires t.kind == CompressedData && t.filename == Some(p) && t.filenameSize == name
    ensures if t.compressionMethod != 0 then Tag(src, guess, t) == 5
            else StoredTag(src[p..p + name], guess(src[t.ptr..t.End()]), Tag(src, guess, t))
  {
    UnderExactly(src[p..p + name]);
    hide InDir, Under;
  }

  /** The tags of the bytes of a source, as its chunks hold them. */
  ghost function ByteTags(src: bytes, guess: bytes -> nat, eocd: nat): seq<nat>
    requires ParseEocd(src, eocd).Some?
  {
    StreamIsWellLexed(src, eocd);
    Expand(Tagged(src, guess, StreamOf(src, eocd).tokens))
  }

  /** The tag of a byte of a source that is read from the end record at eocd. */
  ghost function TagAt(src: bytes, guess: bytes -> nat, eocd: nat, x: nat): Option<nat> {
    if ParseEocd(src, eocd).Some? && x < |ByteTags(src, guess, eocd)| then Some(ByteTags(src, guess, eocd)[x]) else None
  }

  /** A byte of a token of an archive's stream has the tag of the token. */
  lemma ArchiveByteTag(src: bytes, b: nat, entries: seq<Entry>, ending: Ending, guess: bytes -> nat, t: Token, x: nat)
    requires IsArchive(src, b, entries, ending) && IsAnchored(b, entries, ending) && NoneBefore(src, b, entries, ending)
    requires t in Filled(0, ArchiveTokens(b, entries, ending), |src|) && t.ptr <= x < t.End()
    ensures t.End() <= |src| && t.NameEnd() <= |src|
    ensures TagAt(src, guess, b + EndOffset(entries, ending), x) == Some(Tag(src, guess, t))
  {
    hide IsArchive, IsAnchored, NoneBefore, ParseEocd, StreamOf, ArchiveTokens, Filled, EndOffset, Expand, Tagged, Tiles, Tag, WellLexed;
    ArchiveLexed(src, b, entries, ending);
    var eocd := b + EndOffset(entries, ending);
    StreamIsWellLexed(src, eocd);
    var tokens := StreamOf(src, eocd).tokens;
    WholeTiled(src, FileCount(src, eocd), StreamOf(src, eocd));
    var j :| 0 <= j < |tokens| && tokens[j] == t;
    ByteTag(src, guess, tokens, 0, |src|, j, x);
  }

  lemma WholeTiled(src: bytes, numFiles: nat, r: Stream<Token>)
    requires WellLexed(src, numFiles, r) && r.ok
    ensures InBounds(r.tokens, |src|) && Tiles(r.tokens, 0, |src|)
  {
    var last: nat :| Tiles(r.tokens, 0, last) && last <= |src| && Text(src, r.tokens) == src[..last];
    assert |src[..last]| == |src|;
  }

  /** Some token of an archive's stream holds the byte. */
  lemma ArchiveTokenAt(src: bytes, b: nat, entries: seq<Entry>, ending: Ending, x: nat) returns (t: Token)
    requires IsArchive(src, b, entries, ending) && IsAnchored(b, entries, ending) && NoneBefore(src, b, entries, ending) && x < |src|
    ensures t in Filled(0, ArchiveTokens(b, entries, ending), |src|) && t.ptr <= x < t.End()
  {
    hide IsArchive, IsAnchored, NoneBefore, ParseEocd, StreamOf, ArchiveTokens, Filled, EndOffset, Tiles, WellLexed;
    ArchiveLexed(src, b, entries, ending);
    var eocd := b + EndOffset(entries, ending);
    StreamIsWellLexed(src, eocd);
    WholeTiled(src, FileCount(src, eocd), StreamOf(src, eocd));
    var j := TokenAt(StreamOf(src, eocd).tokens, 0, |src|, x);
    t := StreamOf(src, eocd).tokens[j];
  }

  /** Every data byte of an archive: compressed data has the tag 5, stored data that of its directory and
      its guessed width. */
  lemma DataByteTag(src: bytes, b: nat, entries: seq<Entry>, ending: Ending, guess: bytes -> nat, i: nat, x: nat)
    requires IsArchive(src, b, entries, ending) && IsAnchored(b, entries, ending) && NoneBefore(src, b, entries, ending)
    requires InData(b, entries, i, x)
    ensures var tag, e := TagAt(src, guess, b + EndOffset(entries, ending), x), entries[i];
            var p, at := b + FileOffset(entries, i) + 30, b + DataOffset(entries, i);
            && tag.Some? && at + e.data <= |src| && p + e.name <= |src|
            && if e.compressionMethod != 0 then tag.value == 5 else StoredTag(src[p..p + e.name], guess(src[at..at + e.data]), tag.value)
  {
    hide IsArchive, IsAnchored, NoneBefore, TagAt, Filled, EndOffset, StoredTag, FilesTokens, EndTokens, Tag;
    var t := DataToken(entries, i, b);
    HasDataToken(entries, i, b);
    InFilled(0, ArchiveTokens(b, entries, ending), |src|, t);
    ArchiveByteTag(src, b, entries, ending, guess, t, x);
    DataTag(src, guess, t, b + FileOffset(entries, i) + 30, entries[i].name);
  }

  /** Every other byte of the source, of the archive or around it, has the tag 6. */
  lemma OtherByteTag(src: bytes, b: nat, entries: seq<Entry>, ending: Ending, guess: bytes -> nat, x: nat)
    requires IsArchive(src, b, entries, ending) && IsAnchored(b, entries, ending) && NoneBefore(src, b, entries, ending)
    requires x < |src| && forall i :: !InData(b, entries, i, x)
    ensures TagAt(src, guess, b + EndOffset(entries, ending), x) == Some(6)
  {
    hide IsArchive, IsAnchored, NoneBefore, TagAt, Filled, EndOffset, FilesTokens, ArchiveTokens, InData, IsDataFile;
    var t := ArchiveTokenAt(src, b, entries, ending, x);
    InFilled(0, ArchiveTokens(b, entries, ending), |src|, t);
    if t.kind == CompressedData {
      var i := DataOf(b, entries, ending, t, x);
    }
    ArchiveByteTag(src, b, entries, ending, guess, t, x);
  }

  lemma DataOf(b: nat, entries: seq<Entry>, ending: Ending, t: Token, x: nat) returns (i: nat)
    requires t.kind == CompressedData && t in ArchiveTokens(b, entries, ending) && t.ptr <= x < t.End()
    ensures InData(b, entries, i, x)
  {
    hide FilesTokens;
    i := OnlyDataTokens(entries, b, t);
  }
}
