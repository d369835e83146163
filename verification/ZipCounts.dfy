/** What the stream of a source holds: when it reaches the end record, and how many tokens it has. */
module ZipCounts {
  import opened Bytes
  import opened ZipFormat
  import opened ZipPlan
  import opened ZipLexer
  import opened TokenStreams

  // ---------------------------------------------------------------- one section in front of others

  ghost function GapBefore(pos: nat, ptr: nat): seq<Token> {
    if pos < ptr then [Token(Unknown, pos, ptr - pos, 0, None, 0)] else []
  }

  /** What the section in front of a plan adds to its stream. */
  lemma RunFirst(pos: nat, s: Token, rest: seq<Token>, complete: bool, end: nat)
    requires pos <= end && InBounds([s] + rest, end)
    ensures InBounds(rest, end) && s.End() <= end
    ensures var r, q := Run(pos, Plan([s] + rest, complete), end), Run(s.End(), Plan(rest, complete), end);
            if pos == end then r == Stream([], true)
            else if pos > s.ptr then r == Stream([], false)
            else if s.ptr == end then r == Stream([Gap(pos, end)], true)
            else r == Stream(GapBefore(pos, s.ptr) + [s] + q.tokens, q.ok)
  {
    var all := [s] + rest;
    assert all[0] == s && all[1..] == rest;
    assert forall i :: 0 <= i < |rest| ==> rest[i] == all[i + 1];
    if pos <= s.ptr < end {
      var q := Run(s.End(), Plan(rest, complete), end);
      assert Run(s.ptr, Plan(all, complete), end) == Stream([s] + q.tokens, q.ok);
      assert [Gap(pos, s.ptr)] + ([s] + q.tokens) == [Gap(pos, s.ptr)] + [s] + q.tokens;
      assert [] + [s] == [s];
    }
  }

  lemma RunLast(pos: nat, complete: bool, end: nat)
    requires pos <= end
    ensures var r := Run(pos, Plan([], complete), end);
            if pos == end then r == Stream([], true)
            else if complete then r == Stream([Gap(pos, end)], true) else r == Stream([], false)
  {
    if pos < end && complete {
      assert Run(end, Plan([], complete), end) == Stream([], true);
    }
  }

  // ---------------------------------------------------------------- reaching the end record

  ghost predicate HasEnd(tokens: seq<Token>) {
    exists i :: 0 <= i < |tokens| && tokens[i].kind == EndRecord
  }

  lemma HasEndConcat(a: seq<Token>, b: seq<Token>)
    ensures HasEnd(a + b) <==> HasEnd(a) || HasEnd(b)
  {
    if HasEnd(a) {
      var i :| 0 <= i < |a| && a[i].kind == EndRecord;
      assert (a + b)[i].kind == EndRecord;
    }
    if HasEnd(b) {
      var i :| 0 <= i < |b| && b[i].kind == EndRecord;
      assert (a + b)[|a| + i].kind == EndRecord;
    }
  }

  lemma {:induction false} HasEndKnown(tokens: seq<Token>)
    ensures HasEnd(Known(tokens)) <==> HasEnd(tokens)
  {
    if tokens != [] {
      HasEndKnown(tokens[1..]);
      var head := if tokens[0].kind == Unknown then [] else [tokens[0]];
      HasEndConcat(head, Known(tokens[1..]));
      HasEndConcat([tokens[0]], tokens[1..]);
      assert tokens == [tokens[0]] + tokens[1..];
      HasEndOne(tokens[0]);
    }
  }

  lemma HasEndOne(t: Token)
    ensures HasEnd([t]) <==> t.kind == EndRecord
  {
    assert t.kind == EndRecord ==> [t][0].kind == EndRecord;
  }

  /** Only the last section of a tail is an end record, and no section of a file is. */
  lemma {:induction false} EndIsLast(files: seq<FileState>, tail: seq<Token>, j: nat)
    requires forall i :: 0 <= i < |tail| - 1 ==> tail[i].kind != EndRecord
    requires var all := SectionsThen(files, tail); j < |all| && all[j].kind == EndRecord
    ensures tail != [] && j == |SectionsThen(files, tail)| - 1
    decreases |files|
  {
    if files != [] {
      var first, rest := FileSections(files[0]), SectionsThen(files[1..], tail);
      assert forall i :: 0 <= i < |first| ==> first[i].kind != EndRecord;
      assert (first + rest)[j] == rest[j - |first|];
      EndIsLast(files[1..], tail, j - |first|);
    }
  }

  lemma TailEnds(src: bytes, l: Layout)
    requires LayoutOk(src, l)
    ensures var tail := LayoutTail(src, l);
            && tail != [] && tail[|tail| - 1].kind == EndRecord
            && forall i :: 0 <= i < |tail| - 1 ==> tail[i].kind != EndRecord
  {
  }

  /** A stream that gives every section of a complete plan is not corrupt. */
  lemma {:induction false} AllKnownIsOk(pos: nat, sections: seq<Token>, end: nat)
    requires pos <= end && InBounds(sections, end) && forall s :: s in sections ==> s.kind != Unknown
    requires Known(Run(pos, Plan(sections, true), end).tokens) == sections
    ensures Run(pos, Plan(sections, true), end).ok
    ensures |Run(pos, Plan(sections, true), end).tokens| == |sections| + Gaps(pos, sections, end)
    decreases |sections|
  {
    if sections == [] {
      RunLast(pos, true, end);
    } else {
      hide Run, Known, InBounds;
      var s, rest := sections[0], sections[1..];
      assert sections == [s] + rest && s in sections && forall t :: t in rest ==> t in sections;
      RunFirst(pos, s, rest, true, end);
      var q := Run(s.End(), Plan(rest, true), end).tokens;
      KnownFirst(GapBefore(pos, s.ptr), s, q);
      KnownGap(pos, end);
      AllKnownIsOk(s.End(), rest, end);
    }
  }

  lemma KnownFirst(gap: seq<Token>, s: Token, q: seq<Token>)
    requires s.kind != Unknown && (gap == [] || (|gap| == 1 && gap[0].kind == Unknown))
    ensures Known(gap + [s] + q) == [s] + Known(q)
  {
    assert ([s] + q)[1..] == q;
    if gap == [] {
      assert gap + [s] + q == [s] + q;
    } else {
      assert (gap + [s] + q)[1..] == [s] + q;
    }
  }

  lemma KnownGap(pos: nat, end: nat)
    ensures Known([]) == [] && (pos <= end ==> Known([Gap(pos, end)]) == [])
  {
    if pos <= end {
      assert [Gap(pos, end)][1..] == [];
    }
  }

  /** The bytes between sections, and after the last one, as a number of tokens. */
  ghost function Gaps(pos: nat, sections: seq<Token>, end: nat): nat
    decreases |sections|
  {
    if sections == [] then (if pos < end then 1 else 0)
    else (if pos < sections[0].ptr then 1 else 0) + Gaps(sections[0].End(), sections[1..], end)
  }

  /** The stream of a source gives its end record. */
  ghost predicate ReachesEnd(src: bytes, eocd: nat)
    requires ParseEocd(src, eocd).Some?
  {
    HasEnd(StreamOf(src, eocd).tokens)
  }

  ghost function SectionsOf(src: bytes, eocd: nat): seq<Token>
    requires ParseEocd(src, eocd).Some?
  {
    PlanOf(src, ParseEocd(src, eocd).value).sections
  }

  /** Every entry of the directory is readable, and they fill it. */
  ghost predicate DirectoryRead(src: bytes, eocd: nat)
    requires ParseEocd(src, eocd).Some?
  {
    PlanOf(src, ParseEocd(src, eocd).value).complete
  }

  // ---------------------------------------------------------------- sections in order

  /** No section reaches past the beginning of the next one. */
  ghost predicate InOrder(sections: seq<Token>) {
    forall i :: 0 <= i < |sections| - 1 ==> sections[i].End() <= sections[i + 1].ptr
  }

  lemma InOrderCons(s: Token, rest: seq<Token>)
    ensures InOrder([s] + rest) <==> (rest == [] || s.End() <= rest[0].ptr) && InOrder(rest)
  {
    var all := [s] + rest;
    assert forall i :: 0 <= i < |rest| ==> all[i + 1] == rest[i];
    if InOrder(all) {
      forall i | 0 <= i < |rest| - 1 ensures rest[i].End() <= rest[i + 1].ptr {
        assert all[i + 1].End() <= all[i + 2].ptr;
      }
      assert rest != [] ==> all[0].End() <= all[1].ptr;
    }
  }

  lemma {:induction false} FirstBeforeLast(sections: seq<Token>)
    requires sections != [] && InOrder(sections)
    ensures sections[0].ptr <= sections[|sections| - 1].ptr
    decreases |sections|
  {
    var rest := sections[1..];
    assert sections == [sections[0]] + rest;
    InOrderCons(sections[0], rest);
    if rest != [] {
      FirstBeforeLast(rest);
    }
  }

  /** The sections, and the bytes between, before and after them. */
  ghost function Filled(pos: nat, sections: seq<Token>, end: nat): seq<Token>
    decreases |sections|
  {
    if sections == [] then GapBefore(pos, end)
    else GapBefore(pos, sections[0].ptr) + [sections[0]] + Filled(sections[0].End(), sections[1..], end)
  }

  /** A complete plan gives all of its sections exactly when they are in order, and then the stream is
      the filled sections. */
  lemma {:induction false} RunInOrder(pos: nat, sections: seq<Token>, end: nat)
    requires pos <= end && InBounds(sections, end) && forall s :: s in sections ==> s.kind != Unknown
    requires sections != [] && sections[|sections| - 1].ptr < end
    ensures Known(Run(pos, Plan(sections, true), end).tokens) == sections <==> pos <= sections[0].ptr && InOrder(sections)
    ensures pos <= sections[0].ptr && InOrder(sections) ==> Run(pos, Plan(sections, true), end) == Stream(Filled(pos, sections, end), true)
    decreases |sections|
  {
    hide Run, Known, InOrder, InBounds;
    var s, rest := sections[0], sections[1..];
    assert sections == [s] + rest && s in sections;
    RunFirst(pos, s, rest, true, end);
    InOrderCons(s, rest);
    KnownGap(pos, end);
    var q := Run(s.End(), Plan(rest, true), end).tokens;
    if InOrder(sections) {
      FirstBeforeLast(sections);
    }
    KnownFirst(GapBefore(pos, s.ptr), s, q);
    if rest == [] {
      RunLast(s.End(), true, end);
      KnownGap(s.End(), end);
      InOrderNone();
    } else {
      assert forall t :: t in rest ==> t in sections;
      RunInOrder(s.End(), rest, end);
    }
  }

  lemma InOrderNone()
    ensures InOrder([])
  {
  }

  /** The layout decides whether a stream gives its end record: exactly when every entry of the
      directory is readable and no section reaches past the beginning of the next one, as in an
      archive whose directory lists the files in order of occurrence. Then there is no corruption,
      and the stream is all sections in order with the bytes between them. */
  lemma ReachesEndExactly(src: bytes, eocd: nat)
    requires ParseEocd(src, eocd).Some?
    ensures ReachesEnd(src, eocd) <==> DirectoryRead(src, eocd) && InOrder(SectionsOf(src, eocd))
    ensures ReachesEnd(src, eocd) <==> DirectoryRead(src, eocd) && Known(StreamOf(src, eocd).tokens) == SectionsOf(src, eocd)
    ensures ReachesEnd(src, eocd) ==> StreamOf(src, eocd) == Stream(Filled(0, SectionsOf(src, eocd), |src|), true)
  {
    hide ParseEocd, Known, HasEnd, InOrder, LayoutTail, Run, InBounds, ReadFiles, SectionsThen;
    var l := ParseEocd(src, eocd).value;
    var files := ReadFiles(src, l.zipBegin, l.cdBegin, l.cdEnd, l.count);
    PlanIsWellLexed(src, l, files);
    EndKnown(src, eocd);
    if files.complete {
      TailEnd(src, l);
      SectionsEnd(files.list, LayoutTail(src, l));
      RunInOrder(0, SectionsOf(src, eocd), |src|);
    }
  }

  /** When a source lexes without error, it is enough to compare with the end record. */
  lemma ReachesEndWhenOk(src: bytes, eocd: nat)
    requires ParseEocd(src, eocd).Some? && StreamOf(src, eocd).ok
    ensures DirectoryRead(src, eocd) ==> SectionsOf(src, eocd) != []
    ensures ReachesEnd(src, eocd) <==> DirectoryRead(src, eocd) && BeforeLast(SectionsOf(src, eocd))
  {
    hide ParseEocd, Known, HasEnd, BeforeLast, LayoutTail, Run, InBounds, ReadFiles, SectionsThen;
    var l := ParseEocd(src, eocd).value;
    var files := ReadFiles(src, l.zipBegin, l.cdBegin, l.cdEnd, l.count);
    PlanIsWellLexed(src, l, files);
    EndKnown(src, eocd);
    if files.complete {
      EverySectionLexed(src, l, files, PlanOf(src, l));
    }
  }

  /** The end record is given exactly with all the sections. */
  lemma EndKnown(src: bytes, eocd: nat)
    requires ParseEocd(src, eocd).Some?
    ensures ReachesEnd(src, eocd) <==> DirectoryRead(src, eocd) && Known(StreamOf(src, eocd).tokens) == SectionsOf(src, eocd)
  {
    hide ParseEocd, Known, LayoutTail, Run, InBounds, ReadFiles, SectionsThen, HasEnd, Fits;
    var l := ParseEocd(src, eocd).value;
    var files := ReadFiles(src, l.zipBegin, l.cdBegin, l.cdEnd, l.count);
    var tokens, sections := StreamOf(src, eocd).tokens, SectionsOf(src, eocd);
    PlanIsWellLexed(src, l, files);
    FilesPlanFits(src, l, files, AtFile, 0);
    RunKnown(AtFile, 0, PlanOf(src, l), |src|);
    HasEndKnown(tokens);
    TailEnds(src, l);
    PrefixHasEnd(files.list, if files.complete then LayoutTail(src, l) else [], Known(tokens));
  }

  lemma PrefixHasEnd(files: seq<FileState>, tail: seq<Token>, known: seq<Token>)
    requires known <= SectionsThen(files, tail)
    requires tail != [] ==> tail[|tail| - 1].kind == EndRecord && forall i :: 0 <= i < |tail| - 1 ==> tail[i].kind != EndRecord
    ensures HasEnd(known) <==> tail != [] && known == SectionsThen(files, tail)
  {
    var all := SectionsThen(files, tail);
    if HasEnd(known) {
      var j :| 0 <= j < |known| && known[j].kind == EndRecord;
      assert all[j] == known[j];
      EndIsLast(files, tail, j);
    }
    if tail != [] && known == all {
      LastOf(files, tail);
      assert known[|known| - 1].kind == EndRecord;
    }
  }

  lemma {:induction false} LastOf(files: seq<FileState>, tail: seq<Token>)
    requires tail != []
    ensures var all := SectionsThen(files, tail); all != [] && all[|all| - 1] == tail[|tail| - 1]
  {
    if files != [] {
      LastOf(files[1..], tail);
      LastOfTwo(FileSections(files[0]), SectionsThen(files[1..], tail));
    }
  }

  lemma LastOfTwo(a: seq<Token>, b: seq<Token>)
    requires b != []
    ensures (a + b)[|a + b| - 1] == b[|b| - 1]
  {
  }

  // ---------------------------------------------------------------- how many tokens

  /** After the directory: an overlapping section stops the stream at once, or the end record is given. */
  lemma AfterDirectoryRun(src: bytes, l: Layout)
    requires LayoutOk(src, l) && InBounds(AfterDirectory(l), |src|)
    ensures var r := Run(l.cdEnd, Plan(AfterDirectory(l), true), |src|);
            r.tokens == [] || HasEnd(r.tokens)
  {
    hide Run, HasEnd;
    var record, eocd := AfterDirectory(l)[0], Plain(EndRecord, l.eocd, l.eocdSize);
    if l.record.Some? {
      var locator := Plain(Zip64Locator, l.locator.value, LOCATOR_SIZE);
      assert AfterDirectory(l) == [record] + ([locator] + [eocd]);
      RunFirst(l.cdEnd, record, [locator] + [eocd], true, |src|);
      RunFirst(record.End(), locator, [eocd], true, |src|);
      EndGiven(locator.End(), eocd, |src|);
      HasEndAfter(GapBefore(record.End(), locator.ptr), locator, Run(locator.End(), Plan([eocd], true), |src|).tokens);
      HasEndAfter(GapBefore(l.cdEnd, record.ptr), record, Run(record.End(), Plan([locator] + [eocd], true), |src|).tokens);
    } else {
      assert AfterDirectory(l) == [eocd];
      EndGiven(l.cdEnd, eocd, |src|);
    }
  }

  lemma HasEndAfter(gap: seq<Token>, s: Token, q: seq<Token>)
    ensures HasEnd(q) || s.kind == EndRecord ==> HasEnd(gap + [s] + q)
  {
    HasEndConcat(gap + [s], q);
    HasEndConcat(gap, [s]);
    HasEndOne(s);
  }

  lemma EndGiven(pos: nat, eocd: Token, end: nat)
    requires pos <= end && eocd.kind == EndRecord && eocd.ptr < end && InBounds([eocd], end)
    ensures var r := Run(pos, Plan([eocd], true), end);
            if pos == end || pos > eocd.ptr then r.tokens == [] else HasEnd(r.tokens)
  {
    hide HasEnd, Run;
    assert [eocd] + [] == [eocd];
    RunFirst(pos, eocd, [], true, end);
    HasEndAfter(GapBefore(pos, eocd.ptr), eocd, Run(eocd.End(), Plan([], true), end).tokens);
  }

  /** Short of the end record, the sections after the files give at most two tokens. */
  lemma TailRun(src: bytes, l: Layout, pos: nat)
    requires LayoutOk(src, l) && InBounds(LayoutTail(src, l), |src|) && pos <= |src|
    ensures var r := Run(pos, Plan(LayoutTail(src, l), true), |src|);
            |r.tokens| <= 2 || HasEnd(r.tokens)
  {
    hide Run, HasEnd;
    var cd := Plain(CentralDirectory, l.cdBegin, l.cdEnd - l.cdBegin);
    assert LayoutTail(src, l) == [cd] + AfterDirectory(l);
    RunFirst(pos, cd, AfterDirectory(l), true, |src|);
    AfterDirectoryRun(src, l);
    HasEndAfter(GapBefore(pos, cd.ptr), cd, Run(l.cdEnd, Plan(AfterDirectory(l), true), |src|).tokens);
  }

  /** A section that touches the position gives at most one token more than what follows it. */
  lemma AtMostOneMore(pos: nat, s: Token, rest: seq<Token>, complete: bool, end: nat)
    requires pos <= end && InBounds([s] + rest, end)
    ensures InBounds(rest, end) && s.End() <= end
    ensures var r, q := Run(pos, Plan([s] + rest, complete), end).tokens, Run(s.End(), Plan(rest, complete), end).tokens;
            && (|r| <= (if pos == s.ptr then 1 else 2) + |q|)
            && (HasEnd(q) ==> HasEnd(r) || |r| <= 1)
            && (|r| <= 1 || |r| == (if pos == s.ptr then 1 else 2) + |q|)
  {
    hide Run, HasEnd;
    RunFirst(pos, s, rest, complete, end);
    HasEndAfter(GapBefore(pos, s.ptr), s, Run(s.End(), Plan(rest, complete), end).tokens);
  }

  /** A file in front of others adds at most four tokens. */
  lemma FileRun(pos: nat, f: FileState, rest: seq<Token>, complete: bool, end: nat) returns (next: nat)
    requires pos <= end && WholeFile(f, end) && InBounds(FileSections(f) + rest, end)
    ensures next <= end && InBounds(rest, end)
    ensures var r, q := Run(pos, Plan(FileSections(f) + rest, complete), end).tokens, Run(next, Plan(rest, complete), end).tokens;
            |r| <= 4 || (|r| <= 4 + |q| && (HasEnd(q) ==> HasEnd(r)))
  {
    hide Run, HasEnd, InBounds;
    var head := FileToken(f, LocalFileHeader, f.lfh, f.lfhSize).value;
    var data := FileToken(f, CompressedData, f.data, f.dataSize).value;
    if f.dd.Some? {
      var dd := FileToken(f, DataDescriptor, f.dd, f.ddSize).value;
      assert FileSections(f) + rest == [head] + ([data] + ([dd] + rest));
      AtMostOneMore(pos, head, [data] + ([dd] + rest), complete, end);
      AtMostOneMore(head.End(), data, [dd] + rest, complete, end);
      AtMostOneMore(data.End(), dd, rest, complete, end);
      next := dd.End();
    } else {
      assert FileSections(f) + rest == [head] + ([data] + rest);
      AtMostOneMore(pos, head, [data] + rest, complete, end);
      AtMostOneMore(head.End(), data, rest, complete, end);
      next := data.End();
    }
  }

  /** Short of the end record, n files give at most 4n + 2 tokens. */
  lemma {:induction false} FilesRun(src: bytes, l: Layout, files: Files, pos: nat)
    requires LayoutOk(src, l) && pos <= |src| && forall f :: f in files.list ==> WholeFile(f, |src|)
    requires InBounds(FilesPlan(files, LayoutTail(src, l)).sections, |src|)
    ensures var r := Run(pos, FilesPlan(files, LayoutTail(src, l)), |src|).tokens;
            |r| <= 4 * |files.list| + 2 || HasEnd(r)
    decreases |files.list|
  {
    hide Run, HasEnd, LayoutOk, InBounds, LayoutTail, FileSections;
    if files.list == [] {
      if files.complete {
        TailRun(src, l, pos);
      } else {
        RunLast(pos, false, |src|);
      }
    } else {
      var f, rest := files.list[0], Files(files.list[1..], files.complete);
      assert f in files.list;
      var next := FileRun(pos, f, FilesPlan(rest, LayoutTail(src, l)).sections, files.complete, |src|);
      FilesRun(src, l, rest, next);
    }
  }

  function Descriptors(files: seq<FileState>): nat {
    if files == [] then 0 else (if files[0].dd.Some? then 1 else 0) + Descriptors(files[1..])
  }

  lemma {:induction false} SectionCount(files: seq<FileState>, tail: seq<Token>, end: nat)
    requires forall f :: f in files ==> WholeFile(f, end)
    ensures |SectionsThen(files, tail)| == 2 * |files| + Descriptors(files) + |tail|
    decreases |files|
  {
    if files != [] {
      assert WholeFile(files[0], end);
      SectionCount(files[1..], tail, end);
    }
  }

  lemma {:induction false} CompleteCount(src: bytes, zipBegin: nat, p: nat, cdEnd: nat, n: nat)
    requires zipBegin <= |src| && p <= cdEnd <= |src|
    ensures var r := ReadFiles(src, zipBegin, p, cdEnd, n); r.complete ==> |r.list| == n
    decreases n
  {
    hide NextFile;
    if n > 0 {
      match NextFile(src, zipBegin, p, cdEnd) {
        case None =>
        case Some((_, next)) => CompleteCount(src, zipBegin, next, cdEnd, n - 1);
      }
    }
  }

  /** The files that the directory leads to. */
  ghost function FilesOf(src: bytes, eocd: nat): seq<FileState>
    requires ParseEocd(src, eocd).Some?
  {
    var l := ParseEocd(src, eocd).value;
    ReadFiles(src, l.zipBegin, l.cdBegin, l.cdEnd, l.count).list
  }

  /** 1 for an archive with Zip64 end records. */
  ghost function Zip64Ends(src: bytes, eocd: nat): nat
    requires ParseEocd(src, eocd).Some?
  {
    if ParseEocd(src, eocd).value.record.Some? then 1 else 0
  }

  /** A stream that reaches its end record has a token per section and one per gap; and it has two
      sections per file, one per descriptor, and two or four at the end. */
  lemma TokensExactly(src: bytes, eocd: nat)
    requires ParseEocd(src, eocd).Some? && ReachesEnd(src, eocd)
    ensures |StreamOf(src, eocd).tokens| == |SectionsOf(src, eocd)| + Gaps(0, SectionsOf(src, eocd), |src|)
    ensures |SectionsOf(src, eocd)| == 2 * FileCount(src, eocd) + Descriptors(FilesOf(src, eocd)) + 2 + 2 * Zip64Ends(src, eocd)
  {
    hide ParseEocd, Run, InBounds, HasEnd, ReadFiles, SectionsThen, Known;
    var l := ParseEocd(src, eocd).value;
    var files := ReadFiles(src, l.zipBegin, l.cdBegin, l.cdEnd, l.count);
    PlanIsWellLexed(src, l, files);
    EndKnown(src, eocd);
    TailEnd(src, l);
    SectionsEnd(files.list, LayoutTail(src, l));
    AllKnownIsOk(0, SectionsOf(src, eocd), |src|);
    SectionCount(files.list, LayoutTail(src, l), |src|);
    CompleteCount(src, l.zipBegin, l.cdBegin, l.cdEnd, l.count);
    TailForm(src, l);
  }

  /** The expected number of tokens, four per file and four more, is enough exactly when lexing breaks
      off before the end record, because the directory is unreadable or the sections are not in
      order, or when the descriptors and the gaps leave room for it. */
  lemma ExpectedSuffices(src: bytes, eocd: nat)
    requires ParseEocd(src, eocd).Some?
    ensures |StreamOf(src, eocd).tokens| <= 4 * FileCount(src, eocd) + 4
            <==> !DirectoryRead(src, eocd) || !InOrder(SectionsOf(src, eocd))
                 || Descriptors(FilesOf(src, eocd)) + Gaps(0, SectionsOf(src, eocd), |src|) + 2 * Zip64Ends(src, eocd)
                    <= 2 * FileCount(src, eocd) + 2
  {
    hide ParseEocd, Run, InBounds, HasEnd, InOrder, ReadFiles, SectionsThen, SectionsOf, FilesOf, Zip64Ends, DirectoryRead;
    ReachesEndExactly(src, eocd);
    if ReachesEnd(src, eocd) {
      TokensExactly(src, eocd);
    } else {
      var l := ParseEocd(src, eocd).value;
      var files := ReadFiles(src, l.zipBegin, l.cdBegin, l.cdEnd, l.count);
      PlanIsWellLexed(src, l, files);
      FilesRun(src, l, files, 0);
    }
  }
}
