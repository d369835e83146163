/** A reference for what lexing a zip file means: walk the list of known sections, give the bytes
    between them the type Unknown, and report corruption when a section begins before the current
    position. Everything promised about the token stream is proved here, on this reference. */
module ZipPlan {
  import opened Bytes
  import opened ZipFormat
  import opened TokenStreams

  datatype TokenKind =
    | LocalFileHeader
    | CompressedData
    | DataDescriptor
    | CentralDirectory
    | Zip64Record
    | Zip64Locator
    | EndRecord
    | Unknown

  datatype Token = Token(kind: TokenKind, ptr: nat, size: nat,
                         compressionMethod: nat, filename: Option<nat>, filenameSize: nat)
  {
    function End(): nat {
      ptr + size
    }

    function NameEnd(): nat {
      if filename.Some? then filename.value + filenameSize else 0
    }
  }

  function Plain(kind: TokenKind, ptr: nat, size: nat): Token {
    Token(kind, ptr, size, 0, None, 0)
  }

  function Gap(begin: nat, end: nat): Token
    requires begin <= end
  {
    Plain(Unknown, begin, end - begin)
  }

  /** The known sections still to come; when the plan is not complete, corruption follows them. */
  datatype Plan = Plan(sections: seq<Token>, complete: bool)

  ghost predicate InBounds(sections: seq<Token>, end: nat) {
    forall i :: 0 <= i < |sections| ==> sections[i].End() <= end && sections[i].NameEnd() <= end
  }

  /** One token: the gap before the next section, that section, or the bytes after the last one. */
  datatype Next = Corrupt | Emit(token: Token, pos: nat, plan: Plan)

  ghost function Step(pos: nat, plan: Plan, end: nat): Next
    requires pos < end
  {
    if plan.sections == [] then
      if plan.complete then Emit(Gap(pos, end), end, plan) else Corrupt
    else
      var s := plan.sections[0];
      if pos < s.ptr then Emit(Gap(pos, s.ptr), s.ptr, plan)
      else if pos > s.ptr then Corrupt
      else Emit(s, s.End(), plan.(sections := plan.sections[1..]))
  }

  /** The whole stream from a position: steps until the end of the source. */
  ghost function Run(pos: nat, plan: Plan, end: nat): (r: Stream<Token>)
    requires pos <= end && InBounds(plan.sections, end)
    decreases |plan.sections|, end - pos
  {
    if pos == end then Stream([], true)
    else
      match Step(pos, plan, end)
      case Corrupt => Stream([], false)
      case Emit(token, pos', plan') =>
        var rest := Run(pos', plan', end);
        Stream([token] + rest.tokens, rest.ok)
  }

  // ---------------------------------------------------------------- tiling

  /** Each token starts where the previous one ended. */
  ghost predicate Tiles(tokens: seq<Token>, pos: nat, last: nat) {
    if tokens == [] then pos == last
    else tokens[0].ptr == pos && Tiles(tokens[1..], tokens[0].End(), last)
  }

  ghost function Text(src: bytes, tokens: seq<Token>): bytes
    requires InBounds(tokens, |src|)
  {
    if tokens == [] then []
    else src[tokens[0].ptr..tokens[0].End()] + Text(src, tokens[1..])
  }

  lemma {:induction false} RunTiles(pos: nat, plan: Plan, end: nat) returns (last: nat)
    requires pos <= end && InBounds(plan.sections, end)
    ensures var r := Run(pos, plan, end);
            && InBounds(r.tokens, end) && pos <= last <= end && Tiles(r.tokens, pos, last)
            && (r.ok ==> last == end)
    decreases |plan.sections|, end - pos
  {
    last := pos;
    if pos < end {
      var step := Step(pos, plan, end);
      if step.Emit? {
        last := RunTiles(step.pos, step.plan, end);
        var rest := Run(step.pos, step.plan, end).tokens;
        assert Run(pos, plan, end).tokens[1..] == rest;
      }
    }
  }

  lemma {:induction false} TilesText(src: bytes, tokens: seq<Token>, pos: nat, last: nat)
    requires InBounds(tokens, |src|) && pos <= |src| && Tiles(tokens, pos, last)
    ensures pos <= last <= |src| && Text(src, tokens) == src[pos..last]
    decreases |tokens|
  {
    if tokens != [] {
      TilesText(src, tokens[1..], tokens[0].End(), last);
    }
  }

  // ---------------------------------------------------------------- the grammar of token kinds

  /** States of the grammar
        (Unknown? LFH Data Descriptor?)* Unknown? Directory
        (Unknown? Record Unknown? Locator End | Unknown? End) Unknown?
      named by what has just been read. */
  datatype Place = AtFile | FileGap | InHeader | InData | AtDirectory | DirectoryGap
                 | AtRecord | RecordGap | AtLocator | AtEnd | Trailing

  function After(place: Place, kind: TokenKind): Option<Place> {
    match place
    case AtFile =>
      if kind == Unknown then Some(FileGap) else AfterGap(kind)
    case FileGap => AfterGap(kind)
    case InHeader =>
      if kind == CompressedData then Some(InData) else None
    case InData =>
      if kind == DataDescriptor then Some(AtFile) else if kind == Unknown then Some(FileGap) else AfterGap(kind)
    case AtDirectory =>
      if kind == Unknown then Some(DirectoryGap) else if kind == Zip64Record then Some(AtRecord) else if kind == EndRecord then Some(AtEnd) else None
    case DirectoryGap =>
      if kind == Zip64Record then Some(AtRecord) else if kind == EndRecord then Some(AtEnd) else None
    case AtRecord =>
      if kind == Unknown then Some(RecordGap) else if kind == Zip64Locator then Some(AtLocator) else None
    case RecordGap =>
      if kind == Zip64Locator then Some(AtLocator) else None
    case AtLocator =>
      if kind == EndRecord then Some(AtEnd) else None
    case AtEnd =>
      if kind == Unknown then Some(Trailing) else None
    case Trailing => None
  }

  /** After the bytes between files: the next file, or the directory. */
  function AfterGap(kind: TokenKind): Option<Place> {
    if kind == LocalFileHeader then Some(InHeader) else if kind == CentralDirectory then Some(AtDirectory) else None
  }

  /** The kinds of the tokens spell a prefix of a word of the grammar. */
  predicate Grammatical(place: Place, tokens: seq<Token>)
    decreases |tokens|
  {
    tokens == [] ||
    match After(place, tokens[0].kind)
    case None => false
    case Some(next) => Grammatical(next, tokens[1..])
  }

  /** Unknown bytes may come between the place and a section of this kind. */
  predicate GapAllowed(place: Place, kind: TokenKind) {
    match After(place, Unknown)
    case None => false
    case Some(gap) => After(gap, kind).Some? && After(gap, kind) == After(place, kind)
  }

  /** A list of sections read from a place and a position keeps the grammar however gaps fall:
      where the grammar has no gap, the next section begins exactly at the position. */
  ghost predicate Fits(place: Place, pos: nat, plan: Plan)
    decreases |plan.sections|
  {
    if plan.sections == [] then plan.complete ==> place == AtEnd
    else
      var s := plan.sections[0];
      var next := After(place, s.kind);
      && next.Some?
      && s.kind != Unknown
      && (pos == s.ptr || GapAllowed(place, s.kind))
      && Fits(next.value, s.End(), plan.(sections := plan.sections[1..]))
  }

  lemma FitsAfterGap(place: Place, pos: nat, pos': nat, plan: Plan)
    requires Fits(place, pos, plan) && plan.sections != [] && pos != pos' == plan.sections[0].ptr
    ensures After(place, Unknown).Some? && Fits(After(place, Unknown).value, pos', plan)
  {
  }

  lemma {:induction false} RunGrammatical(place: Place, pos: nat, plan: Plan, end: nat)
    requires pos <= end && InBounds(plan.sections, end) && Fits(place, pos, plan)
    ensures Grammatical(place, Run(pos, plan, end).tokens)
    decreases |plan.sections|, end - pos
  {
    if pos < end && Step(pos, plan, end).Emit? {
      var step := Step(pos, plan, end);
      var rest := Run(step.pos, step.plan, end).tokens;
      assert Run(pos, plan, end).tokens[1..] == rest;
      if plan.sections == [] {
        assert Run(step.pos, step.plan, end) == Stream([], true);
      } else if pos < plan.sections[0].ptr {
        FitsAfterGap(place, pos, step.pos, plan);
        RunGrammatical(After(place, Unknown).value, step.pos, plan, end);
      } else {
        RunGrammatical(After(place, plan.sections[0].kind).value, step.pos, step.plan, end);
      }
    }
  }

  /** Two data tokens are never neighbours. */
  lemma {:induction false} DataApart(place: Place, tokens: seq<Token>, i: nat)
    requires Grammatical(place, tokens) && i + 1 < |tokens| && tokens[i].kind == CompressedData
    ensures tokens[i + 1].kind != CompressedData
    decreases |tokens|
  {
    if i > 0 {
      DataApart(After(place, tokens[0].kind).value, tokens[1..], i - 1);
    } else {
      assert tokens[1..][0] == tokens[1];
    }
  }

  // ---------------------------------------------------------------- how many tokens

  /** Tokens that a list of sections can give: one each, one more where a gap is allowed,
      and one for what follows the last section. */
  ghost function Cost(place: Place, sections: seq<Token>): nat
    decreases |sections|
  {
    if sections == [] then 1
    else
      match After(place, sections[0].kind)
      case None => 0
      case Some(next) => (if GapAllowed(place, sections[0].kind) then 2 else 1) + Cost(next, sections[1..])
  }

  lemma {:induction false} RunCost(place: Place, pos: nat, plan: Plan, end: nat)
    requires pos <= end && InBounds(plan.sections, end) && Fits(place, pos, plan)
    ensures |Run(pos, plan, end).tokens| <= Cost(place, plan.sections)
    decreases |plan.sections|
  {
    if pos < end && Step(pos, plan, end).Emit? {
      var step := Step(pos, plan, end);
      if plan.sections == [] {
        assert Run(step.pos, step.plan, end) == Stream([], true);
      } else {
        var s := plan.sections[0];
        var rest := plan.(sections := plan.sections[1..]);
        RunCost(After(place, s.kind).value, s.End(), rest, end);
        assert Run(s.ptr, plan, end).tokens == [] || Step(s.ptr, plan, end) == Emit(s, s.End(), rest);
      }
    }
  }

  // ---------------------------------------------------------------- known tokens

  /** Dropping the Unknown tokens leaves a prefix of the planned sections: nothing is invented,
      skipped or reordered. */
  ghost function Known(tokens: seq<Token>): seq<Token> {
    if tokens == [] then []
    else (if tokens[0].kind == Unknown then [] else [tokens[0]]) + Known(tokens[1..])
  }

  lemma {:induction false} RunKnown(place: Place, pos: nat, plan: Plan, end: nat)
    requires pos <= end && InBounds(plan.sections, end) && Fits(place, pos, plan)
    ensures Known(Run(pos, plan, end).tokens) <= plan.sections
    decreases |plan.sections|, end - pos
  {
    if pos < end && Step(pos, plan, end).Emit? {
      var step := Step(pos, plan, end);
      var all := Run(pos, plan, end).tokens;
      var rest := Run(step.pos, step.plan, end).tokens;
      assert all[1..] == rest;
      if plan.sections == [] {
        assert rest == [];
      } else if pos < plan.sections[0].ptr {
        FitsAfterGap(place, pos, step.pos, plan);
        RunKnown(After(place, Unknown).value, step.pos, plan, end);
        assert Known(all) == [] + Known(rest);
      } else {
        RunKnown(After(place, plan.sections[0].kind).value, step.pos, step.plan, end);
        assert Known(all) == [plan.sections[0]] + Known(rest);
      }
    }
  }

  /** No section but the last reaches past the beginning of the last one. */
  ghost predicate BeforeLast(sections: seq<Token>)
    requires sections != []
  {
    forall i :: 0 <= i < |sections| - 1 ==> sections[i].End() <= sections[|sections| - 1].ptr
  }

  lemma BeforeLastCons(s: Token, tail: seq<Token>)
    requires tail != []
    ensures BeforeLast([s] + tail) <==> s.End() <= tail[|tail| - 1].ptr && BeforeLast(tail)
  {
    var all := [s] + tail;
    assert all[|all| - 1] == tail[|tail| - 1] && all[0] == s;
    forall i | 0 <= i < |tail| ensures tail[i] == all[i + 1] {}
  }

  /** A successful run gives every planned section exactly when no earlier section reaches past
      the beginning of the last one; otherwise it stops early, at the end of the source. */
  lemma {:induction false} RunComplete(pos: nat, plan: Plan, end: nat)
    requires pos <= end && InBounds(plan.sections, end) && forall s :: s in plan.sections ==> s.kind != Unknown
    requires plan.sections != [] && plan.sections[|plan.sections| - 1].ptr < end
    requires Run(pos, plan, end).ok
    ensures Known(Run(pos, plan, end).tokens) == plan.sections
            <==> pos <= plan.sections[|plan.sections| - 1].ptr && BeforeLast(plan.sections)
    decreases |plan.sections|, end - pos
  {
    if pos < end {
      var step := Step(pos, plan, end);
      var all := Run(pos, plan, end).tokens;
      var rest := Run(step.pos, step.plan, end).tokens;
      assert all[1..] == rest;
      var s := plan.sections[0];
      if pos < s.ptr {
        RunComplete(step.pos, plan, end);
        assert Known(all) == [] + Known(rest);
        assert BeforeLast(plan.sections) ==> s.ptr <= plan.sections[|plan.sections| - 1].ptr;
      } else {
        var tail := step.plan.sections;
        assert Known(all) == [s] + Known(rest);
        assert plan.sections == [s] + tail;
        assert Known(all)[1..] == Known(rest) && plan.sections[1..] == tail;
        if tail == [] {
          if step.pos < end {
            assert Run(end, step.plan, end).tokens == [];
            assert rest == [Gap(step.pos, end)] && rest[1..] == [];
          }
          assert Known(rest) == [];
        } else {
          BeforeLastCons(s, tail);
          RunComplete(step.pos, step.plan, end);
        }
      }
    }
  }

  function CountDataTokens(tokens: seq<Token>): nat {
    if tokens == [] then 0
    else (if tokens[0].kind == CompressedData then 1 else 0) + CountDataTokens(tokens[1..])
  }

  lemma {:induction false} KnownData(tokens: seq<Token>)
    ensures CountDataTokens(Known(tokens)) == CountDataTokens(tokens)
  {
    if tokens != [] {
      KnownData(tokens[1..]);
      var k := Known(tokens[1..]);
      assert ([tokens[0]] + k)[1..] == k;
      assert [] + k == k;
    }
  }

  lemma {:induction false} CountDataTokensSplit(a: seq<Token>, b: seq<Token>)
    ensures CountDataTokens(a + b) == CountDataTokens(a) + CountDataTokens(b)
  {
    if a == [] {
      assert a + b == b;
    } else {
      assert (a + b)[1..] == a[1..] + b;
      CountDataTokensSplit(a[1..], b);
    }
  }

  // ---------------------------------------------------------------- the plan of a zip file

  /** A section in front of others, if it is pending. */
  function Then(section: Option<Token>, rest: seq<Token>): seq<Token> {
    if section.Some? then [section.value] + rest else rest
  }

  /** The pending sections of a file. */
  function FileSections(f: FileState): seq<Token> {
    Then(FileToken(f, LocalFileHeader, f.lfh, f.lfhSize),
         Then(FileToken(f, CompressedData, f.data, f.dataSize),
              Then(FileToken(f, DataDescriptor, f.dd, f.ddSize), [])))
  }

  function FileToken(f: FileState, kind: TokenKind, ptr: Option<nat>, size: nat): Option<Token> {
    if ptr.Some? then Some(Token(kind, ptr.value, size, f.compressionMethod, f.filename, f.filenameSize)) else None
  }

  function PlainToken(kind: TokenKind, ptr: Option<nat>, size: nat): Option<Token> {
    if ptr.Some? then Some(Plain(kind, ptr.value, size)) else None
  }

  /** The sections after the files, given those not yet lexed. */
  function TailSections(directory: Option<nat>, cdEnd: nat, record: Option<nat>, recordSize: nat,
                        locator: Option<nat>, eocd: Option<nat>, eocdSize: nat): seq<Token>
    requires directory.Some? ==> directory.value <= cdEnd
  {
    Then(PlainToken(CentralDirectory, directory, if directory.Some? then cdEnd - directory.value else 0),
         Then(PlainToken(Zip64Record, record, recordSize),
              Then(PlainToken(Zip64Locator, locator, LOCATOR_SIZE),
                   Then(PlainToken(EndRecord, eocd, eocdSize), []))))
  }

  /** The files of the n directory entries that start at p. Reading breaks off at a bad entry, and
      is not complete either when the entries do not fill the directory. */
  datatype Files = Files(list: seq<FileState>, complete: bool)

  function ReadFiles(src: bytes, zipBegin: nat, p: nat, cdEnd: nat, n: nat): (r: Files)
    requires zipBegin <= |src| && p <= cdEnd <= |src|
    ensures |r.list| <= n && forall f :: f in r.list ==> WholeFile(f, |src|)
    decreases n
  {
    if n == 0 then Files([], p == cdEnd)
    else
      match NextFile(src, zipBegin, p, cdEnd)
      case None => Files([], false)
      case Some((f, next)) =>
        var rest := ReadFiles(src, zipBegin, next, cdEnd, n - 1);
        Files([f] + rest.list, rest.complete)
  }

  predicate WholeFile(f: FileState, end: nat) {
    f.Ok(end) && f.lfh.Some? && f.data.Some?
  }

  /** The sections of the files, then the tail. */
  function SectionsThen(files: seq<FileState>, tail: seq<Token>): seq<Token> {
    if files == [] then tail else FileSections(files[0]) + SectionsThen(files[1..], tail)
  }

  function FilesPlan(files: Files, tail: seq<Token>): Plan {
    Plan(SectionsThen(files.list, if files.complete then tail else []), files.complete)
  }

  /** The file of the directory entry at p, and where the next entry starts. */
  function NextFile(src: bytes, zipBegin: nat, p: nat, cdEnd: nat): (r: Option<(FileState, nat)>)
    requires zipBegin <= |src| && p <= cdEnd <= |src|
    ensures r.Some? ==> p < r.value.1 <= cdEnd
    ensures r.Some? ==> WholeFile(r.value.0, |src|)
  {
    match ReadCdfh(src, p, cdEnd)
    case None => None
    case Some(c) =>
      match ReadFile(src, zipBegin, c)
      case None => None
      case Some(f) => Some((f, p + c.length))
  }

  /** The plan of n entries is the sections of the first file and the plan of the others. */
  lemma NextFilePlan(src: bytes, zipBegin: nat, p: nat, cdEnd: nat, n: nat, tail: seq<Token>)
    requires zipBegin <= |src| && p <= cdEnd <= |src| && n > 0 && NextFile(src, zipBegin, p, cdEnd).Some?
    ensures var (f, next) := NextFile(src, zipBegin, p, cdEnd).value;
            var rest := FilesPlan(ReadFiles(src, zipBegin, next, cdEnd, n - 1), tail);
            FilesPlan(ReadFiles(src, zipBegin, p, cdEnd, n), tail) == Plan(FileSections(f) + rest.sections, rest.complete)
  {
    hide NextFile, FileSections;
    var (f, next) := NextFile(src, zipBegin, p, cdEnd).value;
    var rest := ReadFiles(src, zipBegin, next, cdEnd, n - 1);
    assert ([f] + rest.list)[1..] == rest.list;
  }

  function LayoutTail(src: bytes, l: Layout): seq<Token>
    requires LayoutOk(src, l)
  {
    TailSections(Some(l.cdBegin), l.cdEnd, l.record, l.recordSize, l.locator, Some(l.eocd), l.eocdSize)
  }

  /** The plan of a zip file whose end records give the layout l. */
  function PlanOf(src: bytes, l: Layout): Plan
    requires LayoutOk(src, l)
  {
    FilesPlan(ReadFiles(src, l.zipBegin, l.cdBegin, l.cdEnd, l.count), LayoutTail(src, l))
  }

  lemma InBoundsConcat(a: seq<Token>, b: seq<Token>, end: nat)
    requires InBounds(a, end) && InBounds(b, end)
    ensures InBounds(a + b, end)
  {
  }

  lemma EmptyInBounds(end: nat)
    ensures InBounds([], end)
  {
  }

  lemma FileInBounds(f: FileState, end: nat)
    requires f.Ok(end)
    ensures InBounds(FileSections(f), end)
  {
  }

  lemma {:induction false} SectionsInBounds(files: seq<FileState>, tail: seq<Token>, end: nat)
    requires (forall f :: f in files ==> WholeFile(f, end)) && InBounds(tail, end)
    ensures InBounds(SectionsThen(files, tail), end)
  {
    if files != [] {
      assert WholeFile(files[0], end);
      FileInBounds(files[0], end);
      SectionsInBounds(files[1..], tail, end);
      InBoundsConcat(FileSections(files[0]), SectionsThen(files[1..], tail), end);
    }
  }

  /** One section in front of a plan that fits. */
  lemma Prepend(place: Place, pos: nat, s: Token, rest: Plan)
    requires s.kind != Unknown && After(place, s.kind).Some?
    requires pos == s.ptr || GapAllowed(place, s.kind)
    requires Fits(After(place, s.kind).value, s.End(), rest)
    ensures Fits(place, pos, rest.(sections := [s] + rest.sections))
    ensures Cost(place, [s] + rest.sections)
         == (if GapAllowed(place, s.kind) then 2 else 1) + Cost(After(place, s.kind).value, rest.sections)
    ensures CountDataTokens([s] + rest.sections) == (if s.kind == CompressedData then 1 else 0) + CountDataTokens(rest.sections)
  {
    assert ([s] + rest.sections)[1..] == rest.sections;
  }

  /** The sections after the directory. */
  function AfterDirectory(l: Layout): seq<Token> {
    Then(PlainToken(Zip64Record, l.record, l.recordSize),
         Then(PlainToken(Zip64Locator, l.locator, LOCATOR_SIZE), [Plain(EndRecord, l.eocd, l.eocdSize)]))
  }

  lemma TailForm(src: bytes, l: Layout)
    requires LayoutOk(src, l)
    ensures LayoutTail(src, l) == [Plain(CentralDirectory, l.cdBegin, l.cdEnd - l.cdBegin)] + AfterDirectory(l)
  {
    assert [Plain(EndRecord, l.eocd, l.eocdSize)] + [] == [Plain(EndRecord, l.eocd, l.eocdSize)];
  }

  lemma AfterDirectoryFits(src: bytes, l: Layout)
    requires LayoutOk(src, l)
    ensures Fits(AtDirectory, l.cdEnd, Plan(AfterDirectory(l), true))
    ensures Cost(AtDirectory, AfterDirectory(l)) <= 6 && CountDataTokens(AfterDirectory(l)) == 0
  {
    var end := Plain(EndRecord, l.eocd, l.eocdSize);
    assert [end] + [] == [end];
    if l.record.None? {
      Prepend(AtDirectory, l.cdEnd, end, Plan([], true));
    } else {
      var rec, loc := Plain(Zip64Record, l.record.value, l.recordSize), Plain(Zip64Locator, l.locator.value, LOCATOR_SIZE);
      Prepend(AtLocator, l.eocd, end, Plan([], true));
      Prepend(AtRecord, rec.End(), loc, Plan([end], true));
      Prepend(AtDirectory, l.cdEnd, rec, Plan([loc] + [end], true));
    }
  }

  lemma TailFits(src: bytes, l: Layout, place: Place, pos: nat)
    requires LayoutOk(src, l) && (place == AtFile || place == InData)
    ensures Fits(place, pos, Plan(LayoutTail(src, l), true))
    ensures Cost(place, LayoutTail(src, l)) <= 8
    ensures CountDataTokens(LayoutTail(src, l)) == 0
  {
    hide LayoutTail, AfterDirectory;
    TailForm(src, l);
    AfterDirectoryFits(src, l);
    Prepend(place, pos, Plain(CentralDirectory, l.cdBegin, l.cdEnd - l.cdBegin), Plan(AfterDirectory(l), true));
  }

  /** A file's sections in front of a plan that fits after them. */
  lemma FileFits(place: Place, pos: nat, f: FileState, rest: Plan, end: nat)
    requires place == AtFile || place == InData
    requires WholeFile(f, end)
    requires if f.dd.Some? then Fits(AtFile, f.dd.value + f.ddSize, rest)
             else Fits(InData, f.data.value + f.dataSize, rest)
    ensures Fits(place, pos, rest.(sections := FileSections(f) + rest.sections))
    ensures Cost(place, FileSections(f) + rest.sections)
         == if f.dd.Some? then 4 + Cost(AtFile, rest.sections) else 3 + Cost(InData, rest.sections)
    ensures CountDataTokens(FileSections(f) + rest.sections) == 1 + CountDataTokens(rest.sections)
  {
    hide Fits, Cost, CountDataTokens;
    var head := FileToken(f, LocalFileHeader, f.lfh, f.lfhSize).value;
    var data := FileToken(f, CompressedData, f.data, f.dataSize).value;
    var tail := Then(FileToken(f, DataDescriptor, f.dd, f.ddSize), rest.sections);
    if f.dd.Some? {
      Prepend(InData, f.dd.value, FileToken(f, DataDescriptor, f.dd, f.ddSize).value, rest);
    }
    Prepend(InHeader, head.End(), data, rest.(sections := tail));
    Prepend(place, pos, head, rest.(sections := [data] + tail));
    assert FileSections(f) + rest.sections == [head] + ([data] + tail);
  }

  /** The sections of n files and the tail keep the grammar, cost at most 4n + 8 tokens and hold
      at most n data sections. */
  lemma {:induction false} FilesPlanFits(src: bytes, l: Layout, files: Files, place: Place, pos: nat)
    requires LayoutOk(src, l) && (place == AtFile || place == InData)
    requires forall f :: f in files.list ==> WholeFile(f, |src|)
    ensures var plan := FilesPlan(files, LayoutTail(src, l));
            && Fits(place, pos, plan)
            && Cost(place, plan.sections) <= 4 * |files.list| + 8
            && CountDataTokens(plan.sections) <= |files.list|
    decreases |files.list|
  {
    if files.list == [] {
      TailFits(src, l, place, pos);
    } else {
      assert WholeFile(files.list[0], |src|);
      var f, rest := files.list[0], Files(files.list[1..], files.complete);
      if f.dd.Some? {
        FilesPlanFits(src, l, rest, AtFile, f.dd.value + f.ddSize);
      } else {
        FilesPlanFits(src, l, rest, InData, f.data.value + f.dataSize);
      }
      FileFits(place, pos, f, FilesPlan(rest, LayoutTail(src, l)), |src|);
    }
  }

  // ---------------------------------------------------------------- the promises, together

  /** Everything a zip file's token stream keeps, whatever the bytes are. */
  ghost predicate WellLexed(src: bytes, numFiles: nat, r: Stream<Token>) {
    && InBounds(r.tokens, |src|)
    && (exists last: nat :: Tiles(r.tokens, 0, last) && last <= |src| && Text(src, r.tokens) == src[..last])
    && (r.ok ==> Text(src, r.tokens) == src)
    && Grammatical(AtFile, r.tokens)
    && (forall i :: 0 <= i < |r.tokens| - 1 && r.tokens[i].kind == CompressedData ==> r.tokens[i + 1].kind != CompressedData)
    && CountDataTokens(r.tokens) <= numFiles
    && |r.tokens| <= 4 * numFiles + 8
  }

  lemma PrefixData(a: seq<Token>, b: seq<Token>)
    requires a <= b
    ensures CountDataTokens(a) <= CountDataTokens(b)
  {
    assert b == a + b[|a|..];
    CountDataTokensSplit(a, b[|a|..]);
  }

  lemma FitsIsWellLexed(src: bytes, numFiles: nat, plan: Plan)
    requires InBounds(plan.sections, |src|) && Fits(AtFile, 0, plan)
    requires Cost(AtFile, plan.sections) <= 4 * numFiles + 8 && CountDataTokens(plan.sections) <= numFiles
    ensures WellLexed(src, numFiles, Run(0, plan, |src|))
  {
    var tokens := Run(0, plan, |src|).tokens;
    var last := RunTiles(0, plan, |src|);
    TilesText(src, tokens, 0, last);
    RunGrammatical(AtFile, 0, plan, |src|);
    forall i | 0 <= i < |tokens| - 1 && tokens[i].kind == CompressedData ensures tokens[i + 1].kind != CompressedData {
      DataApart(AtFile, tokens, i);
    }
    RunCost(AtFile, 0, plan, |src|);
    RunKnown(AtFile, 0, plan, |src|);
    KnownData(tokens);
    PrefixData(Known(tokens), plan.sections);
  }

  /** For every source, every layout of its end records and whatever files its directory leads to,
      the stream of the plan tiles the source, keeps the grammar, and is bounded by the number of files. */
  lemma PlanIsWellLexed(src: bytes, l: Layout, files: Files)
    requires LayoutOk(src, l) && |files.list| <= l.count && forall f :: f in files.list ==> WholeFile(f, |src|)
    ensures InBounds(FilesPlan(files, LayoutTail(src, l)).sections, |src|)
    ensures WellLexed(src, l.count, Run(0, FilesPlan(files, LayoutTail(src, l)), |src|))
  {
    hide WellLexed, LayoutOk;
    LayoutInBounds(src, l);
    SectionsInBounds(files.list, if files.complete then LayoutTail(src, l) else [], |src|);
    FilesPlanFits(src, l, files, AtFile, 0);
    FitsIsWellLexed(src, l.count, FilesPlan(files, LayoutTail(src, l)));
  }

  lemma LayoutInBounds(src: bytes, l: Layout)
    requires LayoutOk(src, l)
    ensures InBounds(LayoutTail(src, l), |src|)
  {
  }

  lemma {:induction false} SectionsEnd(files: seq<FileState>, tail: seq<Token>)
    requires tail != [] && forall s :: s in tail ==> s.kind != Unknown
    ensures var all := SectionsThen(files, tail);
            && all != [] && all[|all| - 1] == tail[|tail| - 1] && forall s :: s in all ==> s.kind != Unknown
  {
    if files != [] {
      SectionsEnd(files[1..], tail);
    }
  }

  lemma TailEnd(src: bytes, l: Layout)
    requires LayoutOk(src, l)
    ensures var tail := LayoutTail(src, l);
            tail != [] && tail[|tail| - 1].ptr < |src| && forall s :: s in tail ==> s.kind != Unknown
  {
    TailForm(src, l);
  }

  /** A successful run over a complete directory gives every header, data and end record, in
      directory order, exactly when no file or directory section reaches past the end record. */
  lemma EverySectionLexed(src: bytes, l: Layout, files: Files, plan: Plan)
    requires LayoutOk(src, l) && files.complete && plan == FilesPlan(files, LayoutTail(src, l))
    requires InBounds(plan.sections, |src|) && Run(0, plan, |src|).ok
    ensures plan.sections != []
    ensures Known(Run(0, plan, |src|).tokens) == plan.sections <==> BeforeLast(plan.sections)
  {
    hide Known, Run, BeforeLast, LayoutTail, SectionsThen, LayoutOk, InBounds;
    TailEnd(src, l);
    SectionsEnd(files.list, LayoutTail(src, l));
    RunComplete(0, plan, |src|);
  }
}
