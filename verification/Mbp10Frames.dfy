/** Cutting an input into frames of whole records, as `frameEnd` and `compress` in examples/mbp10.cpp do. */
module Mbp10Frames {
  import opened Bytes
  import opened Sequences
  import opened Mbp10

  /** Reading the first k records again from their concatenation gives the same records. */
  lemma {:induction false} RecordsPrefix(s: bytes, k: nat)
    requires k <= |Records(s)|
    ensures Records(Flatten(Records(s)[..k])) == Records(s)[..k]
    decreases k
  {
    hide RecordLen;
    if k > 0 {
      RecordsUnfold(s);
      var n := RecordLen(s);
      var rest := s[n..];
      RecordsPrefix(rest, k - 1);
      var x, t := s[..n], Flatten(Records(rest)[..k - 1]);
      assert Records(s)[..k] == [x] + Records(rest)[..k - 1];
      assert ([x] + Records(rest)[..k - 1])[1..] == Records(rest)[..k - 1];
      PrefixLength(rest, k - 1);
      RecordLenPrefix(s, x, t);
      RecordsUnfold(x + t);
      assert (x + t)[..n] == x && (x + t)[n..] == t;
    }
  }

  /** Dropping bytes after whole records does not change the first record. */
  lemma RecordLenPrefix(s: bytes, x: bytes, t: bytes)
    requires s != [] && x == s[..RecordLen(s)] && |x + t| <= |s|
    ensures RecordLen(x + t) == RecordLen(s)
  {
    assert (x + t)[0] == s[0];
  }

  lemma PrefixLength(s: bytes, k: nat)
    requires k <= |Records(s)|
    ensures |Flatten(Records(s)[..k])| <= |s|
  {
    FlattenConcat(Records(s)[..k], Records(s)[k..]);
    assert Records(s) == Records(s)[..k] + Records(s)[k..];
  }

  /** What a frame is parsed into when it is parsed alone: the records after its own header. */
  function FrameRecords(frame: bytes): seq<bytes> {
    Records(frame[HeaderSize(frame)..])
  }

  /** The end of the frame that starts at `pos`: whole records, at most maxRecords of them, plus the
      header for the first frame. */
  method FrameEnd(src: bytes, pos: nat, maxRecords: nat) returns (end: nat)
    requires pos <= |src|
    ensures var start := if pos == 0 then HeaderSize(src) else pos;
            && start <= end <= |src|
            && var k := Min(maxRecords, |Records(src[start..])|);
            && src[start..end] == Flatten(Records(src[start..])[..k])
            && Records(src[end..]) == Records(src[start..])[k..]
  {
    hide Records, HeaderSize, RecordLen, Flatten;
    end := if pos == 0 then HeaderSize(src) else pos;
    ghost var start := end;
    ghost var all := Records(src[start..]);
    var recs := 0;
    NoRecords(src, start);
    while end < |src| && recs < maxRecords
      invariant start <= end <= |src| && recs <= maxRecords && recs <= |all|
      invariant src[start..end] == Flatten(all[..recs])
      invariant Records(src[end..]) == all[recs..]
    {
      OneRecord(src, start, end, all, recs);
      end := end + RecordLen(src[end..]);
      recs := recs + 1;
    }
    if end == |src| {
      NoRecords(src, end);
    }
  }

  lemma NoRecords(src: bytes, p: nat)
    requires p <= |src|
    ensures src[p..p] == Flatten(Records(src[p..])[..0]) && Records(src[p..])[0..] == Records(src[p..])
    ensures p == |src| ==> Records(src[p..]) == []
  {
  }

  lemma OneRecord(src: bytes, start: nat, end: nat, all: seq<bytes>, recs: nat)
    requires start <= end < |src| && recs <= |all|
    requires src[start..end] == Flatten(all[..recs]) && Records(src[end..]) == all[recs..]
    ensures var n := RecordLen(src[end..]);
            && end + n <= |src| && recs < |all|
            && src[start..end + n] == Flatten(all[..recs + 1]) && Records(src[end + n..]) == all[recs + 1..]
  {
    hide RecordLen, Flatten;
    var n := RecordLen(src[end..]);
    RecordsUnfold(src[end..]);
    assert all[recs..][0] == all[recs];
    assert src[end..][n..] == src[end + n..] && all[recs..][1..] == all[recs + 1..];
    assert all[..recs + 1] == all[..recs] + [all[recs]];
    FlattenSnoc(all[..recs], all[recs]);
    assert src[start..end + n] == src[start..end] + src[end..][..n];
  }

  // ---------------------------------------------------------------- all frames

  /** The records in groups of maxRecords; only the last one is smaller, and only it may be empty. */
  function Groups(recs: seq<bytes>, maxRecords: nat): (r: seq<seq<bytes>>)
    requires maxRecords > 0
    ensures r != []
    decreases |recs|
  {
    if |recs| <= maxRecords then [recs] else [recs[..maxRecords]] + Groups(recs[maxRecords..], maxRecords)
  }

  /** The frames: the bytes of each group, after the header in the first one. */
  function Frames(src: bytes, maxRecords: nat): (r: seq<bytes>)
    requires maxRecords > 0
    ensures |r| == |Groups(Records(src[HeaderSize(src)..]), maxRecords)|
  {
    var h := HeaderSize(src);
    var parts := Groups(Records(src[h..]), maxRecords);
    seq(|parts|, k requires 0 <= k < |parts| => (if k == 0 then src[..h] else []) + Flatten(parts[k]))
  }

  lemma {:induction false} GroupSizes(recs: seq<bytes>, maxRecords: nat)
    requires maxRecords > 0
    ensures var parts := Groups(recs, maxRecords);
            && Flatten(parts) == recs
            && (forall k :: 0 <= k < |parts| - 1 ==> |parts[k]| == maxRecords)
            && |parts[|parts| - 1]| <= maxRecords && (parts[|parts| - 1] == [] ==> recs == [])
    decreases |recs|
  {
    if |recs| <= maxRecords {
      FlattenOne(recs);
    } else {
      var first, rest := recs[..maxRecords], recs[maxRecords..];
      GroupSizes(rest, maxRecords);
      hide Flatten;
      FlattenOne(first);
      FlattenConcat([first], Groups(rest, maxRecords));
      assert recs == first + rest;
    }
  }

  /** Each group read again from its bytes gives the same records. */
  lemma {:induction false} GroupsReadAgain(s: bytes, maxRecords: nat, k: nat)
    requires maxRecords > 0 && k < |Groups(Records(s), maxRecords)|
    ensures var part := Groups(Records(s), maxRecords)[k];
            Records(Flatten(part)) == part
    decreases |Records(s)|
  {
    hide Records, Flatten;
    var recs := Records(s);
    if |recs| <= maxRecords {
      RecordsPrefix(s, |recs|);
      assert recs[..|recs|] == recs;
    } else if k == 0 {
      RecordsPrefix(s, maxRecords);
    } else {
      RecordsAfter(s, maxRecords);
      GroupsReadAgain(s[|Flatten(recs[..maxRecords])|..], maxRecords, k - 1);
    }
  }

  lemma FlattenNone(recs: seq<bytes>)
    requires recs == []
    ensures Flatten(recs) == []
  {
  }

  /** Reading on after the first k records. */
  lemma {:induction false} RecordsAfter(s: bytes, k: nat)
    requires k <= |Records(s)|
    ensures var n := |Flatten(Records(s)[..k])|;
            n <= |s| && Records(s[n..]) == Records(s)[k..]
    decreases k
  {
    hide RecordLen, Records, Flatten;
    var all := Records(s);
    if k == 0 {
      assert s[0..] == s && all[0..] == all && |all[..0]| == 0;
      FlattenNone(all[..0]);
    } else {
      FirstRecord([], s);
      RecordsUnfold(s);
      var n := RecordLen(s);
      var rest := s[n..];
      RecordsAfter(rest, k - 1);
      FlattenCut(s[..n], Records(rest), k);
      SliceFrom(s, n, |Flatten(Records(rest)[..k - 1])|);
    }
  }

  /** What is done and the groups of what is left are the groups of all. */
  ghost predicate Covers(src: bytes, maxRecords: nat, parts: seq<seq<bytes>>, pos: nat)
    requires maxRecords > 0 && pos <= |src|
  {
    Groups(Records(src[HeaderSize(src)..]), maxRecords)
    == parts + if pos < |src| then Groups(Records(src[pos..]), maxRecords) else []
  }

  /** The source is cut into its frames; they concatenate to it. Parsing a frame alone finds its group
      of records exactly when it is the first or does not start with a DBN header. */
  method Compress(src: bytes, maxRecords: nat) returns (frames: seq<bytes>)
    requires maxRecords > 0
    ensures frames == Frames(src, maxRecords) && Flatten(frames) == src
    ensures var parts := Groups(Records(src[HeaderSize(src)..]), maxRecords);
            && (forall k :: 0 <= k < |parts| - 1 ==> |parts[k]| == maxRecords)
            && forall k :: 0 <= k < |parts| ==> (FrameRecords(frames[k]) == parts[k] <==> k == 0 || HeaderSize(frames[k]) == 0)
  {
    hide Records, HeaderSize, RecordLen, Flatten, FrameRecords, Groups, Frames, Covers;
    var end := FrameEnd(src, 0, maxRecords);
    frames := [src[..end]];
    ghost var parts := FirstGroup(src, end, maxRecords);
    var pos := end;
    while pos < |src|
      invariant pos <= |src| && |frames| == |parts| > 0 && (pos < |src| ==> pos > 0)
      invariant Covers(src, maxRecords, parts, pos)
      invariant Flatten(frames) == src[..pos]
      invariant frames[0] == src[..HeaderSize(src)] + Flatten(parts[0])
      invariant forall i :: 0 < i < |parts| ==> frames[i] == Flatten(parts[i])
      decreases |src| - pos
    {
      end := FrameEnd(src, pos, maxRecords);
      ghost var part := NextGroup(src, pos, end, maxRecords, parts);
      FlattenSnoc(frames, src[pos..end]);
      assert src[..end] == src[..pos] + src[pos..end];
      frames, parts := frames + [src[pos..end]], parts + [part];
      pos := end;
    }
    AllGroups(src, maxRecords, parts, frames);
    assert src[..pos] == src;
    GroupSizes(Records(src[HeaderSize(src)..]), maxRecords);
    forall k | 0 <= k < |parts| ensures FrameRecords(frames[k]) == parts[k] <==> k == 0 || HeaderSize(frames[k]) == 0 {
      FrameIndependent(src, maxRecords, k);
    }
  }

  /** What FrameEnd says about the frame from `start` to `end`. */
  ghost predicate IsFrame(src: bytes, start: nat, end: nat, maxRecords: nat) {
    && start <= end <= |src|
    && var recs := Records(src[start..]);
       var k := Min(maxRecords, |recs|);
       src[start..end] == Flatten(recs[..k]) && Records(src[end..]) == recs[k..]
  }

  lemma FrameGroup(src: bytes, start: nat, end: nat, maxRecords: nat)
    requires maxRecords > 0 && IsFrame(src, start, end, maxRecords)
    ensures var recs := Records(src[start..]);
            Groups(recs, maxRecords)
            == [recs[..Min(maxRecords, |recs|)]] + if end < |src| then Groups(Records(src[end..]), maxRecords) else []
    ensures start < |src| ==> start < end
  {
    hide Flatten, RecordLen;
    var recs := Records(src[start..]);
    var k := Min(maxRecords, |recs|);
    NoRecords(src, end);
    if end < |src| {
      RecordsUnfold(src[end..]);
      assert recs[k..] != [];
    } else {
      assert |recs[k..]| == 0 && recs[..k] == recs;
    }
    if start < |src| {
      RecordsUnfold(src[start..]);
      FirstNotEmpty(src[start..], recs[..k]);
    }
  }

  lemma FirstNotEmpty(s: bytes, recs: seq<bytes>)
    requires s != [] && recs != [] && recs[0] == s[..RecordLen(s)]
    ensures Flatten(recs) != []
  {
  }

  lemma TwoSlices(src: bytes, h: nat, end: nat)
    requires h <= end <= |src|
    ensures src[..end] == src[..h] + src[h..end]
  {
  }

  lemma FirstGroup(src: bytes, end: nat, maxRecords: nat) returns (parts: seq<seq<bytes>>)
    requires maxRecords > 0 && IsFrame(src, HeaderSize(src), end, maxRecords)
    ensures |parts| == 1 && Covers(src, maxRecords, parts, end) && (0 < |src| ==> 0 < end)
    ensures src[..end] == src[..HeaderSize(src)] + Flatten(parts[0]) && Flatten([src[..end]]) == src[..end]
  {
    hide Records, RecordLen, Groups, HeaderSize, Flatten;
    var h := HeaderSize(src);
    FrameGroup(src, h, end, maxRecords);
    var recs := Records(src[h..]);
    var part := recs[..Min(maxRecords, |recs|)];
    parts := [part];
    FlattenOne(src[..end]);
    TwoSlices(src, h, end);
  }

  lemma NextGroup(src: bytes, pos: nat, end: nat, maxRecords: nat, parts: seq<seq<bytes>>) returns (part: seq<bytes>)
    requires maxRecords > 0 && pos < |src| && IsFrame(src, pos, end, maxRecords) && Covers(src, maxRecords, parts, pos)
    ensures pos < end && Covers(src, maxRecords, parts + [part], end) && src[pos..end] == Flatten(part)
  {
    hide Records, RecordLen, Groups, HeaderSize, Flatten;
    FrameGroup(src, pos, end, maxRecords);
    var recs := Records(src[pos..]);
    part := recs[..Min(maxRecords, |recs|)];
    var rest := if end < |src| then Groups(Records(src[end..]), maxRecords) else [];
    assert parts + ([part] + rest) == (parts + [part]) + rest;
  }

  lemma AllGroups(src: bytes, maxRecords: nat, parts: seq<seq<bytes>>, frames: seq<bytes>)
    requires maxRecords > 0 && Covers(src, maxRecords, parts, |src|) && |frames| == |parts| > 0
    requires frames[0] == src[..HeaderSize(src)] + Flatten(parts[0])
    requires forall i :: 0 < i < |parts| ==> frames[i] == Flatten(parts[i])
    ensures parts == Groups(Records(src[HeaderSize(src)..]), maxRecords) && frames == Frames(src, maxRecords)
  {
    hide Records, HeaderSize, Flatten, Groups;
    forall i | 0 < i < |parts| ensures frames[i] == [] + Flatten(parts[i]) {
    }
  }

  // ---------------------------------------------------------------- are frames independent?

  /** The first frame has the header of the whole input. */
  lemma FirstFrameHeader(src: bytes, part: seq<bytes>, frame: bytes)
    requires frame == src[..HeaderSize(src)] + Flatten(part) && |frame| <= |src| && frame == src[..|frame|]
    ensures HeaderSize(frame) == HeaderSize(src)
  {
    hide Flatten;
    if |frame| >= 8 {
      assert frame[..3] == src[..3] && LE32(frame, 4) == LE32(src, 4);
    }
  }

  /** A frame without a header is read as the records it was cut from, and only such a frame is. */
  lemma FrameAlone(part: seq<bytes>)
    requires Records(Flatten(part)) == part
    ensures FrameRecords(Flatten(part)) == part <==> HeaderSize(Flatten(part)) == 0
  {
    hide HeaderSize;
    var frame := Flatten(part);
    var h := HeaderSize(frame);
    assert h == 0 ==> frame[h..] == frame;
    assert Flatten(FrameRecords(frame)) == frame[h..];
  }

  /** Whether parsing a frame alone finds its group of the records of the whole input: for the first
      frame always, for a later one exactly when it does not start with a DBN header. */
  lemma FrameIndependent(src: bytes, maxRecords: nat, k: nat)
    requires maxRecords > 0 && k < |Frames(src, maxRecords)|
    ensures var frame := Frames(src, maxRecords)[k];
            FrameRecords(frame) == Groups(Records(src[HeaderSize(src)..]), maxRecords)[k] <==> k == 0 || HeaderSize(frame) == 0
  {
    hide HeaderSize, Records, Groups, Flatten;
    var h := HeaderSize(src);
    var parts, frame := Groups(Records(src[h..]), maxRecords), Frames(src, maxRecords)[k];
    GroupsReadAgain(src[h..], maxRecords, k);
    if k == 0 {
      FirstFrameIsPrefix(src, maxRecords);
      FirstFrameHeader(src, parts[0], frame);
      assert frame[h..] == Flatten(parts[0]);
    } else {
      assert frame == Flatten(parts[k]);
      FrameAlone(parts[k]);
    }
  }

  lemma FirstFrameIsPrefix(src: bytes, maxRecords: nat)
    requires maxRecords > 0
    ensures Frames(src, maxRecords)[0] <= src
  {
    hide HeaderSize, Records;
    var h := HeaderSize(src);
    var recs := Records(src[h..]);
    var part := Groups(recs, maxRecords)[0];
    assert part == recs[..Min(maxRecords, |recs|)];
    FlattenConcat(part, recs[|part|..]);
    assert recs == part + recs[|part|..];
    assert src == src[..h] + src[h..];
  }

  /** With one record per frame, a record that starts with "DBN" and a small number is read as a
      header: the second frame of this input is not independent. */
  lemma DbnFrameMisread(src: bytes, x: bytes)
    requires x == [0x44, 0x42, 0x4E, 0, 0, 0, 0, 0, 1] && src == [1, 0, 0, 0] + x
    ensures HeaderSize(src) == 0 && Groups(Records(src), 1) == [[[1, 0, 0, 0]], [x]]
    ensures |Frames(src, 1)| == 2 && Frames(src, 1)[1] == x && FrameRecords(Frames(src, 1)[1]) != [x]
  {
    DbnRecords(src, x);
    hide Records, RecordLen, HeaderSize, FrameRecords;
    var recs: seq<bytes> := [[1, 0, 0, 0], x];
    var part := recs[1..];
    assert recs[..1] == [[1, 0, 0, 0]] && part == [x] && part[1..] == [];
    assert Groups(recs, 1) == [recs[..1]] + Groups(part, 1) && Groups(part, 1) == [part];
    assert Flatten(part) == x && src[0..] == src;
    FrameAlone(part);
  }

  lemma DbnRecords(src: bytes, x: bytes)
    requires x == [0x44, 0x42, 0x4E, 0, 0, 0, 0, 0, 1] && src == [1, 0, 0, 0] + x
    ensures HeaderSize(src) == 0 && Records(src) == [[1, 0, 0, 0], x]
    ensures HeaderSize(x) == 8 && Records(x) == [x]
  {
    hide Records;
    RecordsUnfold(src);
    assert RecordLen(src) == 4 && src[..4] == [1, 0, 0, 0] && src[4..] == x;
    assert src[0] != DBN[0] && src[..3] != DBN;
    RecordsUnfold(x);
    assert RecordLen(x) == 9 && x[..9] == x && x[9..] == [];
    NoRecords(x, 9);
    assert x[..3] == DBN;
  }
}
