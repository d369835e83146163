/** The dispatch node: cuts its input into tagged segments and concatenates the segments of each tag
    into a stream. The tags and sizes are streams of their own, so that it can be undone. */
module Dispatch {
  import opened Bytes
  import opened Segments
  import opened Sequences

  /** The stream of one tag. */
  function Stream(input: bytes, segs: seq<Seg>, tag: nat): (r: bytes)
    requires Total(segs) == |input|
    decreases |segs|
  {
    if segs == [] then []
    else
      TotalCons(segs);
      (if segs[0].tag == tag then input[..segs[0].size] else []) + Stream(input[segs[0].size..], segs[1..], tag)
  }

  function Streams(input: bytes, segs: seq<Seg>, nbTags: nat): (r: seq<bytes>)
    requires Total(segs) == |input|
    ensures |r| == nbTags
  {
    seq(nbTags, t requires 0 <= t < nbTags => Stream(input, segs, t))
  }

  ghost predicate TagsBelow(segs: seq<Seg>, nbTags: nat) {
    forall s :: s in segs ==> s.tag < nbTags
  }

  /** Undoes a dispatch: takes each segment from the front of its tag's stream. */
  function Restore(segs: seq<Seg>, streams: seq<bytes>): Option<bytes>
    decreases |segs|
  {
    if segs == [] then Some([])
    else
      var s := segs[0];
      if s.tag >= |streams| || s.size > |streams[s.tag]| then None
      else
        match Restore(segs[1..], streams[s.tag := streams[s.tag][s.size..]])
        case None => None
        case Some(rest) => Some(streams[s.tag][..s.size] + rest)
  }

  lemma TotalCons(segs: seq<Seg>)
    requires segs != []
    ensures Total(segs) == segs[0].size + Total(segs[1..])
  {
    assert segs == [segs[0]] + segs[1..];
    TotalConcat([segs[0]], segs[1..]);
    assert Init([segs[0]]) == [];
  }

  /** Taking the first segment from its stream leaves the streams of the rest. */
  lemma StreamsStep(input: bytes, segs: seq<Seg>, nbTags: nat)
    requires segs != [] && Total(segs) == |input| && segs[0].tag < nbTags
    ensures var s := segs[0];
            && s.size <= |input| && Total(segs[1..]) == |input[s.size..]|
            && var streams, rest := Streams(input, segs, nbTags), Streams(input[s.size..], segs[1..], nbTags);
               && streams[s.tag] == input[..s.size] + rest[s.tag]
               && streams[s.tag := streams[s.tag][s.size..]] == rest
  {
    hide Stream, Total;
    var s := segs[0];
    TotalCons(segs);
    var head, tail := input[..s.size], input[s.size..];
    assert input == head + tail;
    forall t | 0 <= t < nbTags
      ensures Stream(input, segs, t) == (if t == s.tag then head else []) + Stream(tail, segs[1..], t)
    {
      StreamUnfold(input, segs, t, head, tail, segs[1..]);
    }
    forall t | 0 <= t < nbTags && t != s.tag ensures Stream(input, segs, t) == Stream(tail, segs[1..], t) {
      assert [] + Stream(tail, segs[1..], t) == Stream(tail, segs[1..], t);
    }
  }

  /** Dispatching and restoring is the identity, for every input and every segmentation of it. */
  lemma {:induction false} RestoreStreams(input: bytes, segs: seq<Seg>, nbTags: nat)
    requires Total(segs) == |input| && TagsBelow(segs, nbTags)
    ensures Restore(segs, Streams(input, segs, nbTags)) == Some(input)
    decreases |segs|
  {
    if segs != [] {
      hide Streams, Total;
      var s := segs[0];
      assert s in segs && forall t :: t in segs[1..] ==> t in segs;
      StreamsStep(input, segs, nbTags);
      RestoreStreams(input[s.size..], segs[1..], nbTags);
      assert input == input[..s.size] + input[s.size..];
    }
  }

  lemma StreamUnfold(input: bytes, segs: seq<Seg>, tag: nat, head: bytes, rest: bytes, tail: seq<Seg>)
    requires segs != [] && input == head + rest && |head| == segs[0].size && tail == segs[1..]
    requires Total(segs) == |input|
    ensures Total(tail) == |rest|
    ensures Stream(input, segs, tag) == (if segs[0].tag == tag then head else []) + Stream(rest, tail, tag)
  {
    TotalCons(segs);
    assert input[..segs[0].size] == head && input[segs[0].size..] == rest;
  }

  lemma StreamNone(input: bytes, tag: nat)
    requires Total([]) == |input|
    ensures input == [] && Stream(input, [], tag) == []
  {
  }

  lemma {:induction false} StreamConcat(x: bytes, y: bytes, a: seq<Seg>, b: seq<Seg>, tag: nat)
    requires Total(a) == |x| && Total(b) == |y|
    ensures Total(a + b) == |x + y|
    ensures Stream(x + y, a + b, tag) == Stream(x, a, tag) + Stream(y, b, tag)
    decreases |a|
  {
    hide Stream, Total;
    TotalConcat(a, b);
    if a == [] {
      StreamNone(x, tag);
      assert x + y == y && a + b == b;
      assert [] + Stream(y, b, tag) == Stream(y, b, tag);
    } else {
      TotalCons(a);
      var n := a[0].size;
      var x', head := x[n..], if a[0].tag == tag then x[..n] else [];
      assert (a + b)[0] == a[0] && (a + b)[1..] == a[1..] + b;
      assert x == x[..n] + x' && x + y == x[..n] + (x' + y);
      StreamUnfold(x, a, tag, x[..n], x', a[1..]);
      StreamUnfold(x + y, a + b, tag, x[..n], x' + y, a[1..] + b);
      StreamConcat(x', y, a[1..], b, tag);
      assert head + (Stream(x', a[1..], tag) + Stream(y, b, tag)) == (head + Stream(x', a[1..], tag)) + Stream(y, b, tag);
    }
  }

  lemma StreamOne(x: bytes, s: Seg, tag: nat)
    requires s.size == |x|
    ensures Total([s]) == |x| && Stream(x, [s], tag) == if s.tag == tag then x else []
  {
    assert Init([s]) == [] && [s][1..] == [];
    assert x[..s.size] == x && x[s.size..] == [];
  }

  /** All segments one by one, merging neighbours with the same tag. */
  function MergeAll(segs: seq<Seg>): (r: seq<Seg>)
    ensures Total(r) == Total(segs)
    decreases |segs|
  {
    if segs == [] then []
    else
      PushInit(MergeAll(Init(segs)), Last(segs));
      Push(MergeAll(Init(segs)), Last(segs))
  }

  lemma MergeAllSnoc(segs: seq<Seg>, s: Seg)
    ensures MergeAll(segs + [s]) == Push(MergeAll(segs), s)
  {
    assert Init(segs + [s]) == segs;
  }

  lemma StreamMergeTwo(y: bytes, a: Seg, b: Seg, tag: nat)
    requires a.tag == b.tag && a.size + b.size == |y|
    ensures Total([Seg(a.size + b.size, a.tag)]) == Total([a] + [b]) == |y|
    ensures Stream(y, [Seg(a.size + b.size, a.tag)], tag) == Stream(y, [a] + [b], tag)
  {
    hide Stream, Total;
    StreamOne(y, Seg(a.size + b.size, a.tag), tag);
    StreamOne(y[..a.size], a, tag);
    StreamOne(y[a.size..], b, tag);
    StreamConcat(y[..a.size], y[a.size..], [a], [b], tag);
    assert y == y[..a.size] + y[a.size..];
  }

  lemma StreamPush(input: bytes, segs: seq<Seg>, s: Seg, tag: nat)
    requires Total(segs) + s.size == |input|
    ensures Total(Push(segs, s)) == Total(segs + [s]) == |input|
    ensures Stream(input, Push(segs, s), tag) == Stream(input, segs + [s], tag)
  {
    assert segs != [] ==> Total(segs) == Total(Init(segs)) + Last(segs).size;
    hide Stream, Total;
    PushInit(segs, s);
    TotalSnoc(segs, s);
    if segs != [] && Last(segs).tag == s.tag {
      StreamPushSame(input, Init(segs), Last(segs), s, tag);
      assert segs + [s] == Init(segs) + ([Last(segs)] + [s]);
    }
  }

  lemma StreamPushSame(input: bytes, init: seq<Seg>, last: Seg, s: Seg, tag: nat)
    requires last.tag == s.tag && Total(init) + last.size + s.size == |input|
    ensures Total(init + [Seg(last.size + s.size, s.tag)]) == Total(init + ([last] + [s])) == |input|
    ensures Stream(input, init + [Seg(last.size + s.size, s.tag)], tag) == Stream(input, init + ([last] + [s]), tag)
  {
    hide Stream;
    var x, y := input[..Total(init)], input[Total(init)..];
    assert input == x + y;
    StreamMergeTwo(y, last, s, tag);
    StreamConcat(x, y, init, [Seg(last.size + s.size, s.tag)], tag);
    StreamConcat(x, y, init, [last] + [s], tag);
  }

  /** Merging neighbours changes no stream. */
  lemma {:induction false} StreamMerge(input: bytes, segs: seq<Seg>, tag: nat)
    requires Total(segs) == |input|
    ensures Stream(input, MergeAll(segs), tag) == Stream(input, segs, tag)
    decreases |segs|
  {
    if segs != [] {
      var init, last := Init(segs), Last(segs);
      var x, y := input[..Total(init)], input[Total(init)..];
      assert input == x + y && segs == init + [last];
      StreamMerge(x, init, tag);
      StreamPush(input, MergeAll(init), last, tag);
      StreamOne(y, last, tag);
      StreamConcat(x, y, MergeAll(init), [last], tag);
      StreamConcat(x, y, init, [last], tag);
    }
  }

  lemma {:induction false} MergeTags(segs: seq<Seg>, nbTags: nat)
    requires TagsBelow(segs, nbTags)
    ensures TagsBelow(MergeAll(segs), nbTags)
    decreases |segs|
  {
    if segs != [] {
      MergeTags(Init(segs), nbTags);
      assert Last(segs) in segs;
    }
  }

  // ---------------------------------------------------------------- lists of byte strings

  /** The segments of each byte string, one after the other. */
  function SegsOf(xs: seq<bytes>, part: bytes -> seq<Seg>): seq<Seg> {
    if xs == [] then [] else part(xs[0]) + SegsOf(xs[1..], part)
  }

  /** What each byte string contributes to the stream of a tag. */
  function Gather(xs: seq<bytes>, part: bytes -> seq<Seg>, tag: nat): bytes
    requires forall x :: x in xs ==> Total(part(x)) == |x|
  {
    if xs == [] then [] else Stream(xs[0], part(xs[0]), tag) + Gather(xs[1..], part, tag)
  }

  /** Dispatching a concatenation piece by piece gives the concatenated contributions. */
  lemma {:induction false} StreamGather(xs: seq<bytes>, part: bytes -> seq<Seg>, tag: nat)
    requires forall x :: x in xs ==> Total(part(x)) == |x|
    ensures Total(SegsOf(xs, part)) == |Flatten(xs)|
    ensures Stream(Flatten(xs), SegsOf(xs, part), tag) == Gather(xs, part, tag)
  {
    if xs != [] {
      assert xs[0] in xs;
      StreamGather(xs[1..], part, tag);
      StreamConcat(xs[0], Flatten(xs[1..]), part(xs[0]), SegsOf(xs[1..], part), tag);
    }
  }

  lemma {:induction false} GatherLength(xs: seq<bytes>, part: bytes -> seq<Seg>, tag: nat, width: nat)
    requires forall x :: x in xs ==> Total(part(x)) == |x|
    requires forall x :: x in xs ==> |Stream(x, part(x), tag)| == width
    ensures |Gather(xs, part, tag)| == width * |xs|
  {
    if xs != [] {
      hide Stream, Total;
      assert xs[0] in xs;
      forall x | x in xs[1..] ensures x in xs {}
      GatherLength(xs[1..], part, tag, width);
      OneMore(width, |xs[1..]|);
    }
  }

  lemma OneMore(width: nat, n: nat)
    ensures width * (n + 1) == width + width * n
  {
  }
}
