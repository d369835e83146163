/** The "extract" stream format: the writer in tools/zstrong_cpp.cpp and the reader in
    tools/zstrong_json.cpp. A record is a type byte, the number of elements and their width as 8-byte
    little-endian numbers, and the content. */
module ExtractStreams {
  import opened Bytes

  const TWO64 := 0x1_0000_0000_0000_0000
  const HEADER := 17

  datatype Extracted = Extracted(kind: byte, nbElts: nat, eltWidth: nat, data: bytes)

  /** The content length that both sides compute, in 64-bit arithmetic. */
  function Length(nbElts: nat, eltWidth: nat): (r: nat)
    ensures nbElts * eltWidth < TWO64 ==> r == nbElts * eltWidth
  {
    ProductNonNegative(nbElts, eltWidth);
    (nbElts * eltWidth) % TWO64
  }

  lemma ProductNonNegative(a: nat, b: nat)
    ensures a * b >= 0
  {
  }

  predicate Valid(s: Extracted) {
    s.nbElts < TWO64 && s.eltWidth < TWO64 && |s.data| == Length(s.nbElts, s.eltWidth)
  }

  // ---------------------------------------------------------------- little-endian numbers

  function ToLE16(x: nat): (r: bytes)
    requires x < 0x1_0000
    ensures |r| == 2 && LE16(r, 0) == x
  {
    [x % 0x100, x / 0x100]
  }

  function ToLE32(x: nat): (r: bytes)
    requires x < 0x1_0000_0000
    ensures |r| == 4
  {
    ToLE16(x % 0x1_0000) + ToLE16(x / 0x1_0000)
  }

  function ToLE64(x: nat): (r: bytes)
    requires x < TWO64
    ensures |r| == 8
  {
    ToLE32(x % 0x1_0000_0000) + ToLE32(x / 0x1_0000_0000)
  }

  lemma ReadAt32(s: bytes, i: nat, x: nat)
    requires i + 4 <= |s| && x < 0x1_0000_0000
    ensures s[i..i + 4] == ToLE32(x) <==> LE32(s, i) == x
  {
    var a, b := x % 0x1_0000, x / 0x1_0000;
    assert x == a + 0x1_0000 * b;
    assert s[i..i + 4] == s[i..i + 2] + s[i + 2..i + 4];
    ReadAt16(s, i, a);
    ReadAt16(s, i + 2, b);
    assert s[i..i + 4][..2] == s[i..i + 2] && s[i..i + 4][2..] == s[i + 2..i + 4];
    assert ToLE32(x)[..2] == ToLE16(a) && ToLE32(x)[2..] == ToLE16(b);
  }

  lemma ReadAt16(s: bytes, i: nat, x: nat)
    requires i + 2 <= |s| && x < 0x1_0000
    ensures s[i..i + 2] == ToLE16(x) <==> LE16(s, i) == x
  {
    assert s[i..i + 2] == [s[i], s[i + 1]];
  }

  /** Eight bytes are the writer's form of x exactly when the reader reads x from them. */
  lemma ReadAt64(s: bytes, i: nat, x: nat)
    requires i + 8 <= |s| && x < TWO64
    ensures s[i..i + 8] == ToLE64(x) <==> LE64(s, i) == x
  {
    var a, b := x % 0x1_0000_0000, x / 0x1_0000_0000;
    assert x == a + 0x1_0000_0000 * b;
    assert s[i..i + 8] == s[i..i + 4] + s[i + 4..i + 8];
    ReadAt32(s, i, a);
    ReadAt32(s, i + 4, b);
    assert s[i..i + 8][..4] == s[i..i + 4] && s[i..i + 8][4..] == s[i + 4..i + 8];
    assert ToLE64(x)[..4] == ToLE32(a) && ToLE64(x)[4..] == ToLE32(b);
  }

  // ---------------------------------------------------------------- the writer

  function Encode(s: Extracted): (r: bytes)
    requires s.nbElts < TWO64 && s.eltWidth < TWO64
    ensures |r| == HEADER + |s.data|
  {
    [s.kind] + ToLE64(s.nbElts) + ToLE64(s.eltWidth) + s.data
  }

  /** Fills a 17-byte header in place, then appends the content. */
  method WriteRecord(s: Extracted) returns (out: bytes)
    requires Valid(s)
    ensures out == Encode(s)
  {
    hide ToLE64;
    var header := new byte[HEADER](_ => 0);
    header[0] := s.kind;
    forall i | 0 <= i < 8 {
      header[1 + i] := ToLE64(s.nbElts)[i];
    }
    forall i | 0 <= i < 8 {
      header[9 + i] := ToLE64(s.eltWidth)[i];
    }
    assert header[..] == [s.kind] + ToLE64(s.nbElts) + ToLE64(s.eltWidth);
    out := header[..] + s.data;
  }

  function EncodeAll(xs: seq<Extracted>): bytes
    requires forall x :: x in xs ==> Valid(x)
  {
    if xs == [] then []
    else
      assert Valid(xs[0]);
      Encode(xs[0]) + EncodeAll(xs[1..])
  }

  // ---------------------------------------------------------------- the reader

  /** The first record of the data. */
  function ReadRecord(data: bytes): (r: Option<Extracted>)
    ensures r.Some? ==> HEADER + |r.value.data| <= |data|
  {
    if |data| < HEADER then None
    else
      var nbElts, eltWidth := LE64(data, 1), LE64(data, 9);
      var length := Length(nbElts, eltWidth);
      if |data| - HEADER < length then None
      else Some(Extracted(data[0], nbElts, eltWidth, data[HEADER..HEADER + length]))
  }

  function Split(data: bytes): Option<seq<Extracted>>
    decreases |data|
  {
    if data == [] then Some([])
    else
      match ReadRecord(data)
      case None => None
      case Some(x) =>
        match Split(data[HEADER + |x.data|..])
        case None => None
        case Some(xs) => Some([x] + xs)
  }

  method SplitStreams(input: bytes) returns (r: Option<seq<Extracted>>)
    ensures r == Split(input)
  {
    hide ReadRecord;
    var data := input;
    var streams: seq<Extracted> := [];
    assert Split(input).Some? ==> [] + Split(input).value == Split(input).value;
    while data != []
      invariant Split(input) == match Split(data) case None => None case Some(xs) => Some(streams + xs)
      decreases |data|
    {
      var x := ReadRecord(data);
      if x.None? {
        return None;
      }
      assert Split(data).Some? ==>
          streams + Split(data).value == (streams + [x.value]) + Split(data[HEADER + |x.value.data|..]).value;
      streams := streams + [x.value];
      data := data[HEADER + |x.value.data|..];
    }
    assert streams + [] == streams;
    return Some(streams);
  }

  // ---------------------------------------------------------------- round trips

  lemma ReadEncoded(x: Extracted, rest: bytes)
    requires Valid(x)
    ensures ReadRecord(Encode(x) + rest) == Some(x)
  {
    hide ToLE64, LE64;
    var d := Encode(x) + rest;
    assert d[1..9] == ToLE64(x.nbElts) && d[9..17] == ToLE64(x.eltWidth);
    ReadAt64(d, 1, x.nbElts);
    ReadAt64(d, 9, x.eltWidth);
    assert d[HEADER..HEADER + |x.data|] == x.data;
  }

  lemma EncodeRead(d: bytes)
    requires ReadRecord(d).Some?
    ensures var x := ReadRecord(d).value;
            Valid(x) && d[..HEADER + |x.data|] == Encode(x)
  {
    hide ToLE64, LE64;
    var x := ReadRecord(d).value;
    ReadAt64(d, 1, x.nbElts);
    ReadAt64(d, 9, x.eltWidth);
    assert d[..HEADER + |x.data|] == d[..1] + d[1..9] + d[9..17] + d[17..HEADER + |x.data|];
  }

  function Number64(a: byte, b: byte, c: byte, d: byte, e: byte, f: byte, g: byte, h: byte): nat {
    a as int + 0x100 * b as int + 0x1_0000 * c as int + 0x100_0000 * d as int
    + 0x1_0000_0000 * e as int + 0x100_0000_0000 * f as int + 0x1_0000_0000_0000 * g as int + 0x100_0000_0000_0000 * h as int
  }

  /** What is written: numbers below 2^64, and as many bytes as their product says, modulo 2^64. */
  lemma ValidExactly(x: Extracted)
    ensures Valid(x) <==>
            && x.nbElts < 0x1_0000_0000_0000_0000 && x.eltWidth < 0x1_0000_0000_0000_0000
            && |x.data| == (x.nbElts * x.eltWidth) % 0x1_0000_0000_0000_0000
  {
  }

  /** A written record, byte by byte: the type, the number of elements, their width, and the content. */
  lemma RecordOnBytes(x: Extracted)
    requires Valid(x)
    ensures var d := Encode(x);
            && |d| == 17 + |x.data| && d[0] == x.kind && d[17..] == x.data
            && Number64(d[1], d[2], d[3], d[4], d[5], d[6], d[7], d[8]) == x.nbElts
            && Number64(d[9], d[10], d[11], d[12], d[13], d[14], d[15], d[16]) == x.eltWidth
  {
    hide ToLE64, LE64;
    var d := Encode(x);
    assert d[1..9] == ToLE64(x.nbElts) && d[9..17] == ToLE64(x.eltWidth);
    ReadAt64(d, 1, x.nbElts);
    ReadAt64(d, 9, x.eltWidth);
    LittleEndian64(d, 1);
    LittleEndian64(d, 9);
  }

  /** Every list of streams survives being written and split again. */
  lemma {:induction false} SplitEncoded(xs: seq<Extracted>)
    requires forall x :: x in xs ==> Valid(x)
    ensures Split(EncodeAll(xs)) == Some(xs)
  {
    if xs != [] {
      hide ReadRecord, Encode;
      var rest := EncodeAll(xs[1..]);
      assert Valid(xs[0]);
      ReadEncoded(xs[0], rest);
      SplitEncoded(xs[1..]);
      assert (Encode(xs[0]) + rest)[HEADER + |xs[0].data|..] == rest;
      assert xs == [xs[0]] + xs[1..];
    }
  }

  lemma EncodeCons(x: Extracted, xs: seq<Extracted>)
    requires Valid(x) && forall y :: y in xs ==> Valid(y)
    ensures EncodeAll([x] + xs) == Encode(x) + EncodeAll(xs)
  {
    hide Encode;
    assert ([x] + xs)[1..] == xs;
  }

  lemma SplitStep(d: bytes)
    requires d != [] && Split(d).Some?
    ensures ReadRecord(d).Some? && Split(d[HEADER + |ReadRecord(d).value.data|..]).Some?
    ensures Split(d).value == [ReadRecord(d).value] + Split(d[HEADER + |ReadRecord(d).value.data|..]).value
  {
    hide ReadRecord;
  }

  /** Whatever bytes the splitter accepts, writing the streams it found gives the bytes back: it
      accepts exactly the concatenations of records. */
  lemma {:induction false} EncodeSplit(d: bytes)
    requires Split(d).Some?
    ensures (forall x :: x in Split(d).value ==> Valid(x)) && EncodeAll(Split(d).value) == d
    decreases |d|
  {
    if d != [] {
      SplitStep(d);
      hide ReadRecord, Encode, EncodeAll, Split, Valid;
      var x := ReadRecord(d).value;
      var rest := d[HEADER + |x.data|..];
      EncodeRead(d);
      EncodeSplit(rest);
      EncodeCons(x, Split(rest).value);
      assert d == d[..HEADER + |x.data|] + rest;
    }
  }
}
