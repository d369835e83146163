/** Merge controls in their AVX2 and NEON forms, and the kernels for one register, against the portable
    bit-by-bit reference of src/openzl/codecs/pivco_huffman/arch. */
module PivcoMerge {
  import opened Bytes
  import opened Arithmetic
  import opened PivcoTables

  // ---------------------------------------------------------------- the reference

  /** Set lanes before lane i. */
  function Rank(m: Mask, i: nat): (r: nat)
    requires i <= |m|
    ensures r <= i
  {
    LaneCounts(m[..i]);
    Pop(m[..i])
  }

  /** The values of the set, or unset, lanes, in order. */
  function Pick(v: bytes, m: Mask, b: bool): (r: bytes)
    requires |v| == |m|
    decreases |m|
  {
    if m == [] then []
    else
      var k := |m| - 1;
      Pick(v[..k], m[..k], b) + if m[k] == b then [v[k]] else []
  }

  /** One output byte per bit: the next byte of the right source for a set bit, of the left source
      for an unset one. */
  function MergeBits(m: Mask, lhs: bytes, rhs: bytes): (r: bytes)
    requires Pop(m) <= |rhs| && |m| - Pop(m) <= |lhs|
    ensures |r| == |m|
  {
    if m == [] then []
    else
      var k := |m| - 1;
      LaneCounts(m[..k]);
      MergeBits(m[..k], lhs, rhs) + [if m[k] then rhs[Rank(m, k)] else lhs[k - Rank(m, k)]]
  }

  lemma {:induction false} PickLength(v: bytes, m: Mask, b: bool)
    requires |v| == |m|
    ensures |Pick(v, m, b)| == |Lanes(m, b)|
    ensures forall i :: 0 <= i < |Lanes(m, b)| ==> Pick(v, m, b)[i] == v[Lanes(m, b)[i]]
    decreases |m|
  {
    if m != [] {
      var k := |m| - 1;
      PickLength(v[..k], m[..k], b);
    }
  }

  lemma {:induction false} PickConcat(v: bytes, w: bytes, m: Mask, k: Mask, b: bool)
    requires |v| == |m| && |w| == |k|
    ensures Pick(v + w, m + k, b) == Pick(v, m, b) + Pick(w, k, b)
    decreases |k|
  {
    if k == [] {
      assert v + w == v && m + k == m;
    } else {
      var n := |k| - 1;
      assert (m + k)[..|m| + n] == m + k[..n] && (v + w)[..|m| + n] == v + w[..n];
      PickConcat(v, w[..n], m, k[..n], b);
    }
  }

  lemma {:induction false} MergeAt(m: Mask, lhs: bytes, rhs: bytes, i: nat)
    requires Pop(m) <= |rhs| && |m| - Pop(m) <= |lhs| && i < |m|
    ensures if m[i] then Rank(m, i) < Pop(m) else i - Rank(m, i) < |m| - Pop(m)
    ensures MergeBits(m, lhs, rhs)[i] == if m[i] then rhs[Rank(m, i)] else lhs[i - Rank(m, i)]
    decreases |m|
  {
    var k := |m| - 1;
    LaneCounts(m[..k]);
    if i < k {
      assert m[..k][..i] == m[..i];
      MergeAt(m[..k], lhs, rhs, i);
    }
  }

  /** A lane's value is found at its rank among the lanes like it. */
  lemma {:induction false} PickAtRank(v: bytes, m: Mask, i: nat)
    requires |v| == |m| && i < |m|
    ensures var k := if m[i] then Rank(m, i) else i - Rank(m, i);
            k < |Pick(v, m, m[i])| && Pick(v, m, m[i])[k] == v[i]
    decreases |m|
  {
    hide Lanes;
    var n := |m| - 1;
    assert m[..n][..i] == m[..i];
    if i < n {
      PickAtRank(v[..n], m[..n], i);
    } else {
      LaneCounts(m[..n]);
      PickLength(v[..n], m[..n], m[i]);
    }
  }

  /** Merging what a partition gave restores the values, whatever follows in the buffers. */
  lemma MergePick(v: bytes, m: Mask, x: bytes, y: bytes)
    requires |v| == |m|
    ensures |Pick(v, m, true)| == Pop(m) && |Pick(v, m, false)| == |m| - Pop(m)
    ensures MergeBits(m, Pick(v, m, false) + x, Pick(v, m, true) + y) == v
  {
    hide Lanes, MergeBits, Pick, Rank;
    PickLength(v, m, true);
    PickLength(v, m, false);
    LaneCounts(m);
    var lhs, rhs := Pick(v, m, false) + x, Pick(v, m, true) + y;
    forall i | 0 <= i < |m| ensures MergeBits(m, lhs, rhs)[i] == v[i] {
      MergeAt(m, lhs, rhs, i);
      PickAtRank(v, m, i);
    }
  }

  /** The partition rows on their entries: a set lane is at its rank from the front, an unset one at its
      rank among the unset lanes from the back, or from the end of the low half for the high row. */
  lemma RowsOnLanes(pad: Pad, m: Mask, i: nat)
    requires i < |m|
    ensures |LoRow(pad, m)| == |HiBase(pad, m)| == 2 * |m|
    ensures var n, rank := |m|, Rank(m, i);
            && LoRow(pad, m)[if m[i] then rank else 2 * n - 1 - (i - rank)] == i
            && HiBase(pad, m)[if m[i] then rank else n - 1 - (i - rank)] == n + i
    ensures forall j :: Pop(m) <= j < Pop(m) + |m| ==> LoRow(pad, m)[j] == pad
    ensures forall j :: |m| <= j < 2 * |m| ==> HiBase(pad, m)[j] == pad
  {
    LaneAtRank(m, i);
    LaneCounts(m);
    hide Lanes, Rank;
  }

  lemma {:induction false} LaneAtRank(m: Mask, i: nat)
    requires i < |m|
    ensures var k := if m[i] then Rank(m, i) else i - Rank(m, i);
            k < |Lanes(m, m[i])| && Lanes(m, m[i])[k] == i
    decreases |m|
  {
    var n := |m| - 1;
    LaneCounts(m[..n]);
    assert m[..n][..i] == m[..i];
    if i < n {
      LaneAtRank(m[..n], i);
    }
  }

  lemma MergeNone(lhs: bytes, rhs: bytes)
    ensures Pop([]) == 0 && MergeBits([], lhs, rhs) == []
  {
  }

  // ---------------------------------------------------------------- AVX2 merge controls

  /** All bits of a byte flipped. */
  function Flip(pad: Pad, b: int): int {
    2 * pad - 1 - b
  }

  function MergeLoRow(pad: Pad, m: Mask): seq<int> {
    seq(|m|, i requires 0 <= i < |m| => if m[i] then Rank(m, i) else Flip(pad, i - Rank(m, i))) + seq(|m|, _ => Pop(m))
  }

  function MergeHiRow(pad: Pad, m: Mask): seq<int> {
    seq(|m|, i requires 0 <= i < |m| => if m[i] then Rank(m, i) else 2 * pad - 1 - |m| - (i - Rank(m, i)))
  }

  lemma RankStep(m: Mask, i: nat)
    requires i < |m|
    ensures Rank(m, i + 1) == Rank(m, i) + if m[i] then 1 else 0
  {
    assert m[..i + 1][..i] == m[..i];
  }

  method MergeLo(pad: Pad, m: Mask) returns (out: seq<int>)
    ensures out == MergeLoRow(pad, m)
  {
    hide Rank;
    out := [];
    var rhs, lhs := 0, 0;
    RankNone(m);
    for bit := 0 to |m|
      invariant rhs == Rank(m, bit) && lhs == bit - Rank(m, bit)
      invariant out == MergeLoRow(pad, m)[..bit]
    {
      RankStep(m, bit);
      if m[bit] {
        out := out + [rhs];
        rhs := rhs + 1;
      } else {
        out := out + [Flip(pad, lhs)];
        lhs := lhs + 1;
      }
    }
    RankAll(m);
    out := out + seq(|m|, _ => rhs);
  }

  method MergeHi(pad: Pad, m: Mask) returns (out: seq<int>)
    ensures out == MergeHiRow(pad, m)
  {
    hide Rank;
    out := [];
    var rhs, lhs := 0, 0;
    RankNone(m);
    for bit := 0 to |m|
      invariant rhs == Rank(m, bit) && lhs == bit - Rank(m, bit)
      invariant out == MergeHiRow(pad, m)[..bit]
    {
      RankStep(m, bit);
      if m[bit] {
        out := out + [rhs];
        rhs := rhs + 1;
      } else {
        out := out + [2 * pad - 1 - |m| - lhs];
        lhs := lhs + 1;
      }
    }
  }

  lemma RankNone(m: Mask)
    ensures Rank(m, 0) == 0
  {
  }

  lemma RankAll(m: Mask)
    ensures Rank(m, |m|) == Pop(m)
  {
    assert m[..|m|] == m;
  }

  /** The control of a whole register: the high row added into the high half, modulo 256. */
  function MergeControl(pad: Pad, lo: Mask, hi: Mask): (r: seq<int>)
    requires |lo| == |hi|
    ensures |r| == 2 * |lo|
  {
    var n := |lo|;
    seq(2 * n, j requires 0 <= j < 2 * n => (MergeLoRow(pad, lo)[j] + if j < n then 0 else MergeHiRow(pad, hi)[j - n]) % (2 * pad))
  }

  lemma RankConcat(lo: Mask, hi: Mask, j: nat)
    requires j < |lo| + |hi|
    ensures Rank(lo + hi, j) == if j < |lo| then Rank(lo, j) else Pop(lo) + Rank(hi, j - |lo|)
  {
    if j < |lo| {
      assert (lo + hi)[..j] == lo[..j];
    } else {
      assert (lo + hi)[..j] == lo + hi[..j - |lo|];
      LanesConcat(lo, hi[..j - |lo|], true);
    }
  }

  lemma PopBound(m: Mask)
    ensures Pop(m) <= |m|
  {
    LaneCounts(m);
  }

  lemma PopConcat(a: Mask, b: Mask)
    ensures Pop(a + b) == Pop(a) + Pop(b)
  {
    LanesConcat(a, b, true);
  }

  lemma PopPrefix(m: Mask, k: nat)
    requires k <= |m|
    ensures Pop(m[..k]) <= k && Pop(m[..k]) <= Pop(m) && k - Pop(m[..k]) <= |m| - Pop(m)
  {
    hide Lanes;
    LaneCounts(m[..k]);
    LaneCounts(m);
    LanesPrefix(m, k, true);
    LanesPrefix(m, k, false);
  }

  /** Merging the first bits, then the next from where the sources stand, is merging all. */
  lemma {:induction false} MergeConcat(a: Mask, b: Mask, lhs: bytes, rhs: bytes, left: bytes, right: bytes)
    requires Pop(a) <= |a| && Pop(b) <= |b| && Pop(a + b) == Pop(a) + Pop(b)
    requires Pop(a) + Pop(b) <= |rhs| && |a| + |b| - Pop(a) - Pop(b) <= |lhs|
    requires Pop(b) <= |right| && |b| - Pop(b) <= |left|
    requires right <= rhs[Pop(a)..] && left <= lhs[|a| - Pop(a)..]
    ensures MergeBits(a + b, lhs, rhs) == MergeBits(a, lhs, rhs) + MergeBits(b, left, right)
  {
    hide Lanes, MergeBits;
    var m := a + b;
    forall i | 0 <= i < |m| ensures MergeBits(m, lhs, rhs)[i] == (MergeBits(a, lhs, rhs) + MergeBits(b, left, right))[i] {
      MergeAt(m, lhs, rhs, i);
      RankConcat(a, b, i);
      if i < |a| {
        MergeAt(a, lhs, rhs, i);
      } else {
        MergeAt(b, left, right, i - |a|);
      }
    }
  }

  /** Set lanes hold the rank in the right source, unset lanes the flipped rank in the left one. */
  lemma MergeControlCorrect(pad: Pad, lo: Mask, hi: Mask, j: nat)
    requires |lo| == |hi| && Encodes(pad, |lo|) && j < 2 * |lo|
    ensures var m := lo + hi;
            MergeControl(pad, lo, hi)[j] == if m[j] then Rank(m, j) else Flip(pad, j - Rank(m, j))
  {
    hide Rank, Pop;
    RankConcat(lo, hi, j);
    PopBound(lo);
    var n, m := |lo|, lo + hi;
    var value := if m[j] then Rank(m, j) else Flip(pad, j - Rank(m, j));
    if j < n {
      assert m[j] == lo[j] && MergeLoRow(pad, lo)[j] == value;
    } else {
      assert m[j] == hi[j - n] && MergeLoRow(pad, lo)[j] == Pop(lo);
      assert Pop(lo) + MergeHiRow(pad, hi)[j - n] == value;
    }
    assert MergeControl(pad, lo, hi)[j] == value % (2 * pad);
    ModUnique(value, 2 * pad, 0, value);
  }

  // ---------------------------------------------------------------- NEON merge controls

  /** The value of a byte as a signed number. */
  function Signed(pad: Pad, b: int): int {
    if b < pad then b else b - 2 * pad
  }

  function NeonRow0(pad: Pad, m: Mask): seq<int> {
    seq(|m|, i requires 0 <= i < |m| => if m[i] then Rank(m, i) else (-2 * |m| - i + Rank(m, i)) % (2 * pad)) + seq(|m|, _ => Pop(m))
  }

  function NeonRow1(pad: Pad, m: Mask): seq<int> {
    seq(|m|, _ => 0)
    + seq(|m|, i requires 0 <= i < |m| => if m[i] then (-(Rank(m, i) as int)) % (2 * pad) else (|m| - (-2 * |m| - i + Rank(m, i))) % (2 * pad))
  }

  /** The lanes of the rows as the loops write them. */
  lemma NeonLane(pad: Pad, m: Mask, i: nat)
    requires i < |m|
    ensures |NeonRow0(pad, m)| == |NeonRow1(pad, m)| == 2 * |m|
    ensures NeonRow0(pad, m)[i] == if m[i] then Rank(m, i) else (-2 * |m| - i + Rank(m, i)) % (2 * pad)
    ensures NeonRow0(pad, m)[|m| + i] == Pop(m) && NeonRow1(pad, m)[i] == 0
    ensures NeonRow1(pad, m)[|m| + i] == (if m[i] then -(Rank(m, i) as int) else |m| - (-2 * |m| - i + Rank(m, i))) % (2 * pad)
  {
    hide Rank, Pop;
  }

  lemma NeonLengths(pad: Pad, m: Mask)
    ensures |NeonRow0(pad, m)| == |NeonRow1(pad, m)| == 2 * |m|
    ensures forall i :: 0 <= i < |m| ==> NeonRow1(pad, m)[i] == 0
  {
    hide Rank, Pop;
  }

  method NeonRows(pad: Pad, m: Mask) returns (shuf0: array<int>, shuf1: array<int>)
    ensures fresh(shuf0) && fresh(shuf1) && shuf0[..] == NeonRow0(pad, m) && shuf1[..] == NeonRow1(pad, m)
  {
    hide Rank, Pop, NeonRow0, NeonRow1;
    var n := |m|;
    shuf0, shuf1 := new int[2 * n](_ => 0), new int[2 * n](_ => 0);
    var pop := 0;
    RankNone(m);
    NeonLengths(pad, m);
    for lane := 0 to n
      invariant pop == Rank(m, lane)
      invariant forall i :: 0 <= i < lane ==> shuf0[i] == NeonRow0(pad, m)[i]
      invariant forall i :: 0 <= i < n + lane ==> shuf1[i] == NeonRow1(pad, m)[i]
    {
      RankStep(m, lane);
      NeonLane(pad, m, lane);
      if m[lane] {
        shuf0[lane] := pop;
        shuf1[n + lane] := (-pop) % (2 * pad);
        pop := pop + 1;
      } else {
        var value := -2 * n - lane + pop;
        shuf0[lane] := value % (2 * pad);
        shuf1[n + lane] := (n - value) % (2 * pad);
      }
    }
    RankAll(m);
    for lane := 0 to n
      invariant forall i :: 0 <= i < n + lane ==> shuf0[i] == NeonRow0(pad, m)[i]
      invariant forall i :: 0 <= i < 2 * n ==> shuf1[i] == NeonRow1(pad, m)[i]
    {
      NeonLane(pad, m, lane);
      shuf0[n + lane] := pop;
    }
  }

  /** The signed absolute difference of the two rows. */
  function NeonControl(pad: Pad, lo: Mask, hi: Mask): (r: seq<int>)
    requires |lo| == |hi|
    ensures |r| == 2 * |lo|
  {
    var n := |lo|;
    seq(2 * n, j requires 0 <= j < 2 * n =>
      var d := Signed(pad, NeonRow0(pad, lo)[j]) - Signed(pad, NeonRow1(pad, hi)[j]);
      if d < 0 then -d else d)
  }

  /** An index into the right source followed by the left one. */
  lemma NeonControlCorrect(pad: Pad, lo: Mask, hi: Mask, j: nat)
    requires |lo| == |hi| && EncodesSigned(pad, |lo|) && j < 2 * |lo|
    ensures var m := lo + hi;
            NeonControl(pad, lo, hi)[j] == if m[j] then Rank(m, j) else 2 * |lo| + (j - Rank(m, j))
  {
    hide Rank, Lanes, NeonRow0, NeonRow1;
    RankConcat(lo, hi, j);
    LaneCounts(lo);
    NeonAt(pad, lo, hi, j);
  }

  lemma NeonAt(pad: Pad, lo: Mask, hi: Mask, j: nat)
    requires |lo| == |hi| && EncodesSigned(pad, |lo|) && j < 2 * |lo|
    ensures |NeonRow0(pad, lo)| == |NeonRow1(pad, hi)| == 2 * |lo|
    ensures j < |lo| ==> Signed(pad, NeonRow0(pad, lo)[j]) == (if lo[j] then Rank(lo, j) else -2 * |lo| - j + Rank(lo, j)) && NeonRow1(pad, hi)[j] == 0
    ensures j >= |lo| ==>
              var i := j - |lo|;
              && NeonRow0(pad, lo)[j] == Pop(lo)
              && Signed(pad, NeonRow1(pad, hi)[j]) == if hi[i] then -(Rank(hi, i) as int) else 3 * |lo| + i - Rank(hi, i)
  {
    hide Rank, Pop, Signed, NeonRow0, NeonRow1;
    NeonLengths(pad, lo);
    NeonLengths(pad, hi);
    if j < |lo| {
      NeonLane(pad, lo, j);
      NeonLow(pad, lo, j);
    } else {
      NeonLane(pad, lo, j - |lo|);
      NeonHigh(pad, hi, j - |lo|);
    }
  }

  lemma NeonLow(pad: Pad, m: Mask, i: nat)
    requires EncodesSigned(pad, |m|) && i < |m|
    ensures |NeonRow0(pad, m)| == 2 * |m|
    ensures Signed(pad, NeonRow0(pad, m)[i]) == if m[i] then Rank(m, i) else -2 * |m| - i + Rank(m, i)
  {
    hide Rank, Pop, Signed, NeonRow0;
    NeonLane(pad, m, i);
    var r: int := Rank(m, i);
    if m[i] {
      ModUnique(r, 2 * pad, 0, r);
      SignedByte(pad, r);
    } else {
      SignedByte(pad, -2 * |m| - i + r);
    }
  }

  lemma NeonHigh(pad: Pad, m: Mask, i: nat)
    requires EncodesSigned(pad, |m|) && i < |m|
    ensures |NeonRow1(pad, m)| == 2 * |m|
    ensures Signed(pad, NeonRow1(pad, m)[|m| + i]) == if m[i] then -(Rank(m, i) as int) else 3 * |m| + i - Rank(m, i)
  {
    hide Rank, Pop, Signed, NeonRow1;
    NeonLane(pad, m, i);
    var r: int := Rank(m, i);
    SignedByte(pad, if m[i] then -r else |m| - (-2 * |m| - i + r));
  }

  lemma SignedByte(pad: Pad, x: int)
    requires 0 <= x + pad < 2 * pad
    ensures Signed(pad, x % (2 * pad)) == x
  {
    if x < 0 {
      ModUnique(x, 2 * pad, -1, x + 2 * pad);
    } else {
      ModUnique(x, 2 * pad, 0, x);
    }
  }

  // ---------------------------------------------------------------- one register

  /** A byte shuffle: a control byte with its high bit set gives zero. */
  function Shuffle(pad: Pad, v: bytes, control: seq<int>): bytes
    requires v != []
  {
    seq(|control|, j requires 0 <= j < |control| => ShuffleLane(pad, v, control[j]))
  }

  function ShuffleLane(pad: Pad, v: bytes, c: int): byte
    requires v != []
  {
    if c < 0 || c >= pad then 0 else if c < |v| then v[c] else v[c % |v|]
  }

  function Or(a: byte, b: byte): byte {
    ((a as bv8) | (b as bv8)) as byte
  }

  lemma OrZero(a: byte)
    ensures Or(a, 0) == a && Or(0, a) == a
  {
  }

  /** Compacts a register: right values ascending, then left values descending. */
  function Compact(pad: Pad, lo: Mask, hi: Mask, v: bytes): bytes
    requires |lo| == |hi| && Encodes(pad, |lo|) && |v| == 2 * |lo|
  {
    Shuffle(pad, v, PartitionControl(pad, lo, hi))
  }

  lemma CompactCorrect(pad: Pad, lo: Mask, hi: Mask, v: bytes)
    requires |lo| == |hi| && Encodes(pad, |lo|) && |v| == 2 * |lo|
    ensures Compact(pad, lo, hi, v) == Pick(v, lo + hi, true) + Reverse(Pick(v, lo + hi, false))
  {
    hide Lanes, PartitionControl, Pick, ShuffleLane, Partitioned;
    var m := lo + hi;
    PartitionControlCorrect(pad, lo, hi);
    CompactLane(pad, v, m, 0);
    forall j | 0 <= j < |m| ensures ShuffleLane(pad, v, Partitioned(m)[j]) == (Pick(v, m, true) + Reverse(Pick(v, m, false)))[j] {
      CompactLane(pad, v, m, j);
    }
  }

  lemma CompactLane(pad: Pad, v: bytes, m: Mask, j: nat)
    requires |v| == |m| <= pad && j < |m|
    ensures |Partitioned(m)| == |Pick(v, m, true)| + |Pick(v, m, false)| == |m|
    ensures ShuffleLane(pad, v, Partitioned(m)[j]) == (Pick(v, m, true) + Reverse(Pick(v, m, false)))[j]
  {
    hide Lanes, Pick;
    PickLength(v, m, true);
    PickLength(v, m, false);
    LaneCounts(m);
    var i := if j < Pop(m) then Lanes(m, true)[j] else Lanes(m, false)[|m| - 1 - j];
    assert Partitioned(m)[j] == i < |v|;
  }

  function FlipAll(pad: Pad, control: seq<int>): seq<int> {
    seq(|control|, j requires 0 <= j < |control| => Flip(pad, control[j]))
  }

  function Avx2Merge(pad: Pad, lo: Mask, hi: Mask, lhs: bytes, rhs: bytes): bytes
    requires |lo| == |hi| && Encodes(pad, |lo|) && |lhs| == |rhs| == 2 * |lo|
  {
    var control := MergeControl(pad, lo, hi);
    var n := |control|;
    var right := Shuffle(pad, rhs, control);
    var left := Shuffle(pad, lhs, FlipAll(pad, control));
    seq(n, j requires 0 <= j < n => Or(right[j], left[j]))
  }

  function NeonMerge(pad: Pad, lo: Mask, hi: Mask, lhs: bytes, rhs: bytes): bytes
    requires |lo| == |hi| && Encodes(pad, |lo|) && |lhs| == |rhs| == 2 * |lo|
  {
    var control := NeonControl(pad, lo, hi);
    seq(|control|, j requires 0 <= j < |control| => Lookup(rhs + lhs, control[j]))
  }

  /** A table lookup: an index out of range gives zero. */
  function Lookup(table: bytes, i: int): byte {
    if 0 <= i < |table| then table[i] else 0
  }

  /** Both kernels merge one register bit by bit. */
  lemma Avx2MergeCorrect(pad: Pad, lo: Mask, hi: Mask, lhs: bytes, rhs: bytes)
    requires |lo| == |hi| && Encodes(pad, |lo|) && |lhs| == |rhs| == 2 * |lo|
    ensures Pop(lo + hi) <= |lo + hi| && Avx2Merge(pad, lo, hi, lhs, rhs) == MergeBits(lo + hi, lhs, rhs)
  {
    hide Lanes, MergeControl, Or, Rank, MergeBits;
    var m := lo + hi;
    LaneCounts(m);
    forall j | 0 <= j < |m| ensures Avx2Merge(pad, lo, hi, lhs, rhs)[j] == MergeBits(m, lhs, rhs)[j] {
      MergeControlCorrect(pad, lo, hi, j);
      MergeAt(m, lhs, rhs, j);
      OrZero(if m[j] then rhs[Rank(m, j)] else lhs[j - Rank(m, j)]);
    }
  }

  lemma NeonMergeCorrect(pad: Pad, lo: Mask, hi: Mask, lhs: bytes, rhs: bytes)
    requires |lo| == |hi| && EncodesSigned(pad, |lo|) && |lhs| == |rhs| == 2 * |lo|
    ensures Pop(lo + hi) <= |lo + hi| && NeonMerge(pad, lo, hi, lhs, rhs) == MergeBits(lo + hi, lhs, rhs)
  {
    hide Lanes, NeonControl, Rank, MergeBits;
    var m := lo + hi;
    LaneCounts(m);
    forall j | 0 <= j < |m| ensures NeonMerge(pad, lo, hi, lhs, rhs)[j] == MergeBits(m, lhs, rhs)[j] {
      NeonControlCorrect(pad, lo, hi, j);
      MergeAt(m, lhs, rhs, j);
    }
  }
}
