/** The shuffle controls of scripts/gen_pivco_huffman_tables.py and the kernels that use them
    (src/openzl/codecs/pivco_huffman/arch), for masks of any number of lanes n. A register holds 2n bytes,
    the low and the high half. A control byte has 2 * pad values, and those from pad on have their high
    bit set; the tables of the source are the rows for n = 8 and pad = 0x80. */
module PivcoTables {
  import opened Bytes

  type Mask = seq<bool>

  /** The value of the high bit of a control byte. */
  type Pad = p: nat | p > 0 witness 0x80

  /** A control byte holds an index into a register of 2n bytes, or the pad. */
  predicate Encodes(pad: Pad, n: nat) {
    0 < n && 2 * n <= pad
  }

  /** The same for the signed arithmetic of the NEON controls. */
  predicate EncodesSigned(pad: Pad, n: nat) {
    0 < n && 4 * n <= pad
  }

  // ---------------------------------------------------------------- lanes

  /** The lanes of a mask that are set, or unset, in order. */
  function Lanes(m: Mask, b: bool): (r: seq<nat>)
    ensures forall i :: 0 <= i < |r| ==> r[i] < |m|
  {
    if m == [] then []
    else
      var init := m[..|m| - 1];
      Lanes(init, b) + if m[|m| - 1] == b then [|m| - 1] else []
  }

  function Pop(m: Mask): nat {
    |Lanes(m, true)|
  }

  lemma {:induction false} LaneCounts(m: Mask)
    ensures |Lanes(m, true)| + |Lanes(m, false)| == |m|
  {
    if m != [] {
      LaneCounts(m[..|m| - 1]);
    }
  }

  function Shift(s: seq<nat>, d: nat): (r: seq<nat>)
    ensures |r| == |s| && forall i :: 0 <= i < |s| ==> r[i] == s[i] + d
  {
    seq(|s|, i requires 0 <= i < |s| => s[i] + d)
  }

  function Reverse<T>(s: seq<T>): (r: seq<T>)
    ensures |r| == |s| && forall i :: 0 <= i < |s| ==> r[i] == s[|s| - 1 - i]
  {
    seq(|s|, i requires 0 <= i < |s| => s[|s| - 1 - i])
  }

  lemma {:induction false} LanesConcat(lo: Mask, hi: Mask, b: bool)
    ensures Lanes(lo + hi, b) == Lanes(lo, b) + Shift(Lanes(hi, b), |lo|)
    decreases |hi|
  {
    if hi == [] {
      assert lo + hi == lo;
    } else {
      var n := |hi| - 1;
      assert (lo + hi)[..|lo| + n] == lo + hi[..n];
      LanesConcat(lo, hi[..n], b);
    }
  }

  function Pads(pad: Pad, n: nat): (r: seq<nat>)
    ensures |r| == n && forall i :: 0 <= i < n ==> r[i] == pad
  {
    seq(n, _ => pad)
  }

  // ---------------------------------------------------------------- partition

  /** Low-half control: set lanes at the front, unset lanes reversed at the far back. */
  function LoRow(pad: Pad, m: Mask): seq<nat> {
    Lanes(m, true) + Pads(pad, |m|) + Reverse(Lanes(m, false))
  }

  /** High-half control before padding: the lanes of the high half, set then unset reversed. */
  function HiBase(pad: Pad, m: Mask): seq<nat> {
    Shift(Lanes(m, true), |m|) + Shift(Reverse(Lanes(m, false)), |m|) + Pads(pad, |m|)
  }

  function HiPadded(pad: Pad, m: Mask): seq<nat> {
    Pads(pad, |m|) + HiBase(pad, m) + Pads(pad, |m|)
  }

  lemma LanesSnoc(m: Mask, k: nat, b: bool)
    requires k < |m|
    ensures Lanes(m[..k + 1], b) == Lanes(m[..k], b) + if m[k] == b then [k] else []
  {
    assert m[..k + 1][..k] == m[..k];
  }

  lemma {:induction false} LanesPrefix(m: Mask, k: nat, b: bool)
    requires k <= |m|
    ensures |Lanes(m[..k], b)| <= |Lanes(m, b)| && |Lanes(m[..k], b)| <= k
    decreases |m| - k
  {
    LaneCounts(m[..k]);
    if k < |m| {
      LanesPrefix(m, k + 1, b);
      LanesSnoc(m, k, b);
    } else {
      assert m[..k] == m;
    }
  }

  /** Writes the set lanes, plus a base, from the front. */
  method FillForward(out: array<nat>, m: Mask, base: nat)
    requires |Lanes(m, true)| <= out.Length
    modifies out
    ensures out[..] == Shift(Lanes(m, true), base) + old(out[..])[|Lanes(m, true)|..]
  {
    hide Lanes;
    var pos := 0;
    NoLanes(m);
    for lane := 0 to |m|
      invariant pos == |Lanes(m[..lane], true)| <= |Lanes(m, true)|
      invariant forall i :: pos <= i < out.Length ==> out[i] == old(out[i])
      invariant forall i :: 0 <= i < pos ==> out[i] == base + Lanes(m[..lane], true)[i]
    {
      LanesSnoc(m, lane, true);
      LanesPrefix(m, lane + 1, true);
      if m[lane] {
        out[pos] := base + lane;
        pos := pos + 1;
      }
    }
    assert m[..|m|] == m;
  }

  /** Writes the unset lanes, plus a base, backwards from a position. */
  method FillBackward(out: array<nat>, m: Mask, base: nat, back: nat)
    requires |Lanes(m, false)| <= back <= out.Length
    modifies out
    ensures out[..] == old(out[..])[..back - |Lanes(m, false)|] + Shift(Reverse(Lanes(m, false)), base) + old(out[..])[back..]
  {
    hide Lanes, Shift, Reverse;
    var pos := back;
    NoLanes(m);
    for lane := 0 to |m|
      invariant |Lanes(m[..lane], false)| <= |Lanes(m, false)| && pos == back - |Lanes(m[..lane], false)|
      invariant forall i :: 0 <= i < out.Length && !(pos <= i < back) ==> out[i] == old(out[i])
      invariant forall i :: pos <= i < back ==> out[i] == base + Lanes(m[..lane], false)[back - 1 - i]
    {
      LanesSnoc(m, lane, false);
      LanesPrefix(m, lane + 1, false);
      if !m[lane] {
        pos := pos - 1;
        out[pos] := base + lane;
      }
    }
    assert m[..|m|] == m;
  }

  lemma NoLanes(m: Mask)
    ensures Lanes(m[..0], true) == [] && Lanes(m[..0], false) == []
  {
  }

  method PartitionLo(pad: Pad, m: Mask) returns (out: array<nat>)
    ensures fresh(out) && out[..] == LoRow(pad, m)
  {
    hide Lanes;
    var n := |m|;
    LaneCounts(m);
    out := new nat[2 * n](_ => pad);
    assert out[..] == Pads(pad, 2 * n);
    FillForward(out, m, 0);
    FillBackward(out, m, 0, 2 * n);
    assert Shift(Lanes(m, true), 0) == Lanes(m, true) && Shift(Reverse(Lanes(m, false)), 0) == Reverse(Lanes(m, false));
  }

  method PartitionHiBase(pad: Pad, m: Mask) returns (out: array<nat>)
    ensures fresh(out) && out[..] == HiBase(pad, m)
  {
    hide Lanes;
    var n := |m|;
    LaneCounts(m);
    out := new nat[2 * n](_ => pad);
    assert out[..] == Pads(pad, 2 * n);
    FillForward(out, m, n);
    FillBackward(out, m, n, n);
  }

  /** The control of a whole register: the low row, and the high row loaded at the number of unset
      low lanes, overlaid by an unsigned minimum. */
  function PartitionControl(pad: Pad, lo: Mask, hi: Mask): (r: seq<nat>)
    requires |lo| == |hi|
  {
    LaneCounts(lo);
    LaneCounts(hi);
    var n := |lo|;
    var window := HiPadded(pad, hi)[n - Pop(lo)..3 * n - Pop(lo)];
    seq(2 * n, j requires 0 <= j < 2 * n => Min(LoRow(pad, lo)[j], window[j]))
  }

  /** Set lanes forward, then unset lanes reversed: of all 2n lanes. */
  function Partitioned(m: Mask): seq<nat> {
    Lanes(m, true) + Reverse(Lanes(m, false))
  }

  lemma LoAt(pad: Pad, m: Mask, j: nat)
    requires j < 2 * |m|
    ensures |Lanes(m, true)| + |Lanes(m, false)| == |m| && |LoRow(pad, m)| == 2 * |m|
    ensures LoRow(pad, m)[j] == if j < Pop(m) then Lanes(m, true)[j] else if j < Pop(m) + |m| then pad else Lanes(m, false)[2 * |m| - 1 - j]
  {
    hide Lanes;
    LaneCounts(m);
  }

  lemma HiAt(pad: Pad, m: Mask, i: nat)
    requires i < 4 * |m|
    ensures |Lanes(m, true)| + |Lanes(m, false)| == |m| && |HiPadded(pad, m)| == 4 * |m|
    ensures HiPadded(pad, m)[i] == if i < |m| || i >= 2 * |m| then pad
                              else if i < |m| + Pop(m) then |m| + Lanes(m, true)[i - |m|]
                              else |m| + Lanes(m, false)[2 * |m| - 1 - i]
  {
    hide Lanes;
    LaneCounts(m);
  }

  lemma PartitionedAt(lo: Mask, hi: Mask, j: nat)
    requires |lo| == |hi| && j < 2 * |lo|
    ensures |Lanes(lo, true)| + |Lanes(lo, false)| == |lo| == |hi| == |Lanes(hi, true)| + |Lanes(hi, false)|
    ensures var n, p, q := |lo|, Pop(lo), Pop(hi);
            && |Partitioned(lo + hi)| == 2 * n
            && Partitioned(lo + hi)[j] == if j < p then Lanes(lo, true)[j]
                                          else if j < p + q then n + Lanes(hi, true)[j - p]
                                          else if j < p + n then n + Lanes(hi, false)[p + n - 1 - j]
                                          else Lanes(lo, false)[2 * n - 1 - j]
  {
    hide Lanes;
    LaneCounts(lo);
    LaneCounts(hi);
    LanesConcat(lo, hi, true);
    LanesConcat(lo, hi, false);
  }

  /** The two halves fill disjoint lanes and together gather the whole register. */
  lemma PartitionControlCorrect(pad: Pad, lo: Mask, hi: Mask)
    requires |lo| == |hi| && Encodes(pad, |lo|)
    ensures PartitionControl(pad, lo, hi) == Partitioned(lo + hi)
  {
    hide Lanes, LoRow, HiPadded, Partitioned;
    var n, p := |lo|, Pop(lo);
    PartitionedAt(lo, hi, 0);
    HiAt(pad, hi, 0);
    forall j | 0 <= j < 2 * n ensures PartitionControl(pad, lo, hi)[j] == Partitioned(lo + hi)[j] {
      LoAt(pad, lo, j);
      HiAt(pad, hi, n - p + j);
      PartitionedAt(lo, hi, j);
    }
  }
}
