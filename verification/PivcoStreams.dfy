/** Partition and merge over streams of any length, in whole registers with a partial last one, as
    src/openzl/codecs/pivco_huffman/arch does. The buffers have some bytes of slop behind their ends, and
    a partition may be done in place. */
module PivcoStreams {
  import opened Arithmetic
  import opened Bytes
  import opened PivcoTables
  import opened PivcoMerge

  // ---------------------------------------------------------------- masks

  /** Which ranks go to the right. */
  function RankMask(ranks: bytes, rightRank: byte): (m: Mask)
    ensures |m| == |ranks| && forall i :: 0 <= i < |m| ==> m[i] == (ranks[i] >= rightRank)
  {
    seq(|ranks|, i requires 0 <= i < |ranks| => ranks[i] >= rightRank)
  }

  /** Bits beyond the end of a stream, cleared. */
  function Clear(k: nat): (r: Mask)
    ensures |r| == k && forall i :: 0 <= i < k ==> !r[i]
  {
    seq(k, _ => false)
  }

  lemma {:induction false} PickClear(v: bytes, k: nat)
    requires |v| == k
    ensures Pop(Clear(k)) == 0 && Pick(v, Clear(k), true) == [] && Pick(v, Clear(k), false) == v
    decreases k
  {
    if k > 0 {
      assert Clear(k)[..k - 1] == Clear(k - 1);
      PickClear(v[..k - 1], k - 1);
      assert v == v[..k - 1] + [v[k - 1]];
    }
  }

  /** Cleared bits change neither the right values nor the left ones before them. */
  lemma PickPadded(v: bytes, m: Mask, over: bytes)
    requires |v| == |m|
    ensures Pop(m + Clear(|over|)) == Pop(m)
    ensures Pick(v + over, m + Clear(|over|), true) == Pick(v, m, true)
    ensures Pick(v + over, m + Clear(|over|), false) == Pick(v, m, false) + over
  {
    hide Lanes, Pick, Pop;
    PickClear(over, |over|);
    PopConcat(m, Clear(|over|));
    PickConcat(v, over, m, Clear(|over|), true);
    PickConcat(v, over, m, Clear(|over|), false);
  }

  lemma PickLengths(v: bytes, m: Mask)
    requires |v| == |m|
    ensures |Pick(v, m, true)| == Pop(m) && |Pick(v, m, false)| == |m| - Pop(m)
  {
    PickLength(v, m, true);
    PickLength(v, m, false);
    LaneCounts(m);
  }

  lemma PickNone()
    ensures Pop([]) == 0 && Pick([], [], true) == [] && Pick([], [], false) == []
  {
  }

  // ---------------------------------------------------------------- partition

  /** Stores a register, of which the first bytes count; the next store overwrites the others. */
  method Store(buffer: array<byte>, at: nat, v: bytes, ghost count: nat)
    requires at + |v| <= buffer.Length && count <= |v|
    modifies buffer
    ensures buffer[..at + count] == old(buffer[..at]) + v[..count]
    ensures Untouched(buffer, at + |v|)
  {
    forall i | 0 <= i < |v| {
      buffer[at + i] := v[i];
    }
  }

  /** From an index on, a buffer is as it was. */
  twostate predicate Untouched(buffer: array<byte>, from: nat)
    reads buffer
  {
    forall i :: from <= i < buffer.Length ==> buffer[i] == old(buffer[i])
  }

  lemma TakeParts(a: bytes, b: bytes)
    ensures (a + Reverse(b))[..|a|] == a && Reverse(a + Reverse(b))[..|b|] == b
  {
  }

  /** Partitions one register: it is compacted, then stored to the right buffer as it is and to the
      left buffer reversed. */
  method PartitionRegister(pad: Pad, n: nat, m: Mask, v: bytes, lhs: array<byte>, rhs: array<byte>, ones: nat, zeros: nat)
    requires Encodes(pad, n) && |m| == |v| == 2 * n && lhs != rhs
    requires ones + |v| <= rhs.Length && zeros + |v| <= lhs.Length
    modifies lhs, rhs
    ensures Pop(m) <= |v|
    ensures rhs[..ones + Pop(m)] == old(rhs[..ones]) + Pick(v, m, true)
    ensures lhs[..zeros + (|v| - Pop(m))] == old(lhs[..zeros]) + Pick(v, m, false)
    ensures Untouched(rhs, ones + |v|) && Untouched(lhs, zeros + |v|)
  {
    hide Lanes, Pick, Compact;
    var lo, hi := m[..n], m[n..];
    assert lo + hi == m;
    ghost var right, left := Pick(v, m, true), Pick(v, m, false);
    PickLengths(v, m);
    CompactCorrect(pad, lo, hi, v);
    TakeParts(right, left);
    var compact := Compact(pad, lo, hi, v);
    Store(rhs, ones, compact, |right|);
    Store(lhs, zeros, Reverse(compact), |left|);
  }

  /** Partitions one block of two registers, both loaded before. */
  method PartitionBlock(pad: Pad, n: nat, m: Mask, v: bytes, lhs: array<byte>, rhs: array<byte>, ones: nat, zeros: nat)
    returns (ones': nat, zeros': nat)
    requires Encodes(pad, n) && |m| == |v| == 4 * n && lhs != rhs
    requires ones + |v| <= rhs.Length && zeros + |v| <= lhs.Length
    modifies lhs, rhs
    ensures Pop(m) <= |m| && ones' == ones + Pop(m) && zeros' == zeros + (|m| - Pop(m))
    ensures rhs[..ones'] == old(rhs[..ones]) + Pick(v, m, true)
    ensures lhs[..zeros'] == old(lhs[..zeros]) + Pick(v, m, false)
    ensures Untouched(rhs, ones + |v|) && Untouched(lhs, zeros + |v|)
  {
    hide Pop, Pick, Encodes;
    var a, b, m0, m1 := v[..2 * n], v[2 * n..], m[..2 * n], m[2 * n..];
    ghost var right, left := rhs[..ones], lhs[..zeros];
    TwoRegisters(a, b, m0, m1, right, left);
    assert v == a + b && m == m0 + m1;
    PartitionRegister(pad, n, m0, a, lhs, rhs, ones, zeros);
    ones', zeros' := ones + Pop(m0), zeros + (2 * n - Pop(m0));
    PartitionRegister(pad, n, m1, b, lhs, rhs, ones', zeros');
    ones', zeros' := ones' + Pop(m1), zeros' + (2 * n - Pop(m1));
  }

  lemma TwoRegisters(a: bytes, b: bytes, m: Mask, k: Mask, right: bytes, left: bytes)
    requires |a| == |m| && |b| == |k|
    ensures Pop(m + k) == Pop(m) + Pop(k) && Pop(m) <= |m| && Pop(k) <= |k|
    ensures right + Pick(a + b, m + k, true) == (right + Pick(a, m, true)) + Pick(b, k, true)
    ensures left + Pick(a + b, m + k, false) == (left + Pick(a, m, false)) + Pick(b, k, false)
  {
    hide Pop, Pick;
    PopConcat(m, k);
    PopBound(m);
    PopBound(k);
    PickConcat(a, b, m, k, true);
    PickConcat(a, b, m, k, false);
  }

  /** The values partitioned so far are in the buffers, and the ranks still to come are as they were. */
  ghost predicate InBuffers(all: bytes, i: nat, rightRank: byte, bitmap: Mask, lhs: array<byte>, rhs: array<byte>, ones: nat, zeros: nat)
    requires i <= |all|
    reads lhs, rhs
  {
    && bitmap == RankMask(all[..i], rightRank)
    && ones == Pop(bitmap) <= i && zeros == i - ones && ones <= rhs.Length && zeros <= lhs.Length
    && rhs[..ones] == Pick(all[..i], bitmap, true) && lhs[..zeros] == Pick(all[..i], bitmap, false)
  }

  /** The values of a block appended to those before it. */
  lemma PartitionNext(all: bytes, i: nat, k: nat, rightRank: byte)
    requires i + k <= |all|
    ensures var a, b, m := RankMask(all[..i], rightRank), all[i..i + k], RankMask(all[i..i + k], rightRank);
            && RankMask(all[..i + k], rightRank) == a + m
            && Pop(a + m) == Pop(a) + Pop(m) <= i + k
            && Pick(all[..i + k], a + m, true) == Pick(all[..i], a, true) + Pick(b, m, true)
            && Pick(all[..i + k], a + m, false) == Pick(all[..i], a, false) + Pick(b, m, false)
  {
    hide Pop, Pick;
    var a, b, m := RankMask(all[..i], rightRank), all[i..i + k], RankMask(all[i..i + k], rightRank);
    assert all[..i + k] == all[..i] + b;
    assert RankMask(all[..i + k], rightRank) == a + m;
    PopConcat(a, m);
    PopBound(a);
    PopBound(m);
    PickConcat(all[..i], b, a, m, true);
    PickConcat(all[..i], b, a, m, false);
  }

  lemma NothingInBuffers(all: bytes, rightRank: byte, lhs: array<byte>, rhs: array<byte>)
    ensures InBuffers(all, 0, rightRank, [], lhs, rhs, 0, 0)
  {
    PickNone();
    assert all[..0] == [] && lhs[..0] == [] && rhs[..0] == [];
  }

  /** Loads a block, clears the bits beyond its lanes, and stores it. */
  method PartitionStep(pad: Pad, n: nat, rightRank: byte, ranks: array<byte>, ghost all: bytes, i: nat, lanes: nat,
                       bitmap: Mask, lhs: array<byte>, rhs: array<byte>, ones: nat, zeros: nat)
    returns (bitmap': Mask, ones': nat, zeros': nat)
    requires Encodes(pad, n) && lhs != rhs && lanes <= 4 * n && |all| == ranks.Length
    requires i + 4 * n <= ranks.Length && i + 4 * n <= lhs.Length && i + 4 * n <= rhs.Length
    requires InBuffers(all, i, rightRank, bitmap, lhs, rhs, ones, zeros)
    requires forall k :: i <= k < ranks.Length ==> ranks[k] == all[k]
    modifies lhs, rhs
    ensures InBuffers(all, i + lanes, rightRank, bitmap', lhs, rhs, ones', zeros')
    ensures forall k :: i + 4 * n <= k < ranks.Length ==> ranks[k] == all[k]
  {
    hide Pop, Pick;
    var v := ranks[i..i + 4 * n];
    assert v == all[i..i + 4 * n];
    var m := RankMask(v, rightRank)[..lanes];
    ghost var left, right := lhs[..zeros], rhs[..ones];
    BlockMask(all, i, lanes, 4 * n, rightRank);
    PartitionNext(all, i, lanes, rightRank);
    PickLengths(all[..i + lanes], bitmap + m);
    var z;
    ones', z := PartitionBlock(pad, n, m + Clear(4 * n - lanes), v, lhs, rhs, ones, zeros);
    bitmap', zeros' := bitmap + m, i + lanes - ones';
    assert lhs[..zeros'] == lhs[..z][..zeros'];
  }

  /** What a block with cleared bits holds. */
  lemma BlockMask(all: bytes, i: nat, lanes: nat, size: nat, rightRank: byte)
    requires lanes <= size && i + size <= |all|
    ensures var v, a := all[i..i + size], all[i..i + lanes];
            var m := RankMask(a, rightRank);
            var whole := m + Clear(size - lanes);
            && RankMask(v, rightRank)[..lanes] == m
            && Pop(whole) == Pop(m) && Pick(v, whole, true) == Pick(a, m, true) && Pick(a, m, false) <= Pick(v, whole, false)
  {
    hide Pop, Pick;
    var a, over := all[i..i + lanes], all[i + lanes..i + size];
    assert all[i..i + size] == a + over;
    PickPadded(a, RankMask(a, rightRank), over);
  }

  /** Partitions a stream of any length by its ranks. Either buffer may be the ranks themselves: no
      store overtakes the loads. The last block reads what is behind the ranks and clears the bits of
      these lanes; they end up behind the left values. */
  method PartitionFull(pad: Pad, n: nat, rightRank: byte, ranks: array<byte>, size: nat, lhs: array<byte>, rhs: array<byte>)
    returns (bitmap: Mask, ones: nat)
    requires Encodes(pad, n) && lhs != rhs
    requires size + 4 * n <= ranks.Length && size + 4 * n <= lhs.Length && size + 4 * n <= rhs.Length
    modifies lhs, rhs
    ensures var values := old(ranks[..size]);
            && bitmap == RankMask(values, rightRank) && ones == Pop(bitmap) <= size
            && rhs[..ones] == Pick(values, bitmap, true) && lhs[..size - ones] == Pick(values, bitmap, false)
  {
    hide Pop, Pick, InBuffers;
    ghost var all := ranks[..];
    var i, zeros := 0, 0;
    bitmap, ones := [], 0;
    NothingInBuffers(all, rightRank, lhs, rhs);
    while i + 4 * n <= size
      invariant i <= size && InBuffers(all, i, rightRank, bitmap, lhs, rhs, ones, zeros)
      invariant forall k :: i <= k < ranks.Length ==> ranks[k] == all[k]
    {
      bitmap, ones, zeros := PartitionStep(pad, n, rightRank, ranks, all, i, 4 * n, bitmap, lhs, rhs, ones, zeros);
      i := i + 4 * n;
    }
    if i < size {
      bitmap, ones, zeros := PartitionStep(pad, n, rightRank, ranks, all, i, size - i, bitmap, lhs, rhs, ones, zeros);
    }
    AllInBuffers(all, size, rightRank, bitmap, lhs, rhs, ones, zeros);
    assert all[..size] == old(ranks[..size]);
  }

  lemma AllInBuffers(all: bytes, size: nat, rightRank: byte, bitmap: Mask, lhs: array<byte>, rhs: array<byte>, ones: nat, zeros: nat)
    requires size <= |all| && InBuffers(all, size, rightRank, bitmap, lhs, rhs, ones, zeros)
    ensures var values := all[..size];
            && bitmap == RankMask(values, rightRank) && ones == Pop(bitmap) <= size
            && ones <= rhs.Length && size - ones <= lhs.Length
            && rhs[..ones] == Pick(values, bitmap, true) && lhs[..size - ones] == Pick(values, bitmap, false)
  {
  }

  // ---------------------------------------------------------------- merge

  /** The control bytes can hold what the kernel needs. */
  predicate Runs(pad: Pad, n: nat, neon: bool) {
    if neon then EncodesSigned(pad, n) else Encodes(pad, n)
  }

  /** One register with either kernel. */
  method MergeRegister(pad: Pad, n: nat, neon: bool, m: Mask, lhs: bytes, rhs: bytes, lhsIdx: nat, rhsIdx: nat)
    returns (piece: bytes)
    requires Runs(pad, n, neon) && |m| == 2 * n && lhsIdx + 2 * n <= |lhs| && rhsIdx + 2 * n <= |rhs|
    ensures Pop(m) <= |m|
    ensures piece == MergeBits(m, lhs[lhsIdx..lhsIdx + 2 * n], rhs[rhsIdx..rhsIdx + 2 * n])
  {
    hide Pop, MergeBits, Avx2Merge, NeonMerge;
    var lo, hi, left, right := m[..n], m[n..], lhs[lhsIdx..lhsIdx + 2 * n], rhs[rhsIdx..rhsIdx + 2 * n];
    assert lo + hi == m;
    if neon {
      NeonMergeCorrect(pad, lo, hi, left, right);
      piece := NeonMerge(pad, lo, hi, left, right);
    } else {
      Avx2MergeCorrect(pad, lo, hi, left, right);
      piece := Avx2Merge(pad, lo, hi, left, right);
    }
  }

  /** The output is the merge of the bits so far, and the indices say what it took from each source. */
  ghost predicate Merged(bits: Mask, lhs: bytes, rhs: bytes, out: bytes, lhsIdx: nat, rhsIdx: nat) {
    && |out| <= |bits| && Pop(bits[..|out|]) == rhsIdx <= |rhs|
    && lhsIdx + rhsIdx == |out| && lhsIdx <= |lhs|
    && out == MergeBits(bits[..|out|], lhs, rhs)
  }

  lemma MergedNothing(bits: Mask, lhs: bytes, rhs: bytes)
    ensures Merged(bits, lhs, rhs, [], 0, 0)
  {
    assert bits[..0] == [];
    MergeNone(lhs, rhs);
  }

  /** The next k bits merged from where the sources stand. */
  lemma MergedNext(bits: Mask, lhs: bytes, rhs: bytes, out: bytes, lhsIdx: nat, rhsIdx: nat, k: nat, left: bytes, right: bytes)
    requires Merged(bits, lhs, rhs, out, lhsIdx, rhsIdx) && |out| + k <= |bits|
    requires k <= |left| && k <= |right| && left <= lhs[lhsIdx..] && right <= rhs[rhsIdx..]
    ensures var m := bits[|out|..|out| + k];
            && Pop(m) <= k
            && Merged(bits, lhs, rhs, out + MergeBits(m, left, right), lhsIdx + k - Pop(m), rhsIdx + Pop(m))
  {
    hide Pop, MergeBits;
    var a, m := bits[..|out|], bits[|out|..|out| + k];
    PopBound(m);
    PopConcat(a, m);
    MergeConcat(a, m, lhs, rhs, left, right);
    hide *;
    var out' := out + MergeBits(m, left, right);
    assert |out'| == |out| + k;
    assert bits[..|out'|] == a + m;
  }

  /** Merges one register. */
  method MergeStep(pad: Pad, n: nat, neon: bool, bits: Mask, lhs: bytes, rhs: bytes, out: bytes, lhsIdx: nat, rhsIdx: nat)
    returns (out': bytes, lhsIdx': nat, rhsIdx': nat)
    requires Runs(pad, n, neon) && Merged(bits, lhs, rhs, out, lhsIdx, rhsIdx)
    requires |out| + 2 * n <= |bits| && lhsIdx + 2 * n <= |lhs| && rhsIdx + 2 * n <= |rhs|
    ensures Merged(bits, lhs, rhs, out', lhsIdx', rhsIdx') && |out'| == |out| + 2 * n
    ensures lhsIdx <= lhsIdx' <= lhsIdx + 2 * n && rhsIdx <= rhsIdx' <= rhsIdx + 2 * n
  {
    hide Pop, MergeBits, Merged, Runs;
    var size := 2 * n;
    var m := bits[|out|..|out| + size];
    var piece := MergeRegister(pad, n, neon, m, lhs, rhs, lhsIdx, rhsIdx);
    MergedNext(bits, lhs, rhs, out, lhsIdx, rhsIdx, size, lhs[lhsIdx..lhsIdx + size], rhs[rhsIdx..rhsIdx + size]);
    out', lhsIdx', rhsIdx' := out + piece, lhsIdx + size - Pop(m), rhsIdx + Pop(m);
  }

  /** Merges `count` registers. All loads are inside the buffers. */
  method MergeRun(pad: Pad, n: nat, neon: bool, bits: Mask, lhs: bytes, rhs: bytes, out: bytes, lhsIdx: nat, rhsIdx: nat, count: nat)
    returns (out': bytes, lhsIdx': nat, rhsIdx': nat)
    requires Runs(pad, n, neon) && Merged(bits, lhs, rhs, out, lhsIdx, rhsIdx)
    requires |out| + 2 * n * count <= |bits| && lhsIdx + 2 * n * count <= |lhs| && rhsIdx + 2 * n * count <= |rhs|
    ensures Merged(bits, lhs, rhs, out', lhsIdx', rhsIdx') && |out'| == |out| + 2 * n * count
    ensures lhsIdx <= lhsIdx' <= lhsIdx + 2 * n * count && rhsIdx <= rhsIdx' <= rhsIdx + 2 * n * count
  {
    hide Pop, MergeBits, Merged, Runs;
    out', lhsIdx', rhsIdx' := out, lhsIdx, rhsIdx;
    var size := 2 * n;
    ghost var total := size * count;
    // the bytes of the registers still to come
    ghost var ahead: nat := total;
    for k := 0 to count
      invariant ahead == size * (count - k) && |out'| + ahead == |out| + total
      invariant lhsIdx <= lhsIdx' && lhsIdx' + ahead <= lhsIdx + total
      invariant rhsIdx <= rhsIdx' && rhsIdx' + ahead <= rhsIdx + total
      invariant Merged(bits, lhs, rhs, out', lhsIdx', rhsIdx')
    {
      OneFewer(size, count - k);
      out', lhsIdx', rhsIdx' := MergeStep(pad, n, neon, bits, lhs, rhs, out', lhsIdx', rhsIdx');
      ahead := ahead - size;
    }
  }

  lemma OneFewer(size: nat, k: nat)
    requires k > 0
    ensures size * k == size + size * (k - 1) >= size
  {
    assert size * k == size * (1 + (k - 1));
    if k > 1 {
      AtLeast(size, k - 1);
    }
  }

  /** The last bits, fewer than a register: the bits beyond them are cleared, and what they give is dropped. */
  method MergeTail(pad: Pad, n: nat, neon: bool, bits: Mask, lhs: bytes, rhs: bytes, out: bytes, lhsIdx: nat, rhsIdx: nat)
    returns (out': bytes, lhsIdx': nat, rhsIdx': nat)
    requires Runs(pad, n, neon) && Merged(bits, lhs, rhs, out, lhsIdx, rhsIdx)
    requires |bits| - 2 * n <= |out| && lhsIdx + 2 * n <= |lhs| && rhsIdx + 2 * n <= |rhs|
    ensures Merged(bits, lhs, rhs, out', lhsIdx', rhsIdx') && |out'| == |bits|
  {
    hide Pop, MergeBits, Runs;
    var remaining := |bits| - |out|;
    var m := bits[|out|..] + Clear(2 * n - remaining);
    var piece := MergeRegister(pad, n, neon, m, lhs, rhs, lhsIdx, rhsIdx);
    ghost var left, right := lhs[lhsIdx..lhsIdx + 2 * n], rhs[rhsIdx..rhsIdx + 2 * n];
    assert bits[|out|..] == bits[|out|..|out| + remaining];
    MergedNext(bits, lhs, rhs, out, lhsIdx, rhsIdx, remaining, left, right);
    MergePadded(bits[|out|..], 2 * n - remaining, left, right);
    out', lhsIdx', rhsIdx' := out + piece[..remaining], lhsIdx + remaining - Pop(m), rhsIdx + Pop(m);
  }

  /** Cleared bits do not change the bytes merged before them. */
  lemma MergePadded(m: Mask, k: nat, lhs: bytes, rhs: bytes)
    requires |m| + k <= |lhs| && |m| <= |rhs|
    ensures Pop(m + Clear(k)) == Pop(m) <= |m|
    ensures MergeBits(m + Clear(k), lhs, rhs)[..|m|] == MergeBits(m, lhs, rhs)
  {
    hide Lanes, MergeBits, Pop;
    PopBound(m);
    PickClear(seq(k, _ => 0), k);
    PopConcat(m, Clear(k));
    MergeConcat(m, Clear(k), lhs, rhs, lhs[|m| - Pop(m)..], rhs[Pop(m)..]);
  }

  /** A driver that stops at the end, or when it took more than there is from one source, counts
      rhsSize right bytes exactly when the bitmap has rhsSize set bits; then it has merged all. */
  lemma CountDecides(bits: Mask, lhs: bytes, rhs: bytes, out: bytes, lhsIdx: nat, rhsIdx: nat, lhsSize: nat, rhsSize: nat)
    requires Merged(bits, lhs, rhs, out, lhsIdx, rhsIdx) && |bits| == lhsSize + rhsSize
    requires |out| == |bits| || lhsIdx > lhsSize || rhsIdx > rhsSize
    ensures rhsIdx == rhsSize <==> Pop(bits) == rhsSize
    ensures rhsIdx == rhsSize ==> Pop(bits) <= |rhs| && |bits| - Pop(bits) <= |lhs| && out == MergeBits(bits, lhs, rhs)
  {
    hide Pop, MergeBits;
    PopPrefix(bits, |out|);
    if |out| == |bits| {
      assert bits[..|out|] == bits;
    }
  }

  /** How many blocks have room in all three buffers. */
  method Iterations(size: nat, outRoom: nat, lhsRoom: nat, rhsRoom: nat) returns (iters: nat)
    requires size > 0
    ensures size * iters <= outRoom && size * iters <= lhsRoom && size * iters <= rhsRoom
    ensures if iters == 0 then outRoom < size || lhsRoom < size || rhsRoom < size else size * iters >= size
  {
    iters := Min(outRoom / size, Min(lhsRoom / size, rhsRoom / size));
    Quotients(size, iters, outRoom);
    Quotients(size, iters, lhsRoom);
    Quotients(size, iters, rhsRoom);
    if iters > 0 {
      AtLeast(size, iters);
    }
  }

  lemma Quotients(size: nat, iters: nat, room: nat)
    requires size > 0
    ensures iters <= room / size ==> size * iters <= room
    ensures room / size == 0 ==> room < size
  {
    var q := room / size;
    assert room == size * q + room % size;
    if iters < q {
      AtLeast(size, q - iters);
      assert size * q - size * iters == size * (q - iters);
    }
  }

  /** The wide phase: blocks of some registers, as many at a time as have room in all three buffers
      without the slop. The loop does not check the indices: they never pass the ends. */
  method MergeWide(pad: Pad, n: nat, bits: Mask, lhs: bytes, lhsSize: nat, rhs: bytes, rhsSize: nat, block: nat)
    returns (out: bytes, lhsIdx: nat, rhsIdx: nat)
    requires Encodes(pad, n) && block > 0 && |bits| == lhsSize + rhsSize
    requires lhsSize <= |lhs| && rhsSize <= |rhs|
    ensures Merged(bits, lhs, rhs, out, lhsIdx, rhsIdx) && lhsIdx <= lhsSize && rhsIdx <= rhsSize
  {
    hide Pop, MergeBits, Merged;
    out, lhsIdx, rhsIdx := [], 0, 0;
    MergedNothing(bits, lhs, rhs);
    var size := 2 * n * block;
    AtLeast(2 * n, block);
    while true
      invariant Merged(bits, lhs, rhs, out, lhsIdx, rhsIdx)
      invariant |out| <= |bits| && lhsIdx <= lhsSize && rhsIdx <= rhsSize
      decreases |bits| - |out|
    {
      var iters := Iterations(size, |bits| - |out|, lhsSize - lhsIdx, rhsSize - rhsIdx);
      if iters == 0 {
        return;
      }
      assert 2 * n * (block * iters) == size * iters;
      out, lhsIdx, rhsIdx := MergeRun(pad, n, false, bits, lhs, rhs, out, lhsIdx, rhsIdx, block * iters);
      MergedLength(bits, lhs, rhs, out, lhsIdx, rhsIdx);
    }
  }

  /** The phase of single registers, whose loads may reach into the slop: the indices are checked
      before each round, and when they are inside at the end, less than a register is left. */
  method MergeNarrow(pad: Pad, n: nat, bits: Mask, lhs: bytes, lhsSize: nat, rhs: bytes, rhsSize: nat, slop: nat,
                     out: bytes, lhsIdx: nat, rhsIdx: nat)
    returns (out': bytes, lhsIdx': nat, rhsIdx': nat)
    requires Encodes(pad, n) && slop >= 2 * n && |bits| == lhsSize + rhsSize
    requires |lhs| == lhsSize + slop && |rhs| == rhsSize + slop && Merged(bits, lhs, rhs, out, lhsIdx, rhsIdx)
    ensures Merged(bits, lhs, rhs, out', lhsIdx', rhsIdx')
    ensures lhsIdx' <= lhsSize && rhsIdx' <= rhsSize ==> |bits| - |out'| < 2 * n
  {
    hide Pop, MergeBits, Merged;
    out', lhsIdx', rhsIdx' := out, lhsIdx, rhsIdx;
    MergedLength(bits, lhs, rhs, out', lhsIdx', rhsIdx');
    while lhsIdx' <= lhsSize && rhsIdx' <= rhsSize
      invariant Merged(bits, lhs, rhs, out', lhsIdx', rhsIdx') && |out'| <= |bits|
      decreases |bits| - |out'|
    {
      var iters := Iterations(2 * n, |bits| - |out'|, lhsSize - lhsIdx' + slop, rhsSize - rhsIdx' + slop);
      if iters == 0 {
        return;
      }
      out', lhsIdx', rhsIdx' := MergeRun(pad, n, false, bits, lhs, rhs, out', lhsIdx', rhsIdx', iters);
      MergedLength(bits, lhs, rhs, out', lhsIdx', rhsIdx');
    }
  }

  /** The AVX2 driver: wide blocks while all buffers have room, then single registers into the slop,
      then the tail. The number it returns is rhsSize exactly when the bitmap is consistent, and then
      the output is the merge, bit by bit; an inconsistent bitmap never reads out of bounds. */
  method MergeAvx2(pad: Pad, n: nat, bits: Mask, lhs: bytes, lhsSize: nat, rhs: bytes, rhsSize: nat, slop: nat)
    returns (out: bytes, ones: nat)
    requires Encodes(pad, n) && slop >= 2 * n && |bits| == lhsSize + rhsSize
    requires |lhs| == lhsSize + slop && |rhs| == rhsSize + slop
    ensures ones == rhsSize <==> Pop(bits) == rhsSize
    ensures ones == rhsSize ==> out == MergeBits(bits, lhs, rhs)
  {
    hide Pop, MergeBits, Merged;
    var lhsIdx, rhsIdx;
    out, lhsIdx, rhsIdx := MergeWide(pad, n, bits, lhs, lhsSize, rhs, rhsSize, 16);
    out, lhsIdx, rhsIdx := MergeNarrow(pad, n, bits, lhs, lhsSize, rhs, rhsSize, slop, out, lhsIdx, rhsIdx);
    MergedLength(bits, lhs, rhs, out, lhsIdx, rhsIdx);
    if |out| < |bits| && lhsIdx <= lhsSize && rhsIdx <= rhsSize {
      out, lhsIdx, rhsIdx := MergeTail(pad, n, false, bits, lhs, rhs, out, lhsIdx, rhsIdx);
    }
    CountDecides(bits, lhs, rhs, out, lhsIdx, rhsIdx, lhsSize, rhsSize);
    ones := rhsIdx;
  }

  lemma MergedLength(bits: Mask, lhs: bytes, rhs: bytes, out: bytes, lhsIdx: nat, rhsIdx: nat)
    requires Merged(bits, lhs, rhs, out, lhsIdx, rhsIdx)
    ensures |out| <= |bits|
  {
  }

  /** The NEON driver: blocks of four registers, then single registers, then the tail. */
  method MergeNeon(pad: Pad, n: nat, bits: Mask, lhs: bytes, lhsSize: nat, rhs: bytes, rhsSize: nat, slop: nat)
    returns (out: bytes, ones: nat)
    requires EncodesSigned(pad, n) && slop >= 8 * n && |bits| == lhsSize + rhsSize
    requires |lhs| == lhsSize + slop && |rhs| == rhsSize + slop
    ensures ones == rhsSize <==> Pop(bits) == rhsSize
    ensures ones == rhsSize ==> out == MergeBits(bits, lhs, rhs)
  {
    hide Pop, MergeBits, Merged;
    var lhsIdx: nat, rhsIdx: nat := 0, 0;
    out := [];
    MergedNothing(bits, lhs, rhs);
    while |out| + 8 * n <= |bits| && lhsIdx <= lhsSize && rhsIdx <= rhsSize
      invariant Merged(bits, lhs, rhs, out, lhsIdx, rhsIdx)
      decreases |bits| - |out|
    {
      out, lhsIdx, rhsIdx := MergeRun(pad, n, true, bits, lhs, rhs, out, lhsIdx, rhsIdx, 4);
    }
    while |out| + 2 * n <= |bits| && lhsIdx <= lhsSize && rhsIdx <= rhsSize
      invariant Merged(bits, lhs, rhs, out, lhsIdx, rhsIdx)
      decreases |bits| - |out|
    {
      out, lhsIdx, rhsIdx := MergeRun(pad, n, true, bits, lhs, rhs, out, lhsIdx, rhsIdx, 1);
    }
    MergedLength(bits, lhs, rhs, out, lhsIdx, rhsIdx);
    if |out| < |bits| && lhsIdx <= lhsSize && rhsIdx <= rhsSize {
      out, lhsIdx, rhsIdx := MergeTail(pad, n, true, bits, lhs, rhs, out, lhsIdx, rhsIdx);
    }
    CountDecides(bits, lhs, rhs, out, lhsIdx, rhsIdx, lhsSize, rhsSize);
    ones := rhsIdx;
  }

  // ---------------------------------------------------------------- the round trip

  lemma EncodesBoth(pad: Pad, n: nat)
    ensures EncodesSigned(pad, n) ==> Encodes(pad, n)
    ensures Encodes(pad, n) ==> n > 0
  {
  }

  /** Which of the two buffers is that of the ranks, if any. */
  datatype Place = Apart | LeftInPlace | RightInPlace

  /** Partitions into new buffers, or in place. */
  method PartitionAt(pad: Pad, n: nat, rightRank: byte, values: bytes, slop: bytes, place: Place)
    returns (bits: Mask, ones: nat, left: bytes, right: bytes)
    requires Encodes(pad, n) && |slop| >= 4 * n
    ensures |bits| == |values| && ones == Pop(bits) <= |values|
    ensures |left| == |values| - ones + |slop| && |right| == ones + |slop|
    ensures left[..|values| - ones] == Pick(values, bits, false) && right[..ones] == Pick(values, bits, true)
  {
    hide Pick, Pop, Encodes;
    var size, all := |values|, values + slop;
    var ranks := new byte[|all|](i requires 0 <= i < |all| => all[i]);
    assert ranks[..] == all && ranks[..size] == values;
    var lhs, rhs := ranks, ranks;
    if place != LeftInPlace {
      lhs := new byte[|all|](_ => 0);
    }
    if place != RightInPlace {
      rhs := new byte[|all|](_ => 0);
    }
    bits, ones := PartitionFull(pad, n, rightRank, ranks, size, lhs, rhs);
    left, right := lhs[..size - ones + |slop|], rhs[..ones + |slop|];
  }

  /** Partition, in place or not, then merge with either driver: the identity on streams of any
      length, whatever bytes follow the ranks. */
  method RoundTrip(pad: Pad, n: nat, rightRank: byte, values: bytes, slop: bytes, place: Place, neon: bool) returns (out: bytes)
    requires Runs(pad, n, neon) && |slop| >= 8 * n
    ensures out == values
  {
    hide Lanes, Pick, MergeBits, Pop, Encodes, EncodesSigned;
    EncodesBoth(pad, n);
    var bits, ones, left, right := PartitionAt(pad, n, rightRank, values, slop, place);
    var zeros := |values| - ones;
    assert left == left[..zeros] + left[zeros..] && right == right[..ones] + right[ones..];
    MergePick(values, bits, left[zeros..], right[ones..]);
    var count;
    if neon {
      out, count := MergeNeon(pad, n, bits, left, zeros, right, ones, |slop|);
    } else {
      out, count := MergeAvx2(pad, n, bits, left, zeros, right, ones, |slop|);
    }
  }
}
