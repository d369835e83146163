/** The offset shuffle tables of scripts/gen_decompress_field_lz_offset_tables.py, used by
    src/openzl/codecs/lz/decode_field_lz.c. A row is the repcode update run on positions of a vector
    [rep0, rep1, rep2, _, off0, off1, ...] instead of on offsets. */
module RepcodeTables {
  import opened Bytes
  import opened Sequences

  /** Types 0, 1, 2 name a repcode, type 3 takes the next explicit offset. */
  type OffType = t: int | 0 <= t < 4

  /** After some types: the three repcodes, the offsets given, and the explicit ones consumed. */
  datatype Run<T> = Run(reps: seq<T>, offs: seq<T>, used: nat)

  function Count(types: seq<OffType>): (r: nat)
    ensures r <= |types|
  {
    if types == [] then 0 else Count(types[..|types| - 1]) + if types[|types| - 1] == 3 then 1 else 0
  }

  /** The one-at-a-time update. */
  function Update<T>(r: Run<T>, t: OffType, explicit: seq<T>): (r': Run<T>)
    requires |r.reps| == 3 && (t == 3 ==> r.used < |explicit|)
    ensures |r'.reps| == 3 && |r'.offs| == |r.offs| + 1
  {
    var off := if t == 3 then explicit[r.used] else r.reps[t];
    var reps := if t == 0 then r.reps
                else if t == 1 then [off, r.reps[0], r.reps[2]]
                else [off, r.reps[0], r.reps[1]];
    Run(reps, r.offs + [off], r.used + if t == 3 then 1 else 0)
  }

  function UpdateAll<T>(reps: seq<T>, types: seq<OffType>, explicit: seq<T>): (r: Run<T>)
    requires |reps| == 3 && Count(types) <= |explicit|
    ensures |r.reps| == 3 && |r.offs| == |types| && r.used == Count(types)
  {
    if types == [] then Run(reps, [], 0)
    else Update(UpdateAll(reps, types[..|types| - 1], explicit), types[|types| - 1], explicit)
  }

  /** The four cases: type 0 repeats the first repcode, type 1 swaps the second to the front, type 2
      rotates the third to the front, type 3 puts the next explicit offset there and drops the third. */
  lemma UpdateCases<T>(a: T, b: T, c: T, x: T)
    ensures Update(Run([a, b, c], [], 0), 0, [x]) == Run([a, b, c], [a], 0)
    ensures Update(Run([a, b, c], [], 0), 1, [x]) == Run([b, a, c], [b], 0)
    ensures Update(Run([a, b, c], [], 0), 2, [x]) == Run([c, a, b], [c], 0)
    ensures Update(Run([a, b, c], [], 0), 3, [x]) == Run([x, a, b], [x], 1)
  {
  }

  lemma UpdateNext<T>(reps: seq<T>, types: seq<OffType>, i: nat, explicit: seq<T>)
    requires |reps| == 3 && i < |types| <= |explicit|
    ensures Count(types[..i + 1]) == Count(types[..i]) + if types[i] == 3 then 1 else 0
    ensures UpdateAll(reps, types[..i + 1], explicit) == Update(UpdateAll(reps, types[..i], explicit), types[i], explicit)
  {
    assert types[..i + 1][..i] == types[..i];
  }

  // ---------------------------------------------------------------- table rows

  /** The positions of the explicit offsets in the vector. */
  function Positions(k: nat): (r: seq<nat>)
    ensures |r| == k && forall i :: 0 <= i < k ==> r[i] == 4 + i
  {
    seq(k, i => if i >= 0 then 4 + i else 0)
  }

  const REP_POSITIONS: seq<nat> := [0, 1, 2]

  function Row(types: seq<OffType>): (r: seq<nat>)
    ensures |r| == 4 + |types|
  {
    var run := UpdateAll<nat>(REP_POSITIONS, types, Positions(|types|));
    run.reps + [3] + run.offs
  }

  /** The position of the next offset, and the repcodes after it, with the assignments of the source. */
  method NextOffset(reps: seq<nat>, t: OffType, numOffsets: nat) returns (off: nat, reps': seq<nat>, numOffsets': nat)
    requires |reps| == 3
    ensures off == if t == 3 then 4 + numOffsets else reps[t]
    ensures reps' == if t == 0 then reps else [off, reps[0], if t == 1 then reps[2] else reps[1]]
    ensures numOffsets' == if t == 3 then numOffsets + 1 else numOffsets
  {
    reps', numOffsets' := reps, numOffsets;
    if t == 0 {
      off := reps'[0];
    } else if t == 1 {
      off := reps'[1];
      reps' := reps'[1 := reps'[0]];
      reps' := reps'[0 := off];
    } else if t == 2 {
      off := reps'[2];
      reps' := reps'[2 := reps'[1]];
      reps' := reps'[1 := reps'[0]];
      reps' := reps'[0 := off];
    } else {
      off := 4 + numOffsets';
      reps' := reps'[2 := reps'[1]];
      reps' := reps'[1 := reps'[0]];
      reps' := reps'[0 := off];
      numOffsets' := numOffsets' + 1;
    }
  }

  /** Builds one row. */
  method BuildRow(types: seq<OffType>) returns (row: seq<nat>, numOffsets: nat)
    ensures row == Row(types) && numOffsets == Count(types)
  {
    var reps: seq<nat> := [0, 1, 2];
    var offs: seq<nat> := [];
    numOffsets := 0;
    for i := 0 to |types|
      invariant |reps| == 3 && Count(types[..i]) == numOffsets
      invariant Run(reps, offs, numOffsets) == UpdateAll<nat>(REP_POSITIONS, types[..i], Positions(|types|))
    {
      UpdateNext<nat>(REP_POSITIONS, types, i, Positions(|types|));
      hide UpdateAll, Count, Positions;
      var off;
      off, reps, numOffsets := NextOffset(reps, types[i], numOffsets);
      offs := offs + [off];
    }
    assert types[..|types|] == types;
    row := reps + [3] + offs;
  }

  /** The four types of a mask, two bits each. */
  function MaskTypes(mask: nat): seq<OffType> {
    [mask % 4, (mask / 4) % 4, (mask / 16) % 4, (mask / 64) % 4]
  }

  /** The entry of four types: the first one has the lowest two bits. */
  function Index(types: seq<OffType>): (mask: nat)
    requires |types| == 4
    ensures mask < 256
  {
    types[0] as int + 4 * types[1] as int + 16 * types[2] as int + 64 * types[3] as int
  }

  lemma TypesOfIndex(a: OffType, b: OffType, c: OffType, d: OffType)
    ensures MaskTypes(a + 4 * b + 16 * c + 64 * d) == [a, b, c, d]
  {
    var z: int := d;
    var y: int := c + 4 * z;
    var x: int := b + 4 * y;
    var mask: int := a + 4 * x;
    LowTwoBits(a, x);
    LowTwoBits(b, y);
    LowTwoBits(c, z);
    assert mask / 16 == mask / 4 / 4 && mask / 64 == mask / 16 / 4;
  }

  lemma LowTwoBits(low: int, rest: int)
    requires 0 <= low < 4
    ensures (low + 4 * rest) % 4 == low && (low + 4 * rest) / 4 == rest
  {
  }

  /** The tables have at a + 4b + 16c + 64d the row and the count of the types a, b, c, d. */
  method BuildTables() returns (shuffle: seq<seq<nat>>, numOffsets: seq<nat>)
    ensures |shuffle| == |numOffsets| == 256
    ensures forall a: OffType, b: OffType, c: OffType, d: OffType {:trigger Row([a, b, c, d])} ::
              shuffle[a + 4 * b + 16 * c + 64 * d] == Row([a, b, c, d])
    ensures forall a: OffType, b: OffType, c: OffType, d: OffType {:trigger Count([a, b, c, d])} ::
              numOffsets[a + 4 * b + 16 * c + 64 * d] == Count([a, b, c, d])
  {
    hide Row, Count, MaskTypes;
    shuffle, numOffsets := [], [];
    for mask := 0 to 256
      invariant |shuffle| == |numOffsets| == mask
      invariant forall m :: 0 <= m < mask ==> shuffle[m] == Row(MaskTypes(m)) && numOffsets[m] == Count(MaskTypes(m))
    {
      var row, n := BuildRow(MaskTypes(mask));
      shuffle, numOffsets := shuffle + [row], numOffsets + [n];
    }
    forall a: OffType, b: OffType, c: OffType, d: OffType
      ensures shuffle[a + 4 * b + 16 * c + 64 * d] == Row([a, b, c, d]) && numOffsets[a + 4 * b + 16 * c + 64 * d] == Count([a, b, c, d])
    {
      TypesOfIndex(a, b, c, d);
    }
  }

  /** Two rows of the tables: at 0xC0 the last type takes the first explicit offset; at 0x39 the types are
      1, 2, 3 and 0. */
  lemma SomeRows()
    ensures Row([0, 0, 0, 3]) == [4, 0, 1, 3, 0, 0, 0, 4] && Count([0, 0, 0, 3]) == 1
    ensures Row([1, 2, 3, 0]) == [4, 2, 1, 3, 1, 2, 4, 4] && Count([1, 2, 3, 0]) == 1
  {
    RowInSteps([0, 0, 0, 3]);
    RowInSteps([1, 2, 3, 0]);
  }

  lemma RowInSteps(types: seq<OffType>)
    requires |types| == 4
    ensures var p := Positions(4);
            var n: nat -> nat := k => if 0 <= k < 4 && types[k] == 3 then 1 else 0;
            && Count(types) == n(0) + n(1) + n(2) + n(3)
            && var r0: Run<nat> := Run([0, 1, 2], [], 0);
               var r1 := Update(r0, types[0], p);
               var r2 := Update(r1, types[1], p);
               var r3 := Update(r2, types[2], p);
               var r4 := Update(r3, types[3], p);
               Row(types) == r4.reps + [3] + r4.offs
  {
    hide Update, Positions;
    UpdateNext<nat>(REP_POSITIONS, types, 0, Positions(4));
    UpdateNext<nat>(REP_POSITIONS, types, 1, Positions(4));
    UpdateNext<nat>(REP_POSITIONS, types, 2, Positions(4));
    UpdateNext<nat>(REP_POSITIONS, types, 3, Positions(4));
    assert types[..4] == types && |types[..0]| == 0;
  }

  // ---------------------------------------------------------------- applying a row

  /** A permutation of the vector by a row. */
  function Permute<T>(vec: seq<T>, row: seq<nat>): (r: seq<T>)
    requires forall i :: 0 <= i < |row| ==> row[i] < |vec|
    ensures |r| == |row| && forall i :: 0 <= i < |row| ==> r[i] == vec[row[i]]
  {
    seq(|row|, i requires 0 <= i < |row| => vec[row[i]])
  }

  /** The vector: the repcodes, an unused lane, and as many next offsets as there are types. */
  function Vector<T>(reps: seq<T>, unused: T, next: seq<T>): seq<T> {
    reps + [unused] + next
  }

  /** A run on positions describes a run on values. */
  ghost predicate Describes<T>(vec: seq<T>, positions: Run<nat>, values: Run<T>) {
    && |positions.reps| == |values.reps| && |positions.offs| == |values.offs| && positions.used == values.used
    && (forall i :: 0 <= i < |positions.reps| ==> positions.reps[i] < |vec| && vec[positions.reps[i]] == values.reps[i])
    && (forall i :: 0 <= i < |positions.offs| ==> positions.offs[i] < |vec| && vec[positions.offs[i]] == values.offs[i])
  }

  lemma UpdateDescribes<T>(vec: seq<T>, positions: Run<nat>, values: Run<T>, t: OffType, next: seq<T>)
    requires Describes(vec, positions, values) && |values.reps| == 3 && (t == 3 ==> values.used < |next|)
    requires |vec| == 4 + |next| && forall i :: 0 <= i < |next| ==> vec[4 + i] == next[i]
    ensures Describes(vec, Update(positions, t, Positions(|next|)), Update(values, t, next))
  {
  }

  /** Running the update on positions and looking the positions up is running it on the values. */
  lemma {:induction false} Natural<T>(reps: seq<T>, unused: T, next: seq<T>, types: seq<OffType>)
    requires |reps| == 3 && |types| <= |next|
    ensures Describes(Vector(reps, unused, next), UpdateAll<nat>(REP_POSITIONS, types, Positions(|next|)), UpdateAll(reps, types, next))
    decreases |types|
  {
    if types != [] {
      hide Describes, Update;
      var init := types[..|types| - 1];
      Natural(reps, unused, next, init);
      UpdateDescribes(Vector(reps, unused, next), UpdateAll<nat>(REP_POSITIONS, init, Positions(|next|)),
                      UpdateAll(reps, init, next), types[|types| - 1], next);
    }
  }

  /** One batch with a table row: the same offsets and repcodes as one at a time. The vector holds
      as many next offsets as types, even when fewer are consumed. */
  lemma RowCorrect<T>(reps: seq<T>, unused: T, next: seq<T>, types: seq<OffType>)
    requires |reps| == 3 && |types| == |next|
    ensures var vec, row := Vector(reps, unused, next), Row(types);
            && (forall i :: 0 <= i < |row| ==> row[i] < |vec|)
            && var out, run := Permute(vec, row), UpdateAll(reps, types, next);
               out == run.reps + [unused] + run.offs
  {
    hide UpdateAll;
    Natural(reps, unused, next, types);
    var vec, row := Vector(reps, unused, next), Row(types);
    var positions := UpdateAll<nat>(REP_POSITIONS, types, Positions(|types|));
    forall i | 0 <= i < |row| ensures row[i] < |vec| {
      assert row[i] == if i < 3 then positions.reps[i] else if i == 3 then 3 else positions.offs[i - 4];
    }
  }

  // ---------------------------------------------------------------- whole runs

  lemma {:induction false} CountConcat(a: seq<OffType>, b: seq<OffType>)
    ensures Count(a + b) == Count(a) + Count(b)
    decreases |b|
  {
    if b == [] {
      assert a + b == a;
    } else {
      assert (a + b)[..|a + b| - 1] == a + b[..|b| - 1];
      CountConcat(a, b[..|b| - 1]);
    }
  }

  lemma UpdateShift<T>(first: Run<T>, second: Run<T>, t: OffType, explicit: seq<T>)
    requires |second.reps| == 3 && first.used <= |explicit| && (t == 3 ==> first.used + second.used < |explicit|)
    ensures var whole := Run(second.reps, first.offs + second.offs, first.used + second.used);
            var next := Update(second, t, explicit[first.used..]);
            Update(whole, t, explicit) == Run(next.reps, first.offs + next.offs, first.used + next.used)
  {
  }

  /** Updating in two parts, the second from where the first one stopped. */
  lemma {:induction false} UpdateConcat<T>(reps: seq<T>, a: seq<OffType>, b: seq<OffType>, explicit: seq<T>)
    requires |reps| == 3 && Count(a) + Count(b) <= |explicit|
    ensures Count(a + b) == Count(a) + Count(b)
    ensures var first := UpdateAll(reps, a, explicit);
            var second := UpdateAll(first.reps, b, explicit[first.used..]);
            UpdateAll(reps, a + b, explicit) == Run(second.reps, first.offs + second.offs, first.used + second.used)
    decreases |b|
  {
    hide Update;
    CountConcat(a, b);
    if b == [] {
      assert a + b == a;
      var first := UpdateAll(reps, a, explicit);
      assert first.offs + [] == first.offs;
    } else {
      var n := |b| - 1;
      assert (a + b)[..|a| + n] == a + b[..n];
      UpdateConcat(reps, a, b[..n], explicit);
      var first := UpdateAll(reps, a, explicit);
      var second := UpdateAll(first.reps, b[..n], explicit[first.used..]);
      UpdateShift(first, second, b[n], explicit);
    }
  }

  /** Only the offsets that are consumed matter. */
  lemma {:induction false} UpdateMore<T>(reps: seq<T>, types: seq<OffType>, explicit: seq<T>, k: nat)
    requires |reps| == 3 && Count(types) <= k <= |explicit|
    ensures UpdateAll(reps, types, explicit[..k]) == UpdateAll(reps, types, explicit)
    decreases |types|
  {
    if types != [] {
      UpdateMore(reps, types[..|types| - 1], explicit, k);
    }
  }

  /** Decodes batch after batch with table rows, advancing by the row's count of explicit offsets.
      Before each batch, as many offsets are readable as it has types. */
  method DecodeBatches<T>(reps: seq<T>, unused: T, batches: seq<seq<OffType>>, size: nat, explicit: seq<T>)
    returns (reps': seq<T>, offs: seq<T>, used: nat)
    requires |reps| == 3 && forall b :: b in batches ==> |b| == size
    requires forall i :: 0 <= i < |batches| ==> Count(Flatten(batches[..i])) + size <= |explicit|
    ensures Count(Flatten(batches)) <= |explicit|
    ensures Run(reps', offs, used) == UpdateAll(reps, Flatten(batches), explicit)
    ensures used == Count(Flatten(batches))
  {
    hide Row, Count, UpdateAll, Permute;
    reps', offs, used := reps, [], 0;
    NoTypes(reps, batches, explicit);
    for i := 0 to |batches|
      invariant Count(Flatten(batches[..i])) <= |explicit| && |reps'| == 3
      invariant Run(reps', offs, used) == UpdateAll(reps, Flatten(batches[..i]), explicit)
    {
      var types := batches[i];
      assert types in batches;
      FlatNext(batches, i);
      assert used == Count(Flatten(batches[..i]));
      var next := explicit[used..used + size];
      var row, n := BuildRow(types);
      RowCorrect(reps', unused, next, types);
      UpdateConcat(reps, Flatten(batches[..i]), types, explicit);
      UpdateMore(reps', types, explicit[used..], size);
      assert explicit[used..][..size] == next;
      var out := Permute(Vector(reps', unused, next), row);
      reps', offs, used := out[..3], offs + out[4..], used + n;
    }
    assert batches[..|batches|] == batches;
  }

  /** Decodes with the tables, four types at a time: the rows and counts are looked up by the index of
      the types. */
  method DecodeFours<T>(reps: seq<T>, unused: T, batches: seq<seq<OffType>>, explicit: seq<T>)
    returns (reps': seq<T>, offs: seq<T>, used: nat)
    requires |reps| == 3 && forall b :: b in batches ==> |b| == 4
    requires forall i :: 0 <= i < |batches| ==> Count(Flatten(batches[..i])) + 4 <= |explicit|
    ensures Count(Flatten(batches)) <= |explicit|
    ensures Run(reps', offs, used) == UpdateAll(reps, Flatten(batches), explicit)
    ensures used == Count(Flatten(batches))
  {
    hide Row, Count, UpdateAll, Permute;
    var shuffle, numOffsets := BuildTables();
    reps', offs, used := reps, [], 0;
    NoTypes(reps, batches, explicit);
    for i := 0 to |batches|
      invariant Count(Flatten(batches[..i])) <= |explicit| && |reps'| == 3
      invariant Run(reps', offs, used) == UpdateAll(reps, Flatten(batches[..i]), explicit)
    {
      var types := batches[i];
      assert types in batches;
      assert types == [types[0], types[1], types[2], types[3]];
      FlatNext(batches, i);
      assert used == Count(Flatten(batches[..i]));
      var next := explicit[used..used + 4];
      var row, n := shuffle[Index(types)], numOffsets[Index(types)];
      assert row == Row(types) && n == Count(types);
      RowCorrect(reps', unused, next, types);
      UpdateConcat(reps, Flatten(batches[..i]), types, explicit);
      UpdateMore(reps', types, explicit[used..], 4);
      assert explicit[used..][..4] == next;
      var out := Permute(Vector(reps', unused, next), row);
      reps', offs, used := out[..3], offs + out[4..], used + n;
    }
    assert batches[..|batches|] == batches;
  }

  lemma NoTypes<T>(reps: seq<T>, batches: seq<seq<OffType>>, explicit: seq<T>)
    requires |reps| == 3
    ensures Count(Flatten(batches[..0])) == 0 && UpdateAll(reps, Flatten(batches[..0]), explicit) == Run(reps, [], 0)
  {
  }

  lemma {:induction false} FlatNext(batches: seq<seq<OffType>>, i: nat)
    requires i < |batches|
    ensures Flatten(batches[..i + 1]) == Flatten(batches[..i]) + batches[i]
    ensures Count(Flatten(batches[..i])) + Count(batches[i]) == Count(Flatten(batches[..i + 1])) <= Count(Flatten(batches))
    decreases |batches| - i
  {
    assert batches[..i + 1] == batches[..i] + [batches[i]];
    FlattenSnoc(batches[..i], batches[i]);
    CountConcat(Flatten(batches[..i]), batches[i]);
    if i + 1 < |batches| {
      FlatNext(batches, i + 1);
    } else {
      assert batches[..i + 1] == batches;
    }
  }
}
