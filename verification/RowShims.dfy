/** The row loops of the OpenJPH and OpenHTJ2K shims: one stores a row component
    by component as lines arrive, the other pixel by pixel in a callback that
    may be invoked for any row, in any order. */
module RowShims {
  import opened Powers
  import opened Interleave

  datatype Depth = Depth(bits: nat, signed: bool)

  /** The sample shifted to unsigned, reduced to 8 bits and clamped. */
  function SampleU8(sample: int, d: Depth): nat {
    var raised := if d.signed && 0 < d.bits <= 31 then sample + Pow2(d.bits - 1) else sample;
    Clamp(if d.bits > 8 then raised / Pow2(d.bits - 8) else raised)
  }

  /** `high` are the bits of `value` from `unit` on. */
  ghost predicate IsHighPart(high: nat, value: int, unit: nat) {
    high <= 255 && high * unit <= value < (high + 1) * unit
  }

  lemma HighPart(value: nat, unit: nat)
    requires unit >= 1 && value < 256 * unit
    ensures IsHighPart(Quotient(value, unit), value, unit)
  {
    var q := Quotient(value, unit);
    assert value == q * unit + value % unit;
    if q > 255 {
      Ordered(256, q, unit);
    }
  }

  /** Of a sample that fits its depth the eight highest bits are kept, counted
      from the least value of the depth; no such sample is clamped, nor is one of
      at most eight bits shifted. */
  lemma SampleKeepsHighBits(sample: int, d: Depth)
    requires 1 <= d.bits <= 31
    requires if d.signed then -(Pow2(d.bits - 1) as int) <= sample < Pow2(d.bits - 1) else 0 <= sample < Pow2(d.bits)
    ensures IsHighPart(SampleU8(sample, d), if d.signed then sample + Pow2(d.bits - 1) else sample,
                       if d.bits > 8 then Pow2(d.bits - 8) else 1)
  {
    var value: nat := if d.signed then sample + Pow2(d.bits - 1) else sample;
    assert Pow2(d.bits) == 2 * Pow2(d.bits - 1);
    assert Pow2(8) == 256;
    hide Pow2;
    if d.bits > 8 {
      Pow2Add(8, d.bits - 8);
      HighPart(value, Pow2(d.bits - 8));
      assert SampleU8(sample, d) == Clamp(Quotient(value, Pow2(d.bits - 8)));
    } else {
      Pow2Monotone(d.bits, 8);
      assert SampleU8(sample, d) == value;
    }
  }

  /** Of depths without bits or with more than 31 the sign does not matter. */
  lemma SignOfOddDepths(sample: int, bits: nat)
    requires bits == 0 || bits >= 32
    ensures SampleU8(sample, Depth(bits, true)) == SampleU8(sample, Depth(bits, false))
  {
  }

  /** The component rows of one image row, and the depths that go with them. */
  predicate IsLines(rows: seq<seq<int>>, depths: seq<Depth>, width: nat) {
    |rows| == |depths| && forall c :: 0 <= c < |rows| ==> |rows[c]| >= width
  }

  function PixelFrom(rows: seq<seq<int>>, depths: seq<Depth>, x: nat): (pixel: Pixel)
    requires |rows| == |depths| && forall c :: 0 <= c < |rows| ==> x < |rows[c]|
    ensures |pixel| == |rows|
  {
    seq(|rows|, c requires 0 <= c < |rows| => SampleU8(rows[c][x], depths[c]))
  }

  function RowFrom(rows: seq<seq<int>>, depths: seq<Depth>, width: nat): (row: seq<Pixel>)
    requires IsLines(rows, depths, width)
    ensures IsRow(row, width, |rows|)
  {
    seq(width, x requires 0 <= x < width => PixelFrom(rows, depths, x))
  }

  /** `bytes` written over `s` at `offset`. */
  function Splice(s: seq<nat>, offset: nat, bytes: seq<nat>): seq<nat>
    requires offset + |bytes| <= |s|
  {
    s[..offset] + bytes + s[offset + |bytes|..]
  }

  lemma RowFits(y: nat, width: nat, height: nat, channels: nat)
    requires y < height
    ensures (y + 1) * (width * channels) == y * (width * channels) + width * channels <= width * height * channels
    ensures y * width * channels == y * (width * channels)
  {
  }

  lemma ColumnFits(x: nat, width: nat, channels: nat)
    requires x < width
    ensures x * channels + channels <= width * channels
    ensures (x + 1) * channels == x * channels + channels
  {
  }

  /** Different columns do not meet. */
  lemma ColumnsApart(x: nat, other: nat, channels: nat)
    requires x < other
    ensures x * channels + channels <= other * channels
  {
    NextProduct(x, channels);
    Ordered(x + 1, other, channels);
  }

  lemma IndexSplits(i: nat, n: nat, channels: nat) returns (x: nat, c: nat)
    requires i < n * channels && channels > 0
    ensures x < n && c < channels && i == x * channels + c
  {
    x, c := i / channels, i % channels;
    assert i == x * channels + c;
    if x >= n {
      Ordered(n, x, channels);
    }
  }

  predicate AtPlace(bytes: seq<nat>, row: seq<Pixel>, channels: nat, x: nat, c: nat)
    requires x < |row| && c < |row[x]|
  {
    x * channels + c < |bytes| && bytes[x * channels + c] == row[x][c]
  }

  lemma SampleIsFlat(bytes: seq<nat>, row: seq<Pixel>, channels: nat, i: nat)
    requires IsRow(row, |row|, channels) && i < |bytes| == |row| * channels && channels > 0
    requires forall x, c :: 0 <= x < |row| && 0 <= c < channels ==> AtPlace(bytes, row, channels, x, c)
    ensures i < |Flatten(row)| && bytes[i] == Flatten(row)[i]
  {
    hide Flatten;
    var x, c := IndexSplits(i, |row|, channels);
    assert AtPlace(bytes, row, channels, x, c);
    FlattenAt(row, channels, x, c);
  }

  /** A row whose samples all lie at their places is the flattened row. */
  lemma PlacedRowIsFlat(bytes: seq<nat>, row: seq<Pixel>, channels: nat)
    requires IsRow(row, |row|, channels) && |bytes| == |row| * channels
    requires forall x, c :: 0 <= x < |row| && 0 <= c < channels ==> AtPlace(bytes, row, channels, x, c)
    ensures bytes == Flatten(row)
  {
    hide Flatten, AtPlace;
    FlattenLength(row, channels);
    if channels > 0 {
      forall i | 0 <= i < |bytes| ensures bytes[i] == Flatten(row)[i] {
        SampleIsFlat(bytes, row, channels, i);
      }
    } else {
      assert |row| * 0 == 0;
    }
  }

  /** The samples of one component, at their places. */
  predicate Stored(output: seq<nat>, offset: nat, line: seq<int>, depth: Depth, width: nat, channels: nat, component: nat)
    requires |line| >= width
  {
    forall x :: 0 <= x < width ==>
      0 <= offset + x * channels + component < |output| && output[offset + x * channels + component] == SampleU8(line[x], depth)
  }

  predicate Placed(i: nat, offset: nat, width: nat, channels: nat, component: nat) {
    exists x :: 0 <= x < width && i == offset + x * channels + component
  }

  lemma StoredAdds(before: seq<nat>, offset: nat, line: seq<int>, depth: Depth, x: nat, channels: nat, component: nat, at: nat)
    requires component < channels && x < |line| && at == offset + x * channels + component < |before|
    requires Stored(before, offset, line, depth, x, channels, component)
    ensures Stored(before[at := SampleU8(line[x], depth)], offset, line, depth, x + 1, channels, component)
  {
    hide SampleU8;
    forall u | 0 <= u < x ensures offset + u * channels + component < at {
      ColumnsApart(u, x, channels);
    }
  }

  lemma PlacedAt(offset: nat, width: nat, channels: nat, component: nat, x: nat)
    requires x < width
    ensures Placed(offset + x * channels + component, offset, width, channels, component)
  {
  }

  /** Stores one component's line with a stride of `channels`. */
  method StoreComponent(output: array<nat>, offset: nat, line: seq<int>, depth: Depth, width: nat, channels: nat, component: nat)
    requires component < channels && |line| >= width && offset + width * channels <= output.Length
    modifies output
    ensures Stored(output[..], offset, line, depth, width, channels, component)
    ensures forall i :: 0 <= i < output.Length && !Placed(i, offset, width, channels, component) ==> output[i] == old(output[i])
  {
    NothingStored(output[..], offset, line, depth, channels, component);
    hide Stored, Placed, SampleU8;
    for x := 0 to width
      invariant Stored(output[..], offset, line, depth, x, channels, component)
      invariant forall i :: 0 <= i < output.Length && !Placed(i, offset, width, channels, component) ==> output[i] == old(output[i])
    {
      ColumnFits(x, width, channels);
      var at := offset + x * channels + component;
      StoredAdds(output[..], offset, line, depth, x, channels, component, at);
      PlacedAt(offset, width, channels, component, x);
      ghost var before := output[..];
      output[at] := SampleU8(line[x], depth);
      assert output[..] == before[at := SampleU8(line[x], depth)];
    }
  }

  lemma NothingStored(output: seq<nat>, offset: nat, line: seq<int>, depth: Depth, channels: nat, component: nat)
    ensures Stored(output, offset, line, depth, 0, channels, component)
  {
  }

  /** Places of different components, or outside the row, are different. */
  lemma ComponentsApart(offset: nat, width: nat, channels: nat, x: nat, c: nat, component: nat)
    requires x < width && c < channels && component < channels && c != component
    ensures !Placed(offset + x * channels + c, offset, width, channels, component)
  {
    forall u | 0 <= u < width ensures offset + x * channels + c != offset + u * channels + component {
      if u < x {
        ColumnsApart(u, x, channels);
      } else if x < u {
        ColumnsApart(x, u, channels);
      }
    }
  }

  lemma OutsideRow(offset: nat, width: nat, channels: nat, component: nat, i: nat)
    requires component < channels && (i < offset || i >= offset + width * channels)
    ensures !Placed(i, offset, width, channels, component)
  {
    forall x | 0 <= x < width ensures i != offset + x * channels + component {
      ColumnFits(x, width, channels);
    }
  }

  /** A row component by component, as the lines are pulled. */
  method StoreRowByComponent(output: array<nat>, offset: nat, rows: seq<seq<int>>, depths: seq<Depth>, width: nat)
    requires IsLines(rows, depths, width) && offset + width * |rows| <= output.Length
    modifies output
    ensures |Flatten(RowFrom(rows, depths, width))| == width * |rows|
    ensures output[..] == Splice(old(output[..]), offset, Flatten(RowFrom(rows, depths, width)))
  {
    hide Stored, Placed, Flatten, Splice;
    var channels := |rows|;
    for component := 0 to channels
      invariant forall c :: 0 <= c < component ==> Stored(output[..], offset, rows[c], depths[c], width, channels, c)
      invariant output[..offset] == old(output[..offset]) && output[offset + width * channels..] == old(output[offset + width * channels..])
    {
      ghost var before := output[..];
      StoreComponent(output, offset, rows[component], depths[component], width, channels, component);
      StoredKept(before, output[..], offset, rows, depths, width, component);
    }
    RowStored(output[..], offset, rows, depths, width);
    RowSpliced(old(output[..]), output[..], offset, RowFrom(rows, depths, width), channels);
  }

  lemma RowSpliced(before: seq<nat>, after: seq<nat>, offset: nat, row: seq<Pixel>, channels: nat)
    requires |before| == |after| && offset + |row| * channels <= |after| && IsRow(row, |row|, channels)
    requires after[offset..offset + |row| * channels] == Flatten(row)
    requires after[..offset] == before[..offset] && after[offset + |row| * channels..] == before[offset + |row| * channels..]
    ensures |Flatten(row)| == |row| * channels && after == Splice(before, offset, Flatten(row))
  {
    hide Flatten;
    FlattenLength(row, channels);
    var end := offset + |row| * channels;
    assert after == after[..offset] + after[offset..end] + after[end..];
  }

  lemma ComponentKept(before: seq<nat>, after: seq<nat>, offset: nat, line: seq<int>, depth: Depth, width: nat, channels: nat, c: nat, component: nat)
    requires |line| >= width && c < channels && component < channels && c != component && |before| == |after|
    requires Stored(before, offset, line, depth, width, channels, c)
    requires forall i :: 0 <= i < |before| && !Placed(i, offset, width, channels, component) ==> after[i] == before[i]
    ensures Stored(after, offset, line, depth, width, channels, c)
  {
    hide Placed;
    forall x | 0 <= x < width
      ensures 0 <= offset + x * channels + c < |after| && after[offset + x * channels + c] == SampleU8(line[x], depth)
    {
      ComponentsApart(offset, width, channels, x, c, component);
    }
  }

  lemma StoredKept(before: seq<nat>, after: seq<nat>, offset: nat, rows: seq<seq<int>>, depths: seq<Depth>, width: nat, component: nat)
    requires IsLines(rows, depths, width) && component < |rows| && |before| == |after| && offset + width * |rows| <= |before|
    requires forall c :: 0 <= c < component ==> Stored(before, offset, rows[c], depths[c], width, |rows|, c)
    requires forall i :: 0 <= i < |before| && !Placed(i, offset, width, |rows|, component) ==> after[i] == before[i]
    ensures forall c :: 0 <= c < component ==> Stored(after, offset, rows[c], depths[c], width, |rows|, c)
    ensures after[..offset] == before[..offset] && after[offset + width * |rows|..] == before[offset + width * |rows|..]
  {
    hide Placed, Stored;
    forall c | 0 <= c < component ensures Stored(after, offset, rows[c], depths[c], width, |rows|, c) {
      ComponentKept(before, after, offset, rows[c], depths[c], width, |rows|, c, component);
    }
    forall i | 0 <= i < |before| && (i < offset || i >= offset + width * |rows|) ensures after[i] == before[i] {
      OutsideRow(offset, width, |rows|, component, i);
    }
  }

  /** All components stored make the flattened row. */
  lemma RowStored(output: seq<nat>, offset: nat, rows: seq<seq<int>>, depths: seq<Depth>, width: nat)
    requires IsLines(rows, depths, width) && offset + width * |rows| <= |output|
    requires forall c :: 0 <= c < |rows| ==> Stored(output, offset, rows[c], depths[c], width, |rows|, c)
    ensures output[offset..offset + width * |rows|] == Flatten(RowFrom(rows, depths, width))
  {
    var channels, row := |rows|, RowFrom(rows, depths, width);
    var bytes := output[offset..offset + width * channels];
    forall x, c | 0 <= x < |row| && 0 <= c < channels ensures AtPlace(bytes, row, channels, x, c) {
      assert Stored(output, offset, rows[c], depths[c], width, channels, c);
      ColumnFits(x, width, channels);
    }
    PlacedRowIsFlat(bytes, row, channels);
  }

  /** A row pixel by pixel, as the callback stores it. */
  method StoreRowByPixel(output: array<nat>, offset: nat, rows: seq<seq<int>>, depths: seq<Depth>, width: nat)
    requires IsLines(rows, depths, width) && offset + width * |rows| <= output.Length
    modifies output
    ensures |Flatten(RowFrom(rows, depths, width))| == width * |rows|
    ensures output[..] == Splice(old(output[..]), offset, Flatten(RowFrom(rows, depths, width)))
  {
    var channels := |rows|;
    ghost var row := RowFrom(rows, depths, width);
    ghost var tail := output[offset + width * channels..];
    for x := 0 to width
      invariant offset + x * channels <= offset + width * channels
      invariant output[..offset + x * channels] == old(output[..offset]) + Flatten(row[..x])
      invariant output[offset + width * channels..] == tail
    {
      ColumnFits(x, width, channels);
      StorePixel(output, offset + x * channels, rows, depths, x);
      assert row[..x + 1][..x] == row[..x];
      assert old(output[..offset]) + Flatten(row[..x]) + row[x] == old(output[..offset]) + (Flatten(row[..x]) + row[x]);
    }
    FlattenLength(row, channels);
    assert row[..width] == row;
    assert output[..] == output[..offset + width * channels] + tail;
  }

  method StorePixel(output: array<nat>, at: nat, rows: seq<seq<int>>, depths: seq<Depth>, x: nat)
    requires |rows| == |depths| && (forall c :: 0 <= c < |rows| ==> x < |rows[c]|) && at + |rows| <= output.Length
    modifies output
    ensures output[..at + |rows|] == old(output[..at]) + PixelFrom(rows, depths, x)
    ensures output[at + |rows|..] == old(output[at + |rows|..])
  {
    for c := 0 to |rows|
      invariant output[..at + c] == old(output[..at]) + PixelFrom(rows, depths, x)[..c]
      invariant output[at + c..] == old(output[at + c..])
    {
      ghost var before := output[..];
      output[at + c] := SampleU8(rows[c][x], depths[c]);
      assert output[..at + c + 1] == before[..at + c] + [output[at + c]];
      assert output[at + c + 1..] == before[at + c..][1..];
      assert old(output[at + c..])[1..] == old(output[at + c + 1..]);
    }
  }
}
