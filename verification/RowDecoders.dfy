/** The two row-based shims as wholes: pulling every line in order, and being
    called back for rows. */
module RowDecoders {
  import opened Options
  import opened Powers
  import opened OutputLength
  import opened Interleave
  import opened RowShims

  /** A freshly sized buffer is all zero. */
  function ZeroRow(width: nat, channels: nat): (row: seq<Pixel>)
    ensures IsRow(row, width, channels)
  {
    seq(width, x => seq(channels, c => 0))
  }

  function ZeroPicture(width: nat, height: nat, channels: nat): (p: Picture)
    ensures IsPicture(p, width, height, channels)
  {
    seq(height, y => ZeroRow(width, channels))
  }

  function Zeros(n: nat): seq<nat> {
    seq(n, i => 0)
  }

  lemma ZerosAdd(n: nat, width: nat)
    ensures Zeros(n * width) + Zeros(width) == Zeros((n + 1) * width)
  {
  }

  lemma {:induction false} FlatZeros(row: seq<Pixel>, channels: nat)
    requires forall x :: 0 <= x < |row| ==> row[x] == Zeros(channels)
    ensures Flatten(row) == Zeros(|row| * channels)
  {
    hide Zeros;
    if row == [] {
      NoZeros(channels);
    } else {
      FlatZeros(row[..|row| - 1], channels);
      ZerosAdd(|row| - 1, channels);
    }
  }

  lemma NoZeros(n: nat)
    ensures Zeros(0 * n) == []
  {
  }

  lemma {:induction false} PackedZeros(p: Picture, width: nat, channels: nat)
    requires forall y :: 0 <= y < |p| ==> p[y] == ZeroRow(width, channels)
    ensures Packed(p) == Zeros(|p| * (width * channels))
  {
    hide Zeros, Flatten;
    if p == [] {
      NoZeros(width * channels);
    } else {
      PackedZeros(p[..|p| - 1], width, channels);
      FlatZeroRow(width, channels);
      ZerosAdd(|p| - 1, width * channels);
    }
  }

  lemma FlatZeroRow(width: nat, channels: nat)
    ensures Flatten(ZeroRow(width, channels)) == Zeros(width * channels)
  {
    forall x | 0 <= x < width ensures ZeroRow(width, channels)[x] == Zeros(channels) {
    }
    FlatZeros(ZeroRow(width, channels), channels);
  }

  lemma SpliceInFront(s: seq<nat>, offset: nat, bytes: seq<nat>, tail: seq<nat>)
    requires offset + |bytes| <= |s|
    ensures Splice(s + tail, offset, bytes) == Splice(s, offset, bytes) + tail
  {
  }

  lemma SpliceAtEnd(s: seq<nat>, was: seq<nat>, bytes: seq<nat>)
    requires |was| == |bytes|
    ensures Splice(s + was, |s|, bytes) == s + bytes
  {
  }

  /** Replacing one row of a picture splices its bytes. */
  lemma {:induction false} PackedUpdate(p: Picture, y: nat, row: seq<Pixel>, width: nat, channels: nat)
    requires IsPicture(p, width, |p|, channels) && y < |p| && IsRow(row, width, channels)
    ensures y * (width * channels) + |Flatten(row)| <= |Packed(p)|
    ensures Packed(p[y := row]) == Splice(Packed(p), y * (width * channels), Flatten(row))
    decreases |p|
  {
    hide Flatten, Splice;
    var init, last, n := p[..|p| - 1], p[|p| - 1], width * channels;
    PackedLength(p, width, channels);
    PackedLength(init, width, channels);
    FlattenLength(row, channels);
    NextProduct(y, n);
    Ordered(y + 1, |p|, n);
    if y == |p| - 1 {
      assert p[y := row][..y] == init;
      SpliceAtEnd(Packed(init), Flatten(last), Flatten(row));
    } else {
      PackedUpdate(init, y, row, width, channels);
      assert p[y := row][..|p| - 1] == init[y := row];
      Ordered(y + 1, |p| - 1, n);
      SpliceInFront(Packed(init), y * n, Flatten(row), Flatten(last));
    }
  }

  // ----- pulling lines -----

  /** A pulled line; none if it is missing, of another component, or not held as
      32-bit integers. */
  type Line = Option<seq<int>>

  predicate LinesOk(lines: seq<seq<Line>>, width: nat, height: nat, channels: nat) {
    |lines| == height && forall y :: 0 <= y < height ==> RowLinesOk(lines[y], width, channels)
  }

  predicate RowLinesOk(row: seq<Line>, width: nat, channels: nat) {
    |row| == channels && forall c :: 0 <= c < channels ==> row[c].Some? && |row[c].value| >= width
  }

  function LinesOf(row: seq<Line>): (rows: seq<seq<int>>)
    requires forall c :: 0 <= c < |row| ==> row[c].Some?
    ensures |rows| == |row| && forall c :: 0 <= c < |row| ==> rows[c] == row[c].value
  {
    seq(|row|, c requires 0 <= c < |row| => row[c].value)
  }

  ghost predicate PictureFrom(p: Picture, lines: seq<seq<Line>>, depths: seq<Depth>, width: nat, count: nat)
    requires count <= |p| && count <= |lines|
  {
    forall y :: 0 <= y < count ==>
      RowLinesOk(lines[y], width, |depths|) && p[y] == RowFrom(LinesOf(lines[y]), depths, width)
  }

  /** The OpenJPH loop over a fresh buffer: it fails exactly on a line that is
      missing or too short. */
  method PullRows(lines: seq<seq<Line>>, depths: seq<Depth>, width: nat, height: nat, required: nat)
    returns (r: Option<seq<nat>>, ghost picture: Picture)
    requires |lines| == height && (forall y :: 0 <= y < height ==> |lines[y]| == |depths|) && required == width * height * |depths|
    ensures r.Some? <==> LinesOk(lines, width, height, |depths|)
    ensures r.Some? ==> IsPicture(picture, width, height, |depths|) && r.value == Packed(picture)
    ensures r.Some? ==> PictureFrom(picture, lines, depths, width, height)
  {
    hide Packed, Flatten, Splice;
    var channels := |depths|;
    var output := new nat[required](_ => 0);
    picture := ZeroPicture(width, height, channels);
    PackedZeros(picture, width, channels);
    Commutes(width * channels, height);
    Rearranges(width, height, channels);
    assert output[..] == Zeros(required);
    for y := 0 to height
      invariant IsPicture(picture, width, height, channels) && output[..] == Packed(picture)
      invariant PictureFrom(picture, lines, depths, width, y)
    {
      if exists c :: 0 <= c < channels && (lines[y][c] == None || |lines[y][c].value| < width) {
        return None, picture;
      }
      RowFits(y, width, height, channels);
      var rows := LinesOf(lines[y]);
      StoreRowByComponent(output, y * width * channels, rows, depths, width);
      PackedUpdate(picture, y, RowFrom(rows, depths, width), width, channels);
      picture := picture[y := RowFrom(rows, depths, width)];
    }
    return Some(output[..]), picture;
  }

  // ----- being called back -----

  /** One invocation: a row number and a line for every component, either of
      which may be missing. */
  datatype Call = Call(y: nat, rows: Option<seq<Line>>)

  /** What the decoder says of its components before the first call. */
  datatype Metadata = Metadata(widths: seq<nat>, heights: seq<nat>, depths: seq<nat>, signedness: seq<bool>)

  /** The first call throws unless there is an entry for every channel, and the
      channels are of one size. */
  predicate MetadataOk(m: Metadata, nc: nat, channels: nat) {
    && nc >= channels > 0 && |m.widths| >= channels && |m.heights| >= channels
    && |m.depths| >= channels && |m.signedness| >= channels
    && forall c :: 1 <= c < channels ==> m.widths[c] == m.widths[0] && m.heights[c] == m.heights[0]
  }

  predicate InRange(m: Metadata) {
    (forall c :: 0 <= c < |m.widths| ==> IsU32(m.widths[c])) && forall c :: 0 <= c < |m.heights| ==> IsU32(m.heights[c])
  }

  function DepthsOf(m: Metadata, channels: nat): (depths: seq<Depth>)
    requires |m.depths| >= channels && |m.signedness| >= channels
    ensures |depths| == channels
  {
    seq(channels, c requires 0 <= c < channels => Depth(m.depths[c], m.signedness[c]))
  }

  /** A call brings `nc` lines, each as long as its picture is wide. */
  predicate IsCall(call: Call, m: Metadata, nc: nat, channels: nat) {
    call.rows.Some? ==>
      && |call.rows.value| == nc
      && (MetadataOk(m, nc, channels) ==> forall c :: 0 <= c < channels && call.rows.value[c].Some? ==>
        |call.rows.value[c].value| >= m.widths[0])
  }

  /** The callback throws on rows outside the picture and on missing lines. */
  predicate CallOk(call: Call, width: nat, height: nat, channels: nat) {
    && call.y < height && call.rows.Some? && |call.rows.value| >= channels
    && RowLinesOk(call.rows.value[..channels], width, channels)
  }

  /** The lines of the channels that are asked for. */
  function RowsOf(call: Call, channels: nat): (rows: seq<seq<int>>)
    requires call.rows.Some? && |call.rows.value| >= channels
    requires forall c :: 0 <= c < channels ==> call.rows.value[c].Some?
    ensures |rows| == channels
  {
    LinesOf(call.rows.value[..channels])
  }

  /** The picture after a run of calls: each row as it came last, zero before. */
  function Delivered(calls: seq<Call>, depths: seq<Depth>, width: nat, height: nat): (p: Picture)
    requires forall i :: 0 <= i < |calls| ==> CallOk(calls[i], width, height, |depths|)
    ensures IsPicture(p, width, height, |depths|)
  {
    if calls == [] then ZeroPicture(width, height, |depths|)
    else
      var last := calls[|calls| - 1];
      assert CallOk(calls[|calls| - 1], width, height, |depths|);
      Delivered(calls[..|calls| - 1], depths, width, height)[last.y := DeliveredRow(last, depths, width)]
  }

  function DeliveredRow(call: Call, depths: seq<Depth>, width: nat): (row: seq<Pixel>)
    requires CallOk(call, width, call.y + 1, |depths|)
    ensures IsRow(row, width, |depths|)
  {
    assert forall c :: 0 <= c < |depths| ==> call.rows.value[..|depths|][c] == call.rows.value[c];
    RowFrom(RowsOf(call, |depths|), depths, width)
  }

  /** One more call splices the bytes of its row. */
  lemma DeliveredAdds(calls: seq<Call>, call: Call, depths: seq<Depth>, width: nat, height: nat)
    requires CallOk(call, width, height, |depths|)
    requires forall i :: 0 <= i < |calls| ==> CallOk(calls[i], width, height, |depths|)
    ensures CallOk(call, width, call.y + 1, |depths|)
    ensures var bytes, now := Flatten(DeliveredRow(call, depths, width)), calls + [call];
      && (forall i :: 0 <= i < |now| ==> CallOk(now[i], width, height, |depths|))
      && |bytes| == width * |depths| && call.y * width * |depths| + |bytes| <= |Packed(Delivered(calls, depths, width, height))|
      && Packed(Delivered(now, depths, width, height))
        == Splice(Packed(Delivered(calls, depths, width, height)), call.y * width * |depths|, bytes)
  {
    hide Packed, Flatten, Splice, DeliveredRow, RowLinesOk;
    var before, row, channels := Delivered(calls, depths, width, height), DeliveredRow(call, depths, width), |depths|;
    RowFits(call.y, width, height, channels);
    PackedUpdate(before, call.y, row, width, channels);
    FlattenLength(row, channels);
    assert (calls + [call])[..|calls|] == calls;
  }

  /** The captured variables of the callback. */
  class RowSink {
    const metadata: Metadata
    const channels: nat
    var output: array<nat>
    var initialized: bool
    var width: nat
    var height: nat
    ghost var calls: seq<Call>

    ghost predicate Valid()
      reads this, output
    {
      && InRange(metadata) && (channels == 1 || channels == 3)
      && (initialized <==> calls != [])
      && (initialized ==> Sized() && output[..] == Packed(Picture()))
    }

    /** The first call has found the metadata in order. */
    ghost predicate Sized()
      reads this
    {
      && MetadataOk(metadata, channels, channels) && width == metadata.widths[0] && height == metadata.heights[0]
      && OutputLen(width, height, channels).Some?
      && forall i :: 0 <= i < |calls| ==> CallOk(calls[i], width, height, channels)
    }

    ghost function Picture(): Picture
      requires Sized()
      reads this
    {
      Delivered(calls, DepthsOf(metadata, channels), width, height)
    }

    constructor (metadata: Metadata, channels: nat)
      requires InRange(metadata) && (channels == 1 || channels == 3)
      ensures Valid() && calls == [] && this.metadata == metadata && this.channels == channels && fresh(output)
    {
      this.metadata, this.channels := metadata, channels;
      output := new nat[0];
      initialized := false;
      width, height := 0, 0;
      calls := [];
    }

    /** Checks the metadata and sizes the buffer before the first row. */
    method Initialize(nc: nat, sizeMax: nat) returns (ok: bool)
      requires Valid() && !initialized && sizeMax >= U32_MAX
      modifies this`output, this`width, this`height
      ensures ok <==>
        MetadataOk(metadata, nc, channels) && OutputLen(metadata.widths[0], metadata.heights[0], channels).Some?
      ensures ok ==> fresh(output) && Sized() && output[..] == Packed(Picture())
      ensures !ok ==> output == old(output)
    {
      hide Packed;
      if nc < channels || |metadata.widths| < channels || |metadata.heights| < channels
         || |metadata.depths| < channels || |metadata.signedness| < channels {
        return false;
      }
      width, height := metadata.widths[0], metadata.heights[0];
      for c := 1 to channels
        invariant forall k :: 1 <= k < c ==> metadata.widths[k] == width && metadata.heights[k] == height
      {
        if metadata.widths[c] != width || metadata.heights[c] != height {
          return false;
        }
      }
      OutputLengthsAgree(width, height, channels, sizeMax);
      var required := RowOutputLen(width, height, channels, sizeMax);
      if required == None {
        return false;
      }
      output := new nat[required.value](_ => 0);
      PackedZeros(ZeroPicture(width, height, channels), width, channels);
      Commutes(width * channels, height);
      Rearranges(width, height, channels);
      assert output[..] == Zeros(required.value);
      return true;
    }

    /** One invocation; false where the callback throws. */
    method OnRow(call: Call, ghost nc: nat, sizeMax: nat) returns (ok: bool)
      requires Valid() && sizeMax >= U32_MAX && IsCall(call, metadata, nc, channels) && (initialized ==> nc >= channels)
      modifies this, output
      ensures ok ==> Valid() && calls == old(calls) + [call] && (output == old(output) || fresh(output))
      ensures ok ==> nc >= channels
      ensures ok <==>
        && MetadataOk(metadata, nc, channels) && OutputLen(metadata.widths[0], metadata.heights[0], channels).Some?
        && CallOk(call, metadata.widths[0], metadata.heights[0], channels)
    {
      hide Packed, Flatten;
      if call.rows == None {
        return false;
      }
      var rows := call.rows.value;
      if !initialized {
        var sized := Initialize(|rows|, sizeMax);
        if !sized {
          return false;
        }
        initialized := true;
      }
      assert output[..] == Packed(Picture());
      if call.y >= height || exists c :: 0 <= c < channels && rows[c] == None {
        return false;
      }
      StoreRow(call);
      return true;
    }

    method StoreRow(call: Call)
      requires Sized() && initialized && CallOk(call, width, height, channels)
      requires InRange(metadata) && (channels == 1 || channels == 3) && output[..] == Packed(Picture())
      modifies output, this`calls
      ensures Valid() && calls == old(calls) + [call]
    {
      hide Packed, Flatten, Splice, Delivered, RowFrom;
      var depths := DepthsOf(metadata, channels);
      RowFits(call.y, width, height, channels);
      DeliveredAdds(calls, call, depths, width, height);
      StoreRowByPixel(output, call.y * width * channels, RowsOf(call, channels), depths, width);
      calls := calls + [call];
    }

    /** What is handed out when the decoder has called for the last time: nothing
        before the first row, else the picture as it is. */
    method Finish() returns (r: Option<seq<nat>>)
      requires Valid()
      ensures r.Some? <==> calls != []
      ensures r.Some? ==> Sized() && r.value == Packed(Picture())
    {
      hide Packed, Delivered;
      if initialized {
        PackedLength(Picture(), width, channels);
        NoEmptyPicture(width, height, channels);
      }
      return if !initialized || output.Length == 0 then None else Some(output[..]);
    }
  }

  lemma NoEmptyPicture(width: nat, height: nat, channels: nat)
    requires OutputLen(width, height, channels).Some?
    ensures height * (width * channels) > 0
  {
    Ordered(1, width, channels);
    Ordered(1, height, width * channels);
  }

  /** What the callback decoder accepts. */
  ghost predicate Accepted(calls: seq<Call>, m: Metadata, components: nat, nc: nat, channels: nat) {
    && (channels == 1 || channels == 3) && components >= channels && calls != []
    && MetadataOk(m, nc, channels) && OutputLen(m.widths[0], m.heights[0], channels).Some?
    && forall i :: 0 <= i < |calls| ==> CallOk(calls[i], m.widths[0], m.heights[0], channels)
  }

  /** The whole callback decoder: it succeeds exactly when there is a row, the
      metadata and the size are valid and no call throws, whether or not every row
      has come. */
  method RunCallbacks(calls: seq<Call>, metadata: Metadata, components: nat, ghost nc: nat, channels: nat, sizeMax: nat)
    returns (r: Option<seq<nat>>)
    requires InRange(metadata) && sizeMax >= U32_MAX
    requires forall i :: 0 <= i < |calls| ==> IsCall(calls[i], metadata, nc, channels)
    ensures r.Some? <==> Accepted(calls, metadata, components, nc, channels)
    ensures r.Some? ==>
      r.value == Packed(Delivered(calls, DepthsOf(metadata, channels), metadata.widths[0], metadata.heights[0]))
  {
    hide Packed, Delivered, IsCall;
    if channels != 1 && channels != 3 {
      return None;
    }
    if (channels == 1 && components == 0) || (channels == 3 && components < 3) {
      return None;
    }
    var sink := new RowSink(metadata, channels);
    for i := 0 to |calls|
      invariant sink.Valid() && sink.calls == calls[..i] && fresh(sink) && fresh(sink.output)
      invariant sink.metadata == metadata && sink.channels == channels
      invariant i > 0 ==> nc >= channels
    {
      assert calls[..i + 1] == calls[..i] + [calls[i]];
      var ok := sink.OnRow(calls[i], nc, sizeMax);
      if !ok {
        return None;
      }
    }
    assert calls[..|calls|] == calls;
    r := sink.Finish();
  }

  // ----- which pictures come out -----

  /** A row that was never delivered comes out black. */
  lemma {:induction false} UndeliveredRowIsZero(calls: seq<Call>, depths: seq<Depth>, width: nat, height: nat, y: nat)
    requires forall i :: 0 <= i < |calls| ==> CallOk(calls[i], width, height, |depths|)
    requires y < height && forall i :: 0 <= i < |calls| ==> calls[i].y != y
    ensures Delivered(calls, depths, width, height)[y] == ZeroRow(width, |depths|)
  {
    if calls != [] {
      UndeliveredRowIsZero(calls[..|calls| - 1], depths, width, height, y);
    }
  }

  /** A delivered row is what came last. */
  lemma {:induction false} DeliveredRowIsLast(calls: seq<Call>, depths: seq<Depth>, width: nat, height: nat, i: nat)
    requires forall j :: 0 <= j < |calls| ==> CallOk(calls[j], width, height, |depths|)
    requires i < |calls| && forall j :: i < j < |calls| ==> calls[j].y != calls[i].y
    ensures Delivered(calls, depths, width, height)[calls[i].y] == DeliveredRow(calls[i], depths, width)
  {
    if i < |calls| - 1 {
      DeliveredRowIsLast(calls[..|calls| - 1], depths, width, height, i);
    }
  }

  predicate Arrives(calls: seq<Call>, y: nat) {
    exists i :: 0 <= i < |calls| && calls[i].y == y
  }

  lemma {:induction false} LastDelivery(calls: seq<Call>, y: nat) returns (i: nat)
    requires Arrives(calls, y)
    ensures i < |calls| && calls[i].y == y && forall j :: i < j < |calls| ==> calls[j].y != y
  {
    i := |calls| - 1;
    if calls[i].y != y {
      i := LastDelivery(calls[..i], y);
    }
  }

  /** No two pictures of one size have the same bytes. */
  lemma PackedIsInjective(p: Picture, q: Picture, width: nat, channels: nat)
    requires |p| == |q| && IsPicture(p, width, |p|, channels) && IsPicture(q, width, |p|, channels) && Packed(p) == Packed(q)
    ensures p == q
  {
    hide Packed;
    forall row | 0 <= row < |p| ensures p[row] == q[row] {
      forall col | 0 <= col < width ensures p[row][col] == q[row][col] {
        forall c | 0 <= c < channels ensures p[row][col][c] == q[row][col][c] {
          PackedAt(p, width, channels, row, col, c);
          PackedAt(q, width, channels, row, col, c);
        }
      }
    }
  }

  /** When the calls bring the lines that the other shim pulls, in any order and
      any number of times, both hand out the same bytes exactly if every row that
      does not arrive is black. */
  lemma OrderOfRowsIsIrrelevant(calls: seq<Call>, lines: seq<seq<Line>>, depths: seq<Depth>, width: nat, height: nat, pulled: Picture)
    requires |lines| == height && IsPicture(pulled, width, height, |depths|) && PictureFrom(pulled, lines, depths, width, height)
    requires forall i :: 0 <= i < |calls| ==>
      CallOk(calls[i], width, height, |depths|) && calls[i].rows.value[..|depths|] == lines[calls[i].y]
    ensures Packed(Delivered(calls, depths, width, height)) == Packed(pulled)
      <==> forall y :: 0 <= y < height && !Arrives(calls, y) ==> pulled[y] == ZeroRow(width, |depths|)
  {
    hide Packed, Delivered, ZeroRow;
    var p := Delivered(calls, depths, width, height);
    forall y | 0 <= y < height ensures p[y] == if Arrives(calls, y) then pulled[y] else ZeroRow(width, |depths|) {
      if Arrives(calls, y) {
        var i := LastDelivery(calls, y);
        DeliveredRowIsLast(calls, depths, width, height, i);
      } else {
        UndeliveredRowIsZero(calls, depths, width, height, y);
      }
    }
    if Packed(p) == Packed(pulled) {
      PackedIsInjective(p, pulled, width, |depths|);
    } else {
      assert p != pulled;
      var y :| 0 <= y < height && p[y] != pulled[y];
    }
  }
}
