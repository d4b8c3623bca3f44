/** The scan coder itself: the loops over the blocks of a scan, from the tables
    as they are transmitted to bytes and back. */
module JpegScanCodec {
  import opened Options
  import opened BitStream
  import opened HuffmanTable
  import opened HuffmanDecode
  import opened HuffmanEncoder
  import opened HuffmanFastPath
  import opened JpegBlock
  import opened JpegBlockCodec
  import opened JpegScan
  import opened HuffmanCodes
  import opened Reader = BitReader
  import opened Writer = BitWriter

  // ----- writing -----

  predicate AllShortLens(e: Tables<EncoderTable>) {
    ShortLens(e.dcLuma) && ShortLens(e.acLuma) && ShortLens(e.dcChroma) && ShortLens(e.acChroma)
  }

  /** The first of the blocks that are left. */
  lemma WroteUnit(e: Tables<EncoderTable>, previous: Predictors, units: seq<Unit>, i: nat, now: seq<bool>, total: Coded, maxBytes: nat)
    requires AreEncoders(e) && i < |units| && EncodableUnits(previous, units[i..])
    requires Wrote([], now, total, EncodeUnits(e, previous, units[i..]))
    ensures FirstEncodable(previous, units[i])
    ensures var u := units[i];
      var next := NextPredictors(previous, u.component, u.block[0]);
      var first := EncodeBlock(e.Dc(u.component), e.Ac(u.component), previous[u.component], u.block);
      var error := Outcome(now, first, maxBytes);
      EncodableUnits(next, units[i + 1..]) &&
      if error == None then Wrote([], now + first.bits, total, EncodeUnits(e, next, units[i + 1..]))
      else Outcome([], total, maxBytes) == error
  {
    hide EncodeBlock, Outcome, Wrote, EncodableUnits;
    FirstUnit(previous, units[i..]);
    assert units[i..][1..] == units[i + 1..];
    var u := units[i];
    var next := NextPredictors(previous, u.component, u.block[0]);
    var first := EncodeBlock(e.Dc(u.component), e.Ac(u.component), previous[u.component], u.block);
    WroteFirst([], now, total, first, EncodeUnits(e, next, units[i + 1..]), maxBytes);
  }

  method WriteUnits(e: Tables<EncoderTable>, units: seq<Unit>, writer: BitWriter) returns (error: Option<WriteError>)
    requires AreEncoders(e) && AllShortLens(e) && EncodableUnits(START, units)
    requires writer.Valid() && writer.Written() == []
    modifies writer
    ensures error == Outcome([], EncodeUnits(e, START, units), writer.maxBytes)
    ensures error == None ==> writer.Valid() && writer.Written() == EncodeUnits(e, START, units).bits
  {
    hide Outcome, Wrote, EncodeBlock, EncodableUnits;
    var previous := new int[COMPONENTS](_ => 0);
    ghost var total := EncodeUnits(e, START, units);
    Started([], total);
    assert units[0..] == units && previous[..] == START;
    for i := 0 to |units|
      invariant writer.Valid() && EncodableUnits(previous[..], units[i..])
      invariant Wrote([], writer.Written(), total, EncodeUnits(e, previous[..], units[i..]))
    {
      WroteUnit(e, previous[..], units, i, writer.Written(), total, writer.maxBytes);
      var c, block := units[i].component, units[i].block;
      ghost var before := previous[..];
      error := EncodeBlockTo(e.Dc(c), e.Ac(c), previous[c], block, writer);
      if error.Some? {
        return;
      }
      previous[c] := block[0];
      assert previous[..] == NextPredictors(before, c, block[0]);
    }
    NothingLeft(writer);
    WroteLast([], writer.Written(), total, Coded([], None), writer.maxBytes);
    assert [] + total.bits == total.bits;
    error := None;
  }

  /** Writing the code decides, and then filling up the last byte. */
  lemma ScanEnds(code: Coded, maxBytes: nat)
    ensures match Outcome([], code, maxBytes)
      case Some(error) => ScanOutcome(code, maxBytes) == Err(error)
      case None => ScanOutcome(code, maxBytes) == if |ScanBytes(code.bits)| <= maxBytes then Ok(ScanBytes(code.bits)) else Err(OutOfSpace)
  {
    hide ByteForm;
    assert [] + code.bits == code.bits;
    ByteFormGrows(code.bits, Ones((8 - |code.bits| % 8) % 8));
  }

  /** Writes the blocks of a scan and fills up the last byte. */
  method EncodeScan(e: Tables<EncoderTable>, units: seq<Unit>, maxBytes: nat) returns (r: Result<seq<nat>, WriteError>)
    requires AreEncoders(e) && AllShortLens(e) && EncodableUnits(START, units)
    ensures r == ScanOutcome(EncodeUnits(e, START, units), maxBytes)
  {
    hide EncodeUnits, ByteForm, ScanOutcome, Outcome, EncodableUnits;
    ScanEnds(EncodeUnits(e, START, units), maxBytes);
    var writer := new BitWriter(maxBytes);
    var error := WriteUnits(e, units, writer);
    if error.Some? {
      return Err(error.value);
    }
    var ok := writer.AlignWithOnes();
    if !ok {
      return Err(OutOfSpace);
    }
    writer.BytesAreWritten();
    return Ok(writer.bytes);
  }

  // ----- reading -----

  predicate AreReady(t: Tables<CoefficientTable>) {
    Ready(t.dcLuma, Dc) && Ready(t.acLuma, Ac) && Ready(t.dcChroma, Dc) && Ready(t.acChroma, Ac)
  }

  function SymbolTables(t: Tables<CoefficientTable>): Tables<SymbolTable> {
    Tables(t.dcLuma.table, t.acLuma.table, t.dcChroma.table, t.acChroma.table)
  }

  /** `done` is read; what is still to come decides the whole. */
  ghost predicate ReadSoFar(t: Tables<SymbolTable>, start: (Result<seq<Unit>, Failure>, Ahead), done: seq<Unit>,
                            previous: Predictors, now: Ahead, left: seq<nat>)
    requires AreUsable(t) && AreComponents(left)
  {
    var (rs, end) := DecodeUnits(t, previous, now, left);
    start == (if rs.Err? then rs else Ok(done + rs.value), end)
  }

  lemma ReadOneMore(t: Tables<SymbolTable>, start: (Result<seq<Unit>, Failure>, Ahead), done: seq<Unit>,
                    previous: Predictors, now: Ahead, order: seq<nat>, i: nat)
    requires AreUsable(t) && AreComponents(order) && i < |order| && ReadSoFar(t, start, done, previous, now, order[i..])
    ensures var c := order[i];
      var (r, b) := DecodeBlock(t.Dc(c), t.Ac(c), previous[c], now);
      if r.Err? then start == (Err(r.error), b)
      else ReadSoFar(t, start, done + [Unit(c, r.value.block)], NextPredictors(previous, c, r.value.predictor), b, order[i + 1..])
  {
    hide DecodeBlock;
    var c := order[i];
    assert order[i..][1..] == order[i + 1..];
    var (r, b) := DecodeBlock(t.Dc(c), t.Ac(c), previous[c], now);
    if r.Ok? {
      var rs := DecodeUnits(t, NextPredictors(previous, c, r.value.predictor), b, order[i + 1..]).0;
      if rs.Ok? {
        assert done + ([Unit(c, r.value.block)] + rs.value) == (done + [Unit(c, r.value.block)]) + rs.value;
      }
    }
  }

  lemma NothingRead(t: Tables<SymbolTable>, previous: Predictors, now: Ahead, order: seq<nat>)
    requires AreUsable(t) && AreComponents(order)
    ensures ReadSoFar(t, DecodeUnits(t, previous, now, order), [], previous, now, order[0..])
  {
    assert order[0..] == order;
    var rs := DecodeUnits(t, previous, now, order).0;
    if rs.Ok? {
      assert [] + rs.value == rs.value;
    }
  }

  /** Reads the blocks of a scan whose components come in the given order. */
  method DecodeScan(t: Tables<CoefficientTable>, br: BitReader, order: seq<nat>) returns (r: Result<seq<Unit>, Failure>)
    requires AreReady(t) && AreComponents(order) && br.Valid()
    modifies br
    ensures br.Valid() && AreUsable(SymbolTables(t))
    ensures (r, br.View()) == DecodeUnits(SymbolTables(t), START, old(br.View()), order)
  {
    hide DecodeBlock;
    var previous := new int[COMPONENTS](_ => 0);
    var done := [];
    ghost var tables := SymbolTables(t);
    ghost var start := DecodeUnits(tables, START, br.View(), order);
    assert previous[..] == START;
    NothingRead(tables, START, br.View(), order);
    for i := 0 to |order|
      invariant br.Valid() && ReadSoFar(tables, start, done, previous[..], br.View(), order[i..])
    {
      ReadOneMore(tables, start, done, previous[..], br.View(), order, i);
      var c := order[i];
      ghost var before := previous[..];
      var read := DecodeBlockFrom(t.Dc(c), t.Ac(c), previous[c], br);
      if read.Err? {
        return Err(read.error);
      }
      done := done + [Unit(c, read.value.block)];
      previous[c] := read.value.predictor;
      assert previous[..] == NextPredictors(before, c, read.value.predictor);
    }
    assert done + [] == done;
    return Ok(done);
  }

  // ----- from the tables as they are transmitted -----

  /** The BITS and HUFFVAL vectors of a table. */
  datatype Vectors = Vectors(bits: seq<nat>, values: seq<nat>)

  predicate AreVectors(v: Vectors) {
    IsBits(v.bits) && IsValues(v.values)
  }

  predicate AllVectors(v: Tables<Vectors>) {
    AreVectors(v.dcLuma) && AreVectors(v.acLuma) && AreVectors(v.dcChroma) && AreVectors(v.acChroma)
  }

  /** The tables the encoder can build. */
  predicate EncoderAccepts(v: Vectors) {
    Total(v.bits) == |v.values| && Steps(Sizes(v.bits), Total(v.bits))
  }

  predicate EncoderAcceptsAll(v: Tables<Vectors>) {
    EncoderAccepts(v.dcLuma) && EncoderAccepts(v.acLuma) && EncoderAccepts(v.dcChroma) && EncoderAccepts(v.acChroma)
  }

  /** The tables the decoder can build. */
  predicate DecoderAccepts(v: Vectors) {
    Total(v.bits) == |v.values| <= 256 && Kraft(Sizes(v.bits)) <= 0x1_0000
  }

  predicate DecoderAcceptsAll(v: Tables<Vectors>) {
    DecoderAccepts(v.dcLuma) && DecoderAccepts(v.acLuma) && DecoderAccepts(v.dcChroma) && DecoderAccepts(v.acChroma)
  }

  ghost predicate IsEncoderFor(e: EncoderTable, v: Vectors)
    requires IsBits(v.bits)
  {
    IsEncoder(e) && EncoderTableFor(e, v.bits, v.values)
  }

  ghost predicate AreEncodersFor(e: Tables<EncoderTable>, v: Tables<Vectors>)
    requires AllVectors(v)
  {
    && IsEncoderFor(e.dcLuma, v.dcLuma) && IsEncoderFor(e.acLuma, v.acLuma)
    && IsEncoderFor(e.dcChroma, v.dcChroma) && IsEncoderFor(e.acChroma, v.acChroma)
  }

  ghost predicate IsTableFor(t: SymbolTable, v: Vectors)
    requires IsBits(v.bits)
  {
    Usable(t) && SymbolTableFor(t, v.bits) && t.values == v.values
  }

  ghost predicate AreTablesFor(t: Tables<SymbolTable>, v: Tables<Vectors>)
    requires AllVectors(v)
  {
    && IsTableFor(t.dcLuma, v.dcLuma) && IsTableFor(t.acLuma, v.acLuma)
    && IsTableFor(t.dcChroma, v.dcChroma) && IsTableFor(t.acChroma, v.acChroma)
  }

  lemma TablesAreInverses(e: Tables<EncoderTable>, t: Tables<SymbolTable>, v: Tables<Vectors>)
    requires AllVectors(v) && AreEncodersFor(e, v) && AreTablesFor(t, v)
    ensures Inverses(e, t) && AreEncoders(e) && AreUsable(t)
  {
    hide SymbolTableFor, EncoderTableFor, Inverse, IsBits;
    MatchedInverse(e.dcLuma, t.dcLuma, v.dcLuma.bits);
    MatchedInverse(e.acLuma, t.acLuma, v.acLuma.bits);
    MatchedInverse(e.dcChroma, t.dcChroma, v.dcChroma.bits);
    MatchedInverse(e.acChroma, t.acChroma, v.acChroma.bits);
  }

  lemma LensAreShort(e: EncoderTable, v: Vectors)
    requires IsBits(v.bits) && EncoderTableFor(e, v.bits, v.values)
    ensures IsEncoderFor(e, v) && ShortLens(e)
  {
  }

  method BuildEncoder(v: Vectors) returns (r: Option<EncoderTable>)
    requires AreVectors(v)
    ensures r.Some? <==> EncoderAccepts(v)
    ensures r.Some? ==> IsEncoderFor(r.value, v) && ShortLens(r.value)
  {
    hide Steps;
    r := EncodeHuffmanTable(v.bits, v.values);
    if r.Some? {
      LensAreShort(r.value, v);
    }
  }

  /** `baseline_encode_tables`. */
  method BuildEncoders(v: Tables<Vectors>) returns (r: Option<Tables<EncoderTable>>)
    requires AllVectors(v)
    ensures r.Some? <==> EncoderAcceptsAll(v)
    ensures r.Some? ==> AreEncodersFor(r.value, v) && AreEncoders(r.value) && AllShortLens(r.value)
  {
    hide EncoderAccepts, EncoderTableFor, ShortLens;
    var dcLuma := BuildEncoder(v.dcLuma);
    var acLuma := BuildEncoder(v.acLuma);
    var dcChroma := BuildEncoder(v.dcChroma);
    var acChroma := BuildEncoder(v.acChroma);
    if dcLuma == None || acLuma == None || dcChroma == None || acChroma == None {
      return None;
    }
    return Some(Tables(dcLuma.value, acLuma.value, dcChroma.value, acChroma.value));
  }

  method BuildDecoder(v: Vectors, role: Role) returns (r: Option<CoefficientTable>)
    requires AreVectors(v)
    ensures r.Some? <==> DecoderAccepts(v)
    ensures r.Some? ==> Ready(r.value, role) && IsTableFor(r.value.table, v)
  {
    r := BuildCoefficientTable(v.bits, v.values, role);
    if r.Some? {
      TableUsable(r.value.table, v.bits);
      TableSymbolsAreBytes(r.value.table, v.bits);
    }
  }

  method BuildDecoders(v: Tables<Vectors>) returns (r: Option<Tables<CoefficientTable>>)
    requires AllVectors(v)
    ensures r.Some? <==> DecoderAcceptsAll(v)
    ensures r.Some? ==> AreReady(r.value) && AreTablesFor(SymbolTables(r.value), v)
  {
    hide DecoderAccepts, SymbolTableFor, Ready;
    var dcLuma := BuildDecoder(v.dcLuma, Dc);
    var acLuma := BuildDecoder(v.acLuma, Ac);
    var dcChroma := BuildDecoder(v.dcChroma, Dc);
    var acChroma := BuildDecoder(v.acChroma, Ac);
    if dcLuma == None || acLuma == None || dcChroma == None || acChroma == None {
      return None;
    }
    return Some(Tables(dcLuma.value, acLuma.value, dcChroma.value, acChroma.value));
  }

  /** Encodes with tables given by their vectors. */
  method EncodeScanWith(v: Tables<Vectors>, units: seq<Unit>, maxBytes: nat)
    returns (r: Option<Result<seq<nat>, WriteError>>, ghost e: Tables<EncoderTable>)
    requires AllVectors(v) && EncodableUnits(START, units)
    ensures r.Some? <==> EncoderAcceptsAll(v)
    ensures r.Some? ==> AreEncodersFor(e, v) && AreEncoders(e) && r.value == ScanOutcome(EncodeUnits(e, START, units), maxBytes)
  {
    hide ScanOutcome, AreEncodersFor, EncoderAcceptsAll, AllVectors;
    var tables := BuildEncoders(v);
    if tables == None {
      e := Tables(NO_ENCODER, NO_ENCODER, NO_ENCODER, NO_ENCODER);
      return None, e;
    }
    e := tables.value;
    var written := EncodeScan(tables.value, units, maxBytes);
    return Some(written), e;
  }

  ghost const NO_ENCODER := EncoderTable([], [])

  /** Decodes with tables given by their vectors. */
  method DecodeScanWith(v: Tables<Vectors>, bytes: seq<nat>, allowEof: bool, order: seq<nat>)
    returns (r: Option<Result<seq<Unit>, Failure>>, ghost t: Tables<SymbolTable>)
    requires AllVectors(v) && IsBytes(bytes) && AreComponents(order)
    ensures r.Some? <==> DecoderAcceptsAll(v)
    ensures r.Some? ==> AreTablesFor(t, v) && AreUsable(t)
    ensures r.Some? ==> r.value == DecodeUnits(t, START, Ahead(Unstuffed(bytes, 0), 0, MayPad(bytes, 0, allowEof)), order).0
  {
    hide DecodeUnits, AreTablesFor, DecoderAcceptsAll, AllVectors;
    var tables := BuildDecoders(v);
    if tables == None {
      t := Tables(NO_TABLE, NO_TABLE, NO_TABLE, NO_TABLE);
      return None, t;
    }
    t := SymbolTables(tables.value);
    var br := new BitReader(bytes, allowEof);
    var units := DecodeScan(tables.value, br, order);
    return Some(units), t;
  }

  ghost const NO_TABLE := SymbolTable([], Derivation([], [], [], [], [], 0), [])

  /** Writes a scan and, put before a marker, reads it with the decoder.  What
      the encoder wrote is read whenever the decoder accepts the tables, and it
      is the blocks exactly when those of every component are baseline. */
  method EncodeThenDecode(v: Tables<Vectors>, units: seq<Unit>, maxBytes: nat, marker: nat, rest: seq<nat>, allowEof: bool)
    returns (written: Option<Result<seq<nat>, WriteError>>, read: Option<Result<seq<Unit>, Failure>>, ghost e: Tables<EncoderTable>)
    requires AllVectors(v) && EncodableUnits(START, units) && marker != 0 && marker < 0xFF && IsBytes(rest)
    ensures AreBlocks(units)
    ensures written.Some? <==> EncoderAcceptsAll(v)
    ensures written.Some? ==> AreEncodersFor(e, v) && AreEncoders(e)
    ensures written.Some? ==> written.value == ScanOutcome(EncodeUnits(e, START, units), maxBytes)
    ensures read.Some? <==> written.Some? && written.value.Ok? && DecoderAcceptsAll(v)
    ensures read.Some? ==> (read.value == Ok(StoredAll(units)) <==> AllShortUnits(START, units))
    ensures read.Some? ==> (read.value == Ok(units) <==> AllBaselineUnits(START, units))
  {
    EncodableAreBlocks(START, units);
    hide *;
    read := None;
    written, e := EncodeScanWith(v, units, maxBytes);
    if written == None || written.value.Err? {
      return;
    }
    WrittenBytes(EncodeUnits(e, START, units), maxBytes);
    var fill := ScanBytesHold(EncodeUnits(e, START, units).bits);
    FileIsBytes(written.value.value, marker, rest);
    ghost var t;
    read, t := DecodeScanWith(v, written.value.value + [0xFF, marker] + rest, allowEof, Order(units));
    if read.Some? {
      TablesAreInverses(e, t, v);
      ScanSurvivesExactly(e, t, units, marker, rest, allowEof);
    }
  }

  lemma WrittenBytes(code: Coded, maxBytes: nat)
    ensures ScanOutcome(code, maxBytes).Ok? ==> code.missing == None && ScanOutcome(code, maxBytes).value == ScanBytes(code.bits)
  {
    hide ByteForm, ScanBytes;
  }

  lemma FileIsBytes(bytes: seq<nat>, marker: nat, rest: seq<nat>)
    requires IsBytes(bytes) && marker < 0xFF && IsBytes(rest)
    ensures IsBytes(bytes + [0xFF, marker] + rest)
  {
  }
}
