/** The blocks of a scan, interleaved from up to three components, each with its
    own DC predictor: what is written for them, what is read back, and exactly
    when the two agree. */
module JpegScan {
  import opened Options
  import opened BitStream
  import opened HuffmanTable
  import opened HuffmanDecode
  import opened HuffmanEncoder
  import opened JpegMagnitude
  import opened JpegBlock
  import opened JpegBlockCodec
  import opened Writer = BitWriter

  // ----- the blocks of one component -----

  /** What the blocks of one component ask of the encoder, each DC coefficient
      being predicted by the last. */
  predicate EncodableBlocks(previous: int, blocks: seq<seq<int>>)
    decreases |blocks|
  {
    blocks == [] || (IsBlock(blocks[0]) && IsI32(blocks[0][0] - previous) && EncodableBlocks(blocks[0][0], blocks[1..]))
  }

  predicate AllShortBlocks(previous: int, blocks: seq<seq<int>>)
    requires EncodableBlocks(previous, blocks)
    decreases |blocks|
  {
    blocks == [] || (ShortBlock(previous, blocks[0]) && AllShortBlocks(blocks[0][0], blocks[1..]))
  }

  predicate AllBaselineBlocks(previous: int, blocks: seq<seq<int>>)
    requires EncodableBlocks(previous, blocks)
    decreases |blocks|
  {
    blocks == [] || (Baseline(previous, blocks[0]) && AllBaselineBlocks(blocks[0][0], blocks[1..]))
  }

  // ----- several components -----

  const COMPONENTS: nat := 3

  /** A block of a component. */
  datatype Unit = Unit(component: nat, block: seq<int>)

  /** A predictor for each component. */
  type Predictors = p: seq<int> | |p| == COMPONENTS witness [0, 0, 0]

  const START: Predictors := [0, 0, 0]

  predicate AreComponents(order: seq<nat>) {
    forall i :: 0 <= i < |order| ==> order[i] < COMPONENTS
  }

  /** The components of the blocks, in the order of the scan. */
  function Order(units: seq<Unit>): (order: seq<nat>)
    ensures |order| == |units|
  {
    if units == [] then [] else [units[0].component] + Order(units[1..])
  }

  /** The blocks of one component. */
  function BlocksOf(units: seq<Unit>, component: nat): seq<seq<int>> {
    if units == [] then []
    else if units[0].component == component then [units[0].block] + BlocksOf(units[1..], component)
    else BlocksOf(units[1..], component)
  }

  /** Interleaving asks nothing new: the blocks of each component are encodable, */
  predicate EncodableUnits(previous: Predictors, units: seq<Unit>) {
    && (forall i :: 0 <= i < |units| ==> units[i].component < COMPONENTS)
    && forall c :: 0 <= c < COMPONENTS ==> EncodableBlocks(previous[c], BlocksOf(units, c))
  }

  /** have differences and coefficients of at most 15 bits, */
  predicate AllShortUnits(previous: Predictors, units: seq<Unit>)
    requires EncodableUnits(previous, units)
  {
    forall c :: 0 <= c < COMPONENTS ==> AllShortBlocks(previous[c], BlocksOf(units, c))
  }

  /** or are baseline. */
  predicate AllBaselineUnits(previous: Predictors, units: seq<Unit>)
    requires EncodableUnits(previous, units)
  {
    forall c :: 0 <= c < COMPONENTS ==> AllBaselineBlocks(previous[c], BlocksOf(units, c))
  }

  predicate FirstEncodable(previous: Predictors, u: Unit) {
    u.component < COMPONENTS && IsBlock(u.block) && IsI32(u.block[0] - previous[u.component])
  }

  function NextPredictors(previous: Predictors, component: nat, dc: int): Predictors
    requires component < COMPONENTS
  {
    previous[component := dc]
  }

  lemma FirstUnit(previous: Predictors, units: seq<Unit>)
    requires EncodableUnits(previous, units) && units != []
    ensures var u := units[0];
      FirstEncodable(previous, u) && EncodableUnits(NextPredictors(previous, u.component, u.block[0]), units[1..])
  {
    var u := units[0];
    assert BlocksOf(units, u.component)[1..] == BlocksOf(units[1..], u.component);
    forall c | 0 <= c < COMPONENTS
      ensures EncodableBlocks(NextPredictors(previous, u.component, u.block[0])[c], BlocksOf(units[1..], c))
    {
      assert EncodableBlocks(previous[c], BlocksOf(units, c));
    }
  }

  lemma FirstShort(previous: Predictors, units: seq<Unit>)
    requires EncodableUnits(previous, units) && units != []
    ensures var u := units[0];
      && FirstEncodable(previous, u) && EncodableUnits(NextPredictors(previous, u.component, u.block[0]), units[1..])
      && (AllShortUnits(previous, units) <==>
        ShortBlock(previous[u.component], u.block) && AllShortUnits(NextPredictors(previous, u.component, u.block[0]), units[1..]))
  {
    FirstUnit(previous, units);
    hide ShortBlock;
    var u := units[0];
    var next := NextPredictors(previous, u.component, u.block[0]);
    assert BlocksOf(units, u.component)[1..] == BlocksOf(units[1..], u.component);
    forall c | 0 <= c < COMPONENTS
      ensures EncodableBlocks(next[c], BlocksOf(units[1..], c))
      ensures AllShortBlocks(previous[c], BlocksOf(units, c))
        <==> (c == u.component ==> ShortBlock(previous[c], u.block)) && AllShortBlocks(next[c], BlocksOf(units[1..], c))
    {
    }
  }

  lemma FirstBaseline(previous: Predictors, units: seq<Unit>)
    requires EncodableUnits(previous, units) && units != []
    ensures var u := units[0];
      && FirstEncodable(previous, u) && EncodableUnits(NextPredictors(previous, u.component, u.block[0]), units[1..])
      && (AllBaselineUnits(previous, units) <==>
        Baseline(previous[u.component], u.block) && AllBaselineUnits(NextPredictors(previous, u.component, u.block[0]), units[1..]))
  {
    FirstUnit(previous, units);
    hide Baseline;
    var u := units[0];
    var next := NextPredictors(previous, u.component, u.block[0]);
    assert BlocksOf(units, u.component)[1..] == BlocksOf(units[1..], u.component);
    forall c | 0 <= c < COMPONENTS
      ensures EncodableBlocks(next[c], BlocksOf(units[1..], c))
      ensures AllBaselineBlocks(previous[c], BlocksOf(units, c))
        <==> (c == u.component ==> Baseline(previous[c], u.block)) && AllBaselineBlocks(next[c], BlocksOf(units[1..], c))
    {
    }
  }

  predicate AreBlocks(units: seq<Unit>) {
    forall i :: 0 <= i < |units| ==> |units[i].block| == BLOCK
  }

  lemma {:induction false} EncodableAreBlocks(previous: Predictors, units: seq<Unit>)
    requires EncodableUnits(previous, units)
    ensures AreBlocks(units) && AreComponents(Order(units))
    decreases |units|
  {
    if units != [] {
      FirstUnit(previous, units);
      hide EncodableUnits;
      EncodableAreBlocks(NextPredictors(previous, units[0].component, units[0].block[0]), units[1..]);
    }
  }

  /** The blocks with their DC coefficients clamped. */
  function StoredAll(units: seq<Unit>): (stored: seq<Unit>)
    requires AreBlocks(units)
    ensures |stored| == |units|
  {
    if units == [] then [] else [units[0].(block := Stored(units[0].block))] + StoredAll(units[1..])
  }

  // ----- the tables -----

  /** Luma tables for the first component, chroma tables for the others. */
  datatype Tables<+T> = Tables(dcLuma: T, acLuma: T, dcChroma: T, acChroma: T) {
    function Dc(component: nat): T {
      if component == 0 then dcLuma else dcChroma
    }

    function Ac(component: nat): T {
      if component == 0 then acLuma else acChroma
    }
  }

  /** The first component has the luma tables to itself. */
  lemma TablesOfComponents<T>(t: Tables<T>)
    ensures t.Dc(0) == t.dcLuma && t.Ac(0) == t.acLuma
    ensures t.Dc(1) == t.Dc(2) == t.dcChroma && t.Ac(1) == t.Ac(2) == t.acChroma
  {
  }

  predicate AreEncoders(e: Tables<EncoderTable>) {
    IsEncoder(e.dcLuma) && IsEncoder(e.acLuma) && IsEncoder(e.dcChroma) && IsEncoder(e.acChroma)
  }

  predicate AreUsable(t: Tables<SymbolTable>) {
    Usable(t.dcLuma) && Usable(t.acLuma) && Usable(t.dcChroma) && Usable(t.acChroma)
  }

  ghost predicate Inverses(e: Tables<EncoderTable>, t: Tables<SymbolTable>) {
    && Inverse(e.dcLuma, t.dcLuma) && Inverse(e.acLuma, t.acLuma)
    && Inverse(e.dcChroma, t.dcChroma) && Inverse(e.acChroma, t.acChroma)
  }

  // ----- writing and reading -----

  /** The blocks in the order of the scan, each DC coefficient predicted by the
      last of its component. */
  function EncodeUnits(e: Tables<EncoderTable>, previous: Predictors, units: seq<Unit>): Coded
    requires AreEncoders(e) && EncodableUnits(previous, units)
    decreases |units|
  {
    if units == [] then Coded([], None)
    else
      FirstUnit(previous, units);
      var u := units[0];
      Then(EncodeBlock(e.Dc(u.component), e.Ac(u.component), previous[u.component], u.block),
           EncodeUnits(e, NextPredictors(previous, u.component, u.block[0]), units[1..]))
  }

  function DecodeUnits(t: Tables<SymbolTable>, previous: Predictors, a: Ahead, order: seq<nat>): (Result<seq<Unit>, Failure>, Ahead)
    requires AreUsable(t) && AreComponents(order)
    decreases |order|
  {
    if order == [] then (Ok([]), a)
    else
      var c := order[0];
      match DecodeBlock(t.Dc(c), t.Ac(c), previous[c], a)
      case (Err(e), b) => (Err(e), b)
      case (Ok(read), b) =>
        match DecodeUnits(t, NextPredictors(previous, c, read.predictor), b, order[1..])
        case (Err(e), end) => (Err(e), end)
        case (Ok(units), end) => (Ok([Unit(c, read.block)] + units), end)
  }

  /** `expected` is read exactly when its first block is and, from the predictors
      behind that on, the others are. */
  lemma FirstRead(t: Tables<SymbolTable>, previous: Predictors, a: Ahead, order: seq<nat>, expected: seq<Unit>)
    requires AreUsable(t) && AreComponents(order) && expected != [] && order != [] && order[0] == expected[0].component
    ensures var c := order[0];
      var (r, b) := DecodeBlock(t.Dc(c), t.Ac(c), previous[c], a);
      var (all, end) := DecodeUnits(t, previous, a, order);
      if r.Ok? && r.value.block == expected[0].block then
        var (others, last) := DecodeUnits(t, NextPredictors(previous, c, r.value.predictor), b, order[1..]);
        (all == Ok(expected) <==> others == Ok(expected[1..])) && end == last
      else all != Ok(expected)
  {
    hide DecodeBlock;
    assert expected == [expected[0]] + expected[1..];
  }

  /** Any interleaving of blocks survives exactly when, component by component,
      each of them does. */
  lemma {:induction false} UnitsSurviveExactly(e: Tables<EncoderTable>, t: Tables<SymbolTable>, a: Ahead, previous: Predictors,
                                               units: seq<Unit>, tail: seq<bool>)
    requires Inverses(e, t) && AreEncoders(e) && AreUsable(t) && EncodableUnits(previous, units)
    requires AreBlocks(units) && AreComponents(Order(units)) && EncodeUnits(e, previous, units).missing.None?
    requires Holds(a, EncodeUnits(e, previous, units).bits + tail, true)
    ensures DecodeUnits(t, previous, a, Order(units)).0 == Ok(StoredAll(units)) <==> AllShortUnits(previous, units)
    ensures DecodeUnits(t, previous, a, Order(units)).0 == Ok(units) <==> AllBaselineUnits(previous, units)
    ensures AllShortUnits(previous, units) ==> Holds(DecodeUnits(t, previous, a, Order(units)).1, tail, true)
    decreases |units|
  {
    if units == [] {
      assert [] + tail == tail;
    } else {
      FirstShort(previous, units);
      FirstBaseline(previous, units);
      hide DecodeBlock, EncodeBlock, Stored, ShortBlock, EncodableUnits, AllShortUnits, AllBaselineUnits;
      var u, c := units[0], units[0].component;
      var next := NextPredictors(previous, c, u.block[0]);
      var first, rest := EncodeBlock(e.Dc(c), e.Ac(c), previous[c], u.block), EncodeUnits(e, next, units[1..]);
      ThenParts(first, rest, tail);
      BlockSurvivesExactly(e.Dc(c), t.Dc(c), e.Ac(c), t.Ac(c), a, previous[c], u.block, rest.bits + tail);
      FirstRead(t, previous, a, Order(units), units);
      FirstRead(t, previous, a, Order(units), StoredAll(units));
      if ShortBlock(previous[c], u.block) {
        UnitsSurviveExactly(e, t, DecodeBlock(t.Dc(c), t.Ac(c), previous[c], a).1, next, units[1..], tail);
      }
    }
  }

  function DcOnly(v: int): (block: seq<int>)
    ensures |block| == BLOCK
  {
    var read := [v];
    read + Zeros(BLOCK - |read|)
  }

  /** Differences that fit do not suffice: the second DC coefficient of these
      blocks is stored as 32767, and predicts the third as 60000. */
  lemma LargeDcIsClamped()
    ensures var blocks := [DcOnly(30000), DcOnly(60000), DcOnly(30000)];
      EncodableBlocks(0, blocks) && AllShortBlocks(0, blocks) && !AllBaselineBlocks(0, blocks)
    ensures Stored(DcOnly(60000)) == DcOnly(0x7FFF)
  {
    hide Short, DcOnly;
    var a, b := DcOnly(30000), DcOnly(60000);
    DcOnlyIsShort(0, 30000);
    DcOnlyIsShort(30000, 60000);
    DcOnlyIsShort(60000, 30000);
    assert [a, b, a][1..] == [b, a] && [b, a][1..] == [a] && [a][1..] == [];
  }

  lemma DcOnlyIsShort(previous: int, v: int)
    requires IsI32(v) && IsI32(v - previous) && -0x8000 < v - previous < 0x8000
    ensures IsBlock(DcOnly(v)) && DcOnly(v)[0] == v && ShortBlock(previous, DcOnly(v))
    ensures Stored(DcOnly(v)) == DcOnly(ClampI16(v))
  {
    ShortExactly(v - previous);
    assert Short(0) by { ShortExactly(0); }
  }

  // ----- through the bytes -----

  /** The bytes of a scan: its code, filled up to whole bytes with ones. */
  function ScanBytes(code: seq<bool>): seq<nat> {
    ByteForm(code + Ones((8 - |code| % 8) % 8))
  }

  /** What writing a scan ends in. */
  function ScanOutcome(code: Coded, maxBytes: nat): Result<seq<nat>, WriteError> {
    if code.missing.Some? then
      Err(if |ByteForm(code.bits)| <= maxBytes then MissingHuffmanCode(code.missing.value) else OutOfSpace)
    else if |ScanBytes(code.bits)| <= maxBytes then Ok(ScanBytes(code.bits)) else Err(OutOfSpace)
  }

  /** A scan is whole bytes, stuffed, that hold its code and fewer than eight
      ones. */
  lemma ScanBytesHold(code: seq<bool>) returns (fill: nat)
    ensures fill < 8 && IsBytes(ScanBytes(code)) && Stuffed(ScanBytes(code), 0)
    ensures Unstuffed(ScanBytes(code), 0) == code + Ones(fill)
  {
    hide ByteForm, Unstuffed, Stuffed;
    fill := (8 - |code| % 8) % 8;
    ByteFormReads(code + Ones(fill));
  }

  /** From coefficients to bytes and back: put before any marker, the bytes of a
      scan decode to the blocks they were made from, their DC coefficients
      clamped, exactly when every difference and AC coefficient has at most 15
      bits, and to the blocks themselves exactly when besides no DC coefficient
      needs clamping. */
  lemma ScanSurvivesExactly(e: Tables<EncoderTable>, t: Tables<SymbolTable>, units: seq<Unit>, marker: nat, rest: seq<nat>, allowEof: bool)
    requires Inverses(e, t) && AreEncoders(e) && AreUsable(t) && EncodableUnits(START, units)
    requires AreBlocks(units) && AreComponents(Order(units))
    requires EncodeUnits(e, START, units).missing.None? && marker != 0 && marker != 0xFF
    ensures var file := ScanBytes(EncodeUnits(e, START, units).bits) + [0xFF, marker] + rest;
      var decoded := DecodeUnits(t, START, Ahead(Unstuffed(file, 0), 0, MayPad(file, 0, allowEof)), Order(units)).0;
      (decoded == Ok(StoredAll(units)) <==> AllShortUnits(START, units)) && (decoded == Ok(units) <==> AllBaselineUnits(START, units))
  {
    hide EncodeUnits, DecodeUnits, ScanBytes, Unstuffed, Stuffed, Inverses, EncodableUnits, AllShortUnits, AllBaselineUnits, Order;
    var code := EncodeUnits(e, START, units).bits;
    var fill := ScanBytesHold(code);
    MarkerEndsScan(ScanBytes(code), 0, marker, rest, allowEof);
    UnitsSurviveExactly(e, t, Ahead(code + Ones(fill), 0, true), START, units, Ones(fill));
  }
}
