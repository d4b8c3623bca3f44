/** The block coder itself: the loops that write a block to a bit writer and
    read it from a bit reader, proved against the functions of `JpegBlock`. */
module JpegBlockCodec {
  import opened Options
  import opened BitStream
  import opened HuffmanCodes
  import opened HuffmanTable
  import opened HuffmanDecode
  import opened HuffmanEncoder
  import opened HuffmanFastPath
  import opened JpegMagnitude
  import opened JpegBlock
  import opened Reader = BitReader
  import opened Writer = BitWriter

  datatype WriteError = MissingHuffmanCode(symbol: nat) | OutOfSpace

  /** How writing `code` behind `before` ends: out of space when its bytes exceed
      the cap, else at the symbol without a code if there is one. */
  function Outcome(before: seq<bool>, code: Coded, maxBytes: nat): Option<WriteError> {
    if |ByteForm(before + code.bits)| > maxBytes then Some(OutOfSpace)
    else if code.missing.Some? then Some(MissingHuffmanCode(code.missing.value))
    else None
  }

  method WriteHuffmanSymbol(e: EncoderTable, symbol: nat, writer: BitWriter) returns (error: Option<WriteError>)
    requires IsEncoder(e) && ShortLens(e) && symbol < SYMBOLS && writer.Valid()
    modifies writer
    ensures error == Outcome(old(writer.Written()), Symbol(e, symbol), writer.maxBytes)
    ensures error == None ==> writer.Valid() && writer.Written() == old(writer.Written()) + Symbol(e, symbol).bits
  {
    hide ByteForm;
    var len := e.lens[symbol];
    if len == 0 {
      writer.BytesAreWritten();
      assert writer.Written() + [] == writer.Written();
      return Some(MissingHuffmanCode(symbol));
    }
    var ok := writer.WriteBits(e.codes[symbol], len);
    return if ok then None else Some(OutOfSpace);
  }

  predicate ShortLens(e: EncoderTable) {
    forall s :: 0 <= s < |e.lens| ==> e.lens[s] <= MAX_LENGTH
  }

  /** A symbol and the magnitude bits of `v` behind it. */
  method WriteCoefficient(e: EncoderTable, symbol: nat, v: int, writer: BitWriter) returns (error: Option<WriteError>)
    requires IsEncoder(e) && ShortLens(e) && symbol < SYMBOLS && IsI32(v) && writer.Valid()
    modifies writer
    ensures error == Outcome(old(writer.Written()), SymbolAndMagnitude(e, symbol, v), writer.maxBytes)
    ensures error == None ==> writer.Valid() && writer.Written() == old(writer.Written()) + SymbolAndMagnitude(e, symbol, v).bits
  {
    hide ByteForm, Symbol;
    ghost var start, total := writer.Written(), SymbolAndMagnitude(e, symbol, v);
    Started(start, total);
    WroteFirst(start, start, total, Symbol(e, symbol), Coded(MagnitudeBitsOf(v), None), writer.maxBytes);
    error := WriteHuffmanSymbol(e, symbol, writer);
    if error.Some? {
      return;
    }
    CategoryOfI32(v);
    var size: nat, bits := Magnitude(v);
    WroteLast(start, writer.Written(), total, Coded(MagnitudeBitsOf(v), None), writer.maxBytes);
    if size > 0 {
      ExtendInvertsField(v);
      var ok := writer.WriteBits(bits, size);
      error := if ok then None else Some(OutOfSpace);
    } else {
      assert v == 0 by {
        if v != 0 { ExtendInvertsField(v); }
      }
      writer.BytesAreWritten();
      assert writer.Written() + [] == writer.Written();
    }
  }

  /** Of the code `total`, started when `start` had been written, everything up
      to `now` is out and `rest` is still to come. */
  ghost predicate Wrote(start: seq<bool>, now: seq<bool>, total: Coded, rest: Coded) {
    start <= now && total == Then(Coded(now[|start|..], None), rest)
  }

  lemma Started(start: seq<bool>, total: Coded)
    ensures Wrote(start, start, total, total)
  {
    assert [] + total.bits == total.bits;
  }

  /** Writing the first part of what is left either succeeds, or its error is
      that of the whole. */
  lemma WroteFirst(start: seq<bool>, now: seq<bool>, total: Coded, first: Coded, rest: Coded, maxBytes: nat)
    requires Wrote(start, now, total, Then(first, rest))
    ensures var error := Outcome(now, first, maxBytes);
      if error == None then Wrote(start, now + first.bits, total, rest) else Outcome(start, total, maxBytes) == error
  {
    hide ByteForm;
    if first.missing.Some? {
      assert start + total.bits == now + first.bits;
    } else {
      ByteFormGrows(now + first.bits, rest.bits);
      assert start + total.bits == now + first.bits + rest.bits;
      assert (now + first.bits)[|start|..] == now[|start|..] + first.bits;
      assert now[|start|..] + (first.bits + rest.bits) == (now[|start|..] + first.bits) + rest.bits;
    }
  }

  /** The last part decides the whole. */
  lemma WroteLast(start: seq<bool>, now: seq<bool>, total: Coded, last: Coded, maxBytes: nat)
    requires Wrote(start, now, total, last)
    ensures Outcome(now, last, maxBytes) == Outcome(start, total, maxBytes)
    ensures now + last.bits == start + total.bits
  {
    hide ByteForm;
    assert start + (now[|start|..] + last.bits) == now + last.bits;
  }

  /** A run of sixteen zeros is written first. */
  lemma ZeroRunFirst(e: EncoderTable, block: seq<int>, from: nat, k: nat)
    requires IsEncoder(e) && IsBlock(block) && from + 16 <= k < BLOCK && block[k] != 0
    ensures ZRL < SYMBOLS && EncodeAc(e, block, from, k) == Then(Symbol(e, ZRL), EncodeAc(e, block, from + 16, k))
  {
    hide Symbol, Then;
  }

  /** Writes runs of sixteen zeros until fewer remain. */
  method WriteZeroRuns(e: EncoderTable, block: seq<int>, k: nat, run: nat, writer: BitWriter, ghost start: seq<bool>, ghost total: Coded)
    returns (error: Option<WriteError>, zeroRun: nat)
    requires IsEncoder(e) && ShortLens(e) && IsBlock(block) && run <= k < BLOCK && block[k] != 0
    requires writer.Valid() && Wrote(start, writer.Written(), total, EncodeAc(e, block, k - run, k))
    modifies writer
    ensures error.Some? ==> error == Outcome(start, total, writer.maxBytes)
    ensures error == None ==> zeroRun <= k && zeroRun < 16
    ensures error == None ==> writer.Valid() && Wrote(start, writer.Written(), total, EncodeAc(e, block, k - zeroRun, k))
  {
    hide *;
    zeroRun := run;
    while zeroRun >= 16
      invariant zeroRun <= k && writer.Valid() && Wrote(start, writer.Written(), total, EncodeAc(e, block, k - zeroRun, k))
    {
      ghost var from := k - zeroRun;
      ZeroRunFirst(e, block, from, k);
      WroteFirst(start, writer.Written(), total, Symbol(e, ZRL), EncodeAc(e, block, from + 16, k), writer.maxBytes);
      error := WriteHuffmanSymbol(e, ZRL, writer);
      if error.Some? {
        return;
      }
      zeroRun := zeroRun - 16;
      assert k - zeroRun == from + 16;
    }
    error := None;
  }

  /** One non-zero coefficient: the zeros before it, its symbol and its bits. */
  method WriteAc(e: EncoderTable, block: seq<int>, k: nat, run: nat, writer: BitWriter, ghost start: seq<bool>, ghost total: Coded)
    returns (error: Option<WriteError>)
    requires IsEncoder(e) && ShortLens(e) && IsBlock(block) && run <= k < BLOCK && block[k] != 0
    requires writer.Valid() && Wrote(start, writer.Written(), total, EncodeAc(e, block, k - run, k))
    modifies writer
    ensures error.Some? ==> error == Outcome(start, total, writer.maxBytes)
    ensures error == None ==> writer.Valid() && Wrote(start, writer.Written(), total, EncodeAc(e, block, k + 1, k + 1))
  {
    hide Outcome, Wrote, SymbolAndMagnitude;
    var zeroRun: nat;
    error, zeroRun := WriteZeroRuns(e, block, k, run, writer, start, total);
    if error.Some? {
      return;
    }
    CategoryOfI32(block[k]);
    var symbol := AcSymbolFor(zeroRun, Category(block[k]));
    WroteFirst(start, writer.Written(), total, SymbolAndMagnitude(e, symbol, block[k]), EncodeAc(e, block, k + 1, k + 1), writer.maxBytes);
    error := WriteCoefficient(e, symbol, block[k], writer);
  }

  /** The coefficients from `first` on, and the end of the block. */
  method WriteAcCoefficients(e: EncoderTable, block: seq<int>, first: nat, writer: BitWriter, ghost start: seq<bool>, ghost total: Coded)
    returns (error: Option<WriteError>)
    requires IsEncoder(e) && ShortLens(e) && IsBlock(block) && first <= BLOCK
    requires writer.Valid() && Wrote(start, writer.Written(), total, EncodeAc(e, block, first, first))
    modifies writer
    ensures error == Outcome(start, total, writer.maxBytes)
    ensures error == None ==> writer.Valid() && writer.Written() == start + total.bits
  {
    hide Outcome, Wrote, EncodeBlock, Symbol, SymbolAndMagnitude;
    var zeroRun := 0;
    for k := first to BLOCK
      invariant zeroRun <= k && writer.Valid()
      invariant Wrote(start, writer.Written(), total, EncodeAc(e, block, k - zeroRun, k))
    {
      if block[k] == 0 {
        zeroRun := zeroRun + 1;
        continue;
      }
      error := WriteAc(e, block, k, zeroRun, writer, start, total);
      if error.Some? {
        return;
      }
      zeroRun := 0;
    }
    if zeroRun > 0 {
      WroteLast(start, writer.Written(), total, Symbol(e, EOB), writer.maxBytes);
      error := WriteHuffmanSymbol(e, EOB, writer);
    } else {
      WroteLast(start, writer.Written(), total, Coded([], None), writer.maxBytes);
      NothingLeft(writer);
      error := None;
    }
  }

  /** Writing nothing fits. */
  lemma NothingLeft(writer: BitWriter)
    requires writer.Valid()
    ensures Outcome(writer.Written(), Coded([], None), writer.maxBytes) == None
    ensures writer.Written() + Coded([], None).bits == writer.Written()
  {
    hide ByteForm;
    writer.BytesAreWritten();
    assert writer.Written() + [] == writer.Written();
  }

  /** `encode_block`: everything the writer holds is exactly the code of the
      block; the error is out of space exactly when its bytes do not fit, and
      else names the first symbol without a code. */
  method EncodeBlockTo(dc: EncoderTable, ac: EncoderTable, previous: int, block: seq<int>, writer: BitWriter)
    returns (error: Option<WriteError>)
    requires IsEncoder(dc) && IsEncoder(ac) && ShortLens(dc) && ShortLens(ac)
    requires IsBlock(block) && IsI32(block[0] - previous) && writer.Valid()
    modifies writer
    ensures error == Outcome(old(writer.Written()), EncodeBlock(dc, ac, previous, block), writer.maxBytes)
    ensures error == None ==>
      writer.Valid() && writer.Written() == old(writer.Written()) + EncodeBlock(dc, ac, previous, block).bits
  {
    hide Outcome, Wrote, EncodeAc, SymbolAndMagnitude;
    ghost var start, total := writer.Written(), EncodeBlock(dc, ac, previous, block);
    var diff, k := block[0] - previous, |block[..1]|;
    CategoryOfI32(diff);
    Started(start, total);
    WroteFirst(start, start, total, EncodeDc(dc, diff), EncodeAc(ac, block, k, k), writer.maxBytes);
    error := WriteCoefficient(dc, Category(diff), diff, writer);
    if error == None {
      error := WriteAcCoefficients(ac, block, k, writer, start, total);
    }
  }

  // ----- reading -----

  /** A table as it is used for coefficients of one role. */
  predicate Ready(t: CoefficientTable, role: Role) {
    Usable(t.table) && SymbolsAreBytes(t.table) && PackedFor(t, role)
  }

  /** Where the reader goes after one AC symbol. */
  datatype Step = Continue(k: nat) | Finished | Failed(error: Failure)

  /** What `DecodeAc` returns when a step from `(a, k, block)` led here. */
  ghost predicate Stepped(t: SymbolTable, a: Ahead, k: nat, block: seq<int>, step: Step, b: Ahead, after: seq<int>)
    requires Usable(t) && |block| == |after| == BLOCK
  {
    match step
    case Continue(k') => k < k' && DecodeAc(t, a, k, block) == DecodeAc(t, b, k', after)
    case Finished => DecodeAc(t, a, k, block) == (Ok(after), b)
    case Failed(e) => DecodeAc(t, a, k, block) == (Err(e), b)
  }

  /** The step a symbol makes, and the block after it. */
  function StepOf(symbol: Result<AcSymbol, Failure>, k: nat): Step {
    match symbol
    case Err(e) => Failed(e)
    case Ok(EndOfBlock) => Finished
    case Ok(ZeroRun) => Continue(k + 16)
    case Ok(Coefficient(skipped, _)) => if k + skipped >= BLOCK then Failed(InvalidSymbol) else Continue(k + skipped + 1)
  }

  function BlockAfter(symbol: Result<AcSymbol, Failure>, k: nat, block: seq<int>): seq<int>
    requires |block| == BLOCK
  {
    if symbol.Ok? && symbol.value.Coefficient? && k + symbol.value.skipped < BLOCK
    then block[k + symbol.value.skipped := symbol.value.value] else block
  }

  lemma SymbolSteps(t: SymbolTable, a: Ahead, k: nat, block: seq<int>)
    requires Usable(t) && |block| == BLOCK && k < BLOCK
    ensures var (symbol, b) := PlainAc(t, a); Stepped(t, a, k, block, StepOf(symbol, k), b, BlockAfter(symbol, k, block))
  {
  }

  /** Reads one AC symbol and stores its value. */
  method ReadAc(t: CoefficientTable, br: BitReader, k: nat, out: array<int>) returns (step: Step)
    requires Ready(t, Ac) && br.Valid() && out.Length == BLOCK && k < BLOCK
    modifies br, out
    ensures br.Valid() && Stepped(t.table, old(br.View()), k, old(out[..]), step, br.View(), out[..])
  {
    hide PlainAc, DecodeAc;
    SymbolSteps(t.table, br.View(), k, out[..]);
    ghost var before := out[..];
    var ac := DecodeFastAc(t, br);
    if ac.Err? {
      return Failed(ac.error);
    }
    var symbol := AcSymbolOf(ac.value);
    step := StepOf(Ok(symbol), k);
    if symbol.Coefficient? && k + symbol.skipped < BLOCK {
      out[k + symbol.skipped] := symbol.value;
      assert out[..] == before[k + symbol.skipped := symbol.value];
    }
  }

  /** `drive_ac_fast`: reads AC symbols into `out` from position `first` on. */
  method DriveAcFast(t: CoefficientTable, br: BitReader, first: nat, out: array<int>) returns (error: Option<Failure>)
    requires Ready(t, Ac) && br.Valid() && out.Length == BLOCK
    modifies br, out
    ensures br.Valid()
    ensures DecodeAc(t.table, old(br.View()), first, old(out[..]))
      == (if error.Some? then Err(error.value) else Ok(out[..]), br.View())
  {
    var k := first;
    while k < BLOCK
      invariant br.Valid()
      invariant DecodeAc(t.table, old(br.View()), first, old(out[..])) == DecodeAc(t.table, br.View(), k, out[..])
      decreases BLOCK - k
    {
      var step := ReadAc(t, br, k, out);
      if step.Failed? {
        return Some(step.error);
      } else if step.Finished? {
        return None;
      }
      k := step.k;
    }
    return None;
  }

  /** The AC coefficients behind those already read. */
  method ReadAcBehind(t: CoefficientTable, br: BitReader, read: seq<int>) returns (r: Result<seq<int>, Failure>)
    requires Ready(t, Ac) && br.Valid() && |read| <= BLOCK
    modifies br
    ensures br.Valid()
    ensures (r, br.View()) == DecodeAc(t.table, old(br.View()), |read|, read + Zeros(BLOCK - |read|))
  {
    var out := new int[BLOCK](i => if 0 <= i < |read| then read[i] else 0);
    assert out[..] == read + Zeros(BLOCK - |read|);
    var error := DriveAcFast(t, br, |read|, out);
    return if error.Some? then Err(error.value) else Ok(out[..]);
  }

  /** The coefficients of a block as they are stored, and the next predictor. */
  method DecodeBlockFrom(dc: CoefficientTable, ac: CoefficientTable, previous: int, br: BitReader) returns (r: Result<ReadBlock, Failure>)
    requires Ready(dc, Dc) && Ready(ac, Ac) && br.Valid()
    modifies br
    ensures br.Valid()
    ensures (r, br.View()) == DecodeBlock(dc.table, ac.table, previous, old(br.View()))
  {
    hide PlainDc, DecodeAc;
    var diff := DecodeFastDc(dc, br);
    if diff.Err? {
      return Err(diff.error);
    }
    var predictor := Wrap32(previous + diff.value);
    var block := ReadAcBehind(ac, br, [ClampI16(predictor)]);
    return if block.Ok? then Ok(ReadBlock(block.value, predictor)) else Err(block.error);
  }

  // ----- skipping -----

  /** Reads one AC symbol and drops its value. */
  method SkipAc(t: CoefficientTable, br: BitReader, k: nat, ghost block: seq<int>) returns (step: Step, ghost after: seq<int>)
    requires Ready(t, Ac) && br.Valid() && |block| == BLOCK && k < BLOCK
    modifies br
    ensures br.Valid() && |after| == BLOCK && Stepped(t.table, old(br.View()), k, block, step, br.View(), after)
  {
    hide PlainAc, DecodeAc;
    SymbolSteps(t.table, br.View(), k, block);
    after := BlockAfter(PlainAc(t.table, br.View()).0, k, block);
    var ac := SkipFastAc(t, br);
    step := StepOf(MapWord(ac), k);
  }

  /** Skipping the AC coefficients leaves the reader where decoding them into
      any block would, and fails as decoding would. */
  method SkipAcFast(t: CoefficientTable, br: BitReader, first: nat, ghost block: seq<int>) returns (error: Option<Failure>)
    requires Ready(t, Ac) && br.Valid() && |block| == BLOCK
    modifies br
    ensures br.Valid() && br.View() == DecodeAc(t.table, old(br.View()), first, block).1
    ensures var r := DecodeAc(t.table, old(br.View()), first, block).0; if error.Some? then r == Err(error.value) else r.Ok?
  {
    var k := first;
    ghost var collected := block;
    while k < BLOCK
      invariant br.Valid() && |collected| == BLOCK
      invariant DecodeAc(t.table, old(br.View()), first, block) == DecodeAc(t.table, br.View(), k, collected)
      decreases BLOCK - k
    {
      var step: Step;
      step, collected := SkipAc(t, br, k, collected);
      if step.Failed? {
        return Some(step.error);
      } else if step.Finished? {
        return None;
      }
      k := step.k;
    }
    return None;
  }
}
