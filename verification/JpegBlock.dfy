/** Baseline JPEG blocks (ITU-T T.81, section F.1.2): what the encoder writes for
    the 64 quantized coefficients of a block, what the decoder reads back, and
    exactly when the two agree.

    Coefficients are kept in zigzag order. */
module JpegBlock {
  import opened Options
  import opened BitStream
  import opened HuffmanCodes
  import opened HuffmanTable
  import opened HuffmanDecode
  import opened HuffmanEncoder
  import opened HuffmanFastPath
  import opened JpegMagnitude

  const BLOCK: nat := 64
  const EOB: nat := 0
  const ZRL: nat := 0xF0

  predicate IsBlock(block: seq<int>) {
    |block| == BLOCK && forall k :: 0 <= k < BLOCK ==> IsI32(block[k])
  }

  predicate IsEncoder(e: EncoderTable) {
    |e.codes| == |e.lens| == 256
  }

  // ----- encoding -----

  /** The bits that are written, and the symbol without a code at which writing
      stops, if there is one. */
  datatype Coded = Coded(bits: seq<bool>, missing: Option<nat>)

  function Then(a: Coded, b: Coded): Coded {
    if a.missing.Some? then a else Coded(a.bits + b.bits, b.missing)
  }

  lemma ThenParts(a: Coded, b: Coded, tail: seq<bool>)
    requires Then(a, b).missing.None?
    ensures a.missing.None? && b.missing.None? && Then(a, b).bits + tail == a.bits + (b.bits + tail)
  {
  }

  function Symbol(e: EncoderTable, s: nat): Coded
    requires IsEncoder(e) && s < SYMBOLS
  {
    match SymbolBits(e, s)
    case None => Coded([], Some(s))
    case Some(bits) => Coded(bits, None)
  }

  function SymbolAndMagnitude(e: EncoderTable, s: nat, v: int): Coded
    requires IsEncoder(e) && s < SYMBOLS
  {
    Then(Symbol(e, s), Coded(MagnitudeBitsOf(v), None))
  }

  /** `(run << 4) | size`: a size of more than four bits runs into the run. */
  function AcSymbolFor(run: nat, size: nat): (s: nat)
    requires run < 16 && size <= 32
    ensures s < SYMBOLS
  {
    var high := size / 16;
    var mixed := if high == 0 then run
                 else if high == 1 then (if run % 2 == 0 then run + 1 else run)
                 else (if (run / 2) % 2 == 0 then run + 2 else run);
    16 * mixed + size % 16
  }

  /** The symbol is the bitwise or of its parts: the four low bits are those of
      the size, the two above them are set if they are in either part, and the
      rest are those of the run. */
  lemma AcSymbolIsOr(run: nat, size: nat)
    requires run < 16 && size <= 32
    ensures AcSymbolFor(run, size) % 16 == size % 16
    ensures (AcSymbolFor(run, size) / 16) % 2 == 1 <==> run % 2 == 1 || (size / 16) % 2 == 1
    ensures (AcSymbolFor(run, size) / 32) % 2 == 1 <==> (run / 2) % 2 == 1 || (size / 32) % 2 == 1
    ensures AcSymbolFor(run, size) / 64 == run / 4
  {
    var s := AcSymbolFor(run, size);
    var mixed := s / 16;
    assert s == 16 * mixed + size % 16;
    assert s / 32 == mixed / 2 && s / 64 == mixed / 4;
  }

  function EncodeDc(e: EncoderTable, diff: int): Coded
    requires IsEncoder(e) && IsI32(diff)
  {
    CategoryOfI32(diff);
    SymbolAndMagnitude(e, Category(diff), diff)
  }

  /** The coefficients from `k` on; those between `from` and `k` are zeros still
      to be written, as a run. */
  function EncodeAc(e: EncoderTable, block: seq<int>, from: nat, k: nat): Coded
    requires IsEncoder(e) && IsBlock(block) && from <= k <= BLOCK
    decreases BLOCK - k, k - from
  {
    if k == BLOCK then (if from < k then Symbol(e, EOB) else Coded([], None))
    else if block[k] == 0 then EncodeAc(e, block, from, k + 1)
    else if k - from >= 16 then Then(Symbol(e, ZRL), EncodeAc(e, block, from + 16, k))
    else
      CategoryOfI32(block[k]);
      Then(SymbolAndMagnitude(e, AcSymbolFor(k - from, Category(block[k])), block[k]), EncodeAc(e, block, k + 1, k + 1))
  }

  function EncodeBlock(dc: EncoderTable, ac: EncoderTable, previous: int, block: seq<int>): Coded
    requires IsEncoder(dc) && IsEncoder(ac) && IsBlock(block) && IsI32(block[0] - previous)
  {
    var ac0 := |block[..1]|;
    Then(EncodeDc(dc, block[0] - previous), EncodeAc(ac, block, ac0, ac0))
  }

  // ----- decoding -----

  /** 32-bit wrap-around. */
  function Wrap32(v: int): int {
    (v + 0x8000_0000) % 0x1_0000_0000 - 0x8000_0000
  }

  /** Reads AC symbols from position `k` on into `block`. */
  function DecodeAc(t: SymbolTable, a: Ahead, k: nat, block: seq<int>): (Result<seq<int>, Failure>, Ahead)
    requires Usable(t) && |block| == BLOCK
    decreases BLOCK - k
  {
    if k >= BLOCK then (Ok(block), a)
    else
      match PlainAc(t, a)
      case (Err(e), b) => (Err(e), b)
      case (Ok(EndOfBlock), b) => (Ok(block), b)
      case (Ok(ZeroRun), b) => DecodeAc(t, b, k + 16, block)
      case (Ok(Coefficient(skipped, value)), b) =>
        if k + skipped >= BLOCK then (Err(InvalidSymbol), b)
        else DecodeAc(t, b, k + skipped + 1, block[k + skipped := value])
  }

  function Zeros(n: nat): (z: seq<int>)
    ensures |z| == n && forall i :: 0 <= i < n ==> z[i] == 0
  {
    seq(n, i => 0)
  }

  /** `clamp_i16`. */
  function ClampI16(v: int): (c: int)
    ensures IsI16(c) && (c == v <==> IsI16(v))
  {
    if v >= 0x8000 then 0x7FFF else if v < -0x8000 then -0x8000 else v
  }

  /** Wrapping gives the one 32-bit number that differs by a multiple of 2^32. */
  lemma Wrap32Exactly(v: int, w: int)
    ensures IsI32(Wrap32(v))
    ensures IsI32(w) && (w - v) % 0x1_0000_0000 == 0 <==> w == Wrap32(v)
  {
  }

  /** The coefficients stored and the DC predictor for the next block, which is
      not clamped. */
  datatype ReadBlock = ReadBlock(block: seq<int>, predictor: int)

  function DecodeBlock(dc: SymbolTable, ac: SymbolTable, previous: int, a: Ahead): (Result<ReadBlock, Failure>, Ahead)
    requires Usable(dc) && Usable(ac)
  {
    match PlainDc(dc, a)
    case (Err(e), b) => (Err(e), b)
    case (Ok(diff), b) =>
      var predictor := Wrap32(previous + diff);
      var read := [ClampI16(predictor)];
      match DecodeAc(ac, b, |read|, read + Zeros(BLOCK - |read|))
      case (Err(e), c) => (Err(e), c)
      case (Ok(block), c) => (Ok(ReadBlock(block, predictor)), c)
  }

  /** A received AC value fits 16 bits, so that clamping it changes nothing. */
  lemma AcNeedsNoClamp(t: SymbolTable, a: Ahead)
    requires Usable(t)
    ensures var symbol := PlainAc(t, a).0;
      symbol.Ok? && symbol.value.Coefficient? ==> ClampI16(symbol.value.value) == symbol.value.value
  {
    hide DecodeAhead, ReceiveCoefficient;
    var (r, b) := DecodeAhead(t, a);
    if r.Ok? && ReceiveCoefficient(b, r.value % 16).0.Ok? {
      ReceivedBelow(b, r.value % 16, 15);
      PowersUpTo15(15);
    }
  }

  // ----- one symbol -----

  /** The two sides of one table. */
  ghost predicate Matched(e: EncoderTable, t: SymbolTable, bits: seq<nat>)
    requires IsBits(bits)
  {
    SymbolTableFor(t, bits) && EncoderTableFor(e, bits, t.values) && IsEncoder(e) && Usable(t)
  }

  /** The decoder reads symbol `s` at the head of `a` and stops before `tail`. */
  ghost predicate Reads(t: SymbolTable, a: Ahead, s: nat, tail: seq<bool>)
    requires Usable(t)
  {
    DecodeAhead(t, a).0 == Ok(s) && Holds(DecodeAhead(t, a).1, tail, true)
  }

  /** All that a block needs of its two tables: a symbol written is read. */
  ghost predicate Inverse(e: EncoderTable, t: SymbolTable) {
    && IsEncoder(e) && Usable(t)
    && forall s: nat, a: Ahead, tail: seq<bool> {:trigger Reads(t, a, s, tail)} ::
         s < SYMBOLS && Symbol(e, s).missing.None? && Holds(a, Symbol(e, s).bits + tail, true) ==> Reads(t, a, s, tail)
  }

  lemma MatchedInverse(e: EncoderTable, t: SymbolTable, bits: seq<nat>)
    requires IsBits(bits) && Matched(e, t, bits)
    ensures Inverse(e, t)
  {
    forall s: nat, a: Ahead, tail: seq<bool> | s < SYMBOLS && Symbol(e, s).missing.None? && Holds(a, Symbol(e, s).bits + tail, true)
      ensures Reads(t, a, s, tail)
    {
      var i := DerivationsAgree(e, bits, t.values, t.canonical, s);
      DecodeOne(t, bits, a, i, tail, true);
    }
  }

  lemma SplitsRun(run: nat, size: nat)
    requires run < 16 && size < 16
    ensures AcSymbolFor(run, size) / 16 == run && AcSymbolFor(run, size) % 16 == size
  {
  }

  /** A symbol of a coefficient of at most 15 bits, and its bits. */
  lemma DecodeShort(e: EncoderTable, t: SymbolTable, a: Ahead, run: nat, v: int, tail: seq<bool>)
    requires Inverse(e, t) && run < 16 && v != 0 && Category(v) <= 15
    requires var c := SymbolAndMagnitude(e, AcSymbolFor(run, Category(v)), v); c.missing.None? && Holds(a, c.bits + tail, true)
    ensures PlainAc(t, a).0 == Ok(Coefficient(run, v)) && Holds(PlainAc(t, a).1, tail, true)
  {
    var s, size := AcSymbolFor(run, Category(v)), Category(v);
    BitLengthExactly(Abs(v));
    SplitsRun(run, size);
    assert Symbol(e, s).bits + MagnitudeBitsOf(v) + tail == Symbol(e, s).bits + (MagnitudeBitsOf(v) + tail);
    assert Reads(t, a, s, MagnitudeBitsOf(v) + tail);
    ReceiveInvertsMagnitude(DecodeAhead(t, a).1, v, tail);
  }

  /** What a reader at position `k - run` has while the coefficients before `k`
      are agreed. */
  function Agreed(block: seq<int>, k: nat): (out: seq<int>)
    requires k <= BLOCK == |block|
    ensures |out| == BLOCK
  {
    block[..k] + Zeros(BLOCK - k)
  }

  predicate ZeroFrom(block: seq<int>, from: nat, k: nat)
    requires from <= k <= BLOCK == |block|
  {
    forall j :: from <= j < k ==> block[j] == 0
  }

  predicate Short(v: int) {
    Category(v) <= 15
  }

  predicate AllShort(block: seq<int>, k: nat) {
    forall j :: k <= j < |block| ==> Short(block[j])
  }

  lemma AgreedSkipsZeros(block: seq<int>, from: nat, to: nat)
    requires from <= to <= BLOCK == |block| && ZeroFrom(block, from, to)
    ensures Agreed(block, from) == Agreed(block, to)
  {
  }

  lemma AgreedAdds(block: seq<int>, from: nat, at: nat)
    requires from <= at < BLOCK == |block| && ZeroFrom(block, from, at)
    ensures Agreed(block, from)[at := block[at]] == Agreed(block, at + 1)
  {
  }

  lemma EndOfBlockStep(e: EncoderTable, t: SymbolTable, a: Ahead, k: nat, out: seq<int>, tail: seq<bool>)
    requires Inverse(e, t) && k < BLOCK == |out| && Symbol(e, EOB).missing.None? && Holds(a, Symbol(e, EOB).bits + tail, true)
    ensures DecodeAc(t, a, k, out).0 == Ok(out) && Holds(DecodeAc(t, a, k, out).1, tail, true)
  {
    assert Reads(t, a, EOB, tail);
  }

  lemma ZeroRunStep(e: EncoderTable, t: SymbolTable, a: Ahead, k: nat, out: seq<int>, rest: Coded, tail: seq<bool>) returns (b: Ahead)
    requires Inverse(e, t) && k < BLOCK == |out|
    requires var code := Then(Symbol(e, ZRL), rest); code.missing.None? && Holds(a, code.bits + tail, true)
    ensures rest.missing.None? && Holds(b, rest.bits + tail, true)
    ensures DecodeAc(t, a, k, out) == DecodeAc(t, b, k + 16, out)
  {
    ThenParts(Symbol(e, ZRL), rest, tail);
    assert Reads(t, a, ZRL, rest.bits + tail);
    b := DecodeAhead(t, a).1;
  }

  lemma CoefficientRead(t: SymbolTable, a: Ahead, from: nat, k: nat, v: int, out: seq<int>)
    requires Usable(t) && from <= k < BLOCK == |out| && PlainAc(t, a).0 == Ok(Coefficient(k - from, v))
    ensures DecodeAc(t, a, from, out) == DecodeAc(t, PlainAc(t, a).1, k + 1, out[k := v])
  {
  }

  lemma ShortStep(e: EncoderTable, t: SymbolTable, a: Ahead, from: nat, k: nat, v: int, out: seq<int>, rest: Coded, tail: seq<bool>)
    returns (b: Ahead)
    requires Inverse(e, t) && from <= k < BLOCK == |out| && k - from < 16 && v != 0 && Short(v)
    requires var code := Then(SymbolAndMagnitude(e, AcSymbolFor(k - from, Category(v)), v), rest);
      code.missing.None? && Holds(a, code.bits + tail, true)
    ensures rest.missing.None? && Holds(b, rest.bits + tail, true)
    ensures DecodeAc(t, a, from, out) == DecodeAc(t, b, k + 1, out[k := v])
  {
    var first := SymbolAndMagnitude(e, AcSymbolFor(k - from, Category(v)), v);
    ThenParts(first, rest, tail);
    DecodeShort(e, t, a, k - from, v, rest.bits + tail);
    CoefficientRead(t, a, from, k, v, out);
    b := PlainAc(t, a).1;
  }

  /** The AC coefficients come back. */
  lemma {:induction false} AcRoundTrip(e: EncoderTable, t: SymbolTable, a: Ahead, block: seq<int>, from: nat, k: nat, tail: seq<bool>)
    requires Inverse(e, t) && IsBlock(block) && from <= k <= BLOCK && ZeroFrom(block, from, k)
    requires AllShort(block, k) && EncodeAc(e, block, from, k).missing.None?
    requires Holds(a, EncodeAc(e, block, from, k).bits + tail, true)
    ensures var (r, b) := DecodeAc(t, a, from, Agreed(block, from)); r == Ok(block) && Holds(b, tail, true)
    decreases BLOCK - k, k - from
  {
    hide PlainAc, SymbolAndMagnitude;
    if k == BLOCK {
      AgreedSkipsZeros(block, from, k);
      assert Agreed(block, BLOCK) == block;
      if from < k {
        EndOfBlockStep(e, t, a, from, block, tail);
      } else {
        assert [] + tail == tail;
      }
    } else if block[k] == 0 {
      AcRoundTrip(e, t, a, block, from, k + 1, tail);
    } else if k - from >= 16 {
      var b := ZeroRunStep(e, t, a, from, Agreed(block, from), EncodeAc(e, block, from + 16, k), tail);
      AgreedSkipsZeros(block, from, from + 16);
      AcRoundTrip(e, t, b, block, from + 16, k, tail);
    } else {
      CategoryOfI32(block[k]);
      assert Short(block[k]);
      AgreedAdds(block, from, k);
      var b := ShortStep(e, t, a, from, k, block[k], Agreed(block, from), EncodeAc(e, block, k + 1, k + 1), tail);
      AcRoundTrip(e, t, b, block, k + 1, k + 1, tail);
    }
  }

  // ----- coefficients of more than 15 bits -----

  /** Positions the reader has passed are never written again. */
  lemma {:induction false} DecodeAcKeepsPrefix(t: SymbolTable, a: Ahead, k: nat, block: seq<int>, j: nat)
    requires Usable(t) && |block| == BLOCK && j < BLOCK && j < k
    ensures var r := DecodeAc(t, a, k, block).0; r.Ok? ==> |r.value| == BLOCK && r.value[j] == block[j]
    decreases BLOCK - k
  {
    hide PlainAc;
    if k < BLOCK {
      var (symbol, b) := PlainAc(t, a);
      if symbol == Ok(ZeroRun) {
        DecodeAcKeepsPrefix(t, b, k + 16, block, j);
      } else if symbol.Ok? && symbol.value.Coefficient? && k + symbol.value.skipped < BLOCK {
        var at := k + symbol.value.skipped;
        DecodeAcKeepsPrefix(t, b, at + 1, block[at := symbol.value.value], j);
      }
    }
  }

  lemma LongRunsOver(run: nat, size: nat)
    requires run < 16 && 16 <= size <= 32
    ensures AcSymbolFor(run, size) / 16 >= run
  {
  }

  /** A symbol whose category ran over leaves position `k` at zero, or puts a
      shorter coefficient there; either way it is not `v`. */
  lemma LongIsLost(t: SymbolTable, a: Ahead, from: nat, k: nat, out: seq<int>, s: nat, v: int)
    requires Usable(t) && from <= k < BLOCK == |out| && out[k] == 0 && k - from < 16
    requires DecodeAhead(t, a).0 == Ok(s) && s / 16 >= k - from && v != 0 && !Short(v)
    ensures var r := DecodeAc(t, a, from, out).0; r.Ok? ==> |r.value| == BLOCK && r.value[k] != v
  {
    match PlainAc(t, a)
    case (Err(_), _) =>
    case (Ok(EndOfBlock), _) =>
    case (Ok(ZeroRun), b) => DecodeAcKeepsPrefix(t, b, from + 16, out, k);
    case (Ok(Coefficient(skipped, value)), b) =>
      if from + skipped < BLOCK {
        DecodeAcKeepsPrefix(t, b, from + skipped + 1, out[from + skipped := value], k);
        ReceivedBelow(DecodeAhead(t, a).1, s % 16, 15);
        CategoryAtMost(v, 15);
      }
  }

  lemma CoefficientCode(e: EncoderTable, block: seq<int>, from: nat, k: nat, tail: seq<bool>)
    requires IsEncoder(e) && IsBlock(block) && from <= k < BLOCK && k - from < 16 && block[k] != 0
    requires Category(block[k]) <= 32 && EncodeAc(e, block, from, k).missing.None?
    ensures var s := AcSymbolFor(k - from, Category(block[k]));
      && Symbol(e, s).missing.None?
      && EncodeAc(e, block, from, k).bits + tail
         == Symbol(e, s).bits + (MagnitudeBitsOf(block[k]) + (EncodeAc(e, block, k + 1, k + 1).bits + tail))
  {
    hide Symbol, MagnitudeBitsOf, Category, AcSymbolFor;
    var s := AcSymbolFor(k - from, Category(block[k]));
    ThenParts(SymbolAndMagnitude(e, s, block[k]), EncodeAc(e, block, k + 1, k + 1), tail);
    ThenParts(Symbol(e, s), Coded(MagnitudeBitsOf(block[k]), None), EncodeAc(e, block, k + 1, k + 1).bits + tail);
  }

  lemma LongStep(e: EncoderTable, t: SymbolTable, a: Ahead, block: seq<int>, from: nat, k: nat, tail: seq<bool>)
    requires Inverse(e, t) && IsBlock(block) && from <= k < BLOCK && k - from < 16 && ZeroFrom(block, from, k)
    requires block[k] != 0 && !Short(block[k]) && EncodeAc(e, block, from, k).missing.None?
    requires Holds(a, EncodeAc(e, block, from, k).bits + tail, true)
    ensures DecodeAc(t, a, from, Agreed(block, from)).0 != Ok(block)
  {
    hide PlainAc, DecodeAc, EncodeAc, SymbolAndMagnitude, Symbol, MagnitudeBitsOf, AcSymbolFor, DecodeAhead;
    CategoryOfI32(block[k]);
    CoefficientCode(e, block, from, k, tail);
    var s := AcSymbolFor(k - from, Category(block[k]));
    assert Reads(t, a, s, MagnitudeBitsOf(block[k]) + (EncodeAc(e, block, k + 1, k + 1).bits + tail));
    LongRunsOver(k - from, Category(block[k]));
    LongIsLost(t, a, from, k, Agreed(block, from), s, block[k]);
  }

  lemma {:induction false} LongNeverSurvives(e: EncoderTable, t: SymbolTable, a: Ahead, block: seq<int>, from: nat, k: nat, tail: seq<bool>)
    requires Inverse(e, t) && IsBlock(block) && from <= k <= BLOCK && ZeroFrom(block, from, k)
    requires !AllShort(block, k) && EncodeAc(e, block, from, k).missing.None?
    requires Holds(a, EncodeAc(e, block, from, k).bits + tail, true)
    ensures DecodeAc(t, a, from, Agreed(block, from)).0 != Ok(block)
    decreases BLOCK - k, k - from
  {
    hide PlainAc, SymbolAndMagnitude, DecodeAc;
    if block[k] == 0 {
      LongNeverSurvives(e, t, a, block, from, k + 1, tail);
    } else if k - from >= 16 {
      var b := ZeroRunStep(e, t, a, from, Agreed(block, from), EncodeAc(e, block, from + 16, k), tail);
      AgreedSkipsZeros(block, from, from + 16);
      LongNeverSurvives(e, t, b, block, from + 16, k, tail);
    } else if !Short(block[k]) {
      LongStep(e, t, a, block, from, k, tail);
    } else {
      CategoryOfI32(block[k]);
      AgreedAdds(block, from, k);
      var b := ShortStep(e, t, a, from, k, block[k], Agreed(block, from), EncodeAc(e, block, k + 1, k + 1), tail);
      LongNeverSurvives(e, t, b, block, k + 1, k + 1, tail);
    }
  }

  /** A DC difference comes back, or is refused, by its category. */
  lemma DcSurvivesExactly(e: EncoderTable, t: SymbolTable, a: Ahead, diff: int, tail: seq<bool>)
    requires Inverse(e, t) && IsI32(diff) && EncodeDc(e, diff).missing.None?
    requires Holds(a, EncodeDc(e, diff).bits + tail, true)
    ensures if Short(diff) then PlainDc(t, a).0 == Ok(diff) && Holds(PlainDc(t, a).1, tail, true)
            else PlainDc(t, a).0 == Err(InvalidSymbol)
  {
    CategoryOfI32(diff);
    var s := Category(diff);
    assert EncodeDc(e, diff).bits + tail == Symbol(e, s).bits + (MagnitudeBitsOf(diff) + tail);
    assert Reads(t, a, s, MagnitudeBitsOf(diff) + tail);
    if Short(diff) {
      ReceiveInvertsMagnitude(DecodeAhead(t, a).1, diff, tail);
    }
  }

  lemma WrapUndoes(previous: int, v: int)
    requires IsI32(v)
    ensures Wrap32(previous + (v - previous)) == v
  {
  }

  /** DC difference and AC coefficients fit the 15 bits a category may have. */
  predicate ShortBlock(previous: int, block: seq<int>)
    requires |block| == BLOCK
  {
    Short(block[0] - previous) && AllShort(block, 1)
  }

  /** And the DC coefficient fits the 16 bits it is stored in. */
  predicate Baseline(previous: int, block: seq<int>)
    requires |block| == BLOCK
  {
    ShortBlock(previous, block) && IsI16(block[0])
  }

  /** The block as it is stored. */
  function Stored(block: seq<int>): (stored: seq<int>)
    requires |block| == BLOCK
    ensures |stored| == BLOCK && (stored == block <==> IsI16(block[0]))
  {
    var stored := block[0 := ClampI16(block[0])];
    assert stored == block || stored[0] != block[0];
    stored
  }

  lemma AcSurvivesExactly(e: EncoderTable, t: SymbolTable, a: Ahead, block: seq<int>, k: nat, tail: seq<bool>)
    requires Inverse(e, t) && IsBlock(block) && k <= BLOCK && EncodeAc(e, block, k, k).missing.None?
    requires Holds(a, EncodeAc(e, block, k, k).bits + tail, true)
    ensures DecodeAc(t, a, k, Agreed(block, k)).0 == Ok(block) <==> AllShort(block, k)
    ensures AllShort(block, k) ==> Holds(DecodeAc(t, a, k, Agreed(block, k)).1, tail, true)
  {
    if AllShort(block, k) {
      AcRoundTrip(e, t, a, block, k, k, tail);
    } else {
      LongNeverSurvives(e, t, a, block, k, k, tail);
    }
  }

  lemma StoredIsShort(block: seq<int>)
    requires |block| == BLOCK
    ensures AllShort(Stored(block), 1) <==> AllShort(block, 1)
  {
    hide Short;
    assert forall j :: 1 <= j < BLOCK ==> Stored(block)[j] == block[j];
  }

  /** The AC code does not depend on the DC coefficient. */
  lemma {:induction false} AcCodeIgnoresDc(e: EncoderTable, block: seq<int>, dc: int, from: nat, k: nat)
    requires IsEncoder(e) && IsBlock(block) && IsI32(dc) && 1 <= from <= k <= BLOCK
    ensures EncodeAc(e, block[0 := dc], from, k) == EncodeAc(e, block, from, k)
    decreases BLOCK - k, k - from
  {
    hide Symbol, SymbolAndMagnitude, Then;
    if k == BLOCK {
    } else if block[k] == 0 {
      AcCodeIgnoresDc(e, block, dc, from, k + 1);
    } else if k - from >= 16 {
      AcCodeIgnoresDc(e, block, dc, from + 16, k);
    } else {
      AcCodeIgnoresDc(e, block, dc, k + 1, k + 1);
    }
  }

  /** Behind a DC coefficient that came back the AC coefficients decide. */
  lemma AfterDc(dc: SymbolTable, ac: SymbolTable, previous: int, a: Ahead, block: seq<int>, k: nat)
    requires Usable(dc) && Usable(ac) && IsBlock(block) && k == |block[..1]|
    requires PlainDc(dc, a).0 == Ok(block[0] - previous)
    ensures var (r, b) := DecodeAc(ac, PlainDc(dc, a).1, k, Agreed(Stored(block), k));
      DecodeBlock(dc, ac, previous, a) == (if r.Ok? then Ok(ReadBlock(r.value, block[0])) else Err(r.error), b)
      && (r.Ok? ==> |r.value| == BLOCK && r.value[0] == Stored(block)[0])
  {
    hide PlainDc, DecodeAc;
    WrapUndoes(previous, block[0]);
    assert [Stored(block)[0]] + Zeros(BLOCK - k) == Agreed(Stored(block), k);
    DecodeAcKeepsPrefix(ac, PlainDc(dc, a).1, k, Agreed(Stored(block), k), 0);
  }

  /** What comes back is the block with its DC coefficient clamped, and the
      reader stops exactly behind it, if and only if its DC difference and every
      AC coefficient lie between -32767 and 32767; it is the block itself if and
      only if, besides, its DC coefficient fits 16 bits. */
  lemma BlockSurvivesExactly(dcE: EncoderTable, dcT: SymbolTable, acE: EncoderTable, acT: SymbolTable,
                             a: Ahead, previous: int, block: seq<int>, tail: seq<bool>)
    requires Inverse(dcE, dcT) && Inverse(acE, acT) && IsBlock(block) && IsI32(block[0] - previous)
    requires EncodeBlock(dcE, acE, previous, block).missing.None?
    requires Holds(a, EncodeBlock(dcE, acE, previous, block).bits + tail, true)
    ensures var r := DecodeBlock(dcT, acT, previous, a).0;
      && (r.Ok? && r.value.block == Stored(block) <==> ShortBlock(previous, block))
      && (r.Ok? && r.value.block == block <==> Baseline(previous, block))
    ensures ShortBlock(previous, block) ==>
      DecodeBlock(dcT, acT, previous, a).0.value.predictor == block[0] && Holds(DecodeBlock(dcT, acT, previous, a).1, tail, true)
  {
    hide PlainDc, DecodeAc, EncodeDc, EncodeAc, DecodeBlock;
    var diff, k := block[0] - previous, |block[..1]|;
    ThenParts(EncodeDc(dcE, diff), EncodeAc(acE, block, k, k), tail);
    DcSurvivesExactly(dcE, dcT, a, diff, EncodeAc(acE, block, k, k).bits + tail);
    if Short(diff) {
      AfterDc(dcT, acT, previous, a, block, k);
      AcCodeIgnoresDc(acE, block, ClampI16(block[0]), k, k);
      AcSurvivesExactly(acE, acT, PlainDc(dcT, a).1, Stored(block), k, tail);
      StoredIsShort(block);
    } else {
      RefusedDc(dcT, acT, previous, a);
    }
  }

  lemma RefusedDc(dc: SymbolTable, ac: SymbolTable, previous: int, a: Ahead)
    requires Usable(dc) && Usable(ac) && PlainDc(dc, a).0.Err?
    ensures DecodeBlock(dc, ac, previous, a).0.Err?
  {
    hide PlainDc, DecodeAc;
  }
}
