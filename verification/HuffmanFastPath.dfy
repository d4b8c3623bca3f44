/** The packed tables in front of the symbol decoder: one look-ahead of 12 bits
    yields a whole coefficient when its code and its magnitude bits both fit.
    A table is built for DC or for AC use and packed accordingly. */
module HuffmanFastPath {
  import opened Options
  import opened Powers
  import opened BitStream
  import opened HuffmanCodes
  import opened HuffmanTable
  import opened HuffmanDecode
  import opened Reader = BitReader

  datatype Role = Dc | Ac

  /** What one AC symbol says. */
  datatype AcSymbol = EndOfBlock | ZeroRun | Coefficient(skipped: nat, value: int)

  datatype CoefficientTable = CoefficientTable(table: SymbolTable, packed: seq<nat>)

  const KIND: nat := 0x1000_0000
  const I16_SPACE: nat := 0x1_0000

  // ----- packed words -----

  predicate IsI16(value: int) {
    -0x8000 <= value < 0x8000
  }

  function AsI16(field: nat): int {
    if field < 0x8000 then field else field - I16_SPACE
  }

  function PackDc(len: nat, value: int): nat {
    (value % I16_SPACE) * 256 + len
  }

  function PackCoefficient(len: nat, run: nat, value: int): nat {
    KIND + (value % I16_SPACE) * 256 + run * 16 + len
  }

  function PackEndOfBlock(len: nat): nat {
    2 * KIND + len
  }

  function PackZeroRun(len: nat): nat {
    3 * KIND + 15 * 16 + len
  }

  function LenOf(word: nat): nat {
    word % 16
  }

  function ValueOf(word: nat): int {
    AsI16((word / 256) % I16_SPACE)
  }

  function AcSymbolOf(word: nat): AcSymbol {
    var kind := (word / KIND) % 16;
    if kind == 2 then EndOfBlock
    else if kind == 3 then ZeroRun
    else Coefficient((word / 16) % 16, ValueOf(word))
  }

  lemma FieldsUnpack(word: nat, kind: nat, field: nat, run: nat, len: nat)
    requires kind < 16 && field < I16_SPACE && run < 16 && len < 16
    requires word == kind * KIND + field * 256 + run * 16 + len
    ensures word % 16 == len && (word / 16) % 16 == run
    ensures (word / 256) % I16_SPACE == field && (word / KIND) % 16 == kind
  {
    assert word / 16 == kind * 0x100_0000 + field * 16 + run;
    assert word / 256 == kind * 0x10_0000 + field;
    assert word / KIND == kind;
  }

  /** Every field can be read back from the packed word. */
  lemma WordsUnpack(len: nat, run: nat, value: int)
    requires len < 16 && run < 16 && IsI16(value)
    ensures LenOf(PackDc(len, value)) == len && ValueOf(PackDc(len, value)) == value
    ensures LenOf(PackCoefficient(len, run, value)) == len
    ensures AcSymbolOf(PackCoefficient(len, run, value)) == Coefficient(run, value)
    ensures LenOf(PackEndOfBlock(len)) == LenOf(PackZeroRun(len)) == len
    ensures AcSymbolOf(PackEndOfBlock(len)) == EndOfBlock && AcSymbolOf(PackZeroRun(len)) == ZeroRun
  {
    var field := value % I16_SPACE;
    assert AsI16(field) == value;
    FieldsUnpack(PackDc(len, value), 0, field, 0, len);
    FieldsUnpack(PackCoefficient(len, run, value), 1, field, run, len);
    FieldsUnpack(PackEndOfBlock(len), 2, 0, 0, len);
    FieldsUnpack(PackZeroRun(len), 3, 0, 15, len);
  }

  // ----- building the packed table -----

  /** The `ssss` bits that follow the first `len` of the look-ahead `p`. */
  function MagnitudeBits(p: nat, len: nat, ssss: nat): nat
    requires len + ssss <= FAST_BITS
  {
    (p / Pow2(FAST_BITS - len - ssss)) % Pow2(ssss)
  }

  function MagnitudeIn(p: nat, len: nat, ssss: nat): int
    requires len + ssss <= FAST_BITS
  {
    if ssss == 0 then 0 else Extend(MagnitudeBits(p, len, ssss), ssss)
  }

  /** The packed word of look-ahead `p`; zero sends the caller to the decoder. */
  function PackedWord(role: Role, p: nat, entry: FastEntry): nat {
    var FastEntry(sym, len) := entry;
    if len == 0 then 0
    else if role == Dc then
      if sym <= 15 && len + sym <= FAST_BITS && IsI16(MagnitudeIn(p, len, sym)) then PackDc(len + sym, MagnitudeIn(p, len, sym))
      else 0
    else
      var run, ssss := sym / 16, sym % 16;
      if ssss == 0 then
        if run == 0 then PackEndOfBlock(len) else if run == 15 then PackZeroRun(len) else 0
      else if len + ssss <= FAST_BITS && IsI16(MagnitudeIn(p, len, ssss)) then PackCoefficient(len + ssss, run, MagnitudeIn(p, len, ssss))
      else 0
  }

  /** There is a word exactly where symbol and magnitude bits fit the look-ahead,
      and never for an AC symbol without magnitude bits but the two special ones. */
  lemma WordsExactly(role: Role, p: nat, sym: nat, len: nat)
    requires p < 4096 && sym < 256 && len <= 12
    ensures PackedWord(role, p, FastEntry(sym, len)) != 0 <==>
      len >= 1 && (if role == Dc then sym <= 15 && len + sym <= 12
                   else if sym % 16 == 0 then sym == 0x00 || sym == 0xF0
                   else len + sym % 16 <= 12)
  {
    var size := if role == Dc then sym else sym % 16;
    if len + size <= 12 {
      ShortMagnitude(p, len, size);
    }
    hide MagnitudeIn;
  }

  lemma ShortMagnitude(p: nat, len: nat, ssss: nat)
    requires len + ssss <= 12
    ensures IsI16(MagnitudeIn(p, len, ssss))
  {
    if ssss > 0 {
      PowersUpTo15(ssss);
    }
  }

  predicate PackedFor(t: CoefficientTable, role: Role) {
    |t.table.fast| == |t.packed| == 4096
    && forall p :: 0 <= p < 4096 ==> t.packed[p] == PackedWord(role, p, t.table.fast[p])
  }

  method BuildPacked(fast: seq<FastEntry>, role: Role) returns (packed: seq<nat>)
    requires |fast| == FAST_ENTRIES
    ensures |packed| == FAST_ENTRIES
    ensures forall p :: 0 <= p < FAST_ENTRIES ==> packed[p] == PackedWord(role, p, fast[p])
  {
    var words := new nat[FAST_ENTRIES](_ => 0);
    for p := 0 to FAST_ENTRIES
      invariant forall q :: 0 <= q < p ==> words[q] == PackedWord(role, q, fast[q])
      invariant forall q :: p <= q < FAST_ENTRIES ==> words[q] == 0
    {
      words[p] := PackedWord(role, p, fast[p]);
    }
    packed := words[..];
  }

  /** A table for one of the two roles. */
  ghost predicate CoefficientTableFor(t: CoefficientTable, bits: seq<nat>, role: Role)
    requires IsBits(bits)
  {
    SymbolTableFor(t.table, bits) && PackedFor(t, role)
  }

  method BuildCoefficientTable(bits: seq<nat>, values: seq<nat>, role: Role) returns (r: Option<CoefficientTable>)
    requires IsBits(bits) && IsValues(values)
    ensures r.Some? <==> |values| <= 256 && Total(bits) == |values| && Kraft(Sizes(bits)) <= 0x1_0000
    ensures r.Some? ==> CoefficientTableFor(r.value, bits, role) && r.value.table.values == values
  {
    var table := BuildSymbolTable(bits, values);
    if table == None {
      return None;
    }
    var packed := BuildPacked(table.value.fast, role);
    return Some(CoefficientTable(table.value, packed));
  }

  // ----- the plain decoders -----

  /** RECEIVE and EXTEND after a symbol. */
  function ReceiveCoefficient(a: Ahead, ssss: nat): (Result<int, Failure>, Ahead) {
    match Receive(a, ssss)
    case (None, b) => (Err(TableExhausted), b)
    case (Some(value), b) => (Ok(value), b)
  }

  function PlainDc(t: SymbolTable, a: Ahead): (Result<int, Failure>, Ahead)
    requires Usable(t)
  {
    match DecodeAhead(t, a)
    case (Err(e), b) => (Err(e), b)
    case (Ok(ssss), b) => if ssss > 15 then (Err(InvalidSymbol), b) else ReceiveCoefficient(b, ssss)
  }

  function PlainAc(t: SymbolTable, a: Ahead): (Result<AcSymbol, Failure>, Ahead)
    requires Usable(t)
  {
    match DecodeAhead(t, a)
    case (Err(e), b) => (Err(e), b)
    case (Ok(sym), b) => AfterSymbol(sym, b)
  }

  function AfterSymbol(sym: nat, b: Ahead): (Result<AcSymbol, Failure>, Ahead) {
    var run, ssss := sym / 16, sym % 16;
    if ssss == 0 then (Ok(if run == 15 then ZeroRun else EndOfBlock), b)
    else
      match ReceiveCoefficient(b, ssss)
      case (Err(e), c) => (Err(e), c)
      case (Ok(value), c) => (Ok(Coefficient(run, value)), c)
  }

  // ----- the packed word says what the plain decoder would -----

  lemma PowersUpTo15(ssss: nat)
    requires 1 <= ssss <= 15
    ensures 2 * Pow2(ssss - 1) == Pow2(ssss) <= 0x8000
  {
    Pow2Monotone(ssss, 15);
    SixteenBits();
  }

  lemma ExtendIsI16(v: nat, ssss: nat)
    requires 1 <= ssss <= 15 && v < Pow2(ssss)
    ensures IsI16(Extend(v, ssss))
  {
    PowersUpTo15(ssss);
  }

  /** The magnitude bits in the look-ahead are those RECEIVE reads. */
  lemma MagnitudeIsReceived(b: Ahead, len: nat, ssss: nat)
    requires FAST_BITS <= |Look(b)| && len + ssss <= FAST_BITS
    ensures ReceiveCoefficient(Consume(b, len), ssss) == (Ok(MagnitudeIn(Peek(b, FAST_BITS), len, ssss)), Consume(b, len + ssss))
  {
    hide Look, Consume, Value, Extend;
    var window := Look(b)[..FAST_BITS];
    ConsumeLook(b, len);
    ConsumeTwice(b, len, ssss);
    ValueField(window, len, ssss);
    SameSlice(Look(b), FAST_BITS, len, ssss);
  }

  lemma SameSlice(bits: seq<bool>, n: nat, from: nat, count: nat)
    requires from + count <= n <= |bits|
    ensures bits[..n][from..from + count] == bits[from..][..count]
  {
  }

  /** Behind the fast-table entry of its look-ahead the plain decoder reads the
      entry's symbol. */
  lemma EntryIsDecoded(t: SymbolTable, b: Ahead)
    requires Usable(t) && FAST_BITS <= |Look(b)|
    ensures Peek(b, FAST_BITS) < FAST_ENTRIES
    ensures var entry := t.fast[Peek(b, FAST_BITS)];
      entry.len != 0 ==> DecodeAhead(t, b) == (Ok(entry.symbol), Consume(b, entry.len))
  {
    PeekBelow(b, FAST_BITS);
  }

  lemma DcWordIsPlain(t: CoefficientTable, b: Ahead, p: nat)
    requires Usable(t.table) && PackedFor(t, Dc) && FAST_BITS <= |Look(b)|
    requires p == Peek(b, FAST_BITS) < FAST_ENTRIES && t.packed[p] != 0
    ensures LenOf(t.packed[p]) <= FAST_BITS
    ensures PlainDc(t.table, b) == (Ok(ValueOf(t.packed[p])), Consume(b, LenOf(t.packed[p])))
  {
    var FastEntry(sym, len) := t.table.fast[p];
    EntryIsDecoded(t.table, b);
    MagnitudeIsReceived(b, len, sym);
    WordsUnpack(len + sym, 0, MagnitudeIn(p, len, sym));
  }

  lemma AcWordIsPlain(t: CoefficientTable, b: Ahead, p: nat)
    requires Usable(t.table) && PackedFor(t, Ac) && FAST_BITS <= |Look(b)|
    requires p == Peek(b, FAST_BITS) < FAST_ENTRIES && t.packed[p] != 0 && t.table.fast[p].symbol < 256
    ensures LenOf(t.packed[p]) <= FAST_BITS
    ensures PlainAc(t.table, b) == (Ok(AcSymbolOf(t.packed[p])), Consume(b, LenOf(t.packed[p])))
  {
    var FastEntry(sym, len) := t.table.fast[p];
    EntryIsDecoded(t.table, b);
    if sym % 16 == 0 {
      WordsUnpack(len, 0, 0);
    } else {
      MagnitudeIsReceived(b, len, sym % 16);
      WordsUnpack(len + sym % 16, sym / 16, MagnitudeIn(p, len, sym % 16));
    }
  }

  // ----- the decoders -----

  /** A DC difference, by its packed word if there is one: exactly what decoding
      the category and receiving its bits gives. */
  method DecodeFastDc(t: CoefficientTable, br: BitReader) returns (r: Result<int, Failure>)
    requires Usable(t.table) && PackedFor(t, Dc) && br.Valid()
    modifies br
    ensures br.Valid()
    ensures (r, br.View()) == PlainDc(t.table, old(br.View()))
  {
    var ok := br.EnsureBitsPadded(FAST_BITS);
    if !ok {
      return Err(TableExhausted);
    }
    var peek := br.PeekBits(FAST_BITS);
    EntryIsDecoded(t.table, br.View());
    var packed := t.packed[peek];
    if packed != 0 {
      DcWordIsPlain(t, br.View(), peek);
      br.ConsumeBits(LenOf(packed));
      return Ok(ValueOf(packed));
    }
    var ssss := Decode(t.table, br);
    if ssss.Err? {
      return Err(ssss.error);
    }
    if ssss.value > 15 {
      return Err(InvalidSymbol);
    }
    var value := br.ReceiveExtend(ssss.value);
    return if value.Some? then Ok(value.value) else Err(TableExhausted);
  }

  /** An AC symbol the same way.  The returned word differs from a packed one
      only in its length field, which nothing reads. */
  method DecodeFastAc(t: CoefficientTable, br: BitReader) returns (r: Result<nat, Failure>)
    requires Usable(t.table) && SymbolsAreBytes(t.table) && PackedFor(t, Ac) && br.Valid()
    modifies br
    ensures br.Valid()
    ensures (MapWord(r), br.View()) == PlainAc(t.table, old(br.View()))
  {
    var ok := br.EnsureBitsPadded(FAST_BITS);
    if !ok {
      return Err(TableExhausted);
    }
    var peek := br.PeekBits(FAST_BITS);
    EntryIsDecoded(t.table, br.View());
    var packed := t.packed[peek];
    if packed != 0 {
      AcWordIsPlain(t, br.View(), peek);
      br.ConsumeBits(LenOf(packed));
      return Ok(packed);
    }
    ghost var view := br.View();
    var sym := ReadAcSymbol(t.table, peek, br);
    if sym.Err? {
      return Err(sym.error);
    }
    assert sym.value < 256 by {
      SymbolIsByte(t.table, view);
    }
    r := FinishAc(sym.value, br);
  }

  /** The symbol at the head of the scan, whose 12-bit look-ahead is `peek`. */
  method ReadAcSymbol(t: SymbolTable, peek: nat, br: BitReader) returns (r: Result<nat, Failure>)
    requires Usable(t) && br.Valid() && FAST_BITS <= |br.acc|
    requires FAST_BITS <= |Look(br.View())| && peek == Peek(br.View(), FAST_BITS) < FAST_ENTRIES
    modifies br
    ensures br.Valid()
    ensures (r, br.View()) == DecodeAhead(t, old(br.View()))
  {
    var FastEntry(sym, len) := t.fast[peek];
    if len != 0 {
      br.ConsumeBits(len);
      return Ok(sym);
    }
    r := Decode(t, br);
  }

  method FinishAc(sym: nat, br: BitReader) returns (r: Result<nat, Failure>)
    requires sym < 256 && br.Valid()
    modifies br
    ensures br.Valid()
    ensures (MapWord(r), br.View()) == AfterSymbol(sym, old(br.View()))
    ensures r.Ok? ==> LenOf(r.value) == 0
  {
    var run, ssss := sym / 16, sym % 16;
    if ssss == 0 {
      WordsUnpack(0, 0, 0);
      return Ok(if run == 15 then PackZeroRun(0) else PackEndOfBlock(0));
    }
    ghost var view := br.View();
    var value := br.ReceiveExtend(ssss);
    if value == None {
      return Err(TableExhausted);
    }
    ReceivedIsI16(view, ssss);
    WordsUnpack(0, run, value.value);
    return Ok(PackCoefficient(0, run, value.value));
  }

  function MapWord(r: Result<nat, Failure>): Result<AcSymbol, Failure> {
    match r
    case Err(e) => Err(e)
    case Ok(word) => Ok(AcSymbolOf(word))
  }

  lemma ReceivedIsI16(a: Ahead, ssss: nat)
    requires 1 <= ssss <= 15 && Receive(a, ssss).0.Some?
    ensures IsI16(Receive(a, ssss).0.value)
  {
    ValueBelow(Look(a)[..ssss]);
    ExtendIsI16(Peek(a, ssss), ssss);
  }

  predicate SymbolsAreBytes(t: SymbolTable)
    requires Usable(t)
  {
    IsValues(t.values) && forall p :: 0 <= p < FAST_ENTRIES ==> t.fast[p].symbol < 256
  }

  lemma SymbolIsByte(t: SymbolTable, a: Ahead)
    requires Usable(t) && SymbolsAreBytes(t)
    ensures DecodeAhead(t, a).0.Ok? ==> DecodeAhead(t, a).0.value < 256
  {
    if EnsurePadded(a, FAST_BITS).Some? {
      PeekBelow(EnsurePadded(a, FAST_BITS).value, FAST_BITS);
    }
  }

  // ----- skipping -----

  function Skeleton(r: Result<AcSymbol, Failure>): Result<AcSymbol, Failure> {
    if r.Ok? && r.value.Coefficient? then Ok(Coefficient(r.value.skipped, 0)) else r
  }

  /** An AC symbol whose value nobody wants: its bits are dropped unread. */
  method SkipFastAc(t: CoefficientTable, br: BitReader) returns (r: Result<nat, Failure>)
    requires Usable(t.table) && SymbolsAreBytes(t.table) && PackedFor(t, Ac) && br.Valid()
    modifies br
    ensures br.Valid()
    ensures Skeleton(MapWord(r)) == Skeleton(PlainAc(t.table, old(br.View())).0)
    ensures br.View() == PlainAc(t.table, old(br.View())).1
  {
    var ok := br.EnsureBitsPadded(FAST_BITS);
    if !ok {
      return Err(TableExhausted);
    }
    var peek := br.PeekBits(FAST_BITS);
    EntryIsDecoded(t.table, br.View());
    var packed := t.packed[peek];
    if packed != 0 {
      AcWordIsPlain(t, br.View(), peek);
      br.ConsumeBits(LenOf(packed));
      return Ok(packed);
    }
    ghost var view := br.View();
    var sym := ReadAcSymbol(t.table, peek, br);
    if sym.Err? {
      return Err(sym.error);
    }
    assert sym.value < 256 by {
      SymbolIsByte(t.table, view);
    }
    r := FinishSkip(sym.value, br);
  }

  method FinishSkip(sym: nat, br: BitReader) returns (r: Result<nat, Failure>)
    requires sym < 256 && br.Valid()
    modifies br
    ensures br.Valid()
    ensures Skeleton(MapWord(r)) == Skeleton(AfterSymbol(sym, old(br.View())).0)
    ensures br.View() == AfterSymbol(sym, old(br.View())).1
    ensures r.Ok? ==> LenOf(r.value) == 0
  {
    var run, ssss := sym / 16, sym % 16;
    if ssss == 0 {
      WordsUnpack(0, 0, 0);
      return Ok(if run == 15 then PackZeroRun(0) else PackEndOfBlock(0));
    }
    var ok := br.EnsureBits(ssss);
    if !ok {
      return Err(TableExhausted);
    }
    br.ConsumeBits(ssss);
    WordsUnpack(0, run, 0);
    return Ok(PackCoefficient(0, run, 0));
  }

  lemma TableSymbolsAreBytes(t: SymbolTable, bits: seq<nat>)
    requires IsBits(bits) && SymbolTableFor(t, bits) && Usable(t)
    ensures SymbolsAreBytes(t)
  {
  }
}
