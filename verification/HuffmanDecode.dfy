/** Decoding one symbol, and whole symbol sequences, from what is left of a scan. */
module HuffmanDecode {
  import opened Options
  import opened Powers
  import opened BitStream
  import opened HuffmanCodes
  import opened HuffmanDerivation
  import opened HuffmanScan
  import opened HuffmanTable
  import opened Reader = BitReader

  /** The table has what indexing needs. */
  predicate Usable(t: SymbolTable) {
    |t.fast| == FAST_ENTRIES && |t.canonical.maxCode| == |t.canonical.valOffset| == MAX_LENGTH + 1
    && forall p :: 0 <= p < FAST_ENTRIES ==> t.fast[p].len <= FAST_BITS
  }

  function Lookup(values: seq<nat>, index: int): Result<nat, Failure> {
    if 0 <= index < |values| then Ok(values[index]) else Err(InvalidSymbol)
  }

  /** One symbol: 12 bits of look-ahead for the fast table, then the scan. */
  function DecodeAhead(t: SymbolTable, a: Ahead): (Result<nat, Failure>, Ahead)
    requires Usable(t)
  {
    match EnsurePadded(a, FAST_BITS)
    case None => (Err(TableExhausted), a)
    case Some(b) =>
      PeekBelow(b, FAST_BITS);
      var entry := t.fast[Peek(b, FAST_BITS)];
      if entry.len != 0 then (Ok(entry.symbol), Consume(b, entry.len)) else DecodeLong(t, b, FAST_BITS + 1)
  }

  /** The codes of `from` to 16 bits. */
  function DecodeLong(t: SymbolTable, b: Ahead, from: nat): (Result<nat, Failure>, Ahead)
    requires Usable(t) && 1 <= from <= MAX_LENGTH + 1
  {
    match EnsurePadded(b, MAX_LENGTH)
    case None => (Err(TableExhausted), b)
    case Some(c) =>
      ScanLength(t.canonical, Peek(c, MAX_LENGTH), from);
      match Scan(t.canonical, Peek(c, MAX_LENGTH), from)
      case None => (Err(CodeNotFound), c)
      case Some(m) => (Lookup(t.values, m.index), Consume(c, m.len))
  }

  lemma PeekBelow(a: Ahead, n: nat)
    requires n == FAST_BITS || n == MAX_LENGTH
    requires n <= |Look(a)|
    ensures n == FAST_BITS ==> Peek(a, n) < FAST_ENTRIES
    ensures Peek(a, n) < CODE_SPACE
  {
    ValueBelow(Look(a)[..n]);
    SixteenBits();
  }

  lemma {:induction false} ScanLength(d: Derivation, w: nat, len: nat)
    requires |d.maxCode| == |d.valOffset| == MAX_LENGTH + 1 && 1 <= len
    ensures Scan(d, w, len).Some? ==> len <= Scan(d, w, len).value.len <= MAX_LENGTH
    decreases MAX_LENGTH + 1 - len
  {
    if len <= MAX_LENGTH {
      ScanLength(d, w, len + 1);
    }
  }

  /** The decoder on the bit reader. */
  method Decode(t: SymbolTable, br: BitReader) returns (r: Result<nat, Failure>)
    requires Usable(t) && br.Valid()
    modifies br
    ensures br.Valid()
    ensures (r, br.View()) == DecodeAhead(t, old(br.View()))
  {
    var ok := br.EnsureBitsPadded(FAST_BITS);
    if !ok {
      return Err(TableExhausted);
    }
    var peek := br.PeekBits(FAST_BITS);
    PeekBelow(br.View(), FAST_BITS);
    var entry := t.fast[peek];
    if entry.len != 0 {
      br.ConsumeBits(entry.len);
      return Ok(entry.symbol);
    }
    r := DecodeSlowPath(t, br, FAST_BITS + 1);
  }

  method DecodeSlowPath(t: SymbolTable, br: BitReader, from: nat) returns (r: Result<nat, Failure>)
    requires Usable(t) && br.Valid() && 1 <= from <= MAX_LENGTH + 1
    modifies br
    ensures br.Valid()
    ensures (r, br.View()) == DecodeLong(t, old(br.View()), from)
  {
    var ok := br.EnsureBitsPadded(MAX_LENGTH);
    if !ok {
      return Err(TableExhausted);
    }
    var code16 := br.PeekBits(MAX_LENGTH);
    var found := ScanFrom(t.canonical, code16, from);
    if found == None {
      return Err(CodeNotFound);
    }
    ScanLength(t.canonical, code16, from);
    br.ConsumeBits(found.value.len);
    return Lookup(t.values, found.value.index);
  }

  /** Compares the window against the largest code of each length from `from` on. */
  method ScanFrom(d: Derivation, code16: nat, from: nat) returns (found: Option<Match>)
    requires |d.maxCode| == |d.valOffset| == MAX_LENGTH + 1 && 1 <= from <= MAX_LENGTH + 1
    ensures found == Scan(d, code16, from)
  {
    for len := from to MAX_LENGTH + 1
      invariant Scan(d, code16, from) == Scan(d, code16, len)
    {
      var c := code16 / Pow2(MAX_LENGTH - len);
      if c <= d.maxCode[len] {
        return Some(Match(c + d.valOffset[len], len));
      }
    }
    return None;
  }

  // ----- what is decoded -----

  lemma TableUsable(t: SymbolTable, bits: seq<nat>)
    requires IsBits(bits) && SymbolTableFor(t, bits)
    ensures Usable(t)
  {
  }

  /** The 16-bit window at the head of the scan, ones standing for what is missing. */
  function Window(a: Ahead): (w: seq<bool>)
    ensures |w| == MAX_LENGTH
  {
    (Look(a) + Ones(MAX_LENGTH))[..MAX_LENGTH]
  }

  /** The look-ahead is long enough, or may be made so. */
  predicate Sufficient(a: Ahead) {
    (a.synthetic > 0 ==> a.padding) && (a.padding || |Look(a)| >= MAX_LENGTH)
  }

  lemma PaddingIsWindow(a: Ahead, n: nat)
    requires Sufficient(a) && n <= MAX_LENGTH
    ensures var b := EnsurePadded(a, n);
      && b.Some? && Sufficient(b.value) && |Look(b.value)| >= n
      && Look(b.value)[..n] == Window(a)[..n] && Window(b.value) == Window(a)
      && b.value.coded == a.coded && b.value.padding == a.padding
  {
    var b := EnsurePadded(a, n).value;
    forall i | 0 <= i < MAX_LENGTH ensures Window(a)[i] == Window(b)[i] == (i >= |a.coded| || a.coded[i]) {
    }
    assert Look(b)[..n] == Window(b)[..n];
  }

  lemma FastHit(t: SymbolTable, bits: seq<nat>, w: nat)
    requires IsBits(bits) && SymbolTableFor(t, bits) && w / 16 < FAST_ENTRIES
    ensures var entry := t.fast[w / 16];
      if entry.len != 0 then
        exists i :: 0 <= i < Total(bits) && Covers(bits, t.canonical, i, w) && entry == FastEntry(t.values[i], Sizes(bits)[i])
      else NoShorterCode(bits, t.canonical, w, FAST_BITS + 1)
  {
    var p := w / 16;
    var entry := t.fast[p];
    assert EntryFor(bits, t.canonical, t.values, Total(bits), p, entry);
    forall i | 0 <= i < Total(bits) && Sizes(bits)[i] <= FAST_BITS
      ensures IsFast(bits, t.canonical, i, p) <==> Covers(bits, t.canonical, i, w)
    {
      FastIsCover(bits, t.canonical, i, w);
    }
    if entry.len != 0 {
      var i :| 0 <= i < Total(bits) && IsFast(bits, t.canonical, i, p);
      assert Covers(bits, t.canonical, i, w);
    }
  }

  /** The outcome of decoding code `i` at the head of `a`: its value, and
      exactly its bits dropped. */
  ghost predicate Finds(t: SymbolTable, bits: seq<nat>, a: Ahead, i: nat, out: (Result<nat, Failure>, Ahead))
    requires i < Total(bits) == |t.values|
  {
    var len := Sizes(bits)[i];
    && out.0 == Ok(t.values[i])
    && out.1.coded == (if len <= |a.coded| then a.coded[len..] else [])
    && out.1.padding == a.padding && (out.1.synthetic > 0 ==> out.1.padding)
  }

  /** Decoding follows the code that covers the window, if there is one. */
  ghost predicate Follows(t: SymbolTable, bits: seq<nat>, a: Ahead, out: (Result<nat, Failure>, Ahead))
    requires Total(bits) == |t.values| <= |t.canonical.huffcode|
  {
    var w := Value(Window(a));
    if i :| 0 <= i < Total(bits) && Covers(bits, t.canonical, i, w) then Finds(t, bits, a, i, out) else out.0 == Err(CodeNotFound)
  }

  lemma LongFollowsWindow(t: SymbolTable, bits: seq<nat>, a: Ahead, from: nat)
    requires IsBits(bits) && SymbolTableFor(t, bits) && Usable(t) && Sufficient(a) && 1 <= from <= MAX_LENGTH + 1
    requires NoShorterCode(bits, t.canonical, Value(Window(a)), from)
    ensures Follows(t, bits, a, DecodeLong(t, a, from))
  {
    var w := Value(Window(a));
    PaddingIsWindow(a, MAX_LENGTH);
    var c := EnsurePadded(a, MAX_LENGTH).value;
    assert Window(a)[..MAX_LENGTH] == Window(a);
    assert Peek(c, MAX_LENGTH) == w;
    ScanFinds(bits, t.canonical, w, from);
    CodesPartitionWindows(bits, t.canonical, w);
  }

  lemma FastFollowsWindow(t: SymbolTable, bits: seq<nat>, a: Ahead, i: nat, b: Ahead)
    requires IsBits(bits) && SymbolTableFor(t, bits) && Sufficient(a)
    requires i < Total(bits) && Covers(bits, t.canonical, i, Value(Window(a)))
    requires b.coded == a.coded && b.padding == a.padding && Sufficient(b) && Sizes(bits)[i] <= |Look(b)|
    ensures Follows(t, bits, a, (Ok(t.values[i]), Consume(b, Sizes(bits)[i])))
  {
    CodesPartitionWindows(bits, t.canonical, Value(Window(a)));
  }

  lemma PeekIsWindow(a: Ahead, b: Ahead)
    requires Sufficient(a) && Some(b) == EnsurePadded(a, FAST_BITS)
    ensures FAST_BITS <= |Look(b)| && Peek(b, FAST_BITS) == Value(Window(a)) / 16 < FAST_ENTRIES
  {
    PaddingIsWindow(a, FAST_BITS);
    PeekBelow(b, FAST_BITS);
    ValueSplit(Window(a), FAST_BITS);
    SixteenBits();
  }

  /** Decoding returns the value of the one code the window begins with and
      drops exactly its bits; it fails exactly when no code matches. */
  lemma DecodeFollowsWindow(t: SymbolTable, bits: seq<nat>, a: Ahead)
    requires IsBits(bits) && SymbolTableFor(t, bits) && Usable(t) && Sufficient(a)
    ensures Follows(t, bits, a, DecodeAhead(t, a))
  {
    var w := Value(Window(a));
    PaddingIsWindow(a, FAST_BITS);
    var b := EnsurePadded(a, FAST_BITS).value;
    PeekIsWindow(a, b);
    FastHit(t, bits, w);
    hide Covers, Follows, DecodeLong, SymbolTableFor, Window, Value, Sufficient, Peek;
    if t.fast[w / 16].len == 0 {
      LongFollowsWindow(t, bits, b, FAST_BITS + 1);
      SameFollows(t, bits, a, b, DecodeLong(t, b, FAST_BITS + 1));
    } else {
      var i :| 0 <= i < Total(bits) && Covers(bits, t.canonical, i, w) && t.fast[w / 16] == FastEntry(t.values[i], Sizes(bits)[i]);
      FastFollowsWindow(t, bits, a, i, b);
    }
  }

  /** Padding does not change what decoding follows. */
  lemma SameFollows(t: SymbolTable, bits: seq<nat>, a: Ahead, b: Ahead, out: (Result<nat, Failure>, Ahead))
    requires Total(bits) == |t.values| <= |t.canonical.huffcode| && Window(a) == Window(b) && a.coded == b.coded && a.padding == b.padding
    ensures Follows(t, bits, a, out) <==> Follows(t, bits, b, out)
  {
    hide Window, Value, Covers;
  }

  /** The plain DECODE procedure on a window. */
  function PlainDecode(t: SymbolTable, w: nat): Result<nat, Failure>
    requires |t.canonical.maxCode| == |t.canonical.valOffset| == MAX_LENGTH + 1
  {
    match Scan(t.canonical, w, 1)
    case None => Err(CodeNotFound)
    case Some(m) => Lookup(t.values, m.index)
  }

  lemma FollowsIsPlain(t: SymbolTable, bits: seq<nat>, a: Ahead, out: (Result<nat, Failure>, Ahead))
    requires IsBits(bits) && SymbolTableFor(t, bits) && Follows(t, bits, a, out)
    ensures out.0 == PlainDecode(t, Value(Window(a)))
    ensures out.0.Ok? <==> Value(Window(a)) < Kraft(Sizes(bits))
  {
    DecodeInvertsCodes(bits, t.canonical, Value(Window(a)));
    CodesPartitionWindows(bits, t.canonical, Value(Window(a)));
  }

  /** The table in front of the scan changes nothing: the decoder finds a symbol
      exactly on the windows on which the plain DECODE procedure finds one, that
      is, below the Kraft sum, and the same one. */
  lemma FastTableRefinesDecode(t: SymbolTable, bits: seq<nat>, a: Ahead)
    requires IsBits(bits) && SymbolTableFor(t, bits) && Usable(t) && Sufficient(a)
    ensures DecodeAhead(t, a).0 == PlainDecode(t, Value(Window(a)))
    ensures DecodeAhead(t, a).0.Ok? <==> Value(Window(a)) < Kraft(Sizes(bits))
  {
    DecodeFollowsWindow(t, bits, a);
    FollowsIsPlain(t, bits, a, DecodeAhead(t, a));
  }

  lemma {:induction false} ValueOfOnes(n: nat)
    ensures Value(Ones(n)) == Pow2(n) - 1
  {
    if n > 0 {
      ValueOfOnes(n - 1);
      assert Ones(n)[..n - 1] == Ones(n - 1);
    }
  }

  // ----- reading on behind the end of the scan -----

  /** The bits `DecodeAhead` drops. */
  function BitsTaken(t: SymbolTable, a: Ahead): nat
    requires Usable(t)
  {
    match EnsurePadded(a, FAST_BITS)
    case None => 0
    case Some(b) =>
      PeekBelow(b, FAST_BITS);
      var entry := t.fast[Peek(b, FAST_BITS)];
      if entry.len != 0 then entry.len else
        match EnsurePadded(b, MAX_LENGTH)
        case None => 0
        case Some(c) =>
          match Scan(t.canonical, Peek(c, MAX_LENGTH), FAST_BITS + 1)
          case None => 0
          case Some(m) => m.len
  }

  /** A symbol found takes its bits off what was padded to 12 or to 16 bits. */
  lemma TakesBits(t: SymbolTable, a: Ahead) returns (b: Ahead)
    requires Usable(t) && DecodeAhead(t, a).0.Ok?
    ensures EnsurePadded(a, FAST_BITS).Some? && (Some(b) == EnsurePadded(a, FAST_BITS) || Some(b) == EnsurePadded(EnsurePadded(a, FAST_BITS).value, MAX_LENGTH))
    ensures b.coded == a.coded && BitsTaken(t, a) <= |Look(b)|
    ensures DecodeAhead(t, a).1 == Consume(b, BitsTaken(t, a))
  {
    b := EnsurePadded(a, FAST_BITS).value;
    PeekBelow(b, FAST_BITS);
    if t.fast[Peek(b, FAST_BITS)].len == 0 {
      b := EnsurePadded(b, MAX_LENGTH).value;
      ScanLength(t.canonical, Peek(b, MAX_LENGTH), FAST_BITS + 1);
    }
  }

  /** Decoding takes exactly the bits of the code that covers the window. */
  lemma TakesTheCode(t: SymbolTable, bits: seq<nat>, a: Ahead, i: nat)
    requires IsBits(bits) && SymbolTableFor(t, bits) && Usable(t) && Sufficient(a)
    requires i < Total(bits) && Covers(bits, t.canonical, i, Value(Window(a)))
    ensures DecodeAhead(t, a).0 == Ok(t.values[i]) && BitsTaken(t, a) == Sizes(bits)[i]
  {
    var w := Value(Window(a));
    PaddingIsWindow(a, FAST_BITS);
    var b := EnsurePadded(a, FAST_BITS).value;
    PaddingIsWindow(b, MAX_LENGTH);
    PeekIsWindow(a, b);
    assert Peek(EnsurePadded(b, MAX_LENGTH).value, MAX_LENGTH) == w by {
      assert Window(b)[..MAX_LENGTH] == Window(b);
    }
    FastHit(t, bits, w);
    ScanFinds(bits, t.canonical, w, 1);
    if t.fast[w / 16].len == 0 {
      ScanFinds(bits, t.canonical, w, FAST_BITS + 1);
    }
    CodesPartitionWindows(bits, t.canonical, w);
  }

  /** What every reader keeps: ones are appended only where padding is allowed. */
  predicate PaddedOnlyIfAllowed(a: Ahead) {
    a.synthetic > 0 ==> a.padding
  }

  /** A symbol is found that takes bits behind the end of the coded ones. */
  predicate Overreads(t: SymbolTable, a: Ahead)
    requires Usable(t)
  {
    DecodeAhead(t, a).0.Ok? && BitsTaken(t, a) > |a.coded|
  }

  /** Code `i` is the coded bits that are left, filled up with ones. */
  ghost predicate CompletedByOnes(bits: seq<nat>, d: Derivation, coded: seq<bool>, i: nat)
    requires i < Total(bits) && i < |d.huffcode|
  {
    Sizes(bits)[i] > |coded| && CodeBits(bits, d, i) == coded + Ones(Sizes(bits)[i] - |coded|)
  }

  lemma CompletedExactly(bits: seq<nat>, d: Derivation, a: Ahead, i: nat)
    requires IsBits(bits) && HasCodes(bits, d) && i < Total(bits) && Sizes(bits)[i] > |a.coded|
    ensures Covers(bits, d, i, Value(Window(a))) <==> CompletedByOnes(bits, d, a.coded, i)
  {
    var size := Sizes(bits)[i];
    assert Window(a)[..size] == a.coded + Ones(size - |a.coded|);
    if Covers(bits, d, i, Value(Window(a))) {
      CoveredIsPrefix(bits, d, i, Window(a));
    }
    if CompletedByOnes(bits, d, a.coded, i) {
      PrefixIsCovered(bits, d, i, Window(a));
    }
  }

  /** Without padding nothing is taken that is not there. */
  lemma NoPaddingNoOverread(t: SymbolTable, a: Ahead)
    requires Usable(t) && !a.padding && a.synthetic == 0
    ensures !Overreads(t, a)
  {
    if DecodeAhead(t, a).0.Ok? {
      var b := TakesBits(t, a);
    }
  }

  lemma OnlyCompleted(bits: seq<nat>, d: Derivation, a: Ahead, j: nat)
    requires IsBits(bits) && HasCodes(bits, d) && j < Total(bits)
    ensures CompletedByOnes(bits, d, a.coded, j) <==> Sizes(bits)[j] > |a.coded| && Covers(bits, d, j, Value(Window(a)))
  {
    if Sizes(bits)[j] > |a.coded| {
      CompletedExactly(bits, d, a, j);
    }
  }

  lemma OverreadsAtCode(t: SymbolTable, bits: seq<nat>, a: Ahead, i: nat)
    requires IsBits(bits) && SymbolTableFor(t, bits) && Usable(t) && Sufficient(a)
    requires i < Total(bits) && Covers(bits, t.canonical, i, Value(Window(a)))
    ensures Overreads(t, a) <==> Sizes(bits)[i] > |a.coded|
  {
    hide DecodeAhead, BitsTaken, Covers;
    TakesTheCode(t, bits, a, i);
  }

  lemma NoCodeNoOverread(t: SymbolTable, bits: seq<nat>, a: Ahead)
    requires IsBits(bits) && SymbolTableFor(t, bits) && Usable(t) && Sufficient(a)
    requires forall i :: 0 <= i < Total(bits) ==> !Covers(bits, t.canonical, i, Value(Window(a)))
    ensures !Overreads(t, a)
  {
    hide DecodeAhead, BitsTaken, Covers;
    DecodeFollowsWindow(t, bits, a);
  }

  /** Decoding finds a symbol in bits that are not there exactly if padding is
      allowed and some code is what is left of the scan, completed by ones. */
  lemma OverreadsExactly(t: SymbolTable, bits: seq<nat>, a: Ahead)
    requires IsBits(bits) && SymbolTableFor(t, bits) && Usable(t) && PaddedOnlyIfAllowed(a)
    ensures Overreads(t, a) <==> a.padding && exists i :: 0 <= i < Total(bits) && CompletedByOnes(bits, t.canonical, a.coded, i)
  {
    assert HasCodes(bits, t.canonical);
    hide Overreads, CompletedByOnes, Covers, SymbolTableFor, Window;
    if !a.padding {
      NoPaddingNoOverread(t, a);
    } else {
      forall i | 0 <= i < Total(bits)
        ensures CompletedByOnes(bits, t.canonical, a.coded, i)
          <==> Sizes(bits)[i] > |a.coded| && Covers(bits, t.canonical, i, Value(Window(a)))
      {
        OnlyCompleted(bits, t.canonical, a, i);
      }
      CodesPartitionWindows(bits, t.canonical, Value(Window(a)));
      if i :| 0 <= i < Total(bits) && Covers(bits, t.canonical, i, Value(Window(a))) {
        OverreadsAtCode(t, bits, a, i);
      } else {
        NoCodeNoOverread(t, bits, a);
      }
    }
  }

  /** No position in any scan over-reads exactly when every code is even, that
      is, when none ends in a one. */
  lemma NeverOverreadsExactly(t: SymbolTable, bits: seq<nat>)
    requires IsBits(bits) && SymbolTableFor(t, bits) && Usable(t)
    ensures (forall a :: PaddedOnlyIfAllowed(a) ==> !Overreads(t, a))
      <==> (forall i :: 0 <= i < Total(bits) ==> t.canonical.huffcode[i] % 2 == 0)
  {
    hide Overreads, CompletedByOnes;
    if i :| 0 <= i < Total(bits) && t.canonical.huffcode[i] % 2 == 1 {
      var code := CodeBits(bits, t.canonical, i);
      var a := Ahead(code[..|code| - 1], 0, true);
      OddIsCompleted(bits, t.canonical, i);
      OverreadsExactly(t, bits, a);
      assert PaddedOnlyIfAllowed(a) && Overreads(t, a);
    } else {
      forall a | PaddedOnlyIfAllowed(a) ensures !Overreads(t, a) {
        OverreadsExactly(t, bits, a);
        forall i | 0 <= i < Total(bits) ensures !CompletedByOnes(bits, t.canonical, a.coded, i) {
          CompletedIsOdd(bits, t.canonical, a.coded, i);
        }
      }
    }
  }

  lemma OddIsCompleted(bits: seq<nat>, d: Derivation, i: nat)
    requires IsBits(bits) && i < Total(bits) && i < |d.huffcode| && d.huffcode[i] % 2 == 1
    ensures var code := CodeBits(bits, d, i); code != [] && CompletedByOnes(bits, d, code[..|code| - 1], i)
  {
    var code := CodeBits(bits, d, i);
    assert code == code[..|code| - 1] + Ones(1);
  }

  lemma CompletedIsOdd(bits: seq<nat>, d: Derivation, coded: seq<bool>, i: nat)
    requires IsBits(bits) && i < Total(bits) && i < |d.huffcode| && d.huffcode[i] % 2 == 0
    ensures !CompletedByOnes(bits, d, coded, i)
  {
    var code := CodeBits(bits, d, i);
    assert !code[|code| - 1];
  }

  /** With no coded bit left, decoding finds no code exactly when the code is
      incomplete; a complete code reads the ones as its last symbol. */
  lemma EmptyScanIsRefusedExactly(t: SymbolTable, bits: seq<nat>, a: Ahead)
    requires IsBits(bits) && SymbolTableFor(t, bits) && Usable(t) && Sufficient(a)
    requires a.coded == [] && a.padding
    ensures DecodeAhead(t, a).0 == Err(CodeNotFound) <==> Kraft(Sizes(bits)) < CODE_SPACE
    ensures DecodeAhead(t, a).0.Ok? <==> Kraft(Sizes(bits)) == CODE_SPACE
  {
    assert Window(a) == Ones(MAX_LENGTH);
    ValueOfOnes(MAX_LENGTH);
    SixteenBits();
    FastTableRefinesDecode(t, bits, a);
    DecodeInvertsCodes(bits, t.canonical, Value(Window(a)));
  }

  /** One code of one bit and two of three: 0, 100 and 101. */
  const INCOMPLETE: seq<nat> := [1, 0, 2] + Repeat(0, 13)

  /** Two codes of one bit: 0 and 1. */
  const COMPLETE: seq<nat> := [2] + Repeat(0, 15)

  lemma {:induction false} NoCodesBehind(bits: seq<nat>, k: nat)
    requires k <= |bits| && forall i :: k <= i < |bits| ==> bits[i] == 0
    ensures Total(bits) == Total(bits[..k]) && Sizes(bits) == Sizes(bits[..k])
    decreases |bits|
  {
    if k == |bits| {
      assert bits[..k] == bits;
    } else {
      var init := bits[..|bits| - 1];
      NoCodesBehind(init, k);
      assert init[..k] == bits[..k];
    }
  }

  lemma FirstLength(bits: seq<nat>)
    requires bits != []
    ensures Sizes(bits[..1]) == Repeat(1, bits[0]) && Total(bits[..1]) == bits[0]
  {
    LengthStarts(bits, 1);
    assert Total(bits[..0]) == 0 && Sizes(bits[..0]) == [];
    hide Sizes, Total;
    assert [] + Repeat(1, bits[0]) == Repeat(1, bits[0]);
  }

  /** The lengths of a table that has none above three. */
  lemma ShortSizes(bits: seq<nat>)
    requires |bits| == MAX_LENGTH && forall i :: 3 <= i < |bits| ==> bits[i] == 0
    ensures Sizes(bits) == Repeat(1, bits[0]) + Repeat(2, bits[1]) + Repeat(3, bits[2])
    ensures Total(bits) == bits[0] + bits[1] + bits[2]
  {
    hide Sizes, Total, Repeat;
    NoCodesBehind(bits, 3);
    FirstLength(bits);
    LengthStarts(bits, 2);
    LengthStarts(bits, 3);
  }

  lemma ShortWeights()
    ensures Weight(1) == 32768 && Weight(3) == 8192
  {
    WeightHalves(1);
    WeightHalves(2);
    PowersOfLengths(1);
  }

  lemma IncompleteSizes()
    ensures IsBits(INCOMPLETE) && Total(INCOMPLETE) == 3 && Sizes(INCOMPLETE) == [1, 3, 3]
    ensures Kraft(Sizes(INCOMPLETE)[..2]) == 40960 && Kraft(Sizes(INCOMPLETE)) == 49152
  {
    hide Kraft, Weight, Sizes, Total;
    ShortSizes(INCOMPLETE);
    ShortWeights();
    var sizes := Sizes(INCOMPLETE);
    EmptyKraft(sizes);
    KraftSnoc(sizes, 0);
    KraftSnoc(sizes, 1);
    KraftSnoc(sizes, 2);
    assert sizes[..3] == sizes;
  }

  lemma EmptyKraft(sizes: seq<nat>)
    ensures Kraft(sizes[..0]) == 0
  {
  }

  lemma CompleteSizes()
    ensures IsBits(COMPLETE) && Total(COMPLETE) == 2 && Sizes(COMPLETE) == [1, 1]
    ensures Kraft(Sizes(COMPLETE)[..1]) == 32768
  {
    hide Kraft, Weight, Sizes, Total;
    ShortSizes(COMPLETE);
    ShortWeights();
    EmptyKraft(Sizes(COMPLETE));
    KraftSnoc(Sizes(COMPLETE), 0);
  }

  /** The code that what is left completes to is the one that is read. */
  lemma CompletedCodeIsRead(t: SymbolTable, bits: seq<nat>, a: Ahead, i: nat)
    requires IsBits(bits) && SymbolTableFor(t, bits) && Usable(t) && Sufficient(a) && a.padding
    requires i < Total(bits) && CompletedByOnes(bits, t.canonical, a.coded, i)
    ensures Overreads(t, a) && DecodeAhead(t, a).0 == Ok(t.values[i])
  {
    hide DecodeAhead, BitsTaken, CompletedByOnes;
    OnlyCompleted(bits, t.canonical, a, i);
    TakesTheCode(t, bits, a, i);
  }

  /** The two bits 1 0 at the end of a scan are read as the code 101, although
      the code is incomplete. */
  lemma IncompleteCodeOverreads(t: SymbolTable)
    requires IsBits(INCOMPLETE) && SymbolTableFor(t, INCOMPLETE) && Usable(t)
    ensures Kraft(Sizes(INCOMPLETE)) < CODE_SPACE && |t.values| == 3
    ensures var a := Ahead([true, false], 0, true); Overreads(t, a) && DecodeAhead(t, a).0 == Ok(t.values[2])
  {
    var a := Ahead([true, false], 0, true);
    IncompleteSizes();
    LastOfThree(t.canonical);
    CompletedCodeIsRead(t, INCOMPLETE, a, 2);
  }

  lemma LastOfThree(d: Derivation)
    requires IsBits(INCOMPLETE) && HasCodes(INCOMPLETE, d)
    ensures Total(INCOMPLETE) == 3 && CompletedByOnes(INCOMPLETE, d, [true, false], 2)
  {
    IncompleteSizes();
    ShortWeights();
    hide Kraft, Weight, Sizes, Total;
    assert d.huffcode[2] * Weight(Sizes(INCOMPLETE)[2]) == Kraft(Sizes(INCOMPLETE)[..2]);
    assert Bits(d.huffcode[2], Sizes(INCOMPLETE)[2]) == [true, false, true];
  }

  /** Even with nothing left, a complete code reads its all-ones code. */
  lemma CompleteCodeOverreads(t: SymbolTable)
    requires IsBits(COMPLETE) && SymbolTableFor(t, COMPLETE) && Usable(t)
    ensures |t.values| == 2 && Overreads(t, Ahead([], 0, true)) && DecodeAhead(t, Ahead([], 0, true)).0 == Ok(t.values[1])
  {
    CompleteSizes();
    LastOfTwo(t.canonical);
    CompletedCodeIsRead(t, COMPLETE, Ahead([], 0, true), 1);
  }

  lemma LastOfTwo(d: Derivation)
    requires IsBits(COMPLETE) && HasCodes(COMPLETE, d)
    ensures Total(COMPLETE) == 2 && CompletedByOnes(COMPLETE, d, [], 1)
  {
    CompleteSizes();
    ShortWeights();
    hide Kraft, Weight, Sizes, Total;
    assert d.huffcode[1] * Weight(Sizes(COMPLETE)[1]) == Kraft(Sizes(COMPLETE)[..1]);
    assert Bits(d.huffcode[1], Sizes(COMPLETE)[1]) == [true];
  }

  // ----- round trip -----

  predicate AreSymbols(bits: seq<nat>, symbols: seq<nat>) {
    forall k :: 0 <= k < |symbols| ==> symbols[k] < Total(bits)
  }

  /** The concatenated codes of a sequence of value indices. */
  function Encode(bits: seq<nat>, d: Derivation, symbols: seq<nat>): seq<bool>
    requires AreSymbols(bits, symbols) && Total(bits) <= |d.huffcode|
  {
    if symbols == [] then [] else CodeBits(bits, d, symbols[0]) + Encode(bits, d, symbols[1..])
  }

  function DecodeMany(t: SymbolTable, a: Ahead, count: nat): (Result<seq<nat>, Failure>, Ahead)
    requires Usable(t)
    decreases count
  {
    if count == 0 then (Ok([]), a)
    else
      var (r, b) := DecodeAhead(t, a);
      match r
      case Err(e) => (Err(e), b)
      case Ok(value) =>
        var (rs, c) := DecodeMany(t, b, count - 1);
        match rs
        case Err(e) => (Err(e), c)
        case Ok(values) => (Ok([value] + values), c)
  }

  function ValuesOf(values: seq<nat>, symbols: seq<nat>): seq<nat>
    requires forall k :: 0 <= k < |symbols| ==> symbols[k] < |values|
  {
    if symbols == [] then [] else [values[symbols[0]]] + ValuesOf(values, symbols[1..])
  }

  /** `a` holds `coded` and nothing else but, perhaps, padding. */
  ghost predicate Holds(a: Ahead, coded: seq<bool>, padding: bool) {
    a.coded == coded && a.padding == padding && (a.synthetic > 0 ==> padding)
  }

  lemma DecodeOne(t: SymbolTable, bits: seq<nat>, a: Ahead, i: nat, tail: seq<bool>, padding: bool)
    requires IsBits(bits) && SymbolTableFor(t, bits) && i < Total(bits)
    requires Holds(a, CodeBits(bits, t.canonical, i) + tail, padding) && (padding || |tail| >= MAX_LENGTH)
    ensures Usable(t) && DecodeAhead(t, a).0 == Ok(t.values[i]) && Holds(DecodeAhead(t, a).1, tail, padding)
  {
    TableUsable(t, bits);
    var code := CodeBits(bits, t.canonical, i);
    DecodeFollowsWindow(t, bits, a);
    WindowBegins(a, code, tail);
    PrefixIsCovered(bits, t.canonical, i, Window(a));
    hide DecodeAhead, Covers, Window, Value, CodeBits, Follows;
    FollowsFinds(t, bits, a, i, DecodeAhead(t, a));
    assert (code + tail)[|code|..] == tail;
  }

  lemma WindowBegins(a: Ahead, code: seq<bool>, tail: seq<bool>)
    requires a.coded == code + tail && |code| <= MAX_LENGTH
    ensures code <= Window(a)
  {
    assert Window(a)[..|code|] == code;
  }

  lemma FollowsFinds(t: SymbolTable, bits: seq<nat>, a: Ahead, i: nat, out: (Result<nat, Failure>, Ahead))
    requires IsBits(bits) && HasCodes(bits, t.canonical) && i < Total(bits) == |t.values|
    requires Covers(bits, t.canonical, i, Value(Window(a))) && Follows(t, bits, a, out)
    ensures Finds(t, bits, a, i, out)
  {
    hide Covers, Window, Value, Finds;
    CodesPartitionWindows(bits, t.canonical, Value(Window(a)));
  }

  /** Decoding the concatenated codes of any sequence of symbols gives back its
      values and leaves exactly what followed the codes, provided padding is
      allowed behind it or at least 16 bits follow. */
  lemma {:induction false} DecodeInvertsEncode(t: SymbolTable, bits: seq<nat>, a: Ahead, symbols: seq<nat>, tail: seq<bool>, padding: bool)
    requires IsBits(bits) && SymbolTableFor(t, bits) && AreSymbols(bits, symbols)
    requires Holds(a, Encode(bits, t.canonical, symbols) + tail, padding) && (padding || |tail| >= MAX_LENGTH)
    ensures Usable(t)
    ensures DecodeMany(t, a, |symbols|).0 == Ok(ValuesOf(t.values, symbols))
    ensures Holds(DecodeMany(t, a, |symbols|).1, tail, padding)
    decreases |symbols|
  {
    TableUsable(t, bits);
    if symbols == [] {
      assert Encode(bits, t.canonical, symbols) + tail == tail;
    } else {
      var rest := Encode(bits, t.canonical, symbols[1..]) + tail;
      assert Encode(bits, t.canonical, symbols) + tail == CodeBits(bits, t.canonical, symbols[0]) + rest;
      DecodeOne(t, bits, a, symbols[0], rest, padding);
      DecodeInvertsEncode(t, bits, DecodeAhead(t, a).1, symbols[1..], tail, padding);
    }
  }
}
