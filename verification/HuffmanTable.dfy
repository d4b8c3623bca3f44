/** The decoder built on a derivation: a table for the codes of at most 12 bits
    in front of a scan of the longer ones. */
module HuffmanTable {
  import opened Options
  import opened Powers
  import opened HuffmanCodes
  import opened HuffmanDerivation
  import opened HuffmanScan

  const FAST_BITS: nat := 12
  const FAST_ENTRIES: nat := 4096

  /** `len == 0` sends the caller to the scan. */
  datatype FastEntry = FastEntry(symbol: nat, len: nat)

  const NO_ENTRY := FastEntry(0, 0)

  datatype Failure = TableExhausted | CodeNotFound | InvalidSymbol

  /** What the symbol decoder keeps of a table. */
  datatype SymbolTable = SymbolTable(fast: seq<FastEntry>, canonical: Derivation, values: seq<nat>)

  predicate IsValues(values: seq<nat>) {
    forall i :: 0 <= i < |values| ==> values[i] < 256
  }

  /** The 12-bit look-ahead `p` begins with code `i`. */
  predicate CoversFast(bits: seq<nat>, d: Derivation, i: nat, p: nat)
    requires i < Total(bits) && i < |d.huffcode| && Sizes(bits)[i] <= FAST_BITS
  {
    p / Pow2(FAST_BITS - Sizes(bits)[i]) == d.huffcode[i]
  }

  ghost predicate IsFast(bits: seq<nat>, d: Derivation, i: nat, p: nat)
    requires i < Total(bits) && i < |d.huffcode|
  {
    Sizes(bits)[i] <= FAST_BITS && CoversFast(bits, d, i, p)
  }

  /** Entry `p` is right with respect to the first `k` codes. */
  ghost predicate EntryFor(bits: seq<nat>, d: Derivation, values: seq<nat>, k: nat, p: nat, entry: FastEntry)
    requires k <= Total(bits) <= |d.huffcode| && |values| == Total(bits)
  {
    && (forall i :: 0 <= i < k && IsFast(bits, d, i, p) ==> entry == FastEntry(values[i], Sizes(bits)[i]))
    && ((forall i :: 0 <= i < k ==> !IsFast(bits, d, i, p)) ==> entry == NO_ENTRY)
  }

  ghost predicate FastFilled(bits: seq<nat>, d: Derivation, values: seq<nat>, k: nat, fast: seq<FastEntry>)
    requires k <= Total(bits) <= |d.huffcode| && |values| == Total(bits)
  {
    |fast| == 4096 && forall p :: 0 <= p < 4096 ==> EntryFor(bits, d, values, k, p, fast[p])
  }

  ghost predicate SymbolTableFor(t: SymbolTable, bits: seq<nat>)
    requires IsBits(bits)
  {
    && IsDerivation(bits, t.canonical)
    && |t.values| == Total(bits) && IsValues(t.values)
    && FastFilled(bits, t.canonical, t.values, Total(bits), t.fast)
  }

  // ----- building the table -----

  lemma Regroup(h: nat, b: nat, s: nat, a: nat)
    ensures (h * b + s) * a == h * (a * b) + s * a
  {
  }

  lemma NestedQuotient(w: nat, a: nat, b: nat, q: nat, r: nat, h: nat, s: nat)
    requires w == q * a + r && r < a
    requires q == h * b + s && s < b
    ensures w / (a * b) == h
  {
    Regroup(h, b, s, a);
    RoomBelow(s, b, a);
    DivMul(h, a * b, s * a + r);
  }

  lemma QuotientOfQuotient(w: nat, a: nat, b: nat)
    requires a >= 1 && b >= 1
    ensures w / (a * b) == (w / a) / b
  {
    var q := w / a;
    NestedQuotient(w, a, b, q, w % a, q / b, q % b);
  }

  lemma FastIsCover(bits: seq<nat>, d: Derivation, i: nat, w: nat)
    requires IsBits(bits) && i < Total(bits) && i < |d.huffcode| && Sizes(bits)[i] <= FAST_BITS
    ensures CoversFast(bits, d, i, w / 16) <==> Covers(bits, d, i, w)
  {
    var size := Sizes(bits)[i];
    SixteenBits();
    Pow2Add(4, FAST_BITS - size);
    QuotientOfQuotient(w, 16, Pow2(FAST_BITS - size));
  }

  /** No look-ahead begins with two codes. */
  lemma FastAtMostOne(bits: seq<nat>, d: Derivation, i: nat, j: nat, p: nat)
    requires IsBits(bits) && HasCodes(bits, d) && i < Total(bits) && j < Total(bits)
    requires IsFast(bits, d, i, p) && IsFast(bits, d, j, p)
    ensures i == j
  {
    assert (16 * p) / 16 == p;
    FastIsCover(bits, d, i, 16 * p);
    FastIsCover(bits, d, j, 16 * p);
    AtMostOneCodeCovers(bits, d, i, j, 16 * p);
  }

  lemma FastRange(bits: seq<nat>, d: Derivation, k: nat, p: nat)
    requires IsBits(bits) && HasCodes(bits, d) && k < Total(bits) && Sizes(bits)[k] <= FAST_BITS
    ensures var span := Pow2(FAST_BITS - Sizes(bits)[k]);
      && d.huffcode[k] * span + span <= FAST_ENTRIES
      && (IsFast(bits, d, k, p) <==> d.huffcode[k] * span <= p < d.huffcode[k] * span + span)
  {
    var size := Sizes(bits)[k];
    var span := Pow2(FAST_BITS - size);
    CodeFits(bits, d, k);
    Pow2Add(size, FAST_BITS - size);
    SixteenBits();
    RoomBelow(d.huffcode[k], Pow2(size), span);
    QuotientExactly(p, span, d.huffcode[k]);
  }

  /** Filling the range of code `k` extends the table by that code. */
  lemma EntryExtends(bits: seq<nat>, d: Derivation, values: seq<nat>, k: nat, p: nat, entry: FastEntry)
    requires IsBits(bits) && HasCodes(bits, d) && k < Total(bits) && |values| == Total(bits)
    requires EntryFor(bits, d, values, k, p, entry)
    ensures EntryFor(bits, d, values, k + 1, p, if IsFast(bits, d, k, p) then FastEntry(values[k], Sizes(bits)[k]) else entry)
  {
    if IsFast(bits, d, k, p) {
      forall i | 0 <= i < k + 1 && IsFast(bits, d, i, p) ensures i == k {
        FastAtMostOne(bits, d, i, k, p);
      }
    }
  }

  /** Writes `entry` over `count` slots. */
  method FillRange(fast: array<FastEntry>, base: nat, count: nat, entry: FastEntry)
    requires base + count <= fast.Length
    modifies fast
    ensures forall p :: 0 <= p < fast.Length ==> fast[p] == if base <= p < base + count then entry else old(fast[p])
  {
    for j := 0 to count
      invariant forall p :: 0 <= p < fast.Length ==> fast[p] == if base <= p < base + j then entry else old(fast[p])
    {
      fast[base + j] := entry;
    }
  }

  method FillCode(ghost bits: seq<nat>, d: Derivation, values: seq<nat>, k: nat, len: nat, fast: array<FastEntry>)
    requires IsBits(bits) && HasCodes(bits, d) && k < Total(bits) && |values| == Total(bits)
    requires len == Sizes(bits)[k] <= FAST_BITS
    requires FastFilled(bits, d, values, k, fast[..])
    modifies fast
    ensures FastFilled(bits, d, values, k + 1, fast[..])
  {
    var span := Pow2(FAST_BITS - len);
    var base := d.huffcode[k] * span;
    FastRange(bits, d, k, 0);
    ghost var before := fast[..];
    FillRange(fast, base, span, FastEntry(values[k], len));
    forall p | 0 <= p < FAST_ENTRIES ensures EntryFor(bits, d, values, k + 1, p, fast[..][p]) {
      assert EntryFor(bits, d, values, k, p, before[p]);
      FastRange(bits, d, k, p);
      EntryExtends(bits, d, values, k, p, before[p]);
    }
  }

  /** The codes longer than 12 bits do not concern the fast table. */
  lemma LongCodesLeaveFastAlone(bits: seq<nat>, d: Derivation, values: seq<nat>, fast: seq<FastEntry>)
    requires IsBits(bits) && HasCodes(bits, d) && |values| == Total(bits) && Total(bits[..FAST_BITS]) <= Total(bits)
    requires FastFilled(bits, d, values, Total(bits[..FAST_BITS]), fast)
    ensures FastFilled(bits, d, values, Total(bits), fast)
  {
    var k := Total(bits[..FAST_BITS]);
    forall i | k <= i < Total(bits) ensures Sizes(bits)[i] > FAST_BITS {
      SizesAbove(bits, FAST_BITS, i);
    }
    forall p | 0 <= p < FAST_ENTRIES ensures EntryFor(bits, d, values, Total(bits), p, fast[p]) {
      assert EntryFor(bits, d, values, k, p, fast[p]);
    }
  }

  method BuildFast(bits: seq<nat>, d: Derivation, values: seq<nat>) returns (fast: seq<FastEntry>)
    requires IsBits(bits) && HasCodes(bits, d) && |values| == Total(bits)
    ensures FastFilled(bits, d, values, Total(bits), fast)
  {
    var table := new FastEntry[FAST_ENTRIES](_ => NO_ENTRY);
    var k := 0;
    for lenMinus1 := 0 to FAST_BITS
      invariant k == Total(bits[..lenMinus1]) <= Total(bits)
      invariant FastFilled(bits, d, values, k, table[..])
    {
      var len := lenMinus1 + 1;
      LengthRange(bits, len);
      for j := 0 to bits[lenMinus1]
        invariant k == Total(bits[..lenMinus1]) + j <= Total(bits)
        invariant FastFilled(bits, d, values, k, table[..])
      {
        FillCode(bits, d, values, k, len, table);
        k := k + 1;
      }
    }
    LongCodesLeaveFastAlone(bits, d, values, table[..]);
    fast := table[..];
  }

  /** Every error of the derivation reaches the caller as a code overflow. */
  method BuildSymbolTable(bits: seq<nat>, values: seq<nat>) returns (r: Option<SymbolTable>)
    requires IsBits(bits) && IsValues(values)
    ensures r.Some? <==> |values| <= 256 && Total(bits) == |values| && Kraft(Sizes(bits)) <= 0x1_0000
    ensures r.Some? ==> SymbolTableFor(r.value, bits) && r.value.values == values
  {
    var canonical := DeriveCanonicalHuffman(bits, |values|);
    if canonical.Err? {
      return None;
    }
    var fast := BuildFast(bits, canonical.value, values);
    return Some(SymbolTable(fast, canonical.value, values));
  }
}
