/** The encoder's side of a Huffman table: a second, independent derivation of
    the codes, which counts in 16 bits and shifts between lengths. */
module HuffmanEncoder {
  import opened Options
  import opened Powers
  import opened BitStream
  import opened HuffmanCodes
  import opened HuffmanDerivation
  import opened HuffmanScan
  import opened HuffmanTable

  const SYMBOLS: nat := 256

  /** One code and length per symbol; length zero means there is none. */
  datatype EncoderTable = EncoderTable(codes: seq<nat>, lens: seq<nat>)

  /** The last of the first `k` values that is `s` has the canonical code `code`. */
  ghost predicate CodeOf(sizes: seq<nat>, values: seq<nat>, k: nat, s: nat, code: nat, len: nat)
    requires k <= |sizes| && k <= |values|
  {
    exists i :: 0 <= i < k && values[i] == s && LastOf(values, k, i) && CanonicalCode(sizes, i, code, len)
  }

  predicate LastOf(values: seq<nat>, k: nat, i: nat)
    requires i < k <= |values|
  {
    forall j :: i < j < k ==> values[j] != values[i]
  }

  /** The canonical number of code `i`: what the codes before it fill up, in
      units of its own length. */
  function CodeNumber(sizes: seq<nat>, i: nat): nat
    requires i < |sizes|
  {
    Quotient(Kraft(sizes[..i]), Weight(sizes[i]))
  }

  /** Its number, of which the 16-bit counter keeps the low bits. */
  ghost predicate CanonicalCode(sizes: seq<nat>, i: nat, code: nat, len: nat)
    requires i < |sizes|
  {
    len == sizes[i] && code == CodeNumber(sizes, i) % CODE_SPACE
  }

  ghost predicate EntryOf(sizes: seq<nat>, values: seq<nat>, k: nat, s: nat, code: nat, len: nat)
    requires k <= |sizes| && k <= |values|
  {
    if len == 0 then code == 0 && s !in values[..k] else CodeOf(sizes, values, k, s, code, len)
  }

  ghost predicate Entries(sizes: seq<nat>, values: seq<nat>, k: nat, codes: seq<nat>, lens: seq<nat>)
    requires k <= |sizes| && k <= |values|
  {
    |codes| == |lens| == 256 && forall s :: 0 <= s < 256 ==> EntryOf(sizes, values, k, s, codes[s], lens[s])
  }

  ghost predicate EncoderTableFor(e: EncoderTable, bits: seq<nat>, values: seq<nat>)
    requires IsBits(bits)
  {
    |values| == Total(bits) && Entries(Sizes(bits), values, Total(bits), e.codes, e.lens)
  }

  lemma EntryAdded(sizes: seq<nat>, values: seq<nat>, k: nat, codes: seq<nat>, lens: seq<nat>, code: nat)
    requires k < |sizes| && k < |values| && values[k] < SYMBOLS && sizes[k] > 0
    requires Entries(sizes, values, k, codes, lens) && CanonicalCode(sizes, k, code, sizes[k])
    ensures Entries(sizes, values, k + 1, codes[values[k] := code], lens[values[k] := sizes[k]])
  {
  }

  /** `number` of the codes of length `len` fill what the first `idx` codes do. */
  ghost predicate NumberAt(sizes: seq<nat>, idx: nat, len: nat, number: nat)
    requires idx <= |sizes|
  {
    number * Weight(len) == Kraft(sizes[..idx])
  }

  lemma NextWeight(number: nat, w: nat)
    ensures (number + 1) * w == number * w + w
  {
  }

  lemma NumberIsCode(sizes: seq<nat>, idx: nat, number: nat)
    requires idx < |sizes| && NumberAt(sizes, idx, sizes[idx], number)
    ensures CodeNumber(sizes, idx) == number
    ensures NumberAt(sizes, idx + 1, sizes[idx], number + 1)
  {
    KraftSnoc(sizes, idx);
    hide Kraft, Weight;
    NextWeight(number, Weight(sizes[idx]));
    DivMul(number, Weight(sizes[idx]), 0);
  }

  /** What the running 16-bit `code` is after `idx` codes: the number at length
      `len`, less its bits from the 17th on. */
  ghost predicate Running(sizes: seq<nat>, idx: nat, len: nat, code: nat)
    requires idx <= |sizes|
  {
    exists number: nat :: NumberAt(sizes, idx, len, number) && code == number % CODE_SPACE
  }

  lemma NumberShifts(sizes: seq<nat>, idx: nat, len: nat, number: nat)
    requires idx <= |sizes| && len < MAX_LENGTH && NumberAt(sizes, idx, len, number)
    ensures NumberAt(sizes, idx, len + 1, 2 * number)
  {
    WeightHalves(len);
    DoubleLeft(number, Weight(len + 1));
  }

  lemma DoubleWraps(number: nat, code: nat)
    requires code == number % CODE_SPACE
    ensures (code * 2) % CODE_SPACE == (2 * number) % CODE_SPACE
  {
  }

  lemma NextLength(sizes: seq<nat>, idx: nat, len: nat, code: nat)
    requires idx <= |sizes| && len < MAX_LENGTH && Running(sizes, idx, len, code)
    ensures Running(sizes, idx, len + 1, (code * 2) % CODE_SPACE)
  {
    var number: nat :| NumberAt(sizes, idx, len, number) && code == number % CODE_SPACE;
    NumberShifts(sizes, idx, len, number);
    DoubleWraps(number, code);
  }

  lemma NextRunning(sizes: seq<nat>, idx: nat, code: nat)
    requires idx < |sizes| && Running(sizes, idx, sizes[idx], code)
    ensures CanonicalCode(sizes, idx, code, sizes[idx])
    ensures code + 1 < CODE_SPACE ==> Running(sizes, idx + 1, sizes[idx], code + 1)
  {
    hide NumberAt, CodeNumber;
    var number: nat :| NumberAt(sizes, idx, sizes[idx], number) && code == number % CODE_SPACE;
    NumberIsCode(sizes, idx, number);
    assert code + 1 < CODE_SPACE ==> (number + 1) % CODE_SPACE == code + 1;
  }

  /** The counter can step behind each of the first `k` codes. */
  predicate Steps(sizes: seq<nat>, k: nat)
    requires k <= |sizes|
  {
    forall i :: 0 <= i < k ==> CodeNumber(sizes, i) % CODE_SPACE != CODE_SPACE - 1
  }

  /** Enters `count` symbols of length `len`, the ones from `first`. */
  method EnterLength(ghost sizes: seq<nat>, values: seq<nat>, len: nat, count: nat, start: nat, first: nat, codes: array<nat>, lens: array<nat>)
    returns (ok: bool, code: nat)
    requires IsValues(values) && 1 <= len <= MAX_LENGTH && first <= |values| && start < CODE_SPACE
    requires codes.Length == lens.Length == SYMBOLS && codes != lens
    requires first + count <= |sizes| && forall k :: first <= k < first + count ==> sizes[k] == len
    requires Running(sizes, first, len, start) && Entries(sizes, values, first, codes[..], lens[..]) && Steps(sizes, first)
    modifies codes, lens
    ensures ok <==> first + count <= |values| && Steps(sizes, first + count)
    ensures ok ==> code < CODE_SPACE && Running(sizes, first + count, len, code)
    ensures ok ==> Entries(sizes, values, first + count, codes[..], lens[..])
  {
    hide Running, Entries, CodeNumber;
    code := start;
    var idx := first;
    for j := 0 to count
      invariant idx == first + j <= |values| && code < CODE_SPACE
      invariant Running(sizes, idx, len, code) && Entries(sizes, values, idx, codes[..], lens[..]) && Steps(sizes, idx)
    {
      if idx >= |values| {
        return false, code;
      }
      NextRunning(sizes, idx, code);
      EnterSymbol(sizes, values, len, idx, code, codes, lens);
      if code + 1 >= CODE_SPACE {
        return false, code;
      }
      code := code + 1;
      idx := idx + 1;
    }
    return true, code;
  }

  method EnterSymbol(ghost sizes: seq<nat>, values: seq<nat>, len: nat, idx: nat, code: nat, codes: array<nat>, lens: array<nat>)
    requires IsValues(values) && codes.Length == lens.Length == SYMBOLS && codes != lens
    requires idx < |values| && idx < |sizes| && sizes[idx] == len > 0
    requires Entries(sizes, values, idx, codes[..], lens[..]) && CanonicalCode(sizes, idx, code, len)
    modifies codes, lens
    ensures Entries(sizes, values, idx + 1, codes[..], lens[..])
  {
    EntryAdded(sizes, values, idx, codes[..], lens[..], code);
    ghost var codesBefore, lensBefore := codes[..], lens[..];
    codes[values[idx]] := code;
    lens[values[idx]] := len;
    assert codes[..] == codesBefore[values[idx] := code] && lens[..] == lensBefore[values[idx] := len];
  }

  lemma NothingEntered(sizes: seq<nat>, values: seq<nat>, codes: seq<nat>, lens: seq<nat>)
    requires |codes| == |lens| == 256 && forall s :: 0 <= s < 256 ==> codes[s] == lens[s] == 0
    ensures Running(sizes, 0, 1, 0) && Entries(sizes, values, 0, codes, lens)
  {
    assert NumberAt(sizes, 0, 1, 0);
  }

  /** The table has, for every symbol, the canonical code of its last occurrence,
      as far as 16 bits hold it.  It is refused exactly when the counts do not
      match or some code is all ones in 16 bits, behind which the counter cannot
      step. */
  method EncodeHuffmanTable(bits: seq<nat>, values: seq<nat>) returns (r: Option<EncoderTable>)
    requires IsBits(bits) && IsValues(values)
    ensures r.Some? <==> Total(bits) == |values| && Steps(Sizes(bits), Total(bits))
    ensures r.Some? ==> EncoderTableFor(r.value, bits, values)
  {
    hide Kraft, Weight, Running, Entries, CodeNumber;
    var codes := new nat[SYMBOLS](_ => 0);
    var lens := new nat[SYMBOLS](_ => 0);
    ghost var sizes := Sizes(bits);
    var code: nat := 0;
    var idx: nat := 0;
    NothingEntered(sizes, values, codes[..], lens[..]);
    for lenMinus1 := 0 to MAX_LENGTH
      invariant idx == Total(bits[..lenMinus1]) <= |values| && code < CODE_SPACE && idx <= Total(bits)
      invariant Entries(sizes, values, idx, codes[..], lens[..]) && Steps(sizes, idx)
      invariant lenMinus1 < MAX_LENGTH ==> Running(sizes, idx, lenMinus1 + 1, code)
    {
      var len := lenMinus1 + 1;
      LengthRange(bits, len);
      var ok, next := EnterLength(sizes, values, len, bits[lenMinus1], code, idx, codes, lens);
      if !ok {
        return None;
      }
      idx := idx + bits[lenMinus1];
      if len < MAX_LENGTH {
        NextLength(sizes, idx, len, next);
      }
      code := (next * 2) % CODE_SPACE;
    }
    assert bits[..MAX_LENGTH] == bits;
    if idx != |values| {
      return None;
    }
    return Some(EncoderTable(codes[..], lens[..]));
  }

  // ----- under the Kraft inequality -----

  lemma CodeIsNumber(sizes: seq<nat>, i: nat, code: nat)
    requires i < |sizes| && code * Weight(sizes[i]) == Kraft(sizes[..i])
    ensures code == CodeNumber(sizes, i)
  {
    NumberIsCode(sizes, i, code);
  }

  /** A code of fewer than 16 bits, or with room behind it, is not all ones in
      16 bits. */
  lemma AllOnesIsLast(sizes: seq<nat>, i: nat, code: nat)
    requires i < |sizes| && 1 <= sizes[i] <= MAX_LENGTH && Kraft(sizes) <= CODE_SPACE
    requires code * Weight(sizes[i]) == Kraft(sizes[..i])
    ensures code < CODE_SPACE
    ensures code == CODE_SPACE - 1 ==> sizes[i] == MAX_LENGTH && Kraft(sizes) == CODE_SPACE
  {
    var size := sizes[i];
    KraftSnoc(sizes, i);
    KraftMonotone(sizes, i + 1, |sizes|);
    assert sizes[..|sizes|] == sizes;
    FitsExactly(code, size, Kraft(sizes[..i]));
    PowersOfLengths(size);
    if size < MAX_LENGTH {
      Pow2Monotone(size, MAX_LENGTH);
      SixteenBits();
    }
  }

  lemma CodeUnderKraft(bits: seq<nat>, d: Derivation, i: nat)
    requires IsBits(bits) && HasCodes(bits, d) && i < Total(bits)
    ensures CodeNumber(Sizes(bits), i) == d.huffcode[i] < CODE_SPACE
    ensures d.huffcode[i] == CODE_SPACE - 1 ==> Sizes(bits)[i] == MAX_LENGTH && Kraft(Sizes(bits)) == CODE_SPACE
    ensures Sizes(bits)[i] == MAX_LENGTH ==> bits[MAX_LENGTH - 1] > 0
  {
    hide Kraft, Weight, CodeNumber;
    var sizes := Sizes(bits);
    assert d.huffcode[i] * Weight(sizes[i]) == Kraft(sizes[..i]);
    CodeIsNumber(sizes, i, d.huffcode[i]);
    AllOnesIsLast(sizes, i, d.huffcode[i]);
    LengthRange(bits, MAX_LENGTH);
    SizesOfLength(bits, MAX_LENGTH, i);
  }

  lemma StuckCodeIsLast(bits: seq<nat>, d: Derivation, i: nat)
    requires IsBits(bits) && HasCodes(bits, d) && i < Total(bits)
    requires CodeNumber(Sizes(bits), i) % CODE_SPACE == CODE_SPACE - 1
    ensures bits[MAX_LENGTH - 1] > 0 && Kraft(Sizes(bits)) == CODE_SPACE
  {
    CodeUnderKraft(bits, d, i);
    hide Kraft, CodeNumber, Sizes, Total, HasCodes;
  }

  /** Under the Kraft inequality the counter gets stuck exactly on a complete
      code that has codes of 16 bits, which no decoder would refuse. */
  lemma RefusedUnderKraftExactly(bits: seq<nat>, d: Derivation)
    requires IsBits(bits) && HasCodes(bits, d)
    ensures !Steps(Sizes(bits), Total(bits)) <==> bits[MAX_LENGTH - 1] > 0 && Kraft(Sizes(bits)) == CODE_SPACE
  {
    hide Kraft, CodeNumber, Sizes, Total, HasCodes;
    if bits[MAX_LENGTH - 1] > 0 && Kraft(Sizes(bits)) == CODE_SPACE {
      LastCodeIsAllOnes(bits, d);
    }
    if i :| 0 <= i < Total(bits) && CodeNumber(Sizes(bits), i) % CODE_SPACE == CODE_SPACE - 1 {
      StuckCodeIsLast(bits, d, i);
    }
  }

  lemma LastCodeIsAllOnes(bits: seq<nat>, d: Derivation)
    requires IsBits(bits) && HasCodes(bits, d) && bits[MAX_LENGTH - 1] > 0 && Kraft(Sizes(bits)) == CODE_SPACE
    ensures Total(bits) > 0 && CodeNumber(Sizes(bits), Total(bits) - 1) == CODE_SPACE - 1
  {
    hide Kraft, Weight, CodeNumber;
    var sizes, n := Sizes(bits), Total(bits);
    assert bits[..MAX_LENGTH] == bits;
    LengthRange(bits, MAX_LENGTH);
    assert d.huffcode[n - 1] * Weight(sizes[n - 1]) == Kraft(sizes[..n - 1]);
    LastOfFullSpace(sizes, d.huffcode[n - 1]);
    CodeUnderKraft(bits, d, n - 1);
  }

  lemma LastOfFullSpace(sizes: seq<nat>, code: nat)
    requires sizes != [] && sizes[|sizes| - 1] == MAX_LENGTH && Kraft(sizes) == CODE_SPACE
    requires code * Weight(sizes[|sizes| - 1]) == Kraft(sizes[..|sizes| - 1])
    ensures code == CODE_SPACE - 1
  {
    assert Weight(MAX_LENGTH) == 1;
  }

  /** The bits written for a symbol, if it has a code. */
  function SymbolBits(e: EncoderTable, s: nat): Option<seq<bool>>
    requires |e.codes| == |e.lens| == SYMBOLS && s < SYMBOLS
  {
    if e.lens[s] == 0 then None else Some(Bits(e.codes[s], e.lens[s]))
  }

  lemma CodeOfSymbol(e: EncoderTable, bits: seq<nat>, values: seq<nat>, s: nat) returns (i: nat)
    requires IsBits(bits) && EncoderTableFor(e, bits, values) && s < SYMBOLS && e.lens[s] != 0
    ensures |e.codes| == |e.lens| == SYMBOLS && i < Total(bits) && i < |values| && values[i] == s
    ensures CanonicalCode(Sizes(bits), i, e.codes[s], e.lens[s])
  {
    hide CanonicalCode;
    assert EntryOf(Sizes(bits), values, Total(bits), s, e.codes[s], e.lens[s]);
    i :| 0 <= i < Total(bits) && values[i] == s && LastOf(values, Total(bits), i) && CanonicalCode(Sizes(bits), i, e.codes[s], e.lens[s]);
  }

  /** A number that fits is what the counter holds. */
  lemma CodeFitsCounter(sizes: seq<nat>, i: nat, code: nat, len: nat)
    requires i < |sizes| && CanonicalCode(sizes, i, code, len) && CodeNumber(sizes, i) < CODE_SPACE
    ensures len == sizes[i] && code == CodeNumber(sizes, i)
  {
    hide CodeNumber;
  }

  /** Both derivations give a symbol the same code. */
  lemma DerivationsAgree(e: EncoderTable, bits: seq<nat>, values: seq<nat>, d: Derivation, s: nat) returns (i: nat)
    requires IsBits(bits) && HasCodes(bits, d) && EncoderTableFor(e, bits, values) && s < SYMBOLS
    requires e.lens[s] != 0
    ensures i < Total(bits) && values[i] == s && SymbolBits(e, s) == Some(CodeBits(bits, d, i))
  {
    hide HasCodes, Entries, CodeNumber, CanonicalCode, Kraft, Total, Sizes, Bits;
    i := CodeOfSymbol(e, bits, values, s);
    CodeUnderKraft(bits, d, i);
    CodeFitsCounter(Sizes(bits), i, e.codes[s], e.lens[s]);
  }
}
