/** Which symbols a block asks its tables for, in the numbers of ITU-T T.81
    (section F.1.2): an AC symbol is 16 times the zeros before a coefficient plus
    its category, 0xF0 stands for sixteen zeros and 0x00 ends a block. */
module JpegSymbols {
  import opened Options
  import opened HuffmanEncoder
  import opened HuffmanFastPath
  import opened Powers
  import opened JpegMagnitude
  import opened JpegBlock

  // ----- the code of a block, coefficient by coefficient -----

  function NextNonzero(block: seq<int>, k: nat): (p: nat)
    requires k <= |block|
    ensures k <= p <= |block| && (forall j :: k <= j < p ==> block[j] == 0) && (p < |block| ==> block[p] != 0)
    decreases |block| - k
  {
    if k == |block| || block[k] != 0 then k else NextNonzero(block, k + 1)
  }

  function ZeroRuns(e: EncoderTable, n: nat, rest: Coded): Coded
    requires IsEncoder(e)
  {
    if n == 0 then rest else Then(Symbol(e, 0xF0), ZeroRuns(e, n - 1, rest))
  }

  /** The coefficients from `k` on: for each that is not zero the runs of sixteen
      zeros before it, the symbol of the rest, and its magnitude bits. */
  function AcCode(e: EncoderTable, block: seq<int>, k: nat): Coded
    requires IsEncoder(e) && |block| == 64 && k <= 64 && AllShort(block, k)
    decreases 64 - k
  {
    var p := NextNonzero(block, k);
    if p == 64 then (if k < 64 then Symbol(e, 0x00) else Coded([], None))
    else
      var zeros := p - k;
      assert Short(block[p]);
      ZeroRuns(e, zeros / 16,
        Then(SymbolAndMagnitude(e, 16 * (zeros % 16) + Category(block[p]), block[p]), AcCode(e, block, p + 1)))
  }

  lemma {:induction false} SkipsZeros(e: EncoderTable, block: seq<int>, from: nat, k: nat, p: nat)
    requires IsEncoder(e) && IsBlock(block) && from <= k <= p <= 64 && forall j :: k <= j < p ==> block[j] == 0
    ensures EncodeAc(e, block, from, k) == EncodeAc(e, block, from, p)
    decreases p - k
  {
    hide Symbol, SymbolAndMagnitude, Then;
    if k < p {
      SkipsZeros(e, block, from, k + 1, p);
    }
  }

  lemma {:induction false} RunsFirst(e: EncoderTable, block: seq<int>, from: nat, p: nat)
    requires IsEncoder(e) && IsBlock(block) && from <= p < 64 && block[p] != 0 && Short(block[p])
    ensures EncodeAc(e, block, from, p) == ZeroRuns(e, (p - from) / 16,
      Then(SymbolAndMagnitude(e, 16 * ((p - from) % 16) + Category(block[p]), block[p]), EncodeAc(e, block, p + 1, p + 1)))
    decreases p - from
  {
    hide Symbol, SymbolAndMagnitude, Then, Category;
    if p - from >= 16 {
      RunsFirst(e, block, from + 16, p);
    } else {
      CategoryOfI32(block[p]);
      SplitsRun(p - from, Category(block[p]));
    }
  }

  /** The encoder writes that. */
  lemma {:induction false} EncodeAcIsAcCode(e: EncoderTable, block: seq<int>, k: nat)
    requires IsEncoder(e) && IsBlock(block) && k <= 64 && AllShort(block, k)
    ensures EncodeAc(e, block, k, k) == AcCode(e, block, k)
    decreases 64 - k
  {
    hide Symbol, SymbolAndMagnitude, Then, Category, EncodeAc, ZeroRuns;
    var p := NextNonzero(block, k);
    SkipsZeros(e, block, k, k, p);
    if p < 64 {
      RunsFirst(e, block, k, p);
      EncodeAcIsAcCode(e, block, p + 1);
    } else {
      AtTheEnd(e, block, k);
    }
  }

  lemma AtTheEnd(e: EncoderTable, block: seq<int>, k: nat)
    requires IsEncoder(e) && IsBlock(block) && k <= 64
    ensures EncodeAc(e, block, k, 64) == if k < 64 then Symbol(e, 0x00) else Coded([], None)
  {
    hide Symbol;
  }

  // ----- the tables of a baseline encoder -----

  /** The DC table has codes for the categories up to 11. */
  predicate BaselineDcCodes(e: EncoderTable)
    requires IsEncoder(e)
  {
    forall s :: 0 <= s < 256 ==> (e.lens[s] != 0 <==> s <= 11)
  }

  /** The AC table has codes for the end of a block, for sixteen zeros, and for
      every run with a category from 1 to 10. */
  predicate BaselineAcCodes(e: EncoderTable)
    requires IsEncoder(e)
  {
    forall s :: 0 <= s < 256 ==> (e.lens[s] != 0 <==> s == 0x00 || s == 0xF0 || 1 <= s % 16 <= 10)
  }

  lemma {:induction false} RunsAreCovered(e: EncoderTable, n: nat, rest: Coded)
    requires IsEncoder(e) && BaselineAcCodes(e)
    ensures ZeroRuns(e, n, rest).missing == None <==> rest.missing == None
  {
    if n > 0 {
      RunsAreCovered(e, n - 1, rest);
    }
  }

  lemma ThenMissing(a: Coded, b: Coded)
    ensures Then(a, b).missing == None <==> a.missing == None && b.missing == None
  {
  }

  lemma CoefficientCovered(e: EncoderTable, run: nat, v: int)
    requires IsEncoder(e) && BaselineAcCodes(e) && run < 16 && v != 0 && Short(v)
    ensures SymbolAndMagnitude(e, 16 * run + Category(v), v).missing == None <==> -1024 < v < 1024
  {
    var s := 16 * run + Category(v);
    CategoryAtMost(v, 10);
    CategoryAtMost(v, 0);
    SplitsRun(run, Category(v));
    assert Pow2(10) == 1024 by { PowersUpTo15(10); }
  }

  lemma {:induction false} AcCovered(e: EncoderTable, block: seq<int>, k: nat)
    requires IsEncoder(e) && BaselineAcCodes(e) && |block| == 64 && k <= 64 && AllShort(block, k)
    ensures AcCode(e, block, k).missing == None <==> forall j :: k <= j < 64 ==> -1024 < block[j] < 1024
    decreases 64 - k
  {
    hide Symbol, SymbolAndMagnitude, BaselineAcCodes, ZeroRuns, Category, Then;
    var p := NextNonzero(block, k);
    if p < 64 {
      AcCovered(e, block, p + 1);
      var zeros := p - k;
      assert Short(block[p]);
      CoefficientCovered(e, zeros % 16, block[p]);
      var first, rest := SymbolAndMagnitude(e, 16 * (zeros % 16) + Category(block[p]), block[p]), AcCode(e, block, p + 1);
      ThenMissing(first, rest);
      RunsAreCovered(e, zeros / 16, Then(first, rest));
    } else if k < 64 {
      EndIsCovered(e);
    }
  }

  lemma EndIsCovered(e: EncoderTable)
    requires IsEncoder(e) && BaselineAcCodes(e)
    ensures Symbol(e, 0x00).missing == None
  {
  }

  /** With these tables a block is written without a missing code
      exactly if its DC difference lies in -2047..2047 and its AC coefficients in
      -1023..1023. */
  lemma CoveredExactly(dc: EncoderTable, ac: EncoderTable, previous: int, block: seq<int>)
    requires IsEncoder(dc) && IsEncoder(ac) && BaselineDcCodes(dc) && BaselineAcCodes(ac)
    requires IsBlock(block) && IsI32(block[0] - previous) && ShortBlock(previous, block)
    ensures EncodeBlock(dc, ac, previous, block).missing == None
      <==> -2048 < block[0] - previous < 2048 && forall k :: 1 <= k < 64 ==> -1024 < block[k] < 1024
  {
    hide EncodeAc, BaselineAcCodes, AcCode;
    EncodeAcIsAcCode(ac, block, 1);
    AcCovered(ac, block, 1);
    DcCovered(dc, block[0] - previous);
  }

  lemma DcCovered(e: EncoderTable, diff: int)
    requires IsEncoder(e) && BaselineDcCodes(e) && IsI32(diff)
    ensures EncodeDc(e, diff).missing == None <==> -2048 < diff < 2048
  {
    CategoryOfI32(diff);
    CategoryAtMost(diff, 11);
    assert Pow2(11) == 2048 by { PowersUpTo15(11); }
  }

  // ----- the end of a block -----

  predicate EndsIn(bits: seq<bool>, end: seq<bool>) {
    |end| <= |bits| && bits[|bits| - |end|..] == end
  }

  lemma ThenEndsIn(a: Coded, b: Coded, end: seq<bool>)
    requires Then(a, b).missing == None && EndsIn(b.bits, end)
    ensures EndsIn(Then(a, b).bits, end)
  {
  }

  lemma {:induction false} RunsEndIn(e: EncoderTable, n: nat, rest: Coded, end: seq<bool>)
    requires IsEncoder(e) && ZeroRuns(e, n, rest).missing == None && (rest.missing == None ==> EndsIn(rest.bits, end))
    ensures EndsIn(ZeroRuns(e, n, rest).bits, end)
  {
    hide EndsIn, Symbol;
    if n > 0 {
      RunsEndIn(e, n - 1, rest, end);
      ThenEndsIn(Symbol(e, 0xF0), ZeroRuns(e, n - 1, rest), end);
    }
  }

  lemma {:induction false} AcEndsIn(e: EncoderTable, block: seq<int>, k: nat)
    requires IsEncoder(e) && |block| == 64 && k < 64 && AllShort(block, k) && block[63] == 0
    requires AcCode(e, block, k).missing == None
    ensures SymbolBits(e, 0x00).Some? && EndsIn(AcCode(e, block, k).bits, SymbolBits(e, 0x00).value)
    decreases 64 - k
  {
    hide SymbolAndMagnitude, ZeroRuns, Category;
    var p := NextNonzero(block, k);
    if p < 64 {
      var zeros := p - k;
      assert Short(block[p]);
      var first, rest := SymbolAndMagnitude(e, 16 * (zeros % 16) + Category(block[p]), block[p]), AcCode(e, block, p + 1);
      RunsMissing(e, zeros / 16, Then(first, rest));
      AcEndsIn(e, block, p + 1);
      hide EndsIn, AcCode, SymbolBits;
      var end := SymbolBits(e, 0x00).value;
      ThenEndsIn(first, rest, end);
      RunsEndIn(e, zeros / 16, Then(first, rest), end);
    }
  }

  lemma {:induction false} RunsMissing(e: EncoderTable, n: nat, rest: Coded)
    requires IsEncoder(e) && ZeroRuns(e, n, rest).missing == None
    ensures rest.missing == None
  {
    hide Symbol;
    if n > 0 {
      RunsMissing(e, n - 1, rest);
    }
  }

  /** The code of a block whose last coefficient is zero ends in the code of
      symbol 0. */
  lemma EndsInSymbolZero(dc: EncoderTable, ac: EncoderTable, previous: int, block: seq<int>)
    requires IsEncoder(dc) && IsEncoder(ac) && IsBlock(block) && IsI32(block[0] - previous) && ShortBlock(previous, block)
    requires block[63] == 0 && EncodeBlock(dc, ac, previous, block).missing == None
    ensures SymbolBits(ac, 0).Some? && EndsIn(EncodeBlock(dc, ac, previous, block).bits, SymbolBits(ac, 0).value)
  {
    hide EncodeAc, EncodeDc, AcCode, SymbolBits, EndsIn;
    EncodeAcIsAcCode(ac, block, 1);
    AcEndsIn(ac, block, 1);
    ThenEndsIn(EncodeDc(dc, block[0] - previous), AcCode(ac, block, 1), SymbolBits(ac, 0).value);
  }
}
