/** The decode bounds invert the codes: scanning a 16-bit window with
    `max_code` and `val_offset` finds the one code the window begins with. */
module HuffmanScan {
  import opened Options
  import opened Powers
  import opened BitStream
  import opened HuffmanCodes

  /** A code of length `len` at value index `index`. */
  datatype Match = Match(index: int, len: nat)

  /** The DECODE procedure (section F.2.2.3) from length `len` on. */
  function Scan(d: Derivation, w: nat, len: nat): Option<Match>
    requires |d.maxCode| == |d.valOffset| == MAX_LENGTH + 1 && 1 <= len
    decreases MAX_LENGTH + 1 - len
  {
    if len > MAX_LENGTH then None
    else
      var c := w / Pow2(MAX_LENGTH - len);
      if c <= d.maxCode[len] then Some(Match(c + d.valOffset[len], len)) else Scan(d, w, len + 1)
  }

  ghost predicate NoShorterCode(bits: seq<nat>, d: Derivation, w: nat, len: nat)
    requires IsBits(bits) && HasCodes(bits, d)
  {
    forall i :: 0 <= i < Total(bits) && Sizes(bits)[i] < len ==> !Covers(bits, d, i, w)
  }

  /** A window that begins with no shorter code lies at or above the first
      window of the codes of length `len`. */
  lemma AtOrAboveFirst(bits: seq<nat>, d: Derivation, w: nat, len: nat)
    requires IsBits(bits) && IsDerivation(bits, d) && 1 <= len <= MAX_LENGTH && NoShorterCode(bits, d, w, len)
    requires bits[len - 1] > 0
    ensures d.minCode[len] <= w / Weight(len)
  {
    var first := Total(bits[..len - 1]);
    LengthRange(bits, len);
    if w < Kraft(Sizes(bits)[..first]) {
      var i := SomeCodeCovers(bits, d, first, w);
      SizesOfLength(bits, len, i);
    }
    assert BoundsForLength(bits, d.huffcode, len, d.minCode[len], d.maxCode[len], d.valOffset[len]);
    assert d.huffcode[first] * Weight(len) == Kraft(Sizes(bits)[..first]);
    Floor(d.huffcode[first], Weight(len), w);
  }

  lemma Floor(code: nat, weight: nat, w: nat)
    requires weight >= 1 && code * weight <= w
    ensures code <= w / weight
  {
    QuotientExactly(w, weight, w / weight);
    RoomBelow(w / weight, code, weight);
  }

  lemma RoomBelow(q: nat, code: nat, weight: nat)
    ensures q < code ==> q * weight + weight <= code * weight
  {
    if q < code {
      Ordered(q + 1, code, weight);
    }
  }

  /** The codes of length `len` are the numbers between the two bounds. */
  lemma CodeAt(bits: seq<nat>, d: Derivation, len: nat, c: int)
    requires IsBits(bits) && IsDerivation(bits, d) && 1 <= len <= MAX_LENGTH
    requires bits[len - 1] > 0 && d.minCode[len] <= c <= d.maxCode[len]
    ensures var i := c + d.valOffset[len]; 0 <= i < Total(bits) && Sizes(bits)[i] == len && d.huffcode[i] == c
  {
    var first := Total(bits[..len - 1]);
    LengthRange(bits, len);
    assert BoundsForLength(bits, d.huffcode, len, d.minCode[len], d.maxCode[len], d.valOffset[len]);
    CodesOfOneLength(bits, d, len, bits[len - 1] - 1);
    CodesOfOneLength(bits, d, len, c - d.minCode[len]);
  }

  lemma CodesOfLengthWithinBounds(bits: seq<nat>, d: Derivation, len: nat, i: nat)
    requires IsBits(bits) && IsDerivation(bits, d) && 1 <= len <= MAX_LENGTH
    requires i < Total(bits) && Sizes(bits)[i] == len
    ensures d.huffcode[i] <= d.maxCode[len]
  {
    var first := Total(bits[..len - 1]);
    LengthRange(bits, len);
    SizesOfLength(bits, len, i);
    assert BoundsForLength(bits, d.huffcode, len, d.minCode[len], d.maxCode[len], d.valOffset[len]);
    CodesOfOneLength(bits, d, len, bits[len - 1] - 1);
    CodesOfOneLength(bits, d, len, i - first);
  }

  lemma ProbedLengthHasCodes(bits: seq<nat>, d: Derivation, len: nat, c: nat)
    requires IsBits(bits) && HasBounds(bits, d) && 1 <= len <= MAX_LENGTH && c <= d.maxCode[len]
    ensures bits[len - 1] > 0
  {
    assert BoundsForLength(bits, d.huffcode, len, d.minCode[len], d.maxCode[len], d.valOffset[len]);
  }

  lemma ProbedCode(bits: seq<nat>, d: Derivation, w: nat, len: nat, c: nat)
    requires IsBits(bits) && IsDerivation(bits, d) && 1 <= len <= MAX_LENGTH && NoShorterCode(bits, d, w, len)
    requires c == w / Weight(len) <= d.maxCode[len]
    ensures bits[len - 1] > 0 && d.minCode[len] <= c
  {
    ProbedLengthHasCodes(bits, d, len, c);
    AtOrAboveFirst(bits, d, w, len);
  }

  /** A probe at or below `max_code` has found the code that covers. */
  lemma ProbeHits(bits: seq<nat>, d: Derivation, w: nat, len: nat, c: nat)
    requires IsBits(bits) && IsDerivation(bits, d) && 1 <= len <= MAX_LENGTH && NoShorterCode(bits, d, w, len)
    requires c == w / Weight(len) <= d.maxCode[len]
    ensures var i := c + d.valOffset[len]; 0 <= i < Total(bits) && Sizes(bits)[i] == len && Covers(bits, d, i, w)
  {
    hide HasBounds, Kraft, Weight, Total, Sizes, NoShorterCode, CodesAreCanonical;
    ProbedCode(bits, d, w, len, c);
    CodeAt(bits, d, len, c);
  }

  /** A probe above `max_code` rules this length out. */
  lemma ProbeMisses(bits: seq<nat>, d: Derivation, w: nat, len: nat, c: nat)
    requires IsBits(bits) && IsDerivation(bits, d) && 1 <= len <= MAX_LENGTH && NoShorterCode(bits, d, w, len)
    requires c == w / Weight(len) > d.maxCode[len]
    ensures NoShorterCode(bits, d, w, len + 1)
  {
    forall i | 0 <= i < Total(bits) && Sizes(bits)[i] < len + 1 ensures !Covers(bits, d, i, w) {
      if Sizes(bits)[i] == len {
        CodesOfLengthWithinBounds(bits, d, len, i);
      }
    }
  }

  lemma ScanStep(d: Derivation, w: nat, len: nat) returns (c: nat)
    requires |d.maxCode| == |d.valOffset| == MAX_LENGTH + 1 && 1 <= len <= MAX_LENGTH
    ensures c == w / Weight(len)
    ensures Scan(d, w, len) == if c <= d.maxCode[len] then Some(Match(c + d.valOffset[len], len)) else Scan(d, w, len + 1)
  {
    c := Quotient(w, Weight(len));
  }

  lemma NothingLeftToScan(bits: seq<nat>, d: Derivation, w: nat, len: nat)
    requires IsBits(bits) && IsDerivation(bits, d) && len > MAX_LENGTH && NoShorterCode(bits, d, w, len)
    ensures Scan(d, w, len) == None && forall i :: 0 <= i < Total(bits) ==> !Covers(bits, d, i, w)
  {
    hide Covers, Kraft;
  }

  /** The scan from `len`, when no shorter code covers, finds the code that
      covers the window, and nothing when none does. */
  lemma {:induction false} ScanFinds(bits: seq<nat>, d: Derivation, w: nat, len: nat)
    requires IsBits(bits) && IsDerivation(bits, d) && 1 <= len <= MAX_LENGTH + 1 && NoShorterCode(bits, d, w, len)
    ensures match Scan(d, w, len)
      case Some(m) => 0 <= m.index < Total(bits) && m.len == Sizes(bits)[m.index] && Covers(bits, d, m.index, w)
      case None => forall i :: 0 <= i < Total(bits) ==> !Covers(bits, d, i, w)
    decreases MAX_LENGTH + 1 - len
  {
    hide Scan, Covers, Kraft, Sizes, Total, HasCodes, NoShorterCode, BoundsForLength;
    if len <= MAX_LENGTH {
      var maxCode := d.maxCode[len];
      var c := ScanStep(d, w, len);
      hide *;
      if c <= maxCode {
        ProbeHits(bits, d, w, len, c);
      } else {
        ProbeMisses(bits, d, w, len, c);
        ScanFinds(bits, d, w, len + 1);
      }
    } else {
      NothingLeftToScan(bits, d, w, len);
    }
  }

  /** DECODE stops within 16 bits exactly on the windows below the Kraft sum,
      so on all of them when the code is complete, and its answer is the unique
      code the window begins with. */
  lemma DecodeInvertsCodes(bits: seq<nat>, d: Derivation, w: nat)
    requires IsBits(bits) && IsDerivation(bits, d)
    ensures Scan(d, w, 1).Some? <==> w < Kraft(Sizes(bits))
    ensures Scan(d, w, 1).Some? ==> 0 <= Scan(d, w, 1).value.index < Total(bits)
    ensures forall i :: 0 <= i < Total(bits) ==>
      (Covers(bits, d, i, w) <==> Scan(d, w, 1) == Some(Match(i, Sizes(bits)[i])))
  {
    ScanFinds(bits, d, w, 1);
    CodesPartitionWindows(bits, d, w);
  }

  // ----- codes as bit strings -----

  function CodeBits(bits: seq<nat>, d: Derivation, i: nat): seq<bool>
    requires i < Total(bits) && i < |d.huffcode|
  {
    Bits(d.huffcode[i], Sizes(bits)[i])
  }

  /** A window that begins with the bits of code `i` is one that `i` covers. */
  lemma PrefixIsCovered(bits: seq<nat>, d: Derivation, i: nat, window: seq<bool>)
    requires IsBits(bits) && HasCodes(bits, d) && i < Total(bits)
    requires |window| == MAX_LENGTH && CodeBits(bits, d, i) <= window
    ensures Covers(bits, d, i, Value(window))
  {
    var size := Sizes(bits)[i];
    CodeFits(bits, d, i);
    BitsValue(d.huffcode[i], size);
    ValueSplit(window, size);
    assert window[..size] == CodeBits(bits, d, i);
    assert Value(window[..size]) == d.huffcode[i];
  }

  /** And a window that `i` covers begins with the bits of code `i`. */
  lemma CoveredIsPrefix(bits: seq<nat>, d: Derivation, i: nat, window: seq<bool>)
    requires IsBits(bits) && HasCodes(bits, d) && i < Total(bits)
    requires |window| == MAX_LENGTH && Covers(bits, d, i, Value(window))
    ensures CodeBits(bits, d, i) == window[..Sizes(bits)[i]]
  {
    ValueSplit(window, Sizes(bits)[i]);
    ValueBits(window[..Sizes(bits)[i]]);
  }

  /** No code is the beginning of another. */
  lemma PrefixFree(bits: seq<nat>, d: Derivation, i: nat, j: nat)
    requires IsBits(bits) && HasCodes(bits, d) && i < Total(bits) && j < Total(bits)
    requires CodeBits(bits, d, i) <= CodeBits(bits, d, j)
    ensures i == j
  {
    var window := CodeBits(bits, d, j) + Ones(MAX_LENGTH - Sizes(bits)[j]);
    PrefixIsCovered(bits, d, i, window);
    PrefixIsCovered(bits, d, j, window);
    AtMostOneCodeCovers(bits, d, i, j, Value(window));
  }
}
