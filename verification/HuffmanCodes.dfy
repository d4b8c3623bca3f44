/** Canonical JPEG Huffman codes (ITU-T T.81, section C.2): what the tables
    derived from a BITS vector are, and why they form a prefix code.

    A code of length `size` is identified with the interval of 16-bit windows
    that begin with it: it starts at `code * Weight(size)` and is
    `Weight(size)` wide. */
module HuffmanCodes {
  import opened Powers

  const MAX_LENGTH: nat := 16
  const CAPACITY: nat := 256
  const CODE_SPACE: nat := 65536
  const I32_MAX: int := 0x7FFF_FFFF

  datatype Derivation = Derivation(
    minCode: seq<int>, maxCode: seq<int>, valOffset: seq<int>,
    huffcode: seq<nat>, huffsize: seq<nat>, huffsizeLen: nat)

  /** A BITS vector: how many codes there are of each length 1..16. */
  predicate IsBits(bits: seq<nat>) {
    |bits| == MAX_LENGTH && forall i :: 0 <= i < |bits| ==> bits[i] <= 255
  }

  function Total(bits: seq<nat>): nat {
    if bits == [] then 0 else Total(bits[..|bits| - 1]) + bits[|bits| - 1]
  }

  function Repeat(size: nat, count: nat): (s: seq<nat>)
    ensures |s| == count && forall i :: 0 <= i < count ==> s[i] == size
  {
    seq(count, i => size)
  }

  /** The code lengths in code order. */
  function Sizes(bits: seq<nat>): (sizes: seq<nat>)
    ensures |sizes| == Total(bits)
    ensures forall i :: 0 <= i < |sizes| ==> 1 <= sizes[i] <= |bits|
    ensures forall i, j :: 0 <= i <= j < |sizes| ==> sizes[i] <= sizes[j]
  {
    if bits == [] then [] else Sizes(bits[..|bits| - 1]) + Repeat(|bits|, bits[|bits| - 1])
  }

  /** How many 16-bit windows begin with one given code of this length. */
  function Weight(size: nat): (w: nat)
    ensures w >= 1
  {
    if size <= MAX_LENGTH then Pow2(MAX_LENGTH - size) else 1
  }

  /** The Kraft sum, in units of 2^-16. */
  function Kraft(sizes: seq<nat>): nat {
    if sizes == [] then 0 else Kraft(sizes[..|sizes| - 1]) + Weight(sizes[|sizes| - 1])
  }

  lemma KraftSnoc(sizes: seq<nat>, k: nat)
    requires k < |sizes|
    ensures Kraft(sizes[..k + 1]) == Kraft(sizes[..k]) + Weight(sizes[k])
  {
    assert sizes[..k + 1][..k] == sizes[..k];
  }

  lemma {:induction false} KraftMonotone(sizes: seq<nat>, k: nat, m: nat)
    requires k <= m <= |sizes|
    ensures Kraft(sizes[..k]) <= Kraft(sizes[..m])
    ensures k < m ==> Kraft(sizes[..k]) + Weight(sizes[k]) <= Kraft(sizes[..m])
    decreases m
  {
    if k < m {
      KraftMonotone(sizes, k, m - 1);
      KraftSnoc(sizes, m - 1);
    }
  }

  lemma {:induction false} TotalPrefix(bits: seq<nat>, k: nat)
    requires k <= |bits|
    ensures Total(bits[..k]) <= Total(bits)
    ensures Sizes(bits)[..Total(bits[..k])] == Sizes(bits[..k])
    ensures k < |bits| ==> Total(bits[..k + 1]) == Total(bits[..k]) + bits[k]
    decreases |bits|
  {
    if k < |bits| {
      var init := bits[..|bits| - 1];
      TotalPrefix(init, k);
      assert init[..k] == bits[..k];
      assert bits[..k + 1][..k] == bits[..k];
    } else {
      assert bits[..k] == bits;
    }
  }

  /** The codes of length `len` are those at `Total(bits[..len - 1])` and the
      `bits[len - 1]` positions from there. */
  lemma SizesOfLength(bits: seq<nat>, len: nat, i: nat)
    requires 1 <= len <= |bits| && i < Total(bits)
    ensures Sizes(bits)[i] == len <==> Total(bits[..len - 1]) <= i < Total(bits[..len])
    ensures Sizes(bits)[i] < len <==> i < Total(bits[..len - 1])
  {
    if i >= Total(bits[..len]) {
      SizesAbove(bits, len, i);
      LengthStarts(bits, len);
    } else {
      LengthStarts(bits, len);
      TotalPrefix(bits, len);
      assert Sizes(bits)[i] == Sizes(bits[..len])[i];
    }
  }

  lemma LengthStarts(bits: seq<nat>, len: nat)
    requires 1 <= len <= |bits|
    ensures Total(bits[..len]) == Total(bits[..len - 1]) + bits[len - 1]
    ensures Sizes(bits[..len]) == Sizes(bits[..len - 1]) + Repeat(len, bits[len - 1])
  {
    assert bits[..len][..len - 1] == bits[..len - 1];
  }

  lemma {:induction false} SizesAbove(bits: seq<nat>, len: nat, i: nat)
    requires len <= |bits| && Total(bits[..len]) <= i < Total(bits)
    ensures Sizes(bits)[i] > len
    decreases |bits|
  {
    assert len < |bits| by {
      assert bits[..|bits|] == bits;
    }
    var init := bits[..|bits| - 1];
    assert init[..len] == bits[..len];
    if i < Total(init) {
      SizesAbove(init, len, i);
    }
  }

  // ----- what a derivation is -----

  /** The codes fill the windows from 0 upward, without a gap, in order. */
  ghost predicate CodesAreCanonical(sizes: seq<nat>, codes: seq<nat>, count: nat)
    requires count <= |sizes| && count <= |codes|
  {
    forall i {:trigger Kraft(sizes[..i])} :: 0 <= i < count ==> codes[i] * Weight(sizes[i]) == Kraft(sizes[..i])
  }

  /** The decode bounds of the codes of length `len`. */
  ghost predicate BoundsForLength(bits: seq<nat>, codes: seq<nat>, len: nat, minCode: int, maxCode: int, valOffset: int)
    requires 1 <= len <= |bits| && |codes| == 256
  {
    var first, count := Total(bits[..len - 1]), bits[len - 1];
    if count == 0 then
      minCode == 0x7FFF_FFFF && maxCode == -1 && valOffset == 0
    else
      && first + count <= 256
      && minCode == codes[first]
      && maxCode == codes[first + count - 1]
      && valOffset == first - codes[first]
  }

  /** The code arrays: the sizes of `bits`, and the canonical codes. */
  ghost predicate HasCodes(bits: seq<nat>, d: Derivation)
    requires IsBits(bits)
  {
    var sizes, n := Sizes(bits), Total(bits);
    && |d.huffcode| == |d.huffsize| == 256
    && n <= 256 && d.huffsizeLen == n
    && d.huffsize[..n] == sizes
    && (forall i :: n <= i < 256 ==> d.huffsize[i] == 0 && d.huffcode[i] == 0)
    && Kraft(sizes) <= CODE_SPACE
    && CodesAreCanonical(sizes, d.huffcode, n)
  }

  /** The decode bounds, length by length; entry 0 belongs to no length. */
  ghost predicate HasBounds(bits: seq<nat>, d: Derivation)
    requires IsBits(bits)
  {
    && |d.minCode| == |d.maxCode| == |d.valOffset| == MAX_LENGTH + 1 && |d.huffcode| == 256
    && d.minCode[0] == 0x7FFF_FFFF && d.maxCode[0] == -1 && d.valOffset[0] == 0
    && (forall len :: 1 <= len <= MAX_LENGTH ==>
          BoundsForLength(bits, d.huffcode, len, d.minCode[len], d.maxCode[len], d.valOffset[len]))
  }

  /** `d` is the canonical derivation for `bits`. */
  ghost predicate IsDerivation(bits: seq<nat>, d: Derivation)
    requires IsBits(bits)
  {
    HasCodes(bits, d) && HasBounds(bits, d)
  }

  // ----- the prefix code -----

  /** The 16-bit window `w` begins with code `i`. */
  predicate Covers(bits: seq<nat>, d: Derivation, i: nat, w: nat)
    requires i < Total(bits) && i < |d.huffcode|
  {
    w / Weight(Sizes(bits)[i]) == d.huffcode[i]
  }

  lemma QuotientExactly(w: nat, weight: nat, code: nat)
    requires weight >= 1
    ensures w / weight == code <==> code * weight <= w < code * weight + weight
  {
    assert w == (w / weight) * weight + w % weight;
    if code * weight <= w < code * weight + weight {
      DivMul(code, weight, w - code * weight);
    }
  }

  lemma CoversKraft(bits: seq<nat>, d: Derivation, i: nat, w: nat)
    requires IsBits(bits) && HasCodes(bits, d) && i < Total(bits)
    ensures Covers(bits, d, i, w) <==> Kraft(Sizes(bits)[..i]) <= w < Kraft(Sizes(bits)[..i + 1])
  {
    KraftSnoc(Sizes(bits), i);
    QuotientExactly(w, Weight(Sizes(bits)[i]), d.huffcode[i]);
  }

  lemma {:induction false} WhichInterval(sizes: seq<nat>, k: nat, w: nat) returns (i: nat)
    requires k <= |sizes| && w < Kraft(sizes[..k])
    ensures i < k && Kraft(sizes[..i]) <= w < Kraft(sizes[..i + 1])
  {
    if w < Kraft(sizes[..k - 1]) {
      i := WhichInterval(sizes, k - 1, w);
    } else {
      i := k - 1;
    }
  }

  lemma SomeCodeCovers(bits: seq<nat>, d: Derivation, k: nat, w: nat) returns (i: nat)
    requires IsBits(bits) && HasCodes(bits, d) && k <= Total(bits)
    requires w < Kraft(Sizes(bits)[..k])
    ensures i < k && Covers(bits, d, i, w)
  {
    i := WhichInterval(Sizes(bits), k, w);
    CoversKraft(bits, d, i, w);
  }

  lemma AtMostOneCodeCovers(bits: seq<nat>, d: Derivation, i: nat, j: nat, w: nat)
    requires IsBits(bits) && HasCodes(bits, d) && i < Total(bits) && j < Total(bits)
    requires Covers(bits, d, i, w) && Covers(bits, d, j, w)
    ensures i == j
  {
    hide Covers, HasCodes, Kraft;
    CoversKraft(bits, d, i, w);
    CoversKraft(bits, d, j, w);
    if i < j {
      KraftMonotone(Sizes(bits), i + 1, j);
    } else if j < i {
      KraftMonotone(Sizes(bits), j + 1, i);
    }
  }

  /** The windows below the Kraft sum are exactly those that begin with a code,
      and none begins with two. */
  lemma CodesPartitionWindows(bits: seq<nat>, d: Derivation, w: nat)
    requires IsBits(bits) && HasCodes(bits, d)
    ensures w < Kraft(Sizes(bits)) <==> exists i :: 0 <= i < Total(bits) && Covers(bits, d, i, w)
    ensures forall i, j :: 0 <= i < Total(bits) && 0 <= j < Total(bits) && Covers(bits, d, i, w) && Covers(bits, d, j, w) ==> i == j
  {
    hide Covers, Kraft;
    var sizes := Sizes(bits);
    assert sizes[..|sizes|] == sizes;
    if w < Kraft(sizes) {
      var i := SomeCodeCovers(bits, d, Total(bits), w);
    } else {
      forall i | 0 <= i < Total(bits) ensures !Covers(bits, d, i, w) {
        CoversKraft(bits, d, i, w);
        KraftMonotone(sizes, i + 1, |sizes|);
      }
    }
    forall i, j | 0 <= i < Total(bits) && 0 <= j < Total(bits) && Covers(bits, d, i, w) && Covers(bits, d, j, w) ensures i == j {
      AtMostOneCodeCovers(bits, d, i, j, w);
    }
  }

  /** Every code fits its length. */
  lemma CodeFits(bits: seq<nat>, d: Derivation, i: nat)
    requires IsBits(bits) && HasCodes(bits, d) && i < Total(bits)
    ensures d.huffcode[i] < Pow2(Sizes(bits)[i]) && d.huffcode[i] < CODE_SPACE
  {
    var sizes, size := Sizes(bits), Sizes(bits)[i];
    KraftMonotone(sizes, i, |sizes|);
    assert sizes[..|sizes|] == sizes;
    PowersOfLengths(size);
    assert d.huffcode[i] * Weight(size) == Kraft(sizes[..i]);
    if d.huffcode[i] >= Pow2(size) {
      Ordered(Pow2(size), d.huffcode[i], Weight(size));
    }
  }

  lemma PowersOfLengths(size: nat)
    requires size <= MAX_LENGTH
    ensures Pow2(size) * Weight(size) == CODE_SPACE && Pow2(size) <= CODE_SPACE
  {
    Pow2Add(size, MAX_LENGTH - size);
    SixteenBits();
    Pow2Monotone(size, MAX_LENGTH);
  }

  lemma SixteenBits()
    ensures Pow2(16) == 65536 && Pow2(12) == 4096 && Pow2(8) == 256 && Pow2(4) == 16
  {
  }

  lemma NextCode(sizes: seq<nat>, codes: seq<nat>, count: nat, i: nat)
    requires count <= |sizes| && count <= |codes| && i + 1 < count && sizes[i] == sizes[i + 1]
    requires CodesAreCanonical(sizes, codes, count)
    ensures codes[i + 1] == codes[i] + 1
  {
    KraftSnoc(sizes, i);
    NextMultiple(codes[i], codes[i + 1], Weight(sizes[i]), Kraft(sizes[..i]));
  }

  lemma {:induction false} ConsecutiveCodes(sizes: seq<nat>, codes: seq<nat>, count: nat, first: nat, last: nat)
    requires count <= |sizes| && count <= |codes| && first <= last < count
    requires forall k :: first <= k <= last ==> sizes[k] == sizes[first]
    requires CodesAreCanonical(sizes, codes, count)
    ensures codes[last] == codes[first] + (last - first)
  {
    if first < last {
      ConsecutiveCodes(sizes, codes, count, first, last - 1);
      NextCode(sizes, codes, count, last - 1);
    }
  }

  lemma LengthRange(bits: seq<nat>, len: nat)
    requires 1 <= len <= |bits|
    ensures Total(bits[..len - 1]) + bits[len - 1] == Total(bits[..len]) <= Total(bits)
    ensures forall k :: Total(bits[..len - 1]) <= k < Total(bits[..len]) ==> Sizes(bits)[k] == len
  {
    LengthStarts(bits, len);
    TotalPrefix(bits, len);
    forall k | Total(bits[..len - 1]) <= k < Total(bits[..len]) ensures Sizes(bits)[k] == len {
      SizesOfLength(bits, len, k);
    }
  }

  /** Within one length the codes are consecutive numbers. */
  lemma CodesOfOneLength(bits: seq<nat>, d: Derivation, len: nat, j: nat)
    requires IsBits(bits) && HasCodes(bits, d) && 1 <= len <= MAX_LENGTH && j < bits[len - 1]
    ensures Total(bits[..len - 1]) + j < Total(bits)
    ensures d.huffcode[Total(bits[..len - 1]) + j] == d.huffcode[Total(bits[..len - 1])] + j
  {
    var first := Total(bits[..len - 1]);
    LengthRange(bits, len);
    ConsecutiveCodes(Sizes(bits), d.huffcode, Total(bits), first, first + j);
  }
}
