/** `derive_canonical_huffman`: the three loops that turn a BITS vector into
    code lengths, codes and decode bounds. */
module HuffmanDerivation {
  import opened Options
  import opened Powers
  import opened HuffmanCodes

  datatype HuffmanError = BitsExceedTableCapacity | BitsValuesLenMismatch | CodeOverflow

  const U32_SPACE: nat := 0x1_0000_0000

  /** Writes `count` times the length `len`, as far as there are values. */
  method WriteLength(huffsize: array<nat>, start: nat, len: nat, count: nat, valuesLen: nat) returns (n: nat)
    requires start <= valuesLen <= huffsize.Length == CAPACITY
    requires forall i :: start <= i < CAPACITY ==> huffsize[i] == 0
    modifies huffsize
    ensures n == if start + count <= valuesLen then start + count else valuesLen
    ensures huffsize[..n] == old(huffsize[..start]) + Repeat(len, n - start)
    ensures forall i :: n <= i < CAPACITY ==> huffsize[i] == 0
  {
    n := start;
    for j := 0 to count
      invariant n == start + j <= valuesLen
      invariant huffsize[..n] == old(huffsize[..start]) + Repeat(len, j)
      invariant forall i :: n <= i < CAPACITY ==> huffsize[i] == 0
    {
      if n >= valuesLen || n >= huffsize.Length {
        return;
      }
      huffsize[n] := len;
      n := n + 1;
      assert Repeat(len, j + 1) == Repeat(len, j) + [len];
      assert huffsize[..n] == huffsize[..n - 1] + [len];
    }
  }

  /** Writes one length per code into `huffsize`. */
  method ExpandSizes(bits: seq<nat>, valuesLen: nat, huffsize: array<nat>) returns (error: Option<HuffmanError>)
    requires IsBits(bits) && valuesLen <= CAPACITY
    requires huffsize.Length == CAPACITY && forall i :: 0 <= i < CAPACITY ==> huffsize[i] == 0
    modifies huffsize
    ensures error == Some(BitsExceedTableCapacity) <==> Total(bits) > valuesLen
    ensures error == Some(BitsValuesLenMismatch) <==> Total(bits) < valuesLen
    ensures error == None <==> Total(bits) == valuesLen
    ensures error == None ==> huffsize[..valuesLen] == Sizes(bits)
    ensures error == None ==> forall i :: valuesLen <= i < CAPACITY ==> huffsize[i] == 0
  {
    var n := 0;
    for lenMinus1 := 0 to |bits|
      invariant n == Total(bits[..lenMinus1]) <= valuesLen
      invariant huffsize[..n] == Sizes(bits[..lenMinus1])
      invariant forall i :: n <= i < CAPACITY ==> huffsize[i] == 0
    {
      LengthRange(bits, lenMinus1 + 1);
      LengthStarts(bits, lenMinus1 + 1);
      var written := WriteLength(huffsize, n, lenMinus1 + 1, bits[lenMinus1], valuesLen);
      if written < n + bits[lenMinus1] {
        return Some(BitsExceedTableCapacity);
      }
      n := written;
    }
    assert bits[..|bits|] == bits;
    if n != valuesLen {
      return Some(BitsValuesLenMismatch);
    }
    return None;
  }

  lemma WeightHalves(size: nat)
    requires size < MAX_LENGTH
    ensures Weight(size) == 2 * Weight(size + 1)
  {
  }

  /** One more code at `code`, of length `size`, fits below 2^size exactly when
      the Kraft sum up to it stays within the code space. */
  lemma FitsExactly(code: nat, size: nat, below: nat)
    requires 1 <= size <= MAX_LENGTH && code * Weight(size) == below
    ensures code < Pow2(size) <==> below + Weight(size) <= CODE_SPACE
    ensures code < Pow2(size) <==> below < CODE_SPACE
    ensures (code + 1) * Weight(size) == below + Weight(size)
  {
    PowersOfLengths(size);
    RoomForOneMore(code, Pow2(size), Weight(size));
  }

  lemma RoomForOneMore(code: nat, limit: nat, weight: nat)
    requires weight >= 1
    ensures code < limit <==> code * weight + weight <= limit * weight
    ensures code < limit <==> code * weight < limit * weight
    ensures (code + 1) * weight == code * weight + weight
  {
  }

  /** A shift to the next length neither overflows nor moves the code's windows. */
  lemma ShiftStep(code: nat, si: nat)
    requires si < MAX_LENGTH && code <= Pow2(si)
    ensures (code * 2) % U32_SPACE == 2 * code <= Pow2(si + 1)
    ensures (2 * code) * Weight(si + 1) == code * Weight(si)
  {
    WeightHalves(si);
    PowersOfLengths(si);
    DoubleLeft(code, Weight(si + 1));
  }

  lemma DoubleLeft(code: nat, w: nat)
    ensures (2 * code) * w == code * (2 * w)
  {
  }

  /** Doubles the code for every length skipped. */
  method SkipToLength(start: nat, from: nat, size: nat) returns (code: nat)
    requires 1 <= from <= size <= MAX_LENGTH && start <= Pow2(from)
    ensures code * Weight(size) == start * Weight(from)
    ensures code <= Pow2(size)
  {
    var si := from;
    code := start;
    while size != si
      invariant from <= si <= size
      invariant code * Weight(si) == start * Weight(from) && code <= Pow2(si)
      decreases size - si
    {
      ShiftStep(code, si);
      code := (code * 2) % U32_SPACE;
      si := if si == 255 then 255 else si + 1;
    }
  }

  lemma CodeAssigned(sizes: seq<nat>, before: seq<nat>, idx: nat, code: nat)
    requires idx < |sizes| && idx < |before| && CodesAreCanonical(sizes, before, idx)
    requires code * Weight(sizes[idx]) == Kraft(sizes[..idx])
    ensures CodesAreCanonical(sizes, before[idx := code], idx + 1)
  {
  }

  lemma NoRoomLeft(sizes: seq<nat>, idx: nat)
    requires idx < |sizes| && Kraft(sizes[..idx]) >= CODE_SPACE
    ensures Kraft(sizes) > CODE_SPACE
  {
    KraftMonotone(sizes, idx, |sizes|);
    assert sizes[..|sizes|] == sizes;
  }

  /** The first `k` codes are assigned and the others still zero; the next code
      would be `code`, were it of length `si`. */
  ghost predicate Assigned(sizes: seq<nat>, codes: seq<nat>, k: nat, code: nat, si: nat)
    requires k <= |sizes| && k <= |codes|
  {
    && CodesAreCanonical(sizes, codes, k)
    && (forall i :: k <= i < |codes| ==> codes[i] == 0)
    && code * Weight(si) == Kraft(sizes[..k]) <= CODE_SPACE
    && (sizes != [] ==> 1 <= si <= MAX_LENGTH && code <= Pow2(si))
    && (k < |sizes| ==> si <= sizes[k] <= MAX_LENGTH)
  }

  /** Assigns code `idx`: shifts to its length, checks it, writes it.  Returns
      the number of the next code, or nothing when this one does not fit. */
  method AssignCode(ghost sizes: seq<nat>, code: nat, si: nat, size: nat, idx: nat, huffcode: array<nat>) returns (next: Option<nat>)
    requires idx < |sizes| && idx < huffcode.Length && size == sizes[idx]
    requires forall i, j :: 0 <= i <= j < |sizes| ==> sizes[i] <= sizes[j] <= MAX_LENGTH
    requires Assigned(sizes, huffcode[..], idx, code, si)
    modifies huffcode
    ensures next == None ==> Kraft(sizes) > CODE_SPACE
    ensures next.Some? ==> Assigned(sizes, huffcode[..], idx + 1, next.value, size)
  {
    var shifted: nat := SkipToLength(code, si, size);
    FitsExactly(shifted, size, Kraft(sizes[..idx]));
    KraftSnoc(sizes, idx);
    if size > 16 || shifted >= Pow2(size) {
      NoRoomLeft(sizes, idx);
      return None;
    }
    CodeAssigned(sizes, huffcode[..], idx, shifted);
    ghost var before := huffcode[..];
    huffcode[idx] := shifted;
    assert huffcode[..] == before[idx := shifted];
    return Some(shifted + 1);
  }

  /** Assigns the codes: the next number at each step, shifted to its length. */
  method AssignCodes(ghost sizes: seq<nat>, huffsize: array<nat>, n: nat, huffcode: array<nat>) returns (error: Option<HuffmanError>)
    requires huffsize.Length == huffcode.Length == CAPACITY && huffsize != huffcode
    requires n <= CAPACITY && huffsize[..n] == sizes
    requires forall i, j :: 0 <= i <= j < n ==> 1 <= sizes[i] <= sizes[j] <= MAX_LENGTH
    requires forall i :: 0 <= i < CAPACITY ==> huffcode[i] == 0
    modifies huffcode
    ensures error == Some(CodeOverflow) || error == None
    ensures error == None <==> Kraft(sizes) <= CODE_SPACE
    ensures error == None ==> CodesAreCanonical(sizes, huffcode[..], n)
    ensures error == None ==> forall i :: n <= i < CAPACITY ==> huffcode[i] == 0
  {
    var code: nat, si: nat := 0, huffsize[0];
    assert n > 0 ==> huffsize[..n][0] == sizes[0];
    assert Assigned(sizes, huffcode[..], 0, code, si);
    for idx := 0 to n
      invariant huffsize[..n] == sizes
      invariant Assigned(sizes, huffcode[..], idx, code, si)
    {
      assert huffsize[..n][idx] == sizes[idx];
      var next := AssignCode(sizes, code, si, huffsize[idx], idx, huffcode);
      if next == None {
        return Some(CodeOverflow);
      }
      code, si := next.value, huffsize[idx];
    }
    assert sizes[..n] == sizes;
    return None;
  }

  /** Smallest and largest code of every length, and where its values begin. */
  method DecodeBounds(bits: seq<nat>, huffcode: seq<nat>) returns (minCode: seq<int>, maxCode: seq<int>, valOffset: seq<int>)
    requires IsBits(bits) && Total(bits) <= CAPACITY && |huffcode| == CAPACITY
    ensures |minCode| == |maxCode| == |valOffset| == MAX_LENGTH + 1
    ensures minCode[0] == I32_MAX && maxCode[0] == -1 && valOffset[0] == 0
    ensures forall len :: 1 <= len <= MAX_LENGTH ==> BoundsForLength(bits, huffcode, len, minCode[len], maxCode[len], valOffset[len])
  {
    var minCodes := new int[MAX_LENGTH + 1](_ => I32_MAX);
    var maxCodes := new int[MAX_LENGTH + 1](_ => -1);
    var offsets := new int[MAX_LENGTH + 1](_ => 0);
    var cursor := 0;
    for lenMinus1 := 0 to |bits|
      invariant cursor == Total(bits[..lenMinus1])
      invariant minCodes[0] == I32_MAX && maxCodes[0] == -1 && offsets[0] == 0
      invariant forall len :: 1 <= len <= lenMinus1 ==> BoundsForLength(bits, huffcode, len, minCodes[len], maxCodes[len], offsets[len])
      invariant forall len :: lenMinus1 < len <= MAX_LENGTH ==> minCodes[len] == I32_MAX && maxCodes[len] == -1 && offsets[len] == 0
    {
      var len, count := lenMinus1 + 1, bits[lenMinus1];
      LengthRange(bits, len);
      if count == 0 {
        continue;
      }
      minCodes[len] := huffcode[cursor];
      maxCodes[len] := huffcode[cursor + count - 1];
      offsets[len] := cursor - minCodes[len];
      cursor := cursor + count;
    }
    minCode, maxCode, valOffset := minCodes[..], maxCodes[..], offsets[..];
  }

  /** Derivation succeeds exactly when the counts match and the code lengths
      satisfy the Kraft inequality, and then yields the canonical tables. */
  method DeriveCanonicalHuffman(bits: seq<nat>, valuesLen: nat) returns (r: Result<Derivation, HuffmanError>)
    requires IsBits(bits)
    ensures r == Err(BitsExceedTableCapacity) <==> valuesLen > 256 || Total(bits) > valuesLen
    ensures r == Err(BitsValuesLenMismatch) <==> valuesLen <= 256 && Total(bits) < valuesLen
    ensures r == Err(CodeOverflow) <==> valuesLen <= 256 && Total(bits) == valuesLen && Kraft(Sizes(bits)) > 0x1_0000
    ensures r.Ok? <==> valuesLen <= 256 && Total(bits) == valuesLen && Kraft(Sizes(bits)) <= 0x1_0000
    ensures r.Ok? ==> IsDerivation(bits, r.value)
  {
    if valuesLen > CAPACITY {
      return Err(BitsExceedTableCapacity);
    }
    var huffsize := new nat[CAPACITY](_ => 0);
    var error := ExpandSizes(bits, valuesLen, huffsize);
    if error.Some? {
      return Err(error.value);
    }
    var huffcode := new nat[CAPACITY](_ => 0);
    error := AssignCodes(Sizes(bits), huffsize, valuesLen, huffcode);
    if error.Some? {
      return Err(error.value);
    }
    var minCode, maxCode, valOffset := DecodeBounds(bits, huffcode[..]);
    var d := Derivation(minCode, maxCode, valOffset, huffcode[..], huffsize[..], valuesLen);
    assert d.huffsize[..valuesLen] == Sizes(bits);
    return Ok(d);
  }
}
