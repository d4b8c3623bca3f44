/** The bit writer of the baseline JPEG encoder: bits are gathered into bytes,
    a 0xFF byte is followed by a stuffed zero, and the last byte is filled up
    with ones. */
module BitWriter {
  import opened Powers
  import opened BitStream
  import opened HuffmanCodes

  /** Every 0xFF from `pos` on is followed by its stuffed zero. */
  predicate Stuffed(bytes: seq<nat>, pos: nat)
    decreases |bytes| - pos
  {
    if pos >= |bytes| then true
    else if bytes[pos] != 0xFF then Stuffed(bytes, pos + 1)
    else pos + 1 < |bytes| && bytes[pos + 1] == 0 && Stuffed(bytes, pos + 2)
  }

  /** The coded form of a data byte. */
  function Stuff(b: nat): seq<nat> {
    if b == 0xFF then [0xFF, 0] else [b]
  }

  lemma UnstuffPlain(bytes: seq<nat>, pos: nat)
    requires pos < |bytes| && bytes[pos] != 0xFF
    ensures Unstuffed(bytes, pos) == Bits(bytes[pos], 8) + Unstuffed(bytes, pos + 1)
    ensures Stuffed(bytes, pos) == Stuffed(bytes, pos + 1)
  {
  }

  lemma UnstuffPair(bytes: seq<nat>, pos: nat)
    requires pos + 1 < |bytes| && bytes[pos] == 0xFF && bytes[pos + 1] == 0
    ensures Unstuffed(bytes, pos) == Bits(0xFF, 8) + Unstuffed(bytes, pos + 2)
    ensures Stuffed(bytes, pos) == Stuffed(bytes, pos + 2)
  {
  }

  lemma Reassociate(a: seq<bool>, b: seq<bool>, c: seq<bool>)
    ensures a + (b + c) == (a + b) + c
  {
  }

  lemma LastByte(bytes: seq<nat>, b: nat)
    ensures var longer := bytes + Stuff(b);
      Stuffed(longer, |bytes|) && Unstuffed(longer, |bytes|) == Bits(b, 8)
  {
  }

  lemma {:induction false} StuffedByte(bytes: seq<nat>, pos: nat, b: nat)
    requires pos <= |bytes| && Stuffed(bytes, pos)
    ensures Stuffed(bytes + Stuff(b), pos)
    ensures Unstuffed(bytes + Stuff(b), pos) == Unstuffed(bytes, pos) + Bits(b, 8)
    decreases |bytes| - pos
  {
    var longer := bytes + Stuff(b);
    if pos == |bytes| {
      LastByte(bytes, b);
    } else if bytes[pos] != 0xFF {
      StuffedByte(bytes, pos + 1, b);
      UnstuffPlain(bytes, pos);
      UnstuffPlain(longer, pos);
      Reassociate(Bits(bytes[pos], 8), Unstuffed(bytes, pos + 1), Bits(b, 8));
    } else {
      StuffedByte(bytes, pos + 2, b);
      UnstuffPair(bytes, pos);
      UnstuffPair(longer, pos);
      Reassociate(Bits(bytes[pos], 8), Unstuffed(bytes, pos + 2), Bits(b, 8));
    }
  }

  // ----- the bytes of a bit string -----

  /** The stuffed bytes of the first `n` octets of `bits`. */
  function OctetForm(bits: seq<bool>, n: nat): seq<nat>
    requires 8 * n <= |bits|
  {
    if n == 0 then [] else OctetForm(bits, n - 1) + Stuff(Value(bits[8 * (n - 1)..8 * n]))
  }

  /** The stuffed bytes of the complete octets of `bits`. */
  function ByteForm(bits: seq<bool>): seq<nat> {
    OctetForm(bits, |bits| / 8)
  }

  lemma {:induction false} SameOctets(bits: seq<bool>, more: seq<bool>, n: nat)
    requires 8 * n <= |bits|
    ensures OctetForm(bits + more, n) == OctetForm(bits, n)
  {
    if n > 0 {
      SameOctets(bits, more, n - 1);
      assert (bits + more)[8 * (n - 1)..8 * n] == bits[8 * (n - 1)..8 * n];
    }
  }

  lemma {:induction false} MoreOctets(bits: seq<bool>, n: nat, m: nat)
    requires n <= m && 8 * m <= |bits|
    ensures |OctetForm(bits, n)| <= |OctetForm(bits, m)|
    decreases m
  {
    if n < m {
      MoreOctets(bits, n, m - 1);
    }
  }

  lemma OctetStep(bits: seq<bool>, n: nat, octet: seq<bool>)
    requires 8 * (n + 1) <= |bits| && octet == bits[8 * n..8 * (n + 1)]
    ensures OctetForm(bits, n + 1) == OctetForm(bits, n) + Stuff(Value(octet))
  {
    hide Value, Stuff;
  }

  lemma WholeOctet(bits: seq<bool>, last: seq<bool>)
    requires |bits| % 8 == 0 && |last| == 8
    ensures ByteForm(bits + last) == ByteForm(bits) + Stuff(Value(last))
  {
    hide OctetForm, Value, Stuff;
    var n := |bits| / 8;
    SameOctets(bits, last, n);
    OctetStep(bits + last, n, last);
  }

  lemma ByteFormAdds(bits: seq<bool>, b: nat)
    requires |bits| % 8 == 0 && b < 256
    ensures ByteForm(bits + Bits(b, 8)) == ByteForm(bits) + Stuff(b)
  {
    hide ByteForm, Value, Bits, Stuff;
    SixteenBits();
    BitsValue(b, 8);
    WholeOctet(bits, Bits(b, 8));
  }

  /** Bits short of an octet add nothing. */
  lemma ByteFormWaits(bits: seq<bool>, more: seq<bool>)
    requires |bits| % 8 == 0 && |more| < 8
    ensures ByteForm(bits + more) == ByteForm(bits)
  {
    hide OctetForm;
    SameOctets(bits, more, |bits| / 8);
  }

  lemma ByteFormGrows(bits: seq<bool>, more: seq<bool>)
    ensures |ByteForm(bits)| <= |ByteForm(bits + more)|
  {
    hide OctetForm;
    SameOctets(bits, more, |bits| / 8);
    MoreOctets(bits + more, |bits| / 8, |bits + more| / 8);
  }

  lemma OctetIsByte(octet: seq<bool>)
    requires |octet| == 8
    ensures Value(octet) < 256 && Bits(Value(octet), 8) == octet
  {
    ValueBelow(octet);
    ValueBits(octet);
    SixteenBits();
  }

  lemma NoBitsNoBytes()
    ensures ByteForm([]) == [] && Stuffed([], 0) && Unstuffed([], 0) == []
  {
  }

  lemma OneMoreOctet(bits: seq<bool>, octet: seq<bool>)
    requires |bits| % 8 == 0 && |octet| == 8
    requires IsBytes(ByteForm(bits)) && Stuffed(ByteForm(bits), 0) && Unstuffed(ByteForm(bits), 0) == bits
    ensures var bytes := ByteForm(bits + octet);
      IsBytes(bytes) && Stuffed(bytes, 0) && Unstuffed(bytes, 0) == bits + octet
  {
    hide ByteForm, Value, Bits, Unstuffed, Stuffed;
    OctetIsByte(octet);
    WholeOctet(bits, octet);
    StuffedByte(ByteForm(bits), 0, Value(octet));
  }

  /** Unstuffing inverts the byte form of whole octets. */
  lemma {:induction false} ByteFormReads(bits: seq<bool>)
    requires |bits| % 8 == 0
    ensures IsBytes(ByteForm(bits)) && Stuffed(ByteForm(bits), 0) && Unstuffed(ByteForm(bits), 0) == bits
  {
    hide ByteForm, Unstuffed, Stuffed;
    NoBitsNoBytes();
    if bits != [] {
      var init, last := bits[..|bits| - 8], bits[|bits| - 8..];
      ByteFormReads(init);
      OneMoreOctet(init, last);
      assert init + last == bits;
    }
  }

  /** A marker ends the scan and allows padding behind it. */
  lemma {:induction false} MarkerEndsScan(bytes: seq<nat>, pos: nat, marker: nat, rest: seq<nat>, allowEof: bool)
    requires pos <= |bytes| && Stuffed(bytes, pos) && marker != 0 && marker != 0xFF
    ensures Unstuffed(bytes + [0xFF, marker] + rest, pos) == Unstuffed(bytes, pos)
    ensures MayPad(bytes + [0xFF, marker] + rest, pos, allowEof)
    decreases |bytes| - pos
  {
    hide Bits;
    var longer := bytes + [0xFF, marker] + rest;
    if pos == |bytes| {
      assert longer[pos] == 0xFF && longer[pos + 1] == marker;
    } else if bytes[pos] != 0xFF {
      MarkerEndsScan(bytes, pos + 1, marker, rest, allowEof);
    } else {
      assert longer[pos + 1] == 0;
      MarkerEndsScan(bytes, pos + 2, marker, rest, allowEof);
    }
  }

  lemma {:induction false} BitsConcat(high: nat, n: nat, low: nat, m: nat)
    requires low < Pow2(m)
    ensures Bits(high * Pow2(m) + low, n + m) == Bits(high, n) + Bits(low, m)
  {
    if m == 0 {
      assert Bits(high, n) + [] == Bits(high, n);
    } else {
      var v := high * Pow2(m) + low;
      HalfOfSum(high, Pow2(m - 1), low);
      BitsConcat(high, n, low / 2, m - 1);
      assert Bits(v, n + m) == Bits(v / 2, n + m - 1) + [v % 2 == 1];
    }
  }

  lemma HalfOfSum(high: nat, half: nat, low: nat)
    ensures (high * (2 * half) + low) / 2 == high * half + low / 2
    ensures (high * (2 * half) + low) % 2 == low % 2
  {
  }

  lemma {:induction false} OnesBits(m: nat)
    ensures Bits(Pow2(m) - 1, m) == Ones(m)
  {
    if m > 0 {
      OnesBits(m - 1);
      assert (Pow2(m) - 1) / 2 == Pow2(m - 1) - 1;
    }
  }

  /** `v >> k`. */
  function HighBits(v: nat, k: nat): nat {
    if k == 0 then v else HighBits(v / 2, k - 1)
  }

  lemma {:induction false} HalveHighBits(v: nat, k: nat)
    ensures HighBits(v, k + 1) == HighBits(v, k) / 2
  {
    if k > 0 {
      HalveHighBits(v / 2, k - 1);
    }
  }

  /** The high bits of `code`, and one more. */
  lemma NextBit(code: nat, k: nat, n: nat)
    ensures Bits(HighBits(code, k), n + 1) == Bits(HighBits(code, k + 1), n) + [HighBits(code, k) % 2 == 1]
  {
    HalveHighBits(code, k);
  }

  /** The high bits of `code` and, behind them, the low ones. */
  lemma {:induction false} HighBitsFirst(code: nat, n: nat, k: nat)
    requires k <= n
    ensures Bits(code, n) == Bits(HighBits(code, k), n - k) + Bits(code, k)
  {
    if k == 0 {
      assert Bits(code, n) == Bits(code, n) + [];
    } else {
      HighBitsFirst(code / 2, n - 1, k - 1);
      Reassociate(Bits(HighBits(code, k), n - k), Bits(code / 2, k - 1), [code % 2 == 1]);
    }
  }

  /** Shifting a bit into the current byte. */
  lemma ShiftIn(current: nat, used: nat, bit: nat)
    requires used < 8 && current < Pow2(used) && bit <= 1
    ensures (current * 2) % 256 + bit == 2 * current + bit < Pow2(used + 1) <= 256
    ensures Bits(2 * current + bit, used + 1) == Bits(current, used) + [bit == 1]
  {
    hide Pow2;
    Pow2Monotone(used, used + 1);
    Pow2Monotone(used + 1, 8);
    SixteenBits();
  }

  /** The current byte, filled up with ones. */
  function FilledUp(current: nat, used: nat): nat
    requires used < 8
  {
    var filler := Pow2(8 - used);
    current * filler + (filler - 1)
  }

  lemma FillUp(current: nat, used: nat)
    requires 0 < used < 8 && current < Pow2(used)
    ensures FilledUp(current, used) < 256
    ensures Bits(FilledUp(current, used), 8) == Bits(current, used) + Ones(8 - used)
  {
    hide Bits, Pow2;
    var filler := Pow2(8 - used);
    Pow2Add(used, 8 - used);
    SixteenBits();
    Ordered(current + 1, Pow2(used), filler);
    assert (current + 1) * filler == current * filler + filler;
    BitsConcat(current, used, filler - 1, 8 - used);
    OnesBits(8 - used);
  }

  class BitWriter {
    const maxBytes: nat
    var bytes: seq<nat>
    var current: nat
    var used: nat

    ghost predicate Valid()
      reads this
    {
      && IsBytes(bytes) && Stuffed(bytes, 0) && used < 8 && current < Pow2(used)
      && |Unstuffed(bytes, 0)| % 8 == 0 && bytes == ByteForm(Unstuffed(bytes, 0)) && |bytes| <= maxBytes
    }

    /** Every bit written so far. */
    ghost function Written(): seq<bool>
      reads this
    {
      Unstuffed(bytes, 0) + Bits(current, used)
    }

    /** `more` can be written without exceeding the cap. */
    ghost predicate Fits(more: seq<bool>)
      reads this
    {
      |ByteForm(Written() + more)| <= maxBytes
    }

    lemma BytesAreWritten()
      requires Valid()
      ensures bytes == ByteForm(Written())
    {
      ByteFormWaits(Unstuffed(bytes, 0), Bits(current, used));
    }

    constructor (maxBytes: nat)
      ensures Valid() && Written() == [] && this.maxBytes == maxBytes
    {
      this.maxBytes := maxBytes;
      bytes, current, used := [], 0, 0;
    }

    /** Appends a byte with its stuffing, unless the cap is reached. */
    method PushByte(b: nat) returns (ok: bool)
      requires b < 256
      modifies this`bytes
      ensures ok <==> |old(bytes)| + |Stuff(b)| <= maxBytes
      ensures ok ==> bytes == old(bytes) + Stuff(b)
    {
      if |bytes| + 1 > maxBytes {
        return false;
      }
      bytes := bytes + [b];
      if b == 0xFF {
        if |bytes| + 1 > maxBytes {
          return false;
        }
        bytes := bytes + [0];
      }
      return true;
    }

    /** Pushes the byte `last`, which completes the current bits by `fill`. */
    method FinishByte(last: nat, ghost fill: seq<bool>) returns (ok: bool)
      requires Valid() && last < 256 && Bits(last, 8) == Bits(current, used) + fill
      modifies this
      ensures ok <==> old(Fits(fill))
      ensures ok ==> Valid() && used == 0 && Written() == old(Written()) + fill
    {
      hide Bits, Unstuffed, Stuffed, ByteForm;
      ghost var before := Unstuffed(bytes, 0);
      Reassociate(before, Bits(current, used), fill);
      ByteFormAdds(before, last);
      StuffedByte(bytes, 0, last);
      ok := PushByte(last);
      current := 0;
      used := 0;
      assert Written() == Unstuffed(bytes, 0);
    }

    method WriteBit(bit: nat) returns (ok: bool)
      requires Valid() && bit <= 1
      modifies this
      ensures ok <==> old(Fits([bit == 1]))
      ensures ok ==> Valid() && Written() == old(Written()) + [bit == 1]
    {
      hide Unstuffed, Stuffed, Bits, Pow2, ByteForm;
      ShiftIn(current, used, bit);
      var next := (current * 2) % 256 + bit;
      if used + 1 == 8 {
        ok := FinishByte(next, [bit == 1]);
      } else {
        Reassociate(Unstuffed(bytes, 0), Bits(current, used), [bit == 1]);
        current := next;
        used := used + 1;
        BytesAreWritten();
        ok := true;
      }
    }

    /** The low `len` bits of `code`, most significant first: exactly when their
        bytes fit. */
    method WriteBits(code: nat, len: nat) returns (ok: bool)
      requires Valid() && len <= 32
      modifies this
      ensures ok <==> old(Fits(Bits(code, len)))
      ensures ok ==> Valid() && Written() == old(Written()) + Bits(code, len)
    {
      hide Pow2, Unstuffed, Stuffed, ByteForm, Bits;
      ghost var start := Written();
      assert start + Bits(HighBits(code, len), 0) == start;
      for written := 0 to len
        invariant Valid() && Written() == start + Bits(HighBits(code, len - written), written)
      {
        var bitIdx := len - written - 1;
        NextBit(code, bitIdx, written);
        Reassociate(start, Bits(HighBits(code, bitIdx + 1), written), [HighBits(code, bitIdx) % 2 == 1]);
        ok := WriteBit(HighBits(code, bitIdx) % 2);
        if !ok {
          HighBitsFirst(code, len, bitIdx);
          ByteFormGrows(start + Bits(HighBits(code, bitIdx), written + 1), Bits(code, bitIdx));
          Reassociate(start, Bits(HighBits(code, bitIdx), written + 1), Bits(code, bitIdx));
          return;
        }
      }
      BytesAreWritten();
      return true;
    }

    /** Fills the current byte up with ones. */
    method AlignWithOnes() returns (ok: bool)
      requires Valid()
      modifies this
      ensures var fill := Ones((8 - old(used)) % 8);
        (ok <==> old(Fits(fill))) && (ok ==> Valid() && used == 0 && Written() == old(Written()) + fill)
      ensures old(|Written()|) % 8 == old(used)
    {
      hide FilledUp, Pow2, Unstuffed, Stuffed, Bits, ByteForm;
      if used == 0 {
        assert Written() + Ones(0) == Written();
        BytesAreWritten();
        return true;
      }
      FillUp(current, used);
      ok := FinishByte(FilledUp(current, used), Ones(8 - used));
    }
  }
}
