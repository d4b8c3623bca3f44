/** Categories and magnitude bits of coefficients: what the encoder writes
    behind a symbol, and that RECEIVE and EXTEND give it back. */
module JpegMagnitude {
  import opened Options
  import opened Powers
  import opened BitStream
  import opened HuffmanCodes
  import opened HuffmanDecode
  import opened HuffmanFastPath
  import opened Reader = BitReader

  predicate IsI32(v: int) {
    -0x8000_0000 <= v < 0x8000_0000
  }

  function Abs(v: int): nat {
    if v < 0 then -v else v
  }

  /** How many bits `n` needs. */
  function BitLength(n: nat): nat {
    if n == 0 then 0 else 1 + BitLength(n / 2)
  }

  function Category(v: int): nat {
    BitLength(Abs(v))
  }

  /** `v` itself, or its one's complement within the category. */
  function MagnitudeField(v: int): int {
    if v >= 0 then v else Pow2(Category(v)) - 1 - Abs(v)
  }

  lemma {:induction false} BitLengthExactly(n: nat)
    requires n > 0
    ensures BitLength(n) >= 1 && Pow2(BitLength(n) - 1) <= n < Pow2(BitLength(n))
  {
    if n > 1 {
      BitLengthExactly(n / 2);
    }
  }

  lemma BitLengthAtMost(n: nat, size: nat)
    requires n > 0
    ensures BitLength(n) <= size <==> n < Pow2(size)
  {
  }

  /** The category is the least number of bits. */
  lemma CategoryAtMost(v: int, size: nat)
    ensures Category(v) <= size <==> Abs(v) < Pow2(size)
  {
    if v != 0 {
      BitLengthAtMost(Abs(v), size);
    }
  }

  lemma ShortExactly(v: int)
    ensures Category(v) <= 15 <==> -0x8000 < v < 0x8000
  {
    CategoryAtMost(v, 15);
    PowersUpTo15(15);
    assert Pow2(15) == 0x8000 by {
      SixteenBits();
    }
  }

  lemma CategoryOfI32(v: int)
    requires IsI32(v)
    ensures Category(v) <= 32
  {
    CategoryAtMost(v, 32);
    Pow2Add(16, 16);
    SixteenBits();
  }

  /** The loop that counts the bits, and the field that goes with them. */
  method Magnitude(value: int) returns (size: nat, bits: int)
    requires IsI32(value)
    ensures size == Category(value) && bits == MagnitudeField(value)
  {
    if value == 0 {
      assert Category(0) == 0;
      return 0, 0;
    }
    var magnitude := Abs(value);
    var remaining: nat := magnitude;
    size := 0;
    while remaining > 0
      invariant size + BitLength(remaining) == BitLength(magnitude)
    {
      size := size + 1;
      remaining := remaining / 2;
    }
    var categoryMask := Pow2(size) - 1;
    bits := if value >= 0 then magnitude else categoryMask - magnitude;
  }

  /** EXTEND inverts the magnitude field. */
  lemma ExtendInvertsField(v: int)
    requires v != 0
    ensures Category(v) >= 1 && 0 <= MagnitudeField(v) < Pow2(Category(v))
    ensures Extend(MagnitudeField(v), Category(v)) == v
  {
    BitLengthExactly(Abs(v));
  }

  /** The bits written behind the symbol of a coefficient. */
  function MagnitudeBitsOf(v: int): seq<bool> {
    if v == 0 then [] else
      ExtendInvertsField(v);
      Bits(MagnitudeField(v), Category(v))
  }

  /** Receiving the magnitude bits gives the coefficient back. */
  lemma ReceiveInvertsMagnitude(a: Ahead, v: int, tail: seq<bool>)
    requires Holds(a, MagnitudeBitsOf(v) + tail, true)
    ensures ReceiveCoefficient(a, Category(v)).0 == Ok(v) && Holds(ReceiveCoefficient(a, Category(v)).1, tail, true)
  {
    if v == 0 {
      assert MagnitudeBitsOf(v) + tail == tail;
    } else {
      ExtendInvertsField(v);
      BitsValue(MagnitudeField(v), Category(v));
      assert Look(a)[..Category(v)] == MagnitudeBitsOf(v);
      assert (MagnitudeBitsOf(v) + tail)[Category(v)..] == tail;
    }
  }

  lemma ReceivedBelow(a: Ahead, ssss: nat, size: nat)
    requires ssss <= size && ReceiveCoefficient(a, ssss).0.Ok?
    ensures Abs(ReceiveCoefficient(a, ssss).0.value) < Pow2(size)
  {
    if ssss > 0 {
      ValueBelow(Look(a)[..ssss]);
      Pow2Monotone(ssss, size);
      Pow2Monotone(ssss - 1, ssss);
    }
  }
}
