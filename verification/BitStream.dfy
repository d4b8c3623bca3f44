/** Bit strings, most significant bit first, and what is left of an
    entropy-coded scan. */
module BitStream {
  import opened Options
  import opened Powers

  function Value(bits: seq<bool>): nat {
    if bits == [] then 0
    else 2 * Value(bits[..|bits| - 1]) + (if bits[|bits| - 1] then 1 else 0)
  }

  /** The `n` low bits of `v`. */
  function Bits(v: nat, n: nat): (bits: seq<bool>)
    ensures |bits| == n
  {
    if n == 0 then [] else Bits(v / 2, n - 1) + [v % 2 == 1]
  }

  function Ones(n: nat): (bits: seq<bool>)
    ensures |bits| == n
  {
    seq(n, i => true)
  }

  lemma {:induction false} ValueBelow(bits: seq<bool>)
    ensures Value(bits) < Pow2(|bits|)
  {
    if bits != [] {
      ValueBelow(bits[..|bits| - 1]);
    }
  }

  lemma {:induction false} BitsValue(v: nat, n: nat)
    requires v < Pow2(n)
    ensures Value(Bits(v, n)) == v
  {
    if n > 0 {
      BitsValue(v / 2, n - 1);
      assert Bits(v, n)[..n - 1] == Bits(v / 2, n - 1);
    }
  }

  lemma {:induction false} ValueBits(bits: seq<bool>)
    ensures Bits(Value(bits), |bits|) == bits
  {
    if bits != [] {
      var init := bits[..|bits| - 1];
      ValueBits(init);
      assert Value(bits) / 2 == Value(init);
    }
  }

  lemma {:induction false} ValueConcat(a: seq<bool>, b: seq<bool>)
    ensures Value(a + b) == Value(a) * Pow2(|b|) + Value(b)
  {
    if b == [] {
      assert a + b == a;
    } else {
      var init, last := b[..|b| - 1], if b[|b| - 1] then 1 else 0;
      ValueConcat(a, init);
      assert (a + b)[..|a + b| - 1] == a + init;
      Double(Value(a), Pow2(|init|));
      assert Value(a + b) == 2 * Value(a + init) + last;
      assert Value(b) == 2 * Value(init) + last;
    }
  }

  /** Dropping the low bits, and keeping the low bits. */
  lemma ValueSplit(bits: seq<bool>, n: nat)
    requires n <= |bits|
    ensures Value(bits) / Pow2(|bits| - n) == Value(bits[..n])
    ensures Value(bits) % Pow2(|bits| - n) == Value(bits[n..])
  {
    hide Value, Pow2;
    assert bits == bits[..n] + bits[n..];
    ValueConcat(bits[..n], bits[n..]);
    ValueBelow(bits[n..]);
    DivMul(Value(bits[..n]), Pow2(|bits| - n), Value(bits[n..]));
  }

  /** The field of `m` bits that follows the first `n`. */
  lemma ValueField(bits: seq<bool>, n: nat, m: nat)
    requires n + m <= |bits|
    ensures (Value(bits) / Pow2(|bits| - n - m)) % Pow2(m) == Value(bits[n..n + m])
  {
    ValueSplit(bits, n + m);
    ValueSplit(bits[..n + m], n);
    assert bits[..n + m][n..] == bits[n..n + m];
  }

  // ----- the scan that is left -----

  /** `coded` is what the scan still holds, `synthetic` the ones already appended
      behind it, `padding` whether more may be appended. */
  datatype Ahead = Ahead(coded: seq<bool>, synthetic: nat, padding: bool)

  function Look(a: Ahead): seq<bool> {
    a.coded + Ones(a.synthetic)
  }

  /** Makes `n` bits available, padding with ones where that is allowed. */
  function EnsurePadded(a: Ahead, n: nat): Option<Ahead> {
    if |Look(a)| >= n then Some(a)
    else if a.padding then Some(a.(synthetic := n - |a.coded|))
    else None
  }

  function Peek(a: Ahead, n: nat): nat
    requires n <= |Look(a)|
  {
    Value(Look(a)[..n])
  }

  function Consume(a: Ahead, n: nat): Ahead
    requires n <= |Look(a)|
  {
    if n <= |a.coded| then a.(coded := a.coded[n..])
    else Ahead([], a.synthetic - (n - |a.coded|), a.padding)
  }

  lemma ConsumeLook(a: Ahead, n: nat)
    requires n <= |Look(a)|
    ensures Look(Consume(a, n)) == Look(a)[n..]
  {
  }

  lemma ConsumeTwice(a: Ahead, n: nat, m: nat)
    requires n + m <= |Look(a)|
    ensures m <= |Look(Consume(a, n))|
    ensures Consume(Consume(a, n), m) == Consume(a, n + m)
  {
  }

  // ----- the bytes of the scan -----

  predicate IsBytes(bytes: seq<nat>) {
    forall i :: 0 <= i < |bytes| ==> bytes[i] < 256
  }

  /** The first position at or after `pos` that does not hold 0xFF. */
  function AfterFill(bytes: seq<nat>, pos: nat): (next: nat)
    ensures pos <= |bytes| ==> pos <= next <= |bytes|
    decreases |bytes| - pos
  {
    if pos < |bytes| && bytes[pos] == 0xFF then AfterFill(bytes, pos + 1) else pos
  }

  /** The coded bits from `pos` on, up to a marker or the end: a 0xFF (and any
      fill before it) followed by 0x00 is a data byte 0xFF, anything else after
      0xFF is a marker (section F.1.2.3). */
  function Unstuffed(bytes: seq<nat>, pos: nat): seq<bool>
    decreases |bytes| - pos
  {
    if pos >= |bytes| then []
    else if bytes[pos] != 0xFF then Bits(bytes[pos], 8) + Unstuffed(bytes, pos + 1)
    else
      var code := AfterFill(bytes, pos + 1);
      if code < |bytes| && bytes[code] == 0 then Bits(bytes[pos], 8) + Unstuffed(bytes, code + 1) else []
  }

  /** Whether ones may follow the coded bits: at a marker always, at the very end
      of the bytes only if the caller allows it, after a dangling 0xFF never. */
  predicate MayPad(bytes: seq<nat>, pos: nat, allowEof: bool)
    decreases |bytes| - pos
  {
    if pos >= |bytes| then allowEof
    else if bytes[pos] != 0xFF then MayPad(bytes, pos + 1, allowEof)
    else
      var code := AfterFill(bytes, pos + 1);
      code < |bytes| && (bytes[code] == 0 ==> MayPad(bytes, code + 1, allowEof))
  }
}
