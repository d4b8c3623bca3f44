/** Powers of two and the bits of a natural number, shared by the codec models. */
module Powers {

  function Pow2(n: nat): (p: nat)
    ensures p >= 1
  {
    if n == 0 then 1 else 2 * Pow2(n - 1)
  }

  /** Bit `k` of `m`, counted from the least significant end. */
  predicate Bit(m: nat, k: nat) {
    (m / Pow2(k)) % 2 == 1
  }

  function Quotient(n: nat, d: nat): nat
    requires d >= 1
  {
    n / d
  }

  /** `m | (1 << k)`. */
  function SetBit(m: nat, k: nat): nat {
    if Bit(m, k) then m else m + Pow2(k)
  }

  lemma {:induction false} Pow2Add(a: nat, b: nat)
    ensures Pow2(a + b) == Pow2(a) * Pow2(b)
  {
    if a == 0 {
    } else {
      Pow2Add(a - 1, b);
      assert Pow2(a + b) == 2 * Pow2(a - 1 + b);
    }
  }

  lemma {:induction false} Pow2Monotone(a: nat, b: nat)
    requires a <= b
    ensures Pow2(a) <= Pow2(b)
    ensures a < b ==> 2 * Pow2(a) <= Pow2(b)
    decreases b
  {
    if a < b {
      Pow2Monotone(a, b - 1);
    }
  }

  lemma MultipleBelow(x: int, d: int, y: int)
    requires d >= 0 && x * d == y && -d < y < d
    ensures x == 0
  {
  }

  /** Division with remainder is unique. */
  lemma DivMul(q: nat, d: nat, r: nat)
    requires r < d
    ensures (q * d + r) / d == q
    ensures (q * d + r) % d == r
  {
    var m := q * d + r;
    var x := q - m / d;
    assert x * d == q * d - (m / d) * d;
    MultipleBelow(x, d, m % d - r);
  }

  lemma NextQuotient(m: nat, d: nat)
    requires d >= 1
    ensures (m + d) / d == m / d + 1
  {
    var q := Quotient(m, d);
    assert m + d == (q + 1) * d + m % d;
    DivMul(q + 1, d, m % d);
  }

  /** Setting a bit sets it, and once is enough. */
  lemma SetBitTwice(m: nat, k: nat)
    ensures Bit(SetBit(m, k), k) && SetBit(SetBit(m, k), k) == SetBit(m, k)
  {
    hide Pow2;
    NextQuotient(m, Pow2(k));
  }

  lemma Scale(h: nat, b: nat, d: nat)
    ensures (2 * h + b) * d == h * (2 * d) + b * d
  {
  }

  lemma Double(x: nat, p: nat)
    ensures 2 * (x * p) == x * (2 * p)
  {
  }

  lemma Ordered(a: nat, b: nat, w: nat)
    requires a <= b
    ensures a * w <= b * w
  {
  }

  /** Dropping `k` bits and then one more is dropping `k + 1` bits. */
  lemma HalveAgain(m: nat, k: nat)
    ensures m / Pow2(k + 1) == (m / Pow2(k)) / 2
    ensures m / Pow2(k) == 2 * (m / Pow2(k + 1)) + (if Bit(m, k) then 1 else 0)
  {
    var d := Pow2(k);
    var q, r := m / d, m % d;
    var h, b := q / 2, q % 2;
    Scale(h, b, d);
    var low := b * d + r;
    assert m == h * (2 * d) + low;
    assert b * d <= d by {
      Ordered(b, 1, d);
    }
    DivMul(h, 2 * d, low);
  }

  lemma NextMultiple(a: int, b: int, w: int, p: int)
    requires w >= 1 && a * w == p && b * w == p + w
    ensures b == a + 1
  {
    var x := b - a - 1;
    assert x * w == b * w - a * w - w;
    MultipleBelow(x, w, 0);
  }
}
