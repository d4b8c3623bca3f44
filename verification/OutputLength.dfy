/** The three checks of an external decoder's output length, which multiply in
    different orders under different overflow guards. */
module OutputLength {
  import opened Options
  import opened Powers

  const CAP: nat := 0x2000_0000
  const U32_MAX: nat := 0xFFFF_FFFF

  predicate IsU32(v: nat) {
    v < 0x1_0000_0000
  }

  /** What all three are meant to compute. */
  function OutputLen(width: nat, height: nat, channels: nat): Option<nat> {
    if (channels == 1 || channels == 3) && width > 0 && height > 0 && width * height * channels <= 0x2000_0000
    then Some(width * height * channels) else None
  }

  /** Checked multiplication of machine words, by a division. */
  function MulByDivision(lhs: nat, rhs: nat, sizeMax: nat): Option<nat> {
    if lhs != 0 && rhs > sizeMax / lhs then None else Some(lhs * rhs)
  }

  /** Checked multiplication, by the exact product. */
  function CheckedMul(lhs: nat, rhs: nat, sizeMax: nat): Option<nat> {
    if lhs * rhs > sizeMax then None else Some(lhs * rhs)
  }

  function CheckedAdd(lhs: nat, rhs: nat, sizeMax: nat): Option<nat>
    requires lhs <= sizeMax
  {
    if rhs > sizeMax - lhs then None else Some(lhs + rhs)
  }

  lemma ProductGrows(a: nat, b: nat)
    requires b >= 1
    ensures a <= a * b
  {
  }

  lemma Commutes(a: nat, b: nat)
    ensures a * b == b * a
  {
  }

  lemma Rearranges(a: nat, b: nat, c: nat)
    ensures a * b * c == a * c * b
  {
  }

  lemma QuotientBounds(a: nat, b: nat, m: nat)
    requires a > 0
    ensures b > m / a <==> a * b > m
  {
    var q := m / a;
    assert m == q * a + m % a;
    if b <= q {
      Ordered(b, q, a);
    } else {
      Ordered(q + 1, b, a);
      assert (q + 1) * a == q * a + a;
    }
    Commutes(a, b);
  }

  lemma DivisionGuards(lhs: nat, rhs: nat, sizeMax: nat)
    ensures MulByDivision(lhs, rhs, sizeMax) == CheckedMul(lhs, rhs, sizeMax)
  {
    if lhs != 0 {
      QuotientBounds(lhs, rhs, sizeMax);
    }
  }

  /** The C check: pixels first, guarded by divisions. */
  function GrokOutputLen(width: nat, height: nat, channels: nat, sizeMax: nat): Option<nat> {
    if channels != 1 && channels != 3 then None
    else if width == 0 || height == 0 then None
    else
      match MulByDivision(width, height, sizeMax)
      case None => None
      case Some(pixels) =>
        match MulByDivision(pixels, channels, sizeMax)
        case None => None
        case Some(total) => if total > CAP then None else Some(total)
  }

  /** The C++ checks: a row first, the quotients taken by channels and height. */
  function RowOutputLen(width: nat, height: nat, channels: nat, sizeMax: nat): Option<nat> {
    if (channels != 1 && channels != 3) || width == 0 || height == 0 then None
    else if width > sizeMax / channels then None
    else
      var row := width * channels;
      if row > sizeMax / height then None
      else if row * height <= CAP then Some(row * height) else None
  }

  /** The Rust check: conversions to the word size, then exact products. */
  function RustOutputLen(width: nat, height: nat, channels: nat, sizeMax: nat): Option<nat> {
    if channels != 1 && channels != 3 then None
    else if width == 0 || height == 0 then None
    else if width > sizeMax || height > sizeMax || channels > sizeMax then None
    else
      match CheckedMul(width, height, sizeMax)
      case None => None
      case Some(pixels) =>
        match CheckedMul(pixels, channels, sizeMax)
        case None => None
        case Some(len) => if len > CAP then None else Some(len)
  }

  /** On every platform whose words have at least 32 bits the three checks
      accept the same sizes with the same length. */
  lemma OutputLengthsAgree(width: nat, height: nat, channels: nat, sizeMax: nat)
    requires IsU32(width) && IsU32(height) && IsU32(channels) && sizeMax >= U32_MAX
    ensures GrokOutputLen(width, height, channels, sizeMax) == OutputLen(width, height, channels)
    ensures RowOutputLen(width, height, channels, sizeMax) == OutputLen(width, height, channels)
    ensures RustOutputLen(width, height, channels, sizeMax) == OutputLen(width, height, channels)
  {
    if (channels == 1 || channels == 3) && width > 0 && height > 0 {
      PixelsFirst(width, height, channels, sizeMax);
      RowFirst(width, height, channels, sizeMax);
    }
  }

  lemma PixelsFirst(width: nat, height: nat, channels: nat, sizeMax: nat)
    requires (channels == 1 || channels == 3) && width > 0 && height > 0
    requires IsU32(width) && IsU32(height) && sizeMax >= U32_MAX
    ensures GrokOutputLen(width, height, channels, sizeMax) == OutputLen(width, height, channels)
    ensures RustOutputLen(width, height, channels, sizeMax) == OutputLen(width, height, channels)
  {
    var pixels := width * height;
    DivisionGuards(width, height, sizeMax);
    DivisionGuards(pixels, channels, sizeMax);
    ProductGrows(pixels, channels);
  }

  lemma RowFirst(width: nat, height: nat, channels: nat, sizeMax: nat)
    requires (channels == 1 || channels == 3) && width > 0 && height > 0 && sizeMax >= U32_MAX
    ensures RowOutputLen(width, height, channels, sizeMax) == OutputLen(width, height, channels)
  {
    var row := width * channels;
    QuotientBounds(channels, width, sizeMax);
    Commutes(channels, width);
    QuotientBounds(height, row, sizeMax);
    Commutes(height, row);
    ProductGrows(row, height);
    Rearranges(width, height, channels);
  }
}
