/** Reconstructing an irreversible coefficient at the middle of its bin, over
    exact reals, and undoing the shift of a region of interest. */
module Reconstruction {
  import opened Options
  import opened Powers
  import opened Midpoint

  /** Twice the reconstructed magnitude, `(magnitude << 1) | (1 << bit)`. */
  function DoubledReconstruction(magnitude: nat, bit: nat): nat {
    SetBit(2 * magnitude, bit)
  }

  /** Shifts a doubled magnitude back down if it reaches the threshold. */
  function Unshifted(doubled: nat, roiShift: nat): nat {
    if roiShift != 0 && doubled >= Pow2(roiShift) then Quotient(doubled, Pow2(roiShift)) else doubled
  }

  function Half(n: nat): real {
    n as real / 2.0
  }

  function ReconstructMidpoint(signed: int, planes: nat, passes: nat, roiShift: nat): real {
    var magnitude := if signed < 0 then -signed else signed;
    if magnitude == 0 || planes == 0 || passes == 0 then 0.0
    else
      match IrreversibleMidpointBit(magnitude, planes, passes)
      case None => signed as real
      case Some(bit) =>
        var reconstructed := Half(Unshifted(DoubledReconstruction(magnitude, bit), roiShift));
        if signed < 0 then -reconstructed else reconstructed
  }

  // ----- the error of the middle -----

  lemma DoubledIs(m: nat, bit: nat)
    requires Aligned(m, bit)
    ensures DoubledReconstruction(m, bit) == 2 * m + Pow2(bit)
    ensures Aligned(2 * m, bit + 1)
  {
    var d, q := Pow2(bit), m / Pow2(bit);
    assert 2 * m == q * (2 * d);
    DivMul(q, 2 * d, 0);
    AlignedHasNoBit(2 * m, bit);
  }

  lemma BinAround(m: nat, bit: nat, truth: nat)
    requires Aligned(m, bit) && Truncates(m, truth, bit)
    ensures m <= truth < m + Pow2(bit)
  {
    var d, q := Pow2(bit), m / Pow2(bit);
    assert truth == q * d + truth % d;
  }

  /** What the position is for: the true magnitude lies in the half-open bin
      above the decoded one, of the width of the last coded position, and the
      reconstructed value is at most half a bin away from the true one.  Where
      nothing but zeros has been decoded it is zero, at the edge of its bin. */
  lemma MidpointHalvesTheError(planes: nat, run: seq<Visit>, truth: nat, negative: bool)
    requires |run| > 0 && PassesFit(planes, |run|) && planes <= 64
    requires truth < Pow2(planes) && Carries(planes, run, truth)
    ensures var c := Decode(planes, run);
      && c.lastCoded.Some? && c.magnitude <= truth < c.magnitude + Pow2(c.lastCoded.value)
      && var m: int := c.magnitude;
         var value := ReconstructMidpoint(if negative then -m else m, planes, |run|, 0);
         var exact, half := if negative then -(truth as real) else truth as real, Half(Pow2(c.lastCoded.value));
         if m == 0 then value == 0.0 else -half <= value - exact <= half
  {
    var m, bit := DecodedBin(planes, run, truth);
    hide Decode, Carries, PassesFit, Aligned, Pow2, ReconstructMidpoint, IrreversibleMidpointBit;
    if m == 0 {
      NothingReconstructed(m, planes, |run|, 0);
    } else {
      MiddleOf(m, bit, planes, |run|, negative, 0);
    }
  }

  lemma DecodedBin(planes: nat, run: seq<Visit>, truth: nat) returns (m: nat, bit: nat)
    requires |run| > 0 && PassesFit(planes, |run|) && planes <= 64
    requires truth < Pow2(planes) && Carries(planes, run, truth)
    ensures m == Decode(planes, run).magnitude && Decode(planes, run).lastCoded == Some(bit)
    ensures m != 0 ==> IrreversibleMidpointBit(m, planes, |run|) == Some(bit)
    ensures Aligned(m, bit) && m <= truth < m + Pow2(bit)
  {
    var c := Decode(planes, run);
    RunCoherent(planes, run);
    RunTruncates(planes, run, truth);
    MidpointIsLastCodedPosition(planes, run);
    m, bit := c.magnitude, c.lastCoded.value;
    BinAround(m, bit, truth);
  }

  /** Without a magnitude, a plane or a pass there is nothing to reconstruct, and
      behind the passes that the planes have nothing is added to a magnitude. */
  lemma NothingReconstructed(signed: int, planes: nat, passes: nat, roiShift: nat)
    ensures signed == 0 || planes == 0 || passes == 0 ==> ReconstructMidpoint(signed, planes, passes, roiShift) == 0.0
    ensures 0 < planes <= 64 && passes > 3 * planes - 2 ==>
      ReconstructMidpoint(signed, planes, passes, roiShift) == signed as real
  {
    if 0 < planes <= 64 {
      MidpointDefinedExactly(if signed < 0 then -signed else signed, planes, passes);
    }
  }

  function Signed(magnitude: real, negative: bool): real {
    if negative then -magnitude else magnitude
  }

  lemma MiddleOf(m: int, bit: nat, planes: nat, passes: nat, negative: bool, roiShift: nat)
    requires m > 0 && Aligned(m, bit) && IrreversibleMidpointBit(m, planes, passes) == Some(bit)
    ensures ReconstructMidpoint(if negative then -m else m, planes, passes, roiShift)
      == Signed(Half(Unshifted(2 * m + Pow2(bit), roiShift)), negative)
  {
    DoubledIs(m, bit);
    PassesNeeded(m, bit, planes, passes);
    hide IrreversibleMidpointBit, Pow2, Aligned, DoubledReconstruction;
  }

  lemma PassesNeeded(m: nat, bit: nat, planes: nat, passes: nat)
    requires IrreversibleMidpointBit(m, planes, passes) == Some(bit)
    ensures planes > 0 && passes > 0
  {
  }

  // ----- the region of interest -----

  /** The inverse of the shift on a reconstructed coefficient: what reaches
      2^shift is of the region of interest and scaled down. */
  function RoiInverse(coefficient: real, roiShift: nat): real {
    if roiShift == 0 || -(Pow2(roiShift) as real) < coefficient < Pow2(roiShift) as real then coefficient
    else coefficient / (Pow2(roiShift) as real)
  }

  lemma AlignedIsMultiple(m: nat, bit: nat) returns (q: nat)
    requires Aligned(m, bit)
    ensures m == q * Pow2(bit) && (m > 0 ==> m >= Pow2(bit))
  {
    q := Quotient(m, Pow2(bit));
    if q > 0 {
      Ordered(1, q, Pow2(bit));
    }
  }

  lemma SmallerPower(bit: nat, k: nat)
    requires Pow2(bit) < Pow2(k)
    ensures bit < k
  {
    if bit >= k {
      Pow2Monotone(k, bit);
    }
  }

  /** Nothing aligned lies closer below a power of two than its alignment. */
  lemma AlignedRoom(m: nat, bit: nat, k: nat)
    requires Aligned(m, bit) && 0 < m < Pow2(k)
    ensures bit < k && m + Pow2(bit) <= Pow2(k)
  {
    var q := AlignedIsMultiple(m, bit);
    hide Pow2, Aligned;
    SmallerPower(bit, k);
    Pow2Add(k - bit, bit);
    Below(q, Pow2(k - bit), Pow2(bit));
  }

  lemma Below(q: nat, r: nat, d: nat)
    requires q * d < r * d
    ensures q * d + d <= r * d
  {
    if q >= r {
      Ordered(r, q, d);
    }
    Ordered(q + 1, r, d);
  }

  lemma Regrouped(a: nat, b: nat, c: nat)
    ensures a * (b * c) == (a * b) * c
  {
  }

  lemma OddMultiple(q: nat, d: nat)
    ensures 2 * (q * d) + d == (2 * q + 1) * d == q * (2 * d) + d
  {
  }

  /** A multiple of a multiple. */
  lemma MultipleDivides(n: nat, k: nat, a: nat, p: nat)
    requires p >= 1 && n == k * (a * p)
    ensures n % p == 0
  {
    Regrouped(k, a, p);
    DivMul(k * a, p, 0);
  }

  lemma OddWholes(q: nat, d: nat, a: nat, p: nat)
    requires p >= 1 && d == a * p
    ensures (2 * (q * d) + d) % p == 0
  {
    OddMultiple(q, d);
    MultipleDivides(2 * (q * d) + d, 2 * q + 1, a, p);
  }

  lemma WideBinDivides(q: nat, bit: nat, s: nat)
    requires bit >= s
    ensures (2 * (q * Pow2(bit)) + Pow2(bit)) % Pow2(s) == 0
  {
    var a, d, p := Pow2(bit - s), Pow2(bit), Pow2(s);
    Pow2Add(bit - s, s);
    hide Pow2;
    OddWholes(q, d, a, p);
  }

  /** What a factor does not divide, the product does not. */
  lemma NotDivisible(n: nat, p: nat, a: nat, b: nat)
    requires a >= 1 && b >= 1 && p == a * b && p >= 1 && n % b != 0
    ensures n % p != 0
  {
    var k := Quotient(n, p);
    if n == k * p {
      MultipleDivides(n, k, a, b);
    }
  }

  lemma OddHalves(q: nat, d: nat, a: nat, p: nat)
    requires d >= 1 && a >= 1 && p == a * (2 * d) && p >= 1
    ensures (2 * (q * d) + d) % p != 0
  {
    OddMultiple(q, d);
    DivMul(q, 2 * d, d);
    NotDivisible(2 * (q * d) + d, p, a, 2 * d);
  }

  lemma FineBinDoesNot(q: nat, bit: nat, s: nat)
    requires bit < s
    ensures (2 * (q * Pow2(bit)) + Pow2(bit)) % Pow2(s) != 0
  {
    var a, d, p := Pow2(s - bit - 1), Pow2(bit), Pow2(s);
    assert Pow2(bit + 1) == 2 * d;
    Pow2Add(s - bit - 1, bit + 1);
    hide Pow2;
    OddHalves(q, d, a, p);
  }

  /** The middle is a multiple of 2^shift exactly when its bin is. */
  lemma MiddleDivides(m: nat, bit: nat, s: nat)
    requires Aligned(m, bit)
    ensures (2 * m + Pow2(bit)) % Pow2(s) == 0 <==> bit >= s
  {
    var q := AlignedIsMultiple(m, bit);
    hide Pow2, Aligned;
    if bit >= s {
      WideBinDivides(q, bit, s);
    } else {
      FineBinDoesNot(q, bit, s);
    }
  }

  lemma HalfExactly(doubled: nat, p: nat)
    requires p >= 1
    ensures Half(Quotient(doubled, p)) == Half(doubled) / (p as real) <==> doubled % p == 0
    ensures Half(doubled) / (p as real) - 0.5 < Half(Quotient(doubled, p)) <= Half(doubled) / (p as real)
  {
    var q, r := doubled / p, doubled % p;
    assert doubled == q * p + r;
    var x := doubled as real / (p as real);
    Products(q, p);
    assert x * (p as real) == doubled as real;
    RealQuotient(x, q, r, p);
    assert Half(doubled) / (p as real) == x / 2.0;
  }

  lemma Products(a: nat, b: nat)
    ensures (a * b) as real == (a as real) * (b as real)
  {
  }

  lemma SignOfProduct(e: real, p: real)
    requires p > 0.0
    ensures e < 0.0 ==> e * p < 0.0
    ensures e >= 1.0 ==> e * p >= p
    ensures e * p == 0.0 <==> e == 0.0
  {
  }

  lemma RealQuotient(x: real, q: nat, r: nat, p: nat)
    requires p >= 1 && r < p && x * (p as real) == (q as real) * (p as real) + r as real
    ensures q as real <= x < q as real + 1.0
    ensures x == q as real <==> r == 0
  {
    var e := x - q as real;
    assert e * (p as real) == r as real;
    SignOfProduct(e, p as real);
  }

  lemma QuotientIsOne(n: nat, p: nat)
    requires 1 <= p <= n < 2 * p
    ensures Quotient(n, p) == 1
  {
    DivMul(1, p, n - p);
  }

  /** What the shift makes of a doubled middle: nothing in the lower half of the
      background, one in its upper half, and a quotient in the region. */
  lemma UnshiftedMiddle(m: nat, bit: nat, s: nat)
    requires m > 0 && Aligned(m, bit) && s > 0
    ensures Pow2(s) == 2 * Pow2(s - 1)
    ensures m < Pow2(s) ==> m + Pow2(bit) <= Pow2(s)
    ensures var doubled := 2 * m + Pow2(bit);
      Unshifted(doubled, s) == if m < Pow2(s - 1) then doubled else if m < Pow2(s) then 1 else Quotient(doubled, Pow2(s))
  {
    var doubled, p := 2 * m + Pow2(bit), Pow2(s);
    if m < Pow2(s - 1) {
      AlignedRoom(m, bit, s - 1);
    } else if m < p {
      AlignedRoom(m, bit, s);
      QuotientIsOne(doubled, p);
    }
  }

  /** The middle is shifted back as reconstructed magnitudes are exactly in the
      lower half of the background, or in the region with a wide bin. */
  lemma MiddleShiftsBack(m: nat, bit: nat, s: nat)
    requires m > 0 && Aligned(m, bit) && s > 0
    ensures var doubled := 2 * m + Pow2(bit);
      Half(Unshifted(doubled, s)) == RoiInverse(Half(doubled), s) <==> m < Pow2(s - 1) || (m >= Pow2(s) && bit >= s)
  {
    UnshiftedMiddle(m, bit, s);
    MiddleDivides(m, bit, s);
    HalfExactly(2 * m + Pow2(bit), Pow2(s));
    hide Pow2, Aligned, Unshifted, Quotient;
  }

  lemma InverseOfSign(x: real, s: nat, negative: bool)
    ensures RoiInverse(Signed(x, negative), s) == Signed(RoiInverse(x, s), negative)
  {
  }

  /** The code shifts before it halves.  That gives what the plain inverse makes
      of the unshifted reconstruction if and only if there is no shift, or the
      magnitude is of the background and below half the threshold, or it is of the
      region of interest with a bin of at least the threshold.  For the rest of
      the background the doubled magnitude has already reached the threshold, and
      for a finer bin the shift drops what is below a half. */
  lemma RoiMidpointExactly(m: int, bit: nat, planes: nat, passes: nat, negative: bool, s: nat)
    requires m > 0 && Aligned(m, bit) && IrreversibleMidpointBit(m, planes, passes) == Some(bit)
    ensures var signed := if negative then -m else m;
      (ReconstructMidpoint(signed, planes, passes, s) == RoiInverse(ReconstructMidpoint(signed, planes, passes, 0), s))
      <==> s == 0 || m < Pow2(s - 1) || (m >= Pow2(s) && bit >= s)
  {
    MiddleOf(m, bit, planes, passes, negative, s);
    MiddleOf(m, bit, planes, passes, negative, 0);
    InverseOfSign(Half(2 * m + Pow2(bit)), s, negative);
    if s > 0 {
      MiddleShiftsBack(m, bit, s);
    }
    hide ReconstructMidpoint, RoiInverse, Half, Pow2, IrreversibleMidpointBit, Aligned;
  }

  /** With a shift the background comes out within half a bin exactly if it is
      below half the threshold, or is 1; in the region of interest, where the true
      coefficient is 2^shift times as small, half a bin and less than a half more
      are lost, the latter only if the bin is finer than the threshold.  Zero stays
      zero. */
  lemma RoiMidpointError(planes: nat, run: seq<Visit>, truth: nat, negative: bool, s: nat)
    requires |run| > 0 && PassesFit(planes, |run|) && planes <= 64 && s > 0
    requires truth < Pow2(planes) && Carries(planes, run, truth)
    ensures var c := Decode(planes, run);
      c.lastCoded.Some? &&
      var m: int, bit := c.magnitude, c.lastCoded.value;
      var value := Signed(ReconstructMidpoint(if negative then -m else m, planes, |run|, s), negative);
      var half, p := Half(Pow2(bit)), Pow2(s) as real;
      if m == 0 then
        value == 0.0 && truth < Pow2(bit)
      else if m < Pow2(s) then
        -half <= value - truth as real <= half <==> m < Pow2(s - 1) || m == 1
      else
        && -half / p - 0.5 < value - truth as real / p <= half / p
        && (bit >= s ==> -half / p <= value - truth as real / p)
  {
    var m, bit := DecodedBin(planes, run, truth);
    hide Decode, Carries, PassesFit, Pow2, ReconstructMidpoint, IrreversibleMidpointBit;
    if m == 0 {
      NothingReconstructed(m, planes, |run|, s);
    } else if m < Pow2(s) {
      MiddleOf(m, bit, planes, |run|, negative, s);
      BackgroundError(m, bit, truth, s);
    } else {
      MiddleOf(m, bit, planes, |run|, negative, s);
      RegionError(m, bit, truth, s);
    }
  }

  lemma BackgroundError(m: nat, bit: nat, truth: nat, s: nat)
    requires m > 0 && Aligned(m, bit) && s > 0 && m <= truth < m + Pow2(bit) && m < Pow2(s)
    ensures var value, half := Half(Unshifted(2 * m + Pow2(bit), s)), Half(Pow2(bit));
      -half <= value - truth as real <= half <==> m < Pow2(s - 1) || m == 1
  {
    UnshiftedMiddle(m, bit, s);
    var q := AlignedIsMultiple(m, bit);
    hide Aligned, Pow2, Unshifted;
  }

  lemma RegionError(m: nat, bit: nat, truth: nat, s: nat)
    requires m > 0 && Aligned(m, bit) && s > 0 && m <= truth < m + Pow2(bit) && m >= Pow2(s)
    ensures var value, half, p := Half(Unshifted(2 * m + Pow2(bit), s)), Half(Pow2(bit)), Pow2(s) as real;
      && -half / p - 0.5 < value - truth as real / p <= half / p
      && (bit >= s ==> -half / p <= value - truth as real / p)
  {
    var doubled := 2 * m + Pow2(bit);
    UnshiftedMiddle(m, bit, s);
    MiddleDivides(m, bit, s);
    HalfExactly(doubled, Pow2(s));
    DividedError(Half(doubled), truth as real, Half(Pow2(bit)), Pow2(s) as real);
    hide Aligned, Pow2, Unshifted, Quotient, Half;
  }

  lemma DividedError(x: real, y: real, e: real, p: real)
    requires p >= 1.0 && -e <= x - y <= e
    ensures -e / p <= x / p - y / p <= e / p
  {
    var d := 1.0 / p;
    assert x / p - y / p == (x - y) / p;
  }

  /** The largest magnitude of the background with a shift of 7, decoded down to
      its last bit, is scaled down to a half, where the plain inverse leaves it. */
  lemma BackgroundIsScaledDown()
    ensures ReconstructMidpoint(127, 14, 40, 7) == 0.5
    ensures ReconstructMidpoint(127, 14, 40, 0) == 127.5 == RoiInverse(127.5, 7)
  {
    var bit, s: nat := 0, 7;
    assert Pow2(bit) == 1 && Pow2(s) == 128;
    assert Aligned(127, bit);
    MiddleOf(127, bit, 14, 40, false, 0);
    MiddleOf(127, bit, 14, 40, false, s);
    QuotientIsOne(255, Pow2(s));
  }
}
