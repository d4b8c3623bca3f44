/** The half-bin position used to reconstruct an irreversible JPEG 2000
    coefficient, and the Tier-1 coding passes (ITU-T T.800, section D.3) it
    is a shortcut for.

    One coefficient is followed through the passes.  What its neighbours do to
    it, and every decoded bit, is arbitrary: a run is a sequence of `Visit`s,
    one per coding pass. */
module Midpoint {
  import opened Options
  import opened Powers

  const MAGNITUDE_BITS: nat := 64

  /** What one coding pass finds at the coefficient. */
  datatype Visit = Visit(neighbours: bool, bit: bool)

  /** `zeroCoded` is the plane of the last significance-propagation visit,
      `lastCoded` the bit position at which the coefficient was last coded. */
  datatype Coefficient = Coefficient(magnitude: nat, significant: bool, zeroCoded: Option<nat>, lastCoded: Option<nat>)

  function PlaneOf(pass: nat): nat {
    (pass + 2) / 3
  }

  /** Pass `pass` of a block with `planes` decoded planes, at one coefficient:
      0 is cleanup, 1 significance propagation, 2 magnitude refinement. */
  function CodePass(c: Coefficient, planes: nat, pass: nat, v: Visit): Coefficient
    requires PlaneOf(pass) < planes
  {
    var plane := PlaneOf(pass);
    var position := planes - 1 - plane;
    if pass % 3 == 0 then
      if !c.significant && c.zeroCoded != Some(plane) then
        if v.bit then
          c.(magnitude := SetBit(c.magnitude, position), significant := true, lastCoded := Some(position))
        else
          c.(lastCoded := Some(position))
      else c
    else if pass % 3 == 1 then
      if !c.significant && v.neighbours then
        if v.bit then
          Coefficient(SetBit(c.magnitude, position), true, Some(plane), Some(position))
        else
          c.(zeroCoded := Some(plane), lastCoded := Some(position))
      else c
    else
      if c.significant && c.zeroCoded != Some(plane) then
        c.(magnitude := if v.bit then SetBit(c.magnitude, position) else c.magnitude, lastCoded := Some(position))
      else c
  }

  predicate PassesFit(planes: nat, passes: nat) {
    passes == 0 || PlaneOf(passes - 1) < planes
  }

  function Decode(planes: nat, run: seq<Visit>): Coefficient
    requires PassesFit(planes, |run|)
  {
    if run == [] then Coefficient(0, false, None, None)
    else
      var before := run[..|run| - 1];
      assert PassesFit(planes, |before|);
      CodePass(Decode(planes, before), planes, |before|, run[|run| - 1])
  }

  function IrreversibleMidpointBit(magnitude: nat, decodedBitplanes: nat, passes: nat): Option<nat> {
    if magnitude == 0 || decodedBitplanes == 0 || passes == 0 then None
    else
      var finalPass := passes - 1;
      var decodedPlane := (finalPass + 2) / 3;
      if decodedBitplanes < decodedPlane + 1 then None
      else
        var lowest := decodedBitplanes - (decodedPlane + 1);
        if lowest >= MAGNITUDE_BITS then None
        else
          var position := if finalPass % 3 == 1 && !Bit(magnitude, lowest) then lowest + 1 else lowest;
          if position < MAGNITUDE_BITS then Some(position) else None
  }

  /** The lowest bit position coded so far, read off the state and the pass count. */
  function CodedDownTo(c: Coefficient, planes: nat, passes: nat): int
    requires passes > 0
  {
    var pass := passes - 1;
    var position := planes - 1 - PlaneOf(pass);
    var visited := c.zeroCoded == Some(PlaneOf(pass));
    if pass % 3 == 0 || visited || (pass % 3 == 2 && c.significant) then position else position + 1
  }

  ghost predicate Aligned(m: nat, k: nat) {
    m % Pow2(k) == 0
  }

  /** What every non-empty prefix of a run establishes. */
  ghost predicate Coherent(c: Coefficient, planes: nat, passes: nat)
    requires passes > 0 && PassesFit(planes, passes)
  {
    var low := CodedDownTo(c, planes, passes);
    && 0 <= low < planes
    && c.lastCoded == Some(low)
    && (c.significant <==> c.magnitude != 0)
    && Aligned(c.magnitude, low)
    && (c.zeroCoded.Some? ==> 0 < c.zeroCoded.value <= PlaneOf(passes - 1))
    && ((passes - 1) % 3 == 1 && c.zeroCoded == Some(PlaneOf(passes - 1)) && c.significant ==> Bit(c.magnitude, low))
  }

  /** Coding one bit below everything coded so far. */
  lemma CodeBit(m: nat, k: nat, b: bool)
    requires Aligned(m, k + 1)
    ensures var m' := if b then SetBit(m, k) else m;
      && Aligned(m', k)
      && m' / Pow2(k) == 2 * (m / Pow2(k + 1)) + (if b then 1 else 0)
      && Bit(m', k) == b
      && (m' == 0 <==> m == 0 && !b)
  {
    var d := Pow2(k);
    assert Pow2(k + 1) == 2 * d;
    var q := Quotient(m, 2 * d);
    hide Pow2;
    CodeBitAt(m, k, q, d);
  }

  lemma CodeBitAt(m: nat, k: nat, q: nat, d: nat)
    requires d == Pow2(k) && m == q * (2 * d)
    ensures m / d == 2 * q && m % d == 0 && (m + d) / d == 2 * q + 1 && (m + d) % d == 0
  {
    Scale(q, 0, d);
    DivMul(2 * q, d, 0);
    Scale(q, 1, d);
    DivMul(2 * q + 1, d, 0);
  }

  lemma AlignedHasNoBit(m: nat, k: nat)
    requires Aligned(m, k + 1)
    ensures !Bit(m, k)
  {
    CodeBit(m, k, false);
  }

  /** What of that the invariant needs. */
  lemma BitCoded(m: nat, k: nat, b: bool)
    requires Aligned(m, k + 1)
    ensures var m' := if b then SetBit(m, k) else m;
      Aligned(m', k) && Bit(m', k) == b && (m' == 0 <==> m == 0 && !b)
  {
    CodeBit(m, k, b);
  }

  lemma StepCoherent(c: Coefficient, planes: nat, pass: nat, v: Visit)
    requires pass > 0 && PlaneOf(pass) < planes && PassesFit(planes, pass)
    requires Coherent(c, planes, pass)
    ensures Coherent(CodePass(c, planes, pass, v), planes, pass + 1)
  {
    var position := planes - 1 - PlaneOf(pass);
    hide Aligned, SetBit, Bit;
    if CodedDownTo(c, planes, pass) == position + 1 {
      BitCoded(c.magnitude, position, v.bit);
      BitCoded(c.magnitude, position, false);
    }
  }

  lemma {:induction false} RunCoherent(planes: nat, run: seq<Visit>)
    requires |run| > 0 && PassesFit(planes, |run|)
    ensures Coherent(Decode(planes, run), planes, |run|)
  {
    var before := run[..|run| - 1];
    assert PassesFit(planes, |before|);
    if |before| == 0 {
      var m := 0;
      DivMul(0, Pow2(planes), 0);
      CodeBit(0, planes - 1, run[0].bit);
      CodeBit(0, planes - 1, false);
    } else {
      RunCoherent(planes, before);
      StepCoherent(Decode(planes, before), planes, |before|, run[|run| - 1]);
    }
  }

  /** The shortcut agrees with the simulation: on every run of at most 64
      planes it names the position at which the coefficient was last coded. */
  lemma {:induction false} MidpointIsLastCodedPosition(planes: nat, run: seq<Visit>)
    requires |run| > 0 && PassesFit(planes, |run|) && planes <= 64
    ensures var c := Decode(planes, run);
      IrreversibleMidpointBit(c.magnitude, planes, |run|)
        == if c.magnitude == 0 then None else c.lastCoded
  {
    var c := Decode(planes, run);
    RunCoherent(planes, run);
    var position := planes - 1 - PlaneOf(|run| - 1);
    if CodedDownTo(c, planes, |run|) == position + 1 {
      AlignedHasNoBit(c.magnitude, position);
    }
  }

  /** For any number of planes and passes: the plane of the last pass, or the one
      above where that pass was for significance and has left no bit, if there are 64
      bits to it. */
  lemma MidpointClosedForm(magnitude: nat, planes: nat, passes: nat)
    ensures var lowest := planes - 1 - (passes + 1) / 3;
      IrreversibleMidpointBit(magnitude, planes, passes) ==
        if magnitude == 0 || passes == 0 || lowest < 0 || lowest >= 64 then None
        else if passes % 3 != 2 || Bit(magnitude, lowest) then Some(lowest)
        else if lowest == 63 then None
        else Some(lowest + 1)
  {
    hide Bit;
  }

  /** The counts for which there is a midpoint at all. */
  lemma MidpointDefinedExactly(magnitude: nat, planes: nat, passes: nat)
    requires planes <= 64
    ensures IrreversibleMidpointBit(magnitude, planes, passes).Some?
      <==> magnitude != 0 && 1 <= passes <= 3 * planes - 2
  {
  }

  /** The bits a run hands out are those of `truth`. */
  ghost predicate Carries(planes: nat, run: seq<Visit>, truth: nat)
  {
    forall i :: 0 <= i < |run| && PlaneOf(i) < planes ==> run[i].bit == Bit(truth, planes - 1 - PlaneOf(i))
  }

  /** The decoded magnitude is the truth with everything below `low` dropped. */
  ghost predicate Truncates(m: nat, truth: nat, low: nat) {
    m / Pow2(low) == truth / Pow2(low)
  }

  /** Coding the bit of the truth below what is already right. */
  lemma CodeTrueBit(m: nat, k: nat, truth: nat)
    requires Aligned(m, k + 1) && Truncates(m, truth, k + 1)
    ensures Truncates(if Bit(truth, k) then SetBit(m, k) else m, truth, k)
  {
    CodeBit(m, k, Bit(truth, k));
    HalveAgain(truth, k);
  }

  lemma StepTruncates(c: Coefficient, planes: nat, pass: nat, v: Visit, truth: nat)
    requires pass > 0 && PlaneOf(pass) < planes && PassesFit(planes, pass)
    requires c.lastCoded == Some(CodedDownTo(c, planes, pass)) && c.significant == (c.magnitude != 0)
    requires Aligned(c.magnitude, c.lastCoded.value) && Truncates(c.magnitude, truth, c.lastCoded.value)
    requires c.zeroCoded.Some? ==> c.zeroCoded.value <= PlaneOf(pass - 1)
    requires v.bit == Bit(truth, planes - 1 - PlaneOf(pass))
    ensures var c' := CodePass(c, planes, pass, v);
      c'.lastCoded.Some? && Truncates(c'.magnitude, truth, c'.lastCoded.value)
  {
    var position := planes - 1 - PlaneOf(pass);
    if c.lastCoded == Some(position + 1) {
      CodeTrueBit(c.magnitude, position, truth);
    }
  }

  lemma NothingAbove(m: nat, planes: nat)
    requires m < Pow2(planes)
    ensures m / Pow2(planes) == 0
  {
    DivMul(0, Pow2(planes), m);
  }

  lemma FirstBit(k: nat, truth: nat)
    requires truth < Pow2(k + 1)
    ensures var m := if Bit(truth, k) then SetBit(0, k) else 0;
      Truncates(m, truth, k) && Truncates(0, truth, k + 1)
  {
    NothingAbove(0, k + 1);
    NothingAbove(truth, k + 1);
    CodeBit(0, k, Bit(truth, k));
    HalveAgain(truth, k);
  }

  lemma FirstTruncates(planes: nat, v: Visit, truth: nat)
    requires 0 < planes && truth < Pow2(planes) && v.bit == Bit(truth, planes - 1)
    ensures var c := CodePass(Coefficient(0, false, None, None), planes, 0, v);
      c.lastCoded.Some? && Truncates(c.magnitude, truth, c.lastCoded.value)
  {
    FirstBit(planes - 1, truth);
  }

  lemma {:induction false} RunTruncates(planes: nat, run: seq<Visit>, truth: nat)
    requires |run| > 0 && PassesFit(planes, |run|) && truth < Pow2(planes) && Carries(planes, run, truth)
    ensures var c := Decode(planes, run);
      c.lastCoded.Some? && Truncates(c.magnitude, truth, c.lastCoded.value)
  {
    var before := run[..|run| - 1];
    assert PassesFit(planes, |before|);
    if |before| == 0 {
      FirstTruncates(planes, run[0], truth);
    } else {
      RunCoherent(planes, before);
      RunTruncates(planes, before, truth);
      StepTruncates(Decode(planes, before), planes, |before|, run[|run| - 1], truth);
    }
  }
}
