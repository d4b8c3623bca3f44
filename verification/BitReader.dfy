/** The bit reader of the baseline JPEG decoder.  The 64-bit accumulator is
    modelled by the sequence of its valid bits. */
module BitReader {
  import opened Options
  import opened Powers
  import opened BitStream

  const ACC_BITS: nat := 64
  const REFILL_THRESHOLD: nat := 56

  class BitReader {
    const bytes: seq<nat>
    const allowEofPadding: bool
    var pos: nat
    var acc: seq<bool>
    var synthetic: nat
    var marker: Option<nat>
    var markerEnd: nat

    ghost predicate Valid()
      reads this
    {
      && IsBytes(bytes) && pos <= |bytes|
      && synthetic <= |acc| <= 64
      && acc[|acc| - synthetic..] == Ones(synthetic)
      && (marker.Some? || synthetic > 0 ==> Unstuffed(bytes, pos) == [] && MayPad(bytes, pos, allowEofPadding))
    }

    /** What is left of the scan, buffered or not. */
    ghost function View(): Ahead
      reads this
      requires Valid()
    {
      Ahead(acc[..|acc| - synthetic] + Unstuffed(bytes, pos), synthetic, MayPad(bytes, pos, allowEofPadding))
    }

    constructor (bytes: seq<nat>, allowEofPadding: bool)
      requires IsBytes(bytes)
      ensures Valid() && View() == Ahead(Unstuffed(bytes, 0), 0, MayPad(bytes, 0, allowEofPadding))
    {
      this.bytes, this.allowEofPadding := bytes, allowEofPadding;
      pos, acc, synthetic, marker, markerEnd := 0, [], 0, None, 0;
    }

    /** Appends a data byte whose coded form ends before `next`. */
    method PushByte(b: nat, next: nat)
      requires Valid() && synthetic == 0 && |acc| + 8 <= ACC_BITS && next <= |bytes|
      requires Unstuffed(bytes, pos) == Bits(b, 8) + Unstuffed(bytes, next)
      requires MayPad(bytes, pos, allowEofPadding) == MayPad(bytes, next, allowEofPadding)
      modifies this`acc, this`pos
      ensures Valid() && View() == old(View()) && |acc| == old(|acc|) + 8
    {
      hide Bits, Unstuffed, MayPad;
      assert Unstuffed(bytes, pos) != [];
      acc := acc + Bits(b, 8);
      pos := next;
    }

    /** The first position past `from` that is not fill. */
    method SkipFill(from: nat) returns (codePos: nat)
      requires from <= |bytes|
      ensures codePos == AfterFill(bytes, from) <= |bytes|
    {
      codePos := from;
      while codePos < |bytes| && bytes[codePos] == 0xFF
        invariant from <= codePos <= |bytes|
        invariant AfterFill(bytes, from) == AfterFill(bytes, codePos)
      {
        codePos := codePos + 1;
      }
    }

    /** Stops at the marker whose code is at `codePos`. */
    method StopAt(codePos: nat)
      requires Valid() && pos < codePos < |bytes| && bytes[pos] == 0xFF && bytes[codePos] != 0
      requires AfterFill(bytes, pos + 1) == codePos
      modifies this`pos, this`marker, this`markerEnd
      ensures Valid() && View() == old(View()) && Unstuffed(bytes, pos) == []
      ensures marker == Some(bytes[codePos]) && pos == codePos - 1 && markerEnd == codePos + 1 && MayPad(bytes, pos, allowEofPadding)
    {
      hide Unstuffed, MayPad, AfterFill, Ones;
      AtMarker(bytes, pos, codePos, allowEofPadding);
      pos := codePos - 1;
      marker := Some(bytes[codePos]);
      markerEnd := codePos + 1;
    }

    /** Moves one data byte into the accumulator, unless a marker or the end of
        the bytes is in the way. */
    method RefillOneByte() returns (added: bool)
      requires Valid() && |acc| + 8 <= ACC_BITS
      modifies this
      ensures Valid() && View() == old(View())
      ensures added ==> |acc| == old(|acc|) + 8 && synthetic == 0
      ensures !added ==> acc == old(acc) && synthetic == old(synthetic) && Unstuffed(bytes, pos) == []
      ensures !added ==> (marker.Some? || (allowEofPadding && pos == |bytes|) <==> MayPad(bytes, pos, allowEofPadding))
    {
      hide Bits;
      if marker.Some? || pos >= |bytes| {
        return false;
      }
      var b := bytes[pos];
      if b == 0xFF {
        var codePos := SkipFill(pos + 1);
        if codePos >= |bytes| {
          return false;
        }
        var next := bytes[codePos];
        if next == 0 {
          PushByte(b, codePos + 1);
          return true;
        }
        StopAt(codePos);
        return false;
      }
      PushByte(b, pos + 1);
      return true;
    }

    /** Fills the accumulator to 56 bits, as far as the scan goes. */
    method RefillToThreshold()
      requires Valid()
      modifies this
      ensures Valid() && View() == old(View()) && |acc| >= old(|acc|)
      ensures |acc| < 56 ==> Unstuffed(bytes, pos) == []
    {
      var added := true;
      while |acc| < REFILL_THRESHOLD && added
        invariant Valid() && View() == old(View()) && |acc| >= old(|acc|)
        invariant !added ==> Unstuffed(bytes, pos) == []
        decreases ACC_BITS - |acc|, added
      {
        added := RefillOneByte();
      }
    }

    /** At least `n` bits, or nothing is consumed and the scan is exhausted. */
    method EnsureBits(n: nat) returns (ok: bool)
      requires Valid() && n <= 32
      modifies this
      ensures Valid() && View() == old(View())
      ensures ok <==> n <= |Look(old(View()))|
      ensures ok ==> n <= |acc|
    {
      while |acc| < n
        invariant Valid() && View() == old(View())
        decreases ACC_BITS - |acc|
      {
        var added := RefillOneByte();
        if !added {
          return false;
        }
      }
      return true;
    }

    /** The same with ones appended where the scan ends and padding is allowed. */
    method EnsureBitsPadded(n: nat) returns (ok: bool)
      requires Valid() && n <= 32
      modifies this
      ensures Valid()
      ensures ok <==> EnsurePadded(old(View()), n).Some?
      ensures ok ==> Some(View()) == EnsurePadded(old(View()), n) && n <= |acc|
      ensures !ok ==> View() == old(View())
    {
      var refilled := false;
      while |acc| < n
        invariant Valid() && View() == old(View())
        decreases ACC_BITS - |acc|
      {
        var added := RefillOneByte();
        if !added {
          if marker.None? && !(allowEofPadding && pos == |bytes|) {
            return false;
          }
          ghost var view := View();
          PadTo(n);
          return true;
        }
        refilled := true;
      }
      if refilled {
        RefillToThreshold();
      }
      return true;
    }

    method PadTo(n: nat)
      requires Valid() && |acc| < n <= 32
      requires Unstuffed(bytes, pos) == [] && MayPad(bytes, pos, allowEofPadding)
      modifies this`acc, this`synthetic
      ensures Valid() && |acc| == n
      ensures View() == old(View()).(synthetic := n - |old(View()).coded|)
    {
      ghost var coded := acc[..|acc| - synthetic];
      while |acc| < n
        invariant Valid() && |acc| <= n
        invariant acc[..|acc| - synthetic] == coded && |acc| - synthetic == |coded|
      {
        acc := acc + [true];
        synthetic := synthetic + 1;
        assert Ones(synthetic) == Ones(synthetic - 1) + [true];
      }
    }

    /** The next `n` bits as a number, left in place. */
    method PeekBits(n: nat) returns (value: nat)
      requires Valid() && n <= |acc|
      ensures n <= |Look(View())| && value == Peek(View(), n)
    {
      AccIsAhead(n);
      value := Value(acc[..n]);
    }

    lemma AccIsAhead(n: nat)
      requires Valid() && n <= |acc|
      ensures n <= |Look(View())| && acc[..n] == Look(View())[..n]
    {
    }

    method ConsumeBits(n: nat)
      requires Valid() && n <= |acc|
      modifies this
      ensures Valid()
      ensures n <= |Look(old(View()))| && View() == Consume(old(View()), n)
      ensures |acc| == old(|acc|) - n
    {
      hide Unstuffed, MayPad, IsBytes;
      AccIsAhead(n);
      var realBits := |acc| - synthetic;
      if n > realBits {
        synthetic := synthetic - (n - realBits);
      }
      acc := acc[n..];
    }

    /** Reads `ssss` bits and sign-extends them (section F.2.2.1). */
    method ReceiveExtend(ssss: nat) returns (r: Option<int>)
      requires Valid() && ssss <= 15
      modifies this
      ensures Valid()
      ensures r == Receive(old(View()), ssss).0 && View() == Receive(old(View()), ssss).1
    {
      if ssss == 0 {
        return Some(0);
      }
      var ok := EnsureBits(ssss);
      if !ok {
        return None;
      }
      var v := PeekBits(ssss);
      ConsumeBits(ssss);
      return Some(Extend(v, ssss));
    }
  }

  /** Moving up to the 0xFF right before a marker code changes nothing. */
  lemma AtMarker(bytes: seq<nat>, pos: nat, code: nat, allowEof: bool)
    requires pos < code < |bytes| && bytes[pos] == 0xFF && AfterFill(bytes, pos + 1) == code && bytes[code] != 0
    ensures Unstuffed(bytes, pos) == Unstuffed(bytes, code - 1) == []
    ensures MayPad(bytes, pos, allowEof) && MayPad(bytes, code - 1, allowEof)
  {
    FillBeforeMarker(bytes, pos + 1, code);
  }

  lemma {:induction false} FillBeforeMarker(bytes: seq<nat>, pos: nat, code: nat)
    requires 0 < pos <= code < |bytes| && AfterFill(bytes, pos) == code && bytes[pos - 1] == 0xFF
    ensures bytes[code - 1] == 0xFF && AfterFill(bytes, code) == code
    decreases code - pos
  {
    if pos < code {
      FillBeforeMarker(bytes, pos + 1, code);
    }
  }

  /** The EXTEND procedure: the upper half of the range is positive. */
  function Extend(v: nat, ssss: nat): int
    requires ssss > 0
  {
    if v < Pow2(ssss - 1) then v - Pow2(ssss) + 1 else v
  }

  function Receive(a: Ahead, ssss: nat): (Option<int>, Ahead) {
    if ssss == 0 then (Some(0), a)
    else if ssss > |Look(a)| then (None, a)
    else (Some(Extend(Peek(a, ssss), ssss)), Consume(a, ssss))
  }
}
