/** The per-event helpers of the CaloValid calorimeter quality-assurance
    module: its two configuration setters, the trigger-bit decoder and the
    fired-trigger membership test. The region mapping is in RegionMap. */
module CaloValidQA {
  import opened TriggerBits
  import opened RegionMap

  class CaloValid {
    /** Half-width of the timing cut (`_range`). */
    var range: int32
    /** Debug-trace switch (`m_debug`); it only drives console output. */
    var debug: bool

    /** A fresh module has timing-cut half-width 1 and tracing off. */
    constructor ()
      ensures range == 1 && !debug
    {
      range := 1;
      debug := false;
    }

    method SetTimingCutWidth(t: int32)
      modifies this
      ensures range == t && debug == old(debug)
    {
      range := t;
    }

    method SetDebug(d: bool)
      modifies this
      ensures debug == d && range == old(range)
    {
      debug := d;
    }

    /** Scans the scaled trigger vector from bit 0 to bit 63 and appends the
        index of each set bit. The result is the same whatever `entry` and
        `debug` are: they only feed the trace output. */
    method ExtractTriggerBits(gl1ScaledVec: bv64, entry: int) returns (trigBits: seq<int>)
      ensures trigBits == Fired(gl1ScaledVec)
      ensures forall b :: b in trigBits <==> 0 <= b < Width && IsSet(gl1ScaledVec, b)
      ensures StrictlyAscending(trigBits)
      ensures forall i :: 0 <= i < |trigBits| ==> 0 <= trigBits[i] < Width
      ensures |trigBits| == Popcount(gl1ScaledVec)
    {
      trigBits := [];
      var bit: nat := 0;
      while bit < 64
        invariant bit <= Width
        invariant trigBits == FiredBelow(gl1ScaledVec, bit)
      {
        if (gl1ScaledVec >> bit) & 1 == 1 {
          trigBits := trigBits + [bit];
        }
        assert trigBits == FiredBelow(gl1ScaledVec, bit + 1);
        bit := bit + 1;
      }
      assert trigBits == Fired(gl1ScaledVec);
      FiredSpec(gl1ScaledVec);
    }

    /** Linear search of a fired-trigger list for one bit index, returning at
        the first match. */
    method CheckTriggerCondition(trigBits: seq<int>, inputBit: int) returns (fired: bool)
      ensures fired <==> inputBit in trigBits
    {
      var i := 0;
      while i < |trigBits|
        invariant 0 <= i <= |trigBits|
        invariant inputBit !in trigBits[..i]
      {
        if trigBits[i] == inputBit {
          return true;
        }
        i := i + 1;
      }
      return false;
    }
  }
}
