/** Decoding of the 64-bit scaled trigger vector delivered once per event by the
    global level-1 trigger: which trigger bits fired, in ascending order.
    This module holds the specification functions and their properties; the
    loop that computes the decoding lives in CaloValidQA.CaloValid. */
module TriggerBits {

  /** Number of bits in the scaled trigger vector. */
  const Width: nat := 64

  /** Bit `b` of `v` is set, tested as `((v >> b) & 1) == 1`. */
  predicate IsSet(v: bv64, b: nat)
    requires b < Width
  {
    (v >> b) & 1 == 1
  }

  /** The indices of the set bits among positions [0, n), in the order a scan
      from bit 0 upward meets them. */
  function FiredBelow(v: bv64, n: nat): seq<int>
    requires n <= Width
  {
    if n == 0 then []
    else FiredBelow(v, n - 1) + (if IsSet(v, n - 1) then [n - 1] else [])
  }

  /** The fired-trigger list of a whole vector. */
  function Fired(v: bv64): seq<int>
  {
    FiredBelow(v, Width)
  }

  /** The set of set-bit indices among positions [0, n). */
  ghost function SetBitsBelow(v: bv64, n: nat): set<int>
    requires n <= Width
  {
    set b: int | 0 <= b < n && IsSet(v, b)
  }

  /** Population count: how many of the 64 bits of `v` are set. */
  ghost function Popcount(v: bv64): nat
  {
    |SetBitsBelow(v, Width)|
  }

  ghost predicate StrictlyAscending(s: seq<int>)
  {
    forall i, j :: 0 <= i < j < |s| ==> s[i] < s[j]
  }

  /** An index occurs in the list exactly when it is below `n` and its bit is set. */
  lemma {:induction false} FiredBelowMembers(v: bv64, n: nat)
    requires n <= Width
    ensures forall b :: b in FiredBelow(v, n) <==> 0 <= b < n && IsSet(v, b)
  {
    if n > 0 {
      FiredBelowMembers(v, n - 1);
    }
  }

  /** The list is strictly ascending, and every index in it lies below `n`. */
  lemma {:induction false} FiredBelowAscending(v: bv64, n: nat)
    requires n <= Width
    ensures StrictlyAscending(FiredBelow(v, n))
    ensures forall i :: 0 <= i < |FiredBelow(v, n)| ==> 0 <= FiredBelow(v, n)[i] < n
  {
    if n > 0 {
      FiredBelowAscending(v, n - 1);
    }
  }

  /** The list has one entry per set bit below `n`: its length is the number of set bits. */
  lemma {:induction false} FiredBelowLength(v: bv64, n: nat)
    requires n <= Width
    ensures |FiredBelow(v, n)| == |SetBitsBelow(v, n)|
  {
    if n > 0 {
      FiredBelowLength(v, n - 1);
      var below := SetBitsBelow(v, n - 1);
      assert n - 1 !in below;
      if IsSet(v, n - 1) {
        assert SetBitsBelow(v, n) == below + {n - 1};
      } else {
        assert SetBitsBelow(v, n) == below;
      }
    }
  }

  /** Everything the decoder promises about its output: bit `b` is listed iff
      it is set, the list is strictly ascending (hence duplicate-free), every
      entry lies in [0, 63], and its length is the population count. */
  lemma FiredSpec(v: bv64)
    ensures forall b :: b in Fired(v) <==> 0 <= b < Width && IsSet(v, b)
    ensures StrictlyAscending(Fired(v))
    ensures forall i :: 0 <= i < |Fired(v)| ==> 0 <= Fired(v)[i] < Width
    ensures |Fired(v)| == Popcount(v)
  {
    FiredBelowMembers(v, Width);
    FiredBelowAscending(v, Width);
    FiredBelowLength(v, Width);
  }

  /** An all-zero trigger vector decodes to the empty list. */
  lemma FiredOfZero()
    ensures Fired(0) == []
  {
    FiredBelowLength(0, Width);
    assert SetBitsBelow(0, Width) == {};
  }

  /** Decoding followed by the membership test: index `x` is reported as fired
      exactly when it is a valid bit position and that bit of `v` is set. */
  lemma FiredMembership(v: bv64, x: int)
    ensures x in Fired(v) <==> 0 <= x < Width && IsSet(v, x)
  {
    FiredBelowMembers(v, Width);
  }

  /** Above bit 2, the vector 0b101 has no set bit: scanning from bit 3 upward adds nothing. */
  lemma {:induction false} FiredBelowOfBitsZeroAndTwo(n: nat)
    requires 3 <= n <= Width
    ensures FiredBelow(5, n) == [0, 2]
  {
    if n == 3 {
      assert FiredBelow(5, 1) == [0];
      assert FiredBelow(5, 2) == [0];
    } else {
      FiredBelowOfBitsZeroAndTwo(n - 1);
      assert !IsSet(5, n - 1);
    }
  }

  /** A vector with bits 0 and 2 set (0b101) decodes to exactly [0, 2]. */
  lemma FiredOfBitsZeroAndTwo()
    ensures Fired(5) == [0, 2]
  {
    FiredBelowOfBitsZeroAndTwo(Width);
  }
}
