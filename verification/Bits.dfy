/** Bit strings, as the set of the positions that hold a 1-bit.
  *
  * These stand for the fixed-size big-endian buffers that field values, masks
  * and port numbers are kept in; position 0 is the least significant bit.
  */
module Bits {

  type Bits = set<nat>

  predicate Within(lo: nat, i: nat, hi: nat) {
    lo <= i < hi
  }

  /** The positions in [lo, hi). */
  function Range(lo: nat, hi: nat): (r: Bits)
    ensures forall i :: i in r <==> lo <= i < hi
  {
    set i | lo <= i < hi && Within(lo, i, hi)
  }

  /** Lowest position in [from, end) whose bit is 'target', or 'end'. */
  function Scan(b: Bits, target: bool, from: nat, end: nat): (r: nat)
    requires from <= end
    ensures from <= r <= end
    ensures forall i :: from <= i < r ==> (i in b) != target
    ensures r < end ==> (r in b) == target
    decreases end - from
  {
    if from == end || (from in b) == target then from else Scan(b, target, from + 1, end)
  }

  /** Big-endian byte-wise comparison of the low 'w' bits: -1, 0 or 1. */
  function Compare(a: Bits, b: Bits, w: nat): (r: int)
  {
    if w == 0 then 0
    else if (w - 1 in a) == (w - 1 in b) then Compare(a, b, w - 1)
    else if w - 1 in a then 1
    else -1
  }

  function Pow2(n: nat): (r: nat)
    ensures r > 0
  {
    if n == 0 then 1 else 2 * Pow2(n - 1)
  }

  /** The number that the low 'w' bits denote. */
  function Number(a: Bits, w: nat): (r: nat)
    ensures r < Pow2(w)
  {
    if w == 0 then 0
    else Number(a, w - 1) + if w - 1 in a then Pow2(w - 1) else 0
  }

  /** Comparing the buffers compares the numbers they hold. */
  lemma {:induction false} CompareIsNumeric(a: Bits, b: Bits, w: nat)
    ensures Compare(a, b, w) < 0 <==> Number(a, w) < Number(b, w)
    ensures Compare(a, b, w) == 0 <==> Number(a, w) == Number(b, w)
    ensures Compare(a, b, w) > 0 <==> Number(a, w) > Number(b, w)
  {
    if w > 0 {
      CompareIsNumeric(a, b, w - 1);
    }
  }

  lemma {:induction false} CompareZero(a: Bits, b: Bits, w: nat)
    ensures Compare(a, b, w) == 0 <==> forall i | 0 <= i < w :: i in a <==> i in b
  {
    if w > 0 {
      CompareZero(a, b, w - 1);
      if forall i | 0 <= i < w :: i in a <==> i in b {
        assert w - 1 in a <==> w - 1 in b;
      } else if (w - 1 in a) == (w - 1 in b) {
        var i :| 0 <= i < w && (i in a) != (i in b);
        assert i < w - 1;
      }
    }
  }

  lemma CompareAntisymmetric(a: Bits, b: Bits, w: nat)
    ensures Compare(a, b, w) == -Compare(b, a, w)
  {
  }

  lemma CompareTransitive(a: Bits, b: Bits, c: Bits, w: nat)
    requires Compare(a, b, w) <= 0
    requires Compare(b, c, w) <= 0
    ensures Compare(a, c, w) <= 0
  {
  }

  /** 'z' is the most significant position below 'w' where 'a' and 'b' differ. */
  predicate TopDifference(a: Bits, b: Bits, w: nat, z: nat)
  {
    && z < w
    && (z in a) != (z in b)
    && forall i | z < i < w :: i in a <==> i in b
  }

  lemma {:induction false} CompareByTop(a: Bits, b: Bits, w: nat) returns (z: nat)
    requires Compare(a, b, w) != 0
    ensures TopDifference(a, b, w, z)
    ensures Compare(a, b, w) < 0 <==> z in b
  {
    if (w - 1 in a) == (w - 1 in b) {
      z := CompareByTop(a, b, w - 1);
    } else {
      z := w - 1;
    }
  }

  lemma {:induction false} TopDecides(a: Bits, b: Bits, w: nat, z: nat)
    requires TopDifference(a, b, w, z)
    ensures Compare(a, b, w) == if z in b then -1 else 1
  {
    if z != w - 1 {
      assert w - 1 in a <==> w - 1 in b;
      TopDecides(a, b, w - 1, z);
    }
  }

  function ShiftBits(b: Bits, ofs: nat): (r: Bits)
    ensures forall i :: i in r <==> i >= ofs && i - ofs in b
  {
    set i | i in b :: i + ofs
  }

  /** The 'width' bits of 'b' from 'ofs' on. */
  function Extract(b: Bits, ofs: nat, width: nat): (r: Bits)
    ensures forall i: nat :: i in r <==> i < width && i + ofs in b
  {
    set i | i in Range(0, width) && i + ofs in b
  }
}
