/** Packed differences of ascending hashes: blocks of eight, then the rest one by one. */
module DeltaCoding {
  import opened Bits
  import opened Sequences
  import opened CountZeros

  // ---- differences and their width ----

  function Delta(entries: seq<nat>, i: nat): nat
    requires Ascending(entries) && i < |entries|
  {
    if i == 0 then entries[0] else entries[i] - entries[i - 1]
  }

  ghost predicate DeltasFit(entries: seq<nat>, bits: nat)
    requires Ascending(entries)
  {
    forall i: nat :: i < |entries| ==> Delta(entries, i) < Pow2(bits)
  }

  lemma {:induction false} OrBelow(a: nat, b: nat, n: nat)
    ensures Or(a, b) < Pow2(n) <==> a < Pow2(n) && b < Pow2(n)
  {
    if n > 0 && (a > 0 || b > 0) {
      OrBelow(a / 2, b / 2, n - 1);
    } else if n == 0 {
      OrZero(a, b);
    }
  }

  lemma {:induction false} OrZero(a: nat, b: nat)
    ensures Or(a, b) == 0 <==> a == 0 && b == 0
    decreases a + b
  {
    if a > 0 || b > 0 {
      OrZero(a / 2, b / 2);
    }
  }

  function OrOfDeltas(entries: seq<nat>, n: nat): nat
    requires Ascending(entries) && n <= |entries|
  {
    if n == 0 then 0 else Or(OrOfDeltas(entries, n - 1), Delta(entries, n - 1))
  }

  lemma {:induction false} OrOfDeltasBelow(entries: seq<nat>, n: nat, width: nat)
    requires Ascending(entries) && n <= |entries|
    ensures OrOfDeltas(entries, n) < Pow2(width) <==> forall j: nat :: j < n ==> Delta(entries, j) < Pow2(width)
  {
    if n > 0 {
      OrOfDeltasBelow(entries, n - 1, width);
      OrBelow(OrOfDeltas(entries, n - 1), Delta(entries, n - 1), width);
    }
  }

  /** Ascending non-zero hashes below 2^63, as every theta sketch retains. */
  ghost predicate Hashes(entries: seq<nat>)
  {
    Ascending(entries) && forall i :: 0 <= i < |entries| ==> 0 < entries[i] < Pow2(63)
  }

  /** Leading zeros common to all differences: 64 less this is the least width that fits them all. */
  method ComputeMinLeadingZeros(entries: seq<nat>) returns (z: nat)
    requires Hashes(entries) && entries != []
    ensures 1 <= z <= 63 && DeltasFit(entries, 64 - z) && !DeltasFit(entries, 63 - z)
  {
    hide Pow2, Or;
    var previous: nat, ored: nat := 0, 0;
    for i: nat := 0 to |entries|
      invariant previous == if i == 0 then 0 else entries[i - 1]
      invariant ored == OrOfDeltas(entries, i)
    {
      var delta := entries[i] - previous;
      ored := Or(ored, delta);
      previous := entries[i];
    }
    LeastWidth(entries, ored);
    z := CountLeadingZeros64(ored);
  }

  lemma LeastWidth(entries: seq<nat>, ored: nat)
    requires Hashes(entries) && entries != [] && ored == OrOfDeltas(entries, |entries|)
    ensures ored < Pow2(64)
    ensures var z := CountLeadingZeros64(ored);
            1 <= z <= 63 && DeltasFit(entries, 64 - z) && !DeltasFit(entries, 63 - z)
  {
    hide Pow2, Or, OrOfDeltas;
    assert forall j: nat :: j < |entries| ==> Delta(entries, j) < Pow2(63);
    OrOfDeltasBelow(entries, |entries|, 63);
    assert Delta(entries, 0) >= 1 == Pow2(0) by { One(); }
    OrOfDeltasBelow(entries, |entries|, 0);
    Pow2Monotone(63, 64);
    var z := CountLeadingZeros64(ored);
    if z > 0 { OrOfDeltasBelow(entries, |entries|, 64 - z); }
    if z < 64 { OrOfDeltasBelow(entries, |entries|, 63 - z); }
  }
}
