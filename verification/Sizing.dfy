/** Sizes, load limits and thresholds of the hash table: exact integer forms of the source's formulas. */
module Sizing {
  import opened Bits

  const MAX_THETA: nat := 0x7fff_ffff_ffff_ffff
  const MIN_LG_K: nat := 5
  const MAX_LG_K: nat := 26
  const DEFAULT_LG_K: nat := 12
  const X1: nat := 0
  const X8: nat := 3

  /** Number of keys a table may hold: 1/2 of its size while it can still grow, then 15/16. */
  function Capacity(lgCur: nat, lgNom: nat): nat
  {
    if lgCur <= lgNom then Pow2(lgCur) / 2 else 15 * Pow2(lgCur) / 16
  }

  /** Smallest size from which steps of `lgRf` reach `lgTgt` exactly. */
  function StartingSubMultiple(lgTgt: nat, lgMin: nat, lgRf: nat): nat
  {
    if lgTgt <= lgMin then lgMin
    else if lgRf == 0 then lgTgt
    else (lgTgt - lgMin) % lgRf + lgMin
  }

  /** `p == 1` avoids the multiplication, which need not yield MAX_THETA exactly. */
  function StartingTheta(p: real): (theta: nat)
    requires 0.0 < p <= 1.0
    ensures theta <= MAX_THETA
  {
    if p < 1.0 then
      assert 0.0 <= MAX_THETA as real * p <= MAX_THETA as real;
      (MAX_THETA as real * p).Floor
    else MAX_THETA
  }

  /** The starting threshold is the fraction `p` of the maximal one, rounded down. */
  lemma StartingThetaIs(p: real, hash: nat)
    requires 0.0 < p <= 1.0
    ensures StartingTheta(p) as real <= MAX_THETA as real * p < StartingTheta(p) as real + 1.0
    ensures p == 1.0 ==> StartingTheta(p) == MAX_THETA
    ensures hash < StartingTheta(p) <==> (hash + 1) as real <= MAX_THETA as real * p
  {
  }

  function LgNewSize(lgCur: nat, lgNom: nat, rf: nat): nat
  {
    if lgCur + rf <= lgNom + 1 then lgCur + rf else lgNom + 1
  }

  // ---- the growth ladder ----

  /** A size that growth by `rf` takes to the full size 2^(lgNom + 1) without overshooting. */
  ghost predicate OnLadder(lgCur: nat, lgNom: nat, rf: nat)
  {
    && MIN_LG_K <= lgCur <= lgNom + 1
    && exists steps: nat :: ReachesIn(lgCur, lgNom, rf, steps)
  }

  ghost predicate ReachesIn(lgCur: nat, lgNom: nat, rf: nat, steps: nat)
  {
    lgCur + steps * rf == lgNom + 1
  }

  lemma DivMod(a: nat, b: nat)
    requires b > 0
    ensures a / b >= 0 && a == (a / b) * b + a % b
  {
  }

  /** Every table starts on the ladder. */
  lemma LadderStart(lgNom: nat, rf: nat)
    requires MIN_LG_K <= lgNom
    ensures OnLadder(StartingSubMultiple(lgNom + 1, MIN_LG_K, rf), lgNom, rf)
    ensures 5 <= StartingSubMultiple(lgNom + 1, MIN_LG_K, rf) <= lgNom + 1
  {
    if rf == 0 {
      assert ReachesIn(lgNom + 1, lgNom, rf, 0);
    } else {
      var span := lgNom + 1 - MIN_LG_K;
      DivMod(span, rf);
      assert ReachesIn(span % rf + MIN_LG_K, lgNom, rf, span / rf);
    }
  }

  /** It starts at the least size on the ladder that is not below 2^5. */
  lemma LadderLeast(lgNom: nat, rf: nat, lg: nat)
    requires OnLadder(lg, lgNom, rf)
    ensures StartingSubMultiple(lgNom + 1, MIN_LG_K, rf) <= lg
  {
    var steps: nat :| ReachesIn(lg, lgNom, rf, steps);
    if rf == 0 {
      assert steps * rf == 0;
    } else if lgNom + 1 > MIN_LG_K {
      var span, least := lgNom + 1 - MIN_LG_K, (lgNom + 1 - MIN_LG_K) % rf;
      DivMod(span, rf);
      if lg - MIN_LG_K < least { RemainderLeast(span, rf, steps); }
    }
  }

  lemma RemainderLeast(a: nat, b: nat, steps: nat)
    requires b > 0 && steps * b <= a
    ensures a % b <= a - steps * b
  {
    DivMod(a, b);
    if steps > a / b { ProductGrows(a / b + 1, steps, b); } else { ProductGrows(steps, a / b, b); }
    Distribute(a / b, 1, b);
  }

  lemma ProductGrows(a: nat, b: nat, c: nat)
    requires a <= b
    ensures a * c <= b * c
  {
  }

  /** A table that is not at full size grows strictly, by the whole factor, and stays on the ladder. */
  lemma LadderStep(lgCur: nat, lgNom: nat, rf: nat)
    requires OnLadder(lgCur, lgNom, rf) && lgCur <= lgNom
    ensures rf > 0
    ensures LgNewSize(lgCur, lgNom, rf) == lgCur + rf
    ensures OnLadder(lgCur + rf, lgNom, rf)
  {
    var steps: nat :| ReachesIn(lgCur, lgNom, rf, steps);
    assert steps * rf == lgNom + 1 - lgCur;
    assert rf > 0;
    assert steps * rf == (steps - 1) * rf + rf;
    assert ReachesIn(lgCur + rf, lgNom, rf, steps - 1);
  }

  // ---- load limits ----

  /** A table takes `n` keys if they fill at most half of it, or 15/16 of it at full size. */
  lemma CapacityIs(lgCur: nat, lgNom: nat, n: nat)
    requires 0 < lgCur
    ensures n <= Capacity(lgCur, lgNom) <==>
            if lgCur <= lgNom then 2 * n <= Pow2(lgCur) else 16 * n <= 15 * Pow2(lgCur)
  {
  }

  lemma CapacityLeavesFreeSlot(lgCur: nat, lgNom: nat)
    ensures Capacity(lgCur, lgNom) < Pow2(lgCur)
  {
  }

  /** A full-size table rebuilds only when it holds more than the nominal number of keys. */
  lemma CapacityCoversNominal(lgNom: nat)
    ensures Pow2(lgNom) <= Capacity(lgNom + 1, lgNom)
  {
  }

  /** One key over the load limit of a table fits the limit of the table one step larger. */
  lemma CapacityAfterGrowth(lgCur: nat, lgNew: nat, lgNom: nat)
    requires 1 <= lgCur < lgNew && lgCur <= lgNom
    ensures Capacity(lgCur, lgNom) + 1 <= Capacity(lgNew, lgNom)
  {
    Pow2Monotone(lgCur, lgNew);
  }

  // ---- sizes from counts ----

  function Log2(n: nat): nat
  {
    if n > 1 then 1 + Log2(n / 2) else 0
  }

  /** Size of a scratch table for `n` keys at load 15/16. */
  function LgSizeFromCount(n: nat): nat
  {
    Log2(n) + if n > Pow2(Log2(n) + 1) * 15 / 16 then 2 else 1
  }

  lemma {:induction false} Log2Bounds(n: nat)
    requires n > 0
    ensures Pow2(Log2(n)) <= n < Pow2(Log2(n) + 1)
  {
    if n > 1 {
      Log2Bounds(n / 2);
    }
  }

  lemma {:induction false} Log2OfPow2(e: nat)
    ensures Log2(Pow2(e)) == e
  {
    if e > 0 {
      Log2OfPow2(e - 1);
      assert Pow2(e) / 2 == Pow2(e - 1);
    }
  }

  /** A table sized from a count takes that many keys at load 15/16, and the next smaller does not. */
  lemma ScratchTableFits(n: nat)
    requires n > 0
    ensures var lg := LgSizeFromCount(n);
            lg >= 1 && n <= Capacity(lg, lg - 1) < Pow2(lg) && (lg >= 2 ==> Capacity(lg - 1, lg - 2) < n)
  {
    Log2Bounds(n);
  }

  /**
   A table of that size that counts it as its nominal size is rehashed into its own size while it takes the
   keys, exactly when the count is no power of two and fits 15/16 of the next one.
   */
  lemma ScratchTableOutgrown(n: nat)
    requires n > 0
    ensures var lg := LgSizeFromCount(n);
            && LgNewSize(lg, lg, X1) == lg
            && (n > Capacity(lg, lg) <==> Pow2(Log2(n)) < n <= Pow2(Log2(n) + 1) * 15 / 16)
    ensures LgSizeFromCount(3) == 2 && 3 > Capacity(2, 2)
  {
    Log2Bounds(n);
  }
}
