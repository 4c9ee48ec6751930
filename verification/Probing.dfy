/**
 Open addressing in a table of size 2^lg: the probe sequence of a key starts at the key's low
 bits and advances by an odd stride. Slots hold keys; zero marks an empty slot.
 */
module Probing {
  import opened Bits
  import opened Sequences

  const STRIDE_HASH_BITS: nat := 7

  /** Odd, and independent of the lg lowest bits of the key, which give the start. */
  function Stride(key: nat, lg: nat): nat
  {
    2 * Low(Shr(key, lg), STRIDE_HASH_BITS) + 1
  }

  /** The j-th slot visited for the key; `Low(_, lg)` is the mask `size - 1`. */
  function Probe(key: nat, lg: nat, j: nat): (slot: nat)
    ensures slot < Pow2(lg)
  {
    if j == 0 then ShrLowSplit(key, lg); Low(key, lg)
    else
      var next := Probe(key, lg, j - 1) + Stride(key, lg);
      ShrLowSplit(next, lg); Low(next, lg)
  }

  /** The search starts at the slot that the low bits of the key number. */
  lemma StartBits(key: nat, lg: nat, i: nat)
    ensures Bit(Probe(key, lg, 0), i) <==> i < lg && Bit(key, i)
  {
    BitLow(key, lg, i);
  }

  /** The stride is odd, and its other bits are the seven bits of the key above those. */
  lemma StrideBits(key: nat, lg: nat, i: nat)
    ensures Bit(Stride(key, lg), i) <==> i == 0 || (i <= 7 && Bit(key, lg + i - 1))
  {
    hide Bit, Low, Shr;
    var high := Low(Shr(key, lg), STRIDE_HASH_BITS);
    BitHalves(Stride(key, lg), i);
    assert Stride(key, lg) % 2 == 1 && Stride(key, lg) / 2 == high;
    if i > 0 {
      BitLow(Shr(key, lg), STRIDE_HASH_BITS, i - 1);
      BitShr(key, lg, i - 1);
    }
  }

  // ---- the probe sequence is a full cycle ----

  lemma HalveProduct(d: nat, odd: nat, w: int, p: nat)
    requires d * (2 * odd + 1) == w * (2 * p)
    ensures d % 2 == 0 && (d / 2) * (2 * odd + 1) == w * p
  {
    Doubled(w, p);
    Distribute(2 * odd, 1, d);
    Doubled(d, odd);
    var e := d / 2;
    assert d == 2 * (w * p - d * odd);
    assert d == 2 * e;
    Distribute(e, e, 2 * odd + 1);
  }

  /** Only multiples of 2^lg give a multiple of 2^lg when scaled by an odd number. */
  lemma {:induction false} OddCancels(d: nat, odd: nat, w: int, lg: nat)
    requires d * (2 * odd + 1) == w * Pow2(lg)
    ensures d == 0 || d >= Pow2(lg)
  {
    if lg > 0 {
      HalveProduct(d, odd, w, Pow2(lg - 1));
      OddCancels(d / 2, odd, w, lg - 1);
    }
  }

  /** `Probe(j)` is the start plus j strides, less a whole number of trips round the table. */
  lemma {:induction false} ProbeUnwraps(key: nat, lg: nat, j: nat) returns (trips: int)
    ensures Probe(key, lg, j) + trips * Pow2(lg) == Low(key, lg) + j * Stride(key, lg)
  {
    if j == 0 {
      trips := 0;
    } else {
      var t := ProbeUnwraps(key, lg, j - 1);
      var next := Probe(key, lg, j - 1) + Stride(key, lg);
      ShrLowSplit(next, lg);
      trips := t + Shr(next, lg);
      Distribute(t, Shr(next, lg), Pow2(lg));
      Distribute(j - 1, 1, Stride(key, lg));
    }
  }

  /** A slot is revisited only after a whole number of tables' worth of steps. */
  lemma ProbeRepeats(key: nat, lg: nat, i: nat, j: nat)
    requires i <= j && Probe(key, lg, i) == Probe(key, lg, j)
    ensures i == j || j - i >= Pow2(lg)
  {
    var ti := ProbeUnwraps(key, lg, i);
    var tj := ProbeUnwraps(key, lg, j);
    var s := Stride(key, lg);
    Distribute(j - i, i, s);
    Distribute(tj - ti, ti, Pow2(lg));
    OddCancels(j - i, Low(Shr(key, lg), STRIDE_HASH_BITS), tj - ti, lg);
  }

  lemma ProbeInjective(key: nat, lg: nat, i: nat, j: nat)
    requires i < Pow2(lg) && j < Pow2(lg)
    ensures Probe(key, lg, i) == Probe(key, lg, j) ==> i == j
  {
    if Probe(key, lg, i) == Probe(key, lg, j) {
      if i <= j { ProbeRepeats(key, lg, i, j); } else { ProbeRepeats(key, lg, j, i); }
    }
  }

  ghost function Visited(key: nat, lg: nat, n: nat): set<nat>
  {
    set j: nat | j < n :: Probe(key, lg, j)
  }

  lemma {:induction false} VisitedCount(key: nat, lg: nat, n: nat)
    requires n <= Pow2(lg)
    ensures |Visited(key, lg, n)| == n
  {
    if n > 0 {
      VisitedCount(key, lg, n - 1);
      assert Visited(key, lg, n) == Visited(key, lg, n - 1) + {Probe(key, lg, n - 1)};
      forall j: nat | j < n - 1
        ensures Probe(key, lg, j) != Probe(key, lg, n - 1)
      {
        ProbeInjective(key, lg, j, n - 1);
      }
    }
  }

  ghost function Range(n: nat): (r: set<nat>)
    ensures |r| == n && forall i: nat :: i in r <==> i < n
  {
    if n == 0 then {} else Range(n - 1) + {n - 1}
  }

  /** The probe sequence of any key visits every slot exactly once in `size` steps. */
  lemma FullCycle(key: nat, lg: nat, slot: nat)
    requires slot < Pow2(lg)
    ensures exists j: nat :: j < Pow2(lg) && Probe(key, lg, j) == slot
    ensures forall i: nat, j: nat :: i < Pow2(lg) && j < Pow2(lg) && Probe(key, lg, i) == Probe(key, lg, j) ==> i == j
  {
    var all := Range(Pow2(lg));
    var seen := Visited(key, lg, Pow2(lg));
    VisitedCount(key, lg, Pow2(lg));
    assert all == seen + (all - seen);
    assert |all| == |seen| + |all - seen|;
    assert slot in seen;
    forall i: nat, j: nat | i < Pow2(lg) && j < Pow2(lg) && Probe(key, lg, i) == Probe(key, lg, j)
      ensures i == j
    {
      ProbeInjective(key, lg, i, j);
    }
  }

  /** After `size` steps the sequence is back where it started, and not before. */
  lemma ProbeReturns(key: nat, lg: nat, j: nat)
    requires 0 < j <= Pow2(lg)
    ensures Probe(key, lg, j) == Probe(key, lg, 0) <==> j == Pow2(lg)
  {
    if j < Pow2(lg) {
      ProbeInjective(key, lg, 0, j);
    } else {
      FullCycle(key, lg, Probe(key, lg, j));
      var i: nat :| i < Pow2(lg) && Probe(key, lg, i) == Probe(key, lg, j);
      ProbeRepeats(key, lg, i, j);
    }
  }

  // ---- placement of keys in a table ----

  /** The first `n` slots on the key's path are occupied by other keys. */
  ghost predicate PathClear(s: seq<nat>, lg: nat, key: nat, n: nat)
    requires |s| == Pow2(lg)
  {
    forall j: nat :: j < n ==> s[Probe(key, lg, j)] != 0 && s[Probe(key, lg, j)] != key
  }

  ghost predicate OnPath(s: seq<nat>, lg: nat, key: nat, slot: nat, n: nat)
    requires |s| == Pow2(lg)
  {
    n < Pow2(lg) && Probe(key, lg, n) == slot && PathClear(s, lg, key, n)
  }

  /** Slot at which a search for the key stops: it holds the key, or it is the first empty one. */
  ghost predicate IsSlotFor(s: seq<nat>, lg: nat, key: nat, slot: nat)
    requires |s| == Pow2(lg)
  {
    slot < |s| && (s[slot] == 0 || s[slot] == key) && exists n: nat :: OnPath(s, lg, key, slot, n)
  }

  /** Every stored key is where a search for it stops. */
  ghost predicate WellPlaced(s: seq<nat>, lg: nat)
  {
    |s| == Pow2(lg) && forall i: nat :: i < |s| && s[i] != 0 ==> IsSlotFor(s, lg, s[i], i)
  }

  function Keys(s: seq<nat>): set<nat>
  {
    Elements(s) - {0}
  }

  /** A search for a key can stop in one place only. */
  lemma SlotUnique(s: seq<nat>, lg: nat, key: nat, a: nat, b: nat)
    requires |s| == Pow2(lg) && IsSlotFor(s, lg, key, a) && IsSlotFor(s, lg, key, b)
    ensures a == b
  {
    var m: nat :| OnPath(s, lg, key, a, m);
    var n: nat :| OnPath(s, lg, key, b, n);
  }

  /** A stored key is found nowhere but where its search stops. */
  lemma StoredOnlyAtSlot(s: seq<nat>, lg: nat, key: nat, slot: nat)
    requires WellPlaced(s, lg) && key != 0 && IsSlotFor(s, lg, key, slot)
    ensures forall i: nat :: i < |s| && s[i] == key ==> i == slot
  {
    forall i: nat | i < |s| && s[i] == key
      ensures i == slot
    {
      SlotUnique(s, lg, key, i, slot);
    }
  }

  /** No key is stored twice. */
  lemma StoredOnce(s: seq<nat>, lg: nat)
    requires WellPlaced(s, lg)
    ensures forall i, j :: 0 <= i < |s| && 0 <= j < |s| && s[i] == s[j] != 0 ==> i == j
  {
    forall i: nat, j: nat | i < |s| && j < |s| && s[i] == s[j] != 0
      ensures i == j
    {
      StoredOnlyAtSlot(s, lg, s[i], i);
    }
  }

  /** Storing a key in the slot its search found keeps every key findable. */
  lemma PlaceKey(s: seq<nat>, lg: nat, key: nat, slot: nat)
    requires WellPlaced(s, lg) && key != 0
    requires IsSlotFor(s, lg, key, slot) && s[slot] == 0
    ensures WellPlaced(s[slot := key], lg)
    ensures Keys(s[slot := key]) == Keys(s) + {key}
    ensures key !in Keys(s)
  {
    StoredOnlyAtSlot(s, lg, key, slot);
    var t := s[slot := key];
    forall i: nat | i < |t| && t[i] != 0
      ensures IsSlotFor(t, lg, t[i], i)
    {
      if i == slot {
        var n: nat :| OnPath(s, lg, key, slot, n);
        assert PathClear(t, lg, key, n) by {
          forall j: nat | j < n
            ensures t[Probe(key, lg, j)] != 0 && t[Probe(key, lg, j)] != key
          {
            assert s[Probe(key, lg, j)] != 0;
          }
        }
        assert OnPath(t, lg, key, slot, n);
      } else {
        var n: nat :| OnPath(s, lg, s[i], i, n);
        assert PathClear(t, lg, s[i], n) by {
          forall j: nat | j < n
            ensures t[Probe(s[i], lg, j)] != 0 && t[Probe(s[i], lg, j)] != s[i]
          {
            assert s[Probe(s[i], lg, j)] != 0 && s[Probe(s[i], lg, j)] != s[i];
          }
        }
        assert OnPath(t, lg, t[i], i, n);
      }
    }
    assert t[slot] == key;
    forall x | x in Keys(s) + {key}
      ensures x in Keys(t)
    {
      if x != key {
        var i :| 0 <= i < |s| && s[i] == x;
        assert t[i] == x;
      }
    }
  }

  // ---- counting ----

  lemma FullTableCount(s: seq<nat>, lg: nat)
    requires WellPlaced(s, lg) && forall i: nat :: i < |s| ==> s[i] != 0
    ensures |Keys(s)| == |s|
  {
    StoredOnce(s, lg);
    DistinctCount(s);
    assert Keys(s) == Elements(s);
  }

  /** A table with fewer keys than slots has an empty slot. */
  lemma FreeSlotExists(s: seq<nat>, lg: nat)
    requires WellPlaced(s, lg) && |Keys(s)| < |s|
    ensures exists i: nat :: i < |s| && s[i] == 0
  {
    if forall i: nat :: i < |s| ==> s[i] != 0 {
      FullTableCount(s, lg);
    }
  }

  lemma EmptyTable(s: seq<nat>, lg: nat)
    requires |s| == Pow2(lg) && forall i :: 0 <= i < |s| ==> s[i] == 0
    ensures WellPlaced(s, lg) && Keys(s) == {}
  {
  }

  /** Every search path of a table with an empty slot runs into an empty slot within one cycle. */
  lemma SearchStops(s: seq<nat>, lg: nat, key: nat)
    requires WellPlaced(s, lg) && |Keys(s)| < |s|
    ensures exists j: nat :: j < Pow2(lg) && s[Probe(key, lg, j)] == 0
  {
    FreeSlotExists(s, lg);
    var i: nat :| i < |s| && s[i] == 0;
    FullCycle(key, lg, i);
    var j: nat :| j < Pow2(lg) && Probe(key, lg, j) == i;
    assert s[Probe(key, lg, j)] == 0;
  }
}
