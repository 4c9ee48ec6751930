/** Reading packed differences back, and when that restores the hashes. */
module DeltaReading {
  import opened Bits
  import opened Sequences
  import opened BitPacking
  import opened BlockPacking
  import opened BlockRoundTrip
  import opened DeltaCoding
  import opened DeltaStream

  function Wrap64(x: nat): nat { x % TWO_TO_64 }

  /** Entry `i` of the running sums in 64-bit arithmetic. */
  function SumAt(deltas: seq<nat>, i: nat): nat
    requires i < |deltas|
  {
    Wrap64((if i == 0 then 0 else SumAt(deltas, i - 1)) + deltas[i])
  }

  /** Difference `i` of `n` packed at byte `start`, as the decoder reads it. */
  ghost function DecodedDelta(data: seq<uint8>, start: nat, n: nat, bits: nat, i: nat): nat
    requires i < n && 8 * start + n * bits <= 8 * |data|
  {
    Position(i, n, bits);
    var f := Field(data, 8 * start + i * bits, bits);
    if InFullBlock(i, n) then Decoded(bits, i % 8, f) else f
  }

  ghost function DecodedUpTo(data: seq<uint8>, start: nat, n: nat, bits: nat, m: nat): (d: seq<nat>)
    requires m <= n && 8 * start + n * bits <= 8 * |data|
    ensures |d| == m && forall i: nat :: i < m ==> d[i] == DecodedDelta(data, start, n, bits, i)
  {
    if m == 0 then []
    else DecodedUpTo(data, start, n, bits, m - 1) + [DecodedDelta(data, start, n, bits, m - 1)]
  }

  /** All `n` differences as the decoder reads them. */
  ghost function DecodedDeltas(data: seq<uint8>, start: nat, n: nat, bits: nat): (d: seq<nat>)
    requires 8 * start + n * bits <= 8 * |data|
    ensures |d| == n && forall i: nat :: i < n ==> d[i] == DecodedDelta(data, start, n, bits, i)
  {
    DecodedUpTo(data, start, n, bits, n)
  }

  method UnpackEntries(data: seq<uint8>, start: nat, n: nat, bits: nat) returns (entries: array<nat>)
    requires 0 < bits < 64 && 8 * start + n * bits <= 8 * |data|
    ensures fresh(entries) && entries.Length == n
    ensures forall i: nat :: i < n ==> entries[i] == SumAt(DecodedDeltas(data, start, n, bits), i)
  {
    entries := UnpackDeltas(data, start, n, bits);
    hide DecodedDeltas, DecodedDelta, Wrap64;
    UndoDeltas(entries, DecodedDeltas(data, start, n, bits));
  }

  /** Replaces differences by their running sums, in place. */
  method UndoDeltas(entries: array<nat>, ghost deltas: seq<nat>)
    requires entries[..] == deltas
    modifies entries
    ensures forall i: nat :: i < entries.Length ==> entries[i] == SumAt(deltas, i)
  {
    hide Wrap64;
    var n := entries.Length;
    var previous: nat := 0;
    for i: nat := 0 to n
      invariant forall k: nat :: k < i ==> entries[k] == SumAt(deltas, k)
      invariant forall k: nat :: i <= k < n ==> entries[k] == deltas[k]
      invariant previous == if i == 0 then 0 else SumAt(deltas, i - 1)
    {
      entries[i] := Wrap64(entries[i] + previous);
      previous := entries[i];
    }
  }

  method UnpackDeltas(data: seq<uint8>, start: nat, n: nat, bits: nat) returns (deltas: array<nat>)
    requires 0 < bits < 64 && 8 * start + n * bits <= 8 * |data|
    ensures fresh(deltas) && deltas.Length == n
    ensures forall i: nat :: i < n ==> deltas[i] == DecodedDelta(data, start, n, bits, i)
  {
    hide Field, Decoded, DecodedDelta;
    deltas := new nat[n](_ => 0);
    var ptr: nat, i: nat := start, 0;
    while i + 7 < n
      invariant i <= n && i % 8 == 0 && 8 * ptr == 8 * start + i * bits
      invariant forall k: nat :: k < i ==> deltas[k] == DecodedDelta(data, start, n, bits, k)
    {
      BlockPosition(i, n, bits);
      var values := UnpackBlock8(bits, data, ptr);
      BlockDecoded(data, start, n, bits, i, ptr, values);
      forall j: nat | j < 8 {
        deltas[i + j] := values[j];
      }
      forall k: nat | k < i + 8
        ensures deltas[k] == DecodedDelta(data, start, n, bits, k)
      {
        if k >= i { assert deltas[i + (k - i)] == values[k - i]; }
      }
      ptr := ptr + bits;
      i := i + 8;
    }
    var offset: nat := 0;
    while i < n
      invariant i <= n && 8 * ptr + offset == 8 * start + i * bits && offset < 8 && n - n % 8 <= i
      invariant forall k: nat :: k < i ==> deltas[k] == DecodedDelta(data, start, n, bits, k)
    {
      Position(i, n, bits);
      TailDecoded(data, start, n, bits, i);
      var value;
      value, ptr, offset := UnpackBits(bits, data, ptr, offset);
      deltas[i] := value;
      i := i + 1;
    }
  }

  lemma BlockDecoded(data: seq<uint8>, start: nat, n: nat, bits: nat, i: nat, ptr: nat, values: seq<nat>)
    requires i + 8 <= n && i % 8 == 0 && 8 * start + n * bits <= 8 * |data| && 8 * ptr == 8 * start + i * bits
    requires ptr + bits <= |data| && |values| == 8
    requires forall j: nat :: j < 8 ==>
               j * bits + bits <= 8 * bits && values[j] == Decoded(bits, j, Field(data, 8 * ptr + j * bits, bits))
    ensures forall j: nat :: j < 8 ==> values[j] == DecodedDelta(data, start, n, bits, i + j)
  {
    hide Field, Decoded;
    forall j: nat | j < 8
      ensures values[j] == DecodedDelta(data, start, n, bits, i + j)
    {
      Distribute(i, j, bits);
      Position(i + j, n, bits);
    }
  }

  lemma TailDecoded(data: seq<uint8>, start: nat, n: nat, bits: nat, i: nat)
    requires n - n % 8 <= i < n && 8 * start + n * bits <= 8 * |data|
    ensures 0 <= i * bits && i * bits + bits <= n * bits
    ensures DecodedDelta(data, start, n, bits, i) == Field(data, 8 * start + i * bits, bits)
  {
    hide Field, Decoded;
    Position(i, n, bits);
    NotInBlock(i, n);
  }

  lemma NotInBlock(i: nat, n: nat)
    requires n - n % 8 <= i < n
    ensures !InFullBlock(i, n)
  {
  }

  // ---- sums and differences ----

  ghost predicate Words(deltas: seq<nat>)
  {
    forall i :: 0 <= i < |deltas| ==> deltas[i] < TWO_TO_64
  }

  /** 64-bit running sums determine the differences. */
  lemma SumsDetermineDeltas(a: seq<nat>, b: seq<nat>)
    requires |a| == |b| && Words(a) && Words(b)
    requires forall i: nat :: i < |a| ==> SumAt(a, i) == SumAt(b, i)
    ensures a == b
  {
    forall i: nat | i < |a|
      ensures a[i] == b[i]
    {
      assert SumAt(a, i) == SumAt(b, i);
      assert i > 0 ==> SumAt(a, i - 1) == SumAt(b, i - 1);
      SameSum(if i == 0 then 0 else SumAt(a, i - 1), a[i], b[i]);
    }
  }

  lemma SameSum(p: nat, x: nat, y: nat)
    requires x < TWO_TO_64 && y < TWO_TO_64
    ensures Wrap64(p + x) == Wrap64(p + y) ==> x == y
  {
  }

  ghost function DeltaSeq(entries: seq<nat>, m: nat): (d: seq<nat>)
    requires Ascending(entries) && m <= |entries|
    ensures |d| == m && forall i: nat :: i < m ==> d[i] == Delta(entries, i)
  {
    if m == 0 then [] else DeltaSeq(entries, m - 1) + [Delta(entries, m - 1)]
  }

  lemma {:induction false} SumsOfDeltas(entries: seq<nat>, i: nat)
    requires Ascending(entries) && i < |entries| && forall k :: 0 <= k < |entries| ==> entries[k] < TWO_TO_64
    ensures SumAt(DeltaSeq(entries, |entries|), i) == entries[i]
  {
    if i > 0 { SumsOfDeltas(entries, i - 1); }
  }

  // ---- the round trip ----

  /** Every full block of differences is carried through by the routines of the width. */
  ghost predicate BlocksSafe(entries: seq<nat>, bits: nat)
    requires Ascending(entries)
  {
    forall b: nat :: 8 * b + 8 <= |entries| ==> BlockSafe(DeltaBlock(entries, 8 * b), bits)
  }

  lemma {:induction false} FieldShift(head: seq<uint8>, s: seq<uint8>, at: nat, n: nat)
    requires at + n <= 8 * |s|
    ensures Field(head + s, 8 * |head| + at, n) == Field(s, at, n)
  {
    if n > 0 {
      FieldShift(head, s, at, n - 1);
      var p := at + n - 1;
      assert (8 * |head| + p) / 8 == |head| + p / 8;
      assert (head + s)[|head| + p / 8] == s[p / 8];
    }
  }

  lemma DecodedIsStored(head: seq<uint8>, packed: seq<uint8>, entries: seq<nat>, bits: nat, i: nat)
    requires Ascending(entries) && i < |entries| && |entries| * bits <= 8 * |packed|
    requires FieldsStored(packed, entries, bits, |entries|)
    ensures DecodedDelta(head + packed, |head|, |entries|, bits, i) ==
            if InFullBlock(i, |entries|) then Decoded(bits, i % 8, Stored(DeltaBlock(entries, i - i % 8), bits, i % 8))
            else Delta(entries, i)
  {
    hide Field, Decoded, Stored, DeltaBlock;
    Position(i, |entries|, bits);
    FieldShift(head, packed, i * bits, bits);
  }

  /** Within a full block, the decoder reads back what was packed exactly when the block is safe. */
  lemma BlockReadBack(head: seq<uint8>, packed: seq<uint8>, entries: seq<nat>, bits: nat, b: nat)
    requires Ascending(entries) && DeltasFit(entries, bits) && 0 < bits < 64 && |entries| * bits <= 8 * |packed|
    requires FieldsStored(packed, entries, bits, |entries|) && 8 * b + 8 <= |entries|
    ensures (forall j: nat :: j < 8 ==>
              DecodedDelta(head + packed, |head|, |entries|, bits, 8 * b + j) == DeltaBlock(entries, 8 * b)[j]) <==>
            BlockSafe(DeltaBlock(entries, 8 * b), bits)
  {
    hide Field, Decoded, Stored, DeltaBlock, FieldsStored, DecodedDelta, BlockSafe, Fit, Pow2;
    var values := DeltaBlock(entries, 8 * b);
    forall j: nat | j < 8
      ensures DecodedDelta(head + packed, |head|, |entries|, bits, 8 * b + j) ==
              Decoded(bits, j, Stored(values, bits, j))
    {
      DecodedIsStored(head, packed, entries, bits, 8 * b + j);
      assert (8 * b + j) % 8 == j && (8 * b + j) - j == 8 * b;
    }
    DeltaBlockFits(entries, bits, 8 * b);
    RoundTripOfBlock(values, bits);
  }

  /** The decoder reads back the differences that were packed exactly when every block is safe. */
  lemma DeltasRoundTrip(head: seq<uint8>, packed: seq<uint8>, entries: seq<nat>, bits: nat)
    requires Ascending(entries) && DeltasFit(entries, bits) && 0 < bits < 64 && |entries| * bits <= 8 * |packed|
    requires FieldsStored(packed, entries, bits, |entries|)
    ensures DecodedDeltas(head + packed, |head|, |entries|, bits) == DeltaSeq(entries, |entries|) <==>
            BlocksSafe(entries, bits)
  {
    hide Field, Decoded, Stored, DeltaBlock, FieldsStored, DecodedDeltas, DecodedDelta, BlockSafe, DeltaSeq, Delta,
         Fit, Pow2, DeltasFit;
    var n := |entries|;
    var d := DecodedDeltas(head + packed, |head|, n, bits);
    forall b: nat | 8 * b + 8 <= n
      ensures (forall j: nat :: j < 8 ==> d[8 * b + j] == DeltaBlock(entries, 8 * b)[j]) <==>
              BlockSafe(DeltaBlock(entries, 8 * b), bits)
    {
      BlockReadBack(head, packed, entries, bits, b);
    }
    if BlocksSafe(entries, bits) {
      forall i: nat | i < n
        ensures d[i] == Delta(entries, i)
      {
        if InFullBlock(i, n) {
          var b := i / 8;
          assert BlockSafe(DeltaBlock(entries, 8 * b), bits);
          assert d[8 * b + i % 8] == DeltaBlock(entries, 8 * b)[i % 8];
        } else {
          DecodedIsStored(head, packed, entries, bits, i);
        }
      }
      assert d == DeltaSeq(entries, n);
    }
  }

  lemma DeltaBlockFits(entries: seq<nat>, bits: nat, i: nat)
    requires Ascending(entries) && DeltasFit(entries, bits) && i + 8 <= |entries|
    ensures Fit(DeltaBlock(entries, i), bits)
  {
    hide Pow2, DeltaBlock;
  }
}
