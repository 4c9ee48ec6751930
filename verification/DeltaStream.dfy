/** Writing and reading the packed differences of a sketch's hashes. */
module DeltaStream {
  import opened Bits
  import opened Sequences
  import opened BitPacking
  import opened BlockPacking
  import opened BlockRoundTrip
  import opened DeltaCoding

  /** Whether entry `i` of `n` lies in a full block of eight. */
  predicate InFullBlock(i: nat, n: nat)
  {
    i - i % 8 + 8 <= n
  }

  /** The differences of the eight entries from `i` on. */
  function DeltaBlock(entries: seq<nat>, i: nat): (d: seq<nat>)
    requires Ascending(entries) && i + 8 <= |entries|
    ensures |d| == 8 && forall j: nat :: j < 8 ==> d[j] == Delta(entries, i + j)
  {
    [Delta(entries, i), Delta(entries, i + 1), Delta(entries, i + 2), Delta(entries, i + 3),
     Delta(entries, i + 4), Delta(entries, i + 5), Delta(entries, i + 6), Delta(entries, i + 7)]
  }

  /** What field `i` of the packed differences holds. */
  function StoredDelta(entries: seq<nat>, bits: nat, i: nat): nat
    requires Ascending(entries) && i < |entries|
  {
    if InFullBlock(i, |entries|) then Stored(DeltaBlock(entries, i - i % 8), bits, i % 8) else Delta(entries, i)
  }

  /** Where field `i` starts. */
  ghost function FieldStart(i: nat, bits: nat): int
  {
    i * bits
  }

  lemma NaturalProduct(a: nat, b: nat)
    ensures a * b >= 0
  {
  }

  lemma Position(k: nat, i: nat, bits: nat)
    requires k < i
    ensures 0 <= k * bits && k * bits + bits <= i * bits
    ensures (k + 1) * bits == k * bits + bits
  {
    NaturalProduct(k, bits);
    NaturalProduct(i - k - 1, bits);
    Distribute(k, 1, bits);
    Distribute(k + 1, i - k - 1, bits);
  }

  /** The first `n` fields are in place. */
  ghost predicate FieldsStored(s: seq<uint8>, entries: seq<nat>, bits: nat, n: nat)
    requires Ascending(entries) && n <= |entries|
  {
    forall k: nat :: k < n ==>
      0 <= k * bits && k * bits + bits <= 8 * |s| && Field(s, k * bits, bits) == StoredDelta(entries, bits, k)
  }

  lemma {:induction false} FieldFrame(s: seq<uint8>, t: seq<uint8>, at: nat, n: nat)
    requires at + n <= 8 * |s| && at + n <= 8 * |t|
    requires forall p: nat :: at <= p < at + n ==> (StreamBit(s, p) <==> StreamBit(t, p))
    ensures Field(s, at, n) == Field(t, at, n)
  {
    if n > 0 {
      FieldFrame(s, t, at, n - 1);
    }
  }

  /** Fields before position `at` do not see changes from `at` on. */
  lemma FieldsKept(s: seq<uint8>, t: seq<uint8>, entries: seq<nat>, bits: nat, n: nat)
    requires Ascending(entries) && n <= |entries| && FieldsStored(s, entries, bits, n) && |s| == |t|
    requires forall p: nat :: p < n * bits && p < 8 * |s| ==> (StreamBit(s, p) <==> StreamBit(t, p))
    ensures FieldsStored(t, entries, bits, n)
  {
    forall k: nat | k < n
      ensures 0 <= k * bits && k * bits + bits <= 8 * |t| && Field(t, k * bits, bits) == StoredDelta(entries, bits, k)
    {
      Position(k, n, bits);
      FieldFrame(s, t, k * bits, bits);
    }
  }

  lemma BytesKept(s: seq<uint8>, t: seq<uint8>, ptr: nat)
    requires ptr <= |s| == |t| && forall q :: 0 <= q < ptr ==> s[q] == t[q]
    ensures forall p: nat :: p < 8 * ptr ==> (StreamBit(s, p) <==> StreamBit(t, p))
  {
  }

  // ---- packing ----

  method NextDeltas(entries: seq<nat>, i: nat, previous: nat) returns (deltas: seq<nat>, last: nat)
    requires Ascending(entries) && i + 8 <= |entries| && previous == (if i == 0 then 0 else entries[i - 1])
    ensures deltas == DeltaBlock(entries, i) && last == entries[i + 7]
  {
    deltas := [];
    last := previous;
    for j: nat := 0 to 8
      invariant |deltas| == j && deltas == DeltaBlock(entries, i)[..j]
      invariant last == if i + j == 0 then 0 else entries[i + j - 1]
    {
      deltas := deltas + [entries[i + j] - last];
      last := entries[i + j];
    }
  }

  /** Packs the differences into a clear buffer. */
  method PackEntries(entries: seq<nat>, bits: nat, buf: array<uint8>)
    requires Hashes(entries) && DeltasFit(entries, bits) && 0 < bits < 64
    requires FieldStart(|entries|, bits) <= 8 * buf.Length && forall q :: 0 <= q < buf.Length ==> buf[q] == 0
    modifies buf
    ensures FieldsStored(buf[..], entries, bits, |entries|)
  {
    hide Field, Pow2, StoredDelta, StreamBit, PackedByte, ClearAhead, FieldsStored, DeltaBlock, Or, Hashes, DeltasFit,
         FieldStart;
    assert Ascending(entries) by { AscendingHashes(entries); }
    NoFields(buf[..], entries, bits);
    var n := |entries|;
    var previous: nat, ptr: nat, i: nat := 0, 0, 0;
    while i + 7 < n
      invariant i <= n && i % 8 == 0 && 8 * ptr == FieldStart(i, bits)
      invariant previous == if i == 0 then 0 else entries[i - 1]
      invariant FieldsStored(buf[..], entries, bits, i)
      invariant forall q :: ptr <= q < buf.Length ==> buf[q] == 0
    {
      var deltas;
      deltas, previous := NextDeltas(entries, i, previous);
      ghost var s := buf[..];
      BlockFits(entries, bits, i, ptr, buf.Length);
      PackBlock8(deltas, bits, buf, ptr);
      BlockStored(s, buf[..], entries, bits, i, ptr);
      ptr := ptr + bits;
      i := i + 8;
    }
    NothingAhead(buf[..], ptr);
    PackTail(entries, bits, buf, i, ptr, previous);
  }

  /** Packs the differences that do not fill a block. */
  method PackTail(entries: seq<nat>, bits: nat, buf: array<uint8>, from: nat, start: nat, before: nat)
    requires Ascending(entries) && DeltasFit(entries, bits) && 0 < bits
    requires FieldStart(|entries|, bits) <= 8 * buf.Length
    requires |entries| - |entries| % 8 <= from <= |entries| && 8 * start == FieldStart(from, bits)
    requires before == if from == 0 then 0 else entries[from - 1]
    requires FieldsStored(buf[..], entries, bits, from) && ClearAhead(buf[..], 8 * start)
    modifies buf
    ensures FieldsStored(buf[..], entries, bits, |entries|)
  {
    hide Field, Pow2, StoredDelta, StreamBit, Written, ClearAhead, FieldsStored, DeltasFit, FieldStart;
    var n := |entries|;
    var previous: nat, ptr: nat, i: nat := before, start, from;
    var offset: nat := 0;
    while i < n
      invariant from <= i <= n && 8 * ptr + offset == FieldStart(i, bits) && offset < 8
      invariant previous == if i == 0 then 0 else entries[i - 1]
      invariant FieldsStored(buf[..], entries, bits, i) && ClearAhead(buf[..], 8 * ptr + offset)
    {
      var delta := entries[i] - previous;
      previous := entries[i];
      ghost var s, at := buf[..], 8 * ptr + offset;
      RoomForField(entries, bits, i, buf.Length);
      ptr, offset := PackBits(delta, bits, buf, ptr, offset);
      FieldStored(s, buf[..], entries, bits, i, at);
      i := i + 1;
    }
  }

  lemma RoomForField(entries: seq<nat>, bits: nat, i: nat, length: nat)
    requires i < |entries| && FieldStart(|entries|, bits) <= 8 * length
    ensures FieldStart(i, bits) + bits == FieldStart(i + 1, bits) <= 8 * length
  {
    Position(i, |entries|, bits);
  }

  lemma AscendingHashes(entries: seq<nat>)
    requires Hashes(entries)
    ensures Ascending(entries)
  {
  }

  lemma NoFields(s: seq<uint8>, entries: seq<nat>, bits: nat)
    requires Ascending(entries)
    ensures FieldsStored(s, entries, bits, 0) && FieldStart(0, bits) == 0
  {
  }

  lemma NothingAhead(s: seq<uint8>, ptr: nat)
    ensures ClearAhead(s, 8 * ptr)
  {
  }

  lemma BlockFits(entries: seq<nat>, bits: nat, i: nat, ptr: nat, length: nat)
    requires Ascending(entries) && DeltasFit(entries, bits) && i + 8 <= |entries| && 8 * ptr == FieldStart(i, bits)
    requires FieldStart(|entries|, bits) <= 8 * length
    ensures ptr + bits <= length && Fit(DeltaBlock(entries, i), bits) && 8 * (ptr + bits) == FieldStart(i + 8, bits)
  {
    hide Pow2, DeltaBlock;
    BlockPosition(i, |entries|, bits);
  }

  lemma BlockPosition(i: nat, n: nat, bits: nat)
    requires i + 8 <= n
    ensures (i + 8) * bits == i * bits + 8 * bits <= n * bits
  {
    NaturalProduct(n - i - 8, bits);
    Distribute(i, 8, bits);
    Distribute(i + 8, n - i - 8, bits);
  }

  lemma OrWithZero(x: nat)
    ensures Or(0, x) == x
  {
    if x > 0 { OrWithZero(x / 2); }
  }

  /** A packed block adds eight fields. */
  lemma BlockStored(s: seq<uint8>, t: seq<uint8>, entries: seq<nat>, bits: nat, i: nat, ptr: nat)
    requires Ascending(entries) && DeltasFit(entries, bits) && 0 < bits && i + 8 <= |entries| && i % 8 == 0
    requires 8 * ptr == FieldStart(i, bits) && |s| == |t| && FieldStart(|entries|, bits) <= 8 * |s|
    requires FieldsStored(s, entries, bits, i) && forall q :: ptr <= q < |s| ==> s[q] == 0
    requires ptr + bits <= |t|
    requires forall q :: 0 <= q < |t| && !(ptr <= q < ptr + bits) ==> t[q] == s[q]
    requires forall q: nat :: q < bits && !(bits == 19 && q == 10) ==>
               t[ptr + q] == PackedByte(DeltaBlock(entries, i), bits, q)
    requires bits == 19 ==> t[ptr + 10] == Or(s[ptr + 10], PackedByte(DeltaBlock(entries, i), bits, 10))
    ensures FieldsStored(t, entries, bits, i + 8)
    ensures forall q :: ptr + bits <= q < |t| ==> t[q] == 0
  {
    hide Field, Stored, Pow2, PackedByte, DeltaBlock, StreamBit, Fit, Or, StoredDelta;
    var values := DeltaBlock(entries, i);
    BlockFits(entries, bits, i, ptr, |t|);
    if bits == 19 { OrWithZero(PackedByte(values, bits, 10)); }
    assert HoldsBlock(t, ptr, values, bits);
    BytesKept(s, t, ptr);
    FieldsKept(s, t, entries, bits, i);
    forall k: nat | i <= k < i + 8
      ensures 0 <= k * bits && k * bits + bits <= 8 * |t| && Field(t, k * bits, bits) == StoredDelta(entries, bits, k)
    {
      BlockFieldAt(t, entries, bits, i, ptr, k - i);
    }
  }

  lemma FieldInBlock(i: nat, j: nat, bits: nat)
    requires i % 8 == 0 && j < 8
    ensures 0 <= j * bits && FieldStart(i + j, bits) == FieldStart(i, bits) + j * bits
    ensures 0 <= FieldStart(i + j, bits) && FieldStart(i + j, bits) + bits <= FieldStart(i + 8, bits)
    ensures (i + j) % 8 == j && i + j - (i + j) % 8 == i
  {
    Distribute(i, j, bits);
    Position(i + j, i + 8, bits);
    NaturalProduct(j, bits);
  }

  lemma BlockFieldAt(t: seq<uint8>, entries: seq<nat>, bits: nat, i: nat, ptr: nat, j: nat)
    requires Ascending(entries) && DeltasFit(entries, bits) && i + 8 <= |entries| && i % 8 == 0 && j < 8
    requires 8 * ptr == FieldStart(i, bits) && FieldStart(|entries|, bits) <= 8 * |t|
    requires HoldsBlock(t, ptr, DeltaBlock(entries, i), bits)
    ensures 0 <= FieldStart(i + j, bits) && FieldStart(i + j, bits) + bits <= 8 * |t|
    ensures Field(t, FieldStart(i + j, bits), bits) == StoredDelta(entries, bits, i + j)
  {
    hide Field, Stored, Pow2, DeltaBlock, Fit, HoldsBlock, FieldStart, DeltasFit;
    BlockFits(entries, bits, i, ptr, |t|);
    StoredField(t, ptr, DeltaBlock(entries, i), bits, j);
    FieldInBlock(i, j, bits);
  }

  /** A field packed after the blocks holds its difference. */
  lemma FieldStored(s: seq<uint8>, t: seq<uint8>, entries: seq<nat>, bits: nat, i: nat, at: nat)
    requires Ascending(entries) && DeltasFit(entries, bits) && 0 < bits && i < |entries| && !InFullBlock(i, |entries|)
    requires at == FieldStart(i, bits) && at + bits <= 8 * |s|
    requires FieldsStored(s, entries, bits, i) && Written(s, t, at, Delta(entries, i), bits, bits)
    ensures FieldsStored(t, entries, bits, i + 1) && ClearAhead(t, at + bits)
  {
    hide Field, Pow2, Stored;
    FieldsKept(s, t, entries, bits, i);
    FieldUnique(t, at, bits, Delta(entries, i));
    Distribute(i, 1, bits);
  }
}
