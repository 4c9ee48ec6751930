/** The iterator over a wrapped sketch: entries are decoded from the bytes as it advances. */
module WrappedIterator {
  import opened Bits
  import opened Sequences
  import opened Sizing
  import opened Sketches
  import opened BitPacking
  import opened BlockPacking
  import opened BlockRoundTrip
  import opened DeltaCoding
  import opened DeltaStream
  import opened DeltaReading
  import opened Codec

  /** The last multiple of 8 in 32 bits, to which 8 cannot be added without wrapping. */
  const WRAPS: nat := 0xffff_fff8

  /**
   Whether the iterator reads entry `i` of `n` as part of a block: the first block if there is one,
   later blocks unless at most the last eight entries remain, and the entries for which adding 8 wraps.
   */
  predicate InIteratorBlock(i: nat, n: nat)
  {
    n >= 8 && (i < 8 || i - i % 8 + 8 < n || i >= WRAPS)
  }

  lemma BlockGuard(i: nat, n: nat)
    requires 8 <= i < n < TWO_TO_32 && i % 8 == 0
    ensures (i + 8) % TWO_TO_32 < n <==> InIteratorBlock(i, n)
  {
  }

  /** How many fields the iterator reads of `n`: a block is read whole even when fewer than eight entries are left. */
  function FieldsRead(n: nat): nat
  {
    if n > WRAPS then WRAPS + 8 else n
  }

  ghost function IteratorDelta(data: seq<uint8>, start: nat, n: nat, bits: nat, i: nat): nat
    requires i < n && 8 * start + n * bits <= 8 * |data|
  {
    Position(i, n, bits);
    var f := Field(data, 8 * start + i * bits, bits);
    if InIteratorBlock(i, n) then Decoded(bits, i % 8, f) else f
  }

  ghost function IteratorDeltasUpTo(data: seq<uint8>, start: nat, n: nat, bits: nat, m: nat): (d: seq<nat>)
    requires m <= n && 8 * start + n * bits <= 8 * |data|
    ensures |d| == m && forall i: nat :: i < m ==> d[i] == IteratorDelta(data, start, n, bits, i)
  {
    if m == 0 then []
    else IteratorDeltasUpTo(data, start, n, bits, m - 1) + [IteratorDelta(data, start, n, bits, m - 1)]
  }

  ghost function IteratorDeltas(data: seq<uint8>, start: nat, n: nat, bits: nat): (d: seq<nat>)
    requires 8 * start + n * bits <= 8 * |data|
    ensures |d| == n && forall i: nat :: i < n ==> d[i] == IteratorDelta(data, start, n, bits, i)
  {
    IteratorDeltasUpTo(data, start, n, bits, n)
  }

  /** The bytes hold what the iterator reads. */
  predicate Wrappable(data: seq<uint8>, p: Parsed)
  {
    if p.entryBits == 64 then p.start + 8 * p.numEntries <= |data|
    else && Readable4(data, p) && p.numEntries < TWO_TO_32
         && 8 * p.start + FieldsRead(p.numEntries) * p.entryBits <= 8 * |data|
  }

  /** Entry `i` as the iterator yields it. */
  ghost function Yielded(data: seq<uint8>, p: Parsed, i: nat): nat
    requires Wrappable(data, p) && i < p.numEntries
  {
    if p.entryBits == 64 then ReadLE(data, p.start + 8 * i, 8)
    else SumAt(IteratorDeltas(data, p.start, p.numEntries, p.entryBits), i)
  }

  class ConstIterator {
    const data: seq<uint8>
    const parsed: Parsed
    var ptr: nat
    var index: nat
    var previous: nat
    var isBlockMode: bool
    var bufI: nat
    var offset: nat
    const buffer: array<nat>
    /** how often the iterator has advanced */
    ghost var pos: nat

    ghost predicate Valid()
      reads this, buffer
    {
      && buffer.Length == 8 && Wrappable(data, parsed) && pos <= parsed.numEntries
      && if parsed.entryBits == 64 then ptr == parsed.start + 8 * pos
         else index == pos && (pos < parsed.numEntries ==> if isBlockMode then BlockState() else TailState())
    }

    ghost predicate BlockState()
      requires Wrappable(data, parsed) && parsed.entryBits != 64 && index < parsed.numEntries && buffer.Length == 8
      reads this, buffer
    {
      var n, bits := parsed.numEntries, parsed.entryBits;
      var d := IteratorDeltas(data, parsed.start, n, bits);
      && bufI < 8 && bufI == index % 8 && offset == 0
      && 8 * ptr == 8 * parsed.start + FieldStart(index - bufI + 8, bits)
      && (forall j: nat :: j < 8 && index - bufI + j < n ==> buffer[j] == SumAt(d, index - bufI + j))
      && (index - bufI + 8 <= n ==> previous == SumAt(d, index - bufI + 7))
    }

    ghost predicate TailState()
      requires Wrappable(data, parsed) && parsed.entryBits != 64 && index < parsed.numEntries && buffer.Length == 8
      reads this, buffer
    {
      var n, bits := parsed.numEntries, parsed.entryBits;
      && bufI == 0 && offset < 8
      && !InIteratorBlock(index, n)
      && 8 * ptr + offset == 8 * parsed.start + FieldStart(index + 1, bits)
      && previous == buffer[0] == SumAt(IteratorDeltas(data, parsed.start, n, bits), index)
    }

    constructor (data: seq<uint8>, parsed: Parsed)
      requires Wrappable(data, parsed)
      ensures Valid() && pos == 0 && fresh(buffer) && this.data == data && this.parsed == parsed
    {
      this.data, this.parsed := data, parsed;
      ptr, index, previous, bufI, offset, pos := parsed.start, 0, 0, 0, 0, 0;
      isBlockMode := parsed.numEntries >= 8;
      buffer := new nat[8](_ => 0);
      new;
      if parsed.entryBits != 64 && 0 < parsed.numEntries {
        if isBlockMode { ReadBlock(); } else { ReadOne(); }
      }
    }

    /** Unpacks the block that starts at the current entry and adds up its differences. */
    method ReadBlock()
      requires buffer.Length == 8 && Wrappable(data, parsed) && parsed.entryBits != 64
      requires index < parsed.numEntries && index % 8 == 0 && InIteratorBlock(index, parsed.numEntries)
      requires bufI == 0 && offset == 0
      requires 8 * ptr == 8 * parsed.start + FieldStart(index, parsed.entryBits)
      requires previous == if index == 0 then 0
                           else SumAt(IteratorDeltas(data, parsed.start, parsed.numEntries, parsed.entryBits),
                                      index - 1)
      modifies this`ptr, this`previous, buffer
      ensures BlockState()
    {
      hide Field, Decoded, IteratorDeltas, IteratorDelta, SumAt;
      ghost var n, bits := parsed.numEntries, parsed.entryBits;
      ghost var d := IteratorDeltas(data, parsed.start, n, bits);
      BlockPosition(index, FieldsRead(n), bits);
      var values := UnpackBlock8(parsed.entryBits, data, ptr);
      IteratorBlock(data, parsed.start, n, bits, index, ptr, values);
      ptr := ptr + parsed.entryBits;
      AddUp(values, d);
    }

    /** Fills the buffer with the running sums of a block of differences. */
    method AddUp(values: seq<nat>, ghost d: seq<nat>)
      requires buffer.Length == 8 && |values| == 8 && index < |d|
      requires forall j: nat :: j < 8 && index + j < |d| ==> values[j] == d[index + j]
      requires previous == if index == 0 then 0 else SumAt(d, index - 1)
      modifies this`previous, buffer
      ensures forall j: nat :: j < 8 && index + j < |d| ==> buffer[j] == SumAt(d, index + j)
      ensures index + 8 <= |d| ==> previous == SumAt(d, index + 7)
    {
      hide Wrap64;
      for i: nat := 0 to 8
        invariant forall j: nat :: j < i && index + j < |d| ==> buffer[j] == SumAt(d, index + j)
        invariant index + i <= |d| ==> previous == if index + i == 0 then 0 else SumAt(d, index + i - 1)
      {
        buffer[i] := Wrap64(values[i] + previous);
        previous := buffer[i];
      }
    }

    /** Unpacks the current entry alone. */
    method ReadOne()
      requires buffer.Length == 8 && Wrappable(data, parsed) && parsed.entryBits != 64
      requires index < parsed.numEntries && !InIteratorBlock(index, parsed.numEntries) && bufI == 0
      requires offset < 8 && 8 * ptr + offset == 8 * parsed.start + FieldStart(index, parsed.entryBits)
      requires previous == if index == 0 then 0
                           else SumAt(IteratorDeltas(data, parsed.start, parsed.numEntries, parsed.entryBits),
                                      index - 1)
      modifies this`ptr, this`offset, this`previous, buffer
      ensures TailState()
    {
      hide Field, Decoded, IteratorDeltas, IteratorDelta, Wrap64, FieldStart;
      ghost var n, bits := parsed.numEntries, parsed.entryBits;
      DeltaAlone(data, parsed.start, n, bits, index, 8 * ptr + offset);
      var value;
      value, ptr, offset := UnpackBits(parsed.entryBits, data, ptr, offset);
      assert value == IteratorDeltas(data, parsed.start, n, bits)[index];
      buffer[0] := Wrap64(value + previous);
      previous := buffer[0];
    }

    /** The entry the iterator is at. */
    method Current() returns (entry: nat)
      requires Valid() && pos < parsed.numEntries
      ensures entry == Yielded(data, parsed, pos)
    {
      hide ReadLE, IteratorDeltas, SumAt;
      if parsed.entryBits == 64 { return ReadLE(data, ptr, 8); }
      return buffer[bufI];
    }

    method Next()
      requires Valid() && pos < parsed.numEntries
      modifies this, buffer
      ensures Valid() && pos == old(pos) + 1
    {
      hide Field, Decoded, IteratorDeltas, SumAt, FieldStart, Readable4;
      pos := pos + 1;
      if parsed.entryBits == 64 {
        ptr := ptr + 8;
        return;
      }
      index := index + 1;
      if index < parsed.numEntries {
        if isBlockMode {
          bufI := bufI + 1;
          if bufI == 8 {
            bufI := 0;
            BlockGuard(index, parsed.numEntries);
            if (index + 8) % TWO_TO_32 < parsed.numEntries {
              ReadBlock();
            } else {
              isBlockMode := false;
              ReadOne();
            }
          }
        } else {
          ReadOne();
        }
      }
    }

    /** Whether the iterator equals the end iterator. */
    method AtEnd() returns (end: bool)
      requires Valid()
      ensures end <==> pos == parsed.numEntries
    {
      if parsed.entryBits == 64 { return ptr == parsed.start + 8 * parsed.numEntries; }
      return index == parsed.numEntries;
    }
  }

  lemma IteratorBlock(data: seq<uint8>, start: nat, n: nat, bits: nat, i: nat, ptr: nat, values: seq<nat>)
    requires i < n && i % 8 == 0 && InIteratorBlock(i, n)
    requires 8 * start + n * bits <= 8 * |data| && 8 * ptr == 8 * start + i * bits
    requires ptr + bits <= |data| && |values| == 8
    requires forall j: nat :: j < 8 ==>
               j * bits + bits <= 8 * bits && values[j] == Decoded(bits, j, Field(data, 8 * ptr + j * bits, bits))
    ensures forall j: nat :: j < 8 && i + j < n ==> values[j] == IteratorDelta(data, start, n, bits, i + j)
  {
    hide Field, Decoded, InIteratorBlock, IteratorDelta;
    forall j: nat | j < 8 && i + j < n
      ensures values[j] == IteratorDelta(data, start, n, bits, i + j)
    {
      Distribute(i, j, bits);
      InSameBlock(i, j, n);
      DeltaInBlock(data, start, n, bits, i + j, 8 * ptr + j * bits, j);
    }
  }

  lemma DeltaAlone(data: seq<uint8>, start: nat, n: nat, bits: nat, i: nat, at: nat)
    requires i < n && 8 * start + n * bits <= 8 * |data| && !InIteratorBlock(i, n)
    requires at == 8 * start + FieldStart(i, bits)
    ensures at + bits <= 8 * |data| && at + bits == 8 * start + FieldStart(i + 1, bits)
    ensures IteratorDelta(data, start, n, bits, i) == Field(data, at, bits)
  {
    hide Field;
    Position(i, n, bits);
  }

  lemma InSameBlock(i: nat, j: nat, n: nat)
    requires i + j < n && i % 8 == 0 && j < 8
    ensures (i + j) % 8 == j && (InIteratorBlock(i + j, n) <==> InIteratorBlock(i, n))
  {
  }

  lemma DeltaInBlock(data: seq<uint8>, start: nat, n: nat, bits: nat, i: nat, at: nat, j: nat)
    requires i < n && 8 * start + n * bits <= 8 * |data| && InIteratorBlock(i, n) && i % 8 == j
    requires at == 8 * start + i * bits
    ensures at + bits <= 8 * |data| && IteratorDelta(data, start, n, bits, i) == Decoded(bits, j, Field(data, at, bits))
  {
    hide Field, Decoded;
    Position(i, n, bits);
  }

  /** A whole iteration. */
  method Iterate(data: seq<uint8>, parsed: Parsed) returns (entries: seq<nat>)
    requires Wrappable(data, parsed)
    ensures |entries| == parsed.numEntries
    ensures forall i: nat :: i < |entries| ==> entries[i] == Yielded(data, parsed, i)
  {
    hide Yielded;
    var it := new ConstIterator(data, parsed);
    entries := [];
    var end := it.AtEnd();
    while !end
      invariant it.Valid() && fresh(it) && fresh(it.buffer) && it.data == data && it.parsed == parsed
      invariant end <==> it.pos == parsed.numEntries
      invariant |entries| == it.pos
      invariant forall i: nat :: i < |entries| ==> entries[i] == Yielded(data, parsed, i)
      decreases parsed.numEntries - it.pos
    {
      var entry := it.Current();
      entries := entries + [entry];
      it.Next();
      end := it.AtEnd();
    }
  }

  // ---- agreement with deserialization ----

  /**
   When the last eight entries are a block of their own but not the first, the iterator reads them one by
   one while the decoder unpacks a block; when the iterator's comparison wraps, it reads the last entries
   as a block while the decoder reads them one by one. The two widths whose unpacking deviates must then
   hold a clear bit in one field.
   */
  ghost predicate LastBlockAgrees(data: seq<uint8>, start: nat, n: nat, bits: nat)
    requires 8 * start + n * bits <= 8 * |data|
  {
    && (n % 8 == 0 && n > 8 ==>
         && (bits == 33 ==> FieldBitClear(data, start, n, bits, n - 1, 31))
         && (bits == 35 ==> FieldBitClear(data, start, n, bits, n - 6, 33)))
    && (n > WRAPS + 2 && bits == 35 ==> FieldBitClear(data, start, n, bits, WRAPS + 2, 33))
  }

  /** Bit `b` of packed field `i` is clear. */
  ghost predicate FieldBitClear(data: seq<uint8>, start: nat, n: nat, bits: nat, i: nat, b: nat)
    requires i < n && 8 * start + n * bits <= 8 * |data|
  {
    Position(i, n, bits);
    !Bit(Field(data, 8 * start + i * bits, bits), b)
  }

  /** One entry is read alike by both. */
  ghost predicate ReadAlike(data: seq<uint8>, start: nat, n: nat, bits: nat, i: nat)
    requires i < n && 8 * start + n * bits <= 8 * |data|
  {
    i >= WRAPS || (n % 8 == 0 && n > 8 && i >= n - 8) ==>
      && (bits == 33 && i % 8 == 7 ==> FieldBitClear(data, start, n, bits, i, 31))
      && (bits == 35 && i % 8 == 2 ==> FieldBitClear(data, start, n, bits, i, 33))
  }

  lemma DeltaAgrees(data: seq<uint8>, start: nat, n: nat, bits: nat, i: nat)
    requires i < n < TWO_TO_32 && 8 * start + n * bits <= 8 * |data|
    ensures IteratorDelta(data, start, n, bits, i) == DecodedDelta(data, start, n, bits, i) <==>
            ReadAlike(data, start, n, bits, i)
  {
    hide Decoded, Bit, Field;
    Position(i, n, bits);
    DecodedExact(bits, i % 8, Field(data, 8 * start + i * bits, bits));
    BlockKinds(i, n);
  }

  lemma AllReadAlike(data: seq<uint8>, start: nat, n: nat, bits: nat)
    requires n < TWO_TO_32 && 8 * start + n * bits <= 8 * |data|
    ensures (forall i: nat :: i < n ==> ReadAlike(data, start, n, bits, i)) <==> LastBlockAgrees(data, start, n, bits)
  {
    hide FieldBitClear;
    assert n % 8 == 0 && n > 8 ==> (n - 1) % 8 == 7 && (n - 6) % 8 == 2;
    assert n > WRAPS + 2 && bits == 35 ==>
      (ReadAlike(data, start, n, bits, WRAPS + 2) <==> FieldBitClear(data, start, n, bits, WRAPS + 2, 33));
    assert n % 8 == 0 && n > 8 && bits == 33 ==>
      (ReadAlike(data, start, n, bits, n - 1) <==> FieldBitClear(data, start, n, bits, n - 1, 31));
    assert n % 8 == 0 && n > 8 && bits == 35 ==>
      (ReadAlike(data, start, n, bits, n - 6) <==> FieldBitClear(data, start, n, bits, n - 6, 33));
    if LastBlockAgrees(data, start, n, bits) {
      forall i: nat | i < n
        ensures ReadAlike(data, start, n, bits, i)
      {
        InLastBlock(i, n);
      }
    }
  }

  lemma InLastBlock(i: nat, n: nat)
    requires i < n < TWO_TO_32
    ensures n % 8 == 0 && i >= n - 8 ==> i < WRAPS && (i % 8 == 7 <==> i == n - 1) && (i % 8 == 2 <==> i == n - 6)
    ensures i >= WRAPS ==> i % 8 == i - WRAPS < 7
  {
  }

  lemma DeltasAgree(data: seq<uint8>, start: nat, n: nat, bits: nat)
    requires n < TWO_TO_32 && 8 * start + n * bits <= 8 * |data|
    ensures IteratorDeltas(data, start, n, bits) == DecodedDeltas(data, start, n, bits) <==>
            LastBlockAgrees(data, start, n, bits)
  {
    hide IteratorDeltas, DecodedDeltas, IteratorDelta, DecodedDelta, ReadAlike, LastBlockAgrees;
    var a, b := IteratorDeltas(data, start, n, bits), DecodedDeltas(data, start, n, bits);
    forall i: nat | i < n
      ensures a[i] == b[i] <==> ReadAlike(data, start, n, bits, i)
    {
      DeltaAgrees(data, start, n, bits, i);
    }
    AllReadAlike(data, start, n, bits);
    if LastBlockAgrees(data, start, n, bits) {
      assert a == b;
    }
  }

  lemma BlockKinds(i: nat, n: nat)
    requires i < n < TWO_TO_32
    ensures InIteratorBlock(i, n) && !InFullBlock(i, n) <==> i >= WRAPS
    ensures InFullBlock(i, n) && !InIteratorBlock(i, n) <==> n % 8 == 0 && n > 8 && i >= n - 8
  {
  }

  lemma IteratorWords(data: seq<uint8>, start: nat, n: nat, bits: nat)
    requires 0 < bits < 64 && 8 * start + n * bits <= 8 * |data|
    ensures Words(IteratorDeltas(data, start, n, bits))
  {
    hide Pow2, IteratorDeltas, Decoded;
    forall i: nat | i < n
      ensures IteratorDelta(data, start, n, bits, i) < TWO_TO_64
    {
      Position(i, n, bits);
      DecodedBound(bits, i % 8, Field(data, 8 * start + i * bits, bits));
    }
  }

  /** The lazy iterator yields what the decoder decodes, exactly under that condition. */
  lemma IteratorRefinesDecoder(data: seq<uint8>, p: Parsed)
    requires Wrappable(data, p) && p.entryBits != 64
    ensures (forall i: nat :: i < p.numEntries ==>
              Yielded(data, p, i) == SumAt(DecodedDeltas(data, p.start, p.numEntries, p.entryBits), i)) <==>
            LastBlockAgrees(data, p.start, p.numEntries, p.entryBits)
  {
    hide LastBlockAgrees, IteratorDeltas, DecodedDeltas, IteratorDelta, DecodedDelta, SumAt, Decoded, Field;
    var n, bits := p.numEntries, p.entryBits;
    var a, b := IteratorDeltas(data, p.start, n, bits), DecodedDeltas(data, p.start, n, bits);
    DeltasAgree(data, p.start, n, bits);
    WordsDecoded(data, p.start, n, bits);
    IteratorWords(data, p.start, n, bits);
    if forall i: nat :: i < n ==> Yielded(data, p, i) == SumAt(b, i) {
      forall i: nat | i < n
        ensures SumAt(a, i) == SumAt(b, i)
      {
        assert Yielded(data, p, i) == SumAt(b, i);
      }
      SumsDetermineDeltas(a, b);
    }
  }

  /** A parsed sketch of sixteen fields of 33 bits, in the last of which bit 31 is set. */
  lemma IteratorDisagrees(bytes: seq<uint8>, seedHash: nat, p: Parsed)
    requires Parse(bytes, seedHash) == Ok(p) && Readable4(bytes, p)
    requires p.numEntries == 16 && p.entryBits == 33 && bytes[p.start + 62] >= 128
    ensures exists i: nat :: i < 16 && Yielded(bytes, p, i) != SumAt(DecodedDeltas(bytes, p.start, 16, 33), i)
  {
    hide Yielded, DecodedDeltas, SumAt, Field, Parse;
    var at := 8 * p.start + 495;
    IteratorRefinesDecoder(bytes, p);
    FieldBit(bytes, at, 33, 31);
    TopBitOfByte(bytes[p.start + 62]);
    assert (at + 1) / 8 == p.start + 62 && (at + 1) % 8 == 0;
    assert StreamBit(bytes, at + 1);
    assert !FieldBitClear(bytes, p.start, 16, 33, 15, 31);
  }

  /** A parsed sketch of 2^32 - 5 fields of 35 bits, in field 2^32 - 6 of which bit 33 is set. */
  lemma IteratorDisagreesAtWrap(bytes: seq<uint8>, p: Parsed)
    requires Wrappable(bytes, p) && p.numEntries == 0xffff_fffb && p.entryBits == 35
    requires bytes[p.start + 18_790_481_893] % 2 == 1
    ensures exists i: nat :: i < 0xffff_fffb &&
              Yielded(bytes, p, i) != SumAt(DecodedDeltas(bytes, p.start, 0xffff_fffb, 35), i)
  {
    hide Yielded, DecodedDeltas, SumAt, Field;
    var at := 8 * p.start + 0xffff_fffa * 35;
    IteratorRefinesDecoder(bytes, p);
    FieldBit(bytes, at, 35, 33);
    assert (at + 1) / 8 == p.start + 18_790_481_893 && (at + 1) % 8 == 7;
    assert StreamBit(bytes, at + 1);
    assert !FieldBitClear(bytes, p.start, 0xffff_fffb, 35, 0xffff_fffa, 33);
  }

  /** Uncompressed entries are read alike. */
  lemma {:induction false} IteratorReadsPlain(data: seq<uint8>, at: nat, n: nat, i: nat)
    requires at + 8 * n <= |data| && i < n
    ensures ReadEntries(data, at, n)[i] == ReadLE(data, at + 8 * i, 8)
    decreases n
  {
    if i > 0 {
      IteratorReadsPlain(data, at + 8, n - 1, i - 1);
    }
  }

  /**
   Over bytes that decode, compressed or not, the iterator yields the decoded entries exactly under that
   condition, and it reads past the bytes only if its comparison wraps.
   */
  lemma IteratorYieldsEntries(bytes: seq<uint8>, seedHash: nat, c: CompactSketch)
    requires Decode(bytes, seedHash) == Ok(c)
    requires Parse(bytes, seedHash).Ok?
    ensures var p := Parse(bytes, seedHash).value;
            && p.numEntries == |c.entries|
            && (p.entryBits != 64 ==> 8 * p.start + p.numEntries * p.entryBits <= 8 * |bytes|)
            && (p.entryBits == 64 || p.numEntries <= WRAPS ==> Wrappable(bytes, p))
            && (Wrappable(bytes, p) ==>
                 (p.entryBits == 64 || LastBlockAgrees(bytes, p.start, p.numEntries, p.entryBits) <==>
                   forall i: nat :: i < p.numEntries ==> Yielded(bytes, p, i) == c.entries[i]))
  {
    hide Parse, ReadLE, ReadEntries, LastBlockAgrees, DecodedDeltas, SumAt;
    var p := Parse(bytes, seedHash).value;
    ParsedCount(bytes, seedHash);
    if p.entryBits == 64 {
      forall i: nat | i < p.numEntries
        ensures Yielded(bytes, p, i) == c.entries[i]
      {
        IteratorReadsPlain(bytes, p.start, p.numEntries, i);
      }
    } else if Wrappable(bytes, p) {
      IteratorRefinesDecoder(bytes, p);
      var s := SumsUpTo(DecodedDeltas(bytes, p.start, p.numEntries, p.entryBits), p.numEntries);
      assert c.entries == s;
    }
  }

  // ---- what the iterator makes of a compressed sketch ----

  /** Values that come back from a packed block when they are unpacked as a block, or one by one. */
  predicate ReadSafely(values: seq<nat>, bits: nat, asBlock: bool)
    requires |values| == 8
  {
    if asBlock then BlockSafe(values, bits) else (bits == 13 ==> Safe13(values[3], values[4]))
  }

  /** Every difference comes back the way the iterator reads it. */
  ghost predicate IteratorSafe(entries: seq<nat>, bits: nat)
    requires Ascending(entries)
  {
    && (forall b: nat :: 8 * b + 8 <= |entries| ==>
         ReadSafely(DeltaBlock(entries, 8 * b), bits, InIteratorBlock(8 * b, |entries|)))
    && (|entries| > WRAPS + 2 && bits == 35 ==> !Bit(Delta(entries, WRAPS + 2), 33))
  }

  /** Entry `i` as packed: the stored difference, decoded if it is read as part of a block. */
  lemma IteratorDeltaStored(head: seq<uint8>, packed: seq<uint8>, entries: seq<nat>, bits: nat, i: nat)
    requires Ascending(entries) && i < |entries| && |entries| * bits <= 8 * |packed|
    requires FieldsStored(packed, entries, bits, |entries|)
    ensures IteratorDelta(head + packed, |head|, |entries|, bits, i) ==
            if InIteratorBlock(i, |entries|) then Decoded(bits, i % 8, StoredDelta(entries, bits, i))
            else StoredDelta(entries, bits, i)
  {
    hide Field, Decoded, StoredDelta, DeltaBlock;
    Position(i, |entries|, bits);
    FieldShift(head, packed, i * bits, bits);
  }

  lemma IteratorBlockReadBack(head: seq<uint8>, packed: seq<uint8>, entries: seq<nat>, bits: nat, b: nat)
    requires Ascending(entries) && DeltasFit(entries, bits) && 0 < bits < 64 && |entries| * bits <= 8 * |packed|
    requires FieldsStored(packed, entries, bits, |entries|) && 8 * b + 8 <= |entries|
    ensures (forall j: nat :: j < 8 ==>
              IteratorDelta(head + packed, |head|, |entries|, bits, 8 * b + j) == DeltaBlock(entries, 8 * b)[j]) <==>
            ReadSafely(DeltaBlock(entries, 8 * b), bits, InIteratorBlock(8 * b, |entries|))
  {
    hide Field, Decoded, Stored, DeltaBlock, FieldsStored, IteratorDelta, BlockSafe, Fit, Pow2, InIteratorBlock, Safe13;
    var n, values := |entries|, DeltaBlock(entries, 8 * b);
    forall j: nat | j < 8
      ensures IteratorDelta(head + packed, |head|, n, bits, 8 * b + j) ==
              if InIteratorBlock(8 * b, n) then Decoded(bits, j, Stored(values, bits, j)) else Stored(values, bits, j)
    {
      IteratorDeltaStored(head, packed, entries, bits, 8 * b + j);
      InSameBlock(8 * b, j, n);
      StoredInBlock(entries, bits, b, j);
    }
    DeltaBlockFits(entries, bits, 8 * b);
    RoundTripOfBlock(values, bits);
    StoredExact(values, bits);
  }

  lemma StoredInBlock(entries: seq<nat>, bits: nat, b: nat, j: nat)
    requires Ascending(entries) && 8 * b + 8 <= |entries| && j < 8
    ensures StoredDelta(entries, bits, 8 * b + j) == Stored(DeltaBlock(entries, 8 * b), bits, j)
  {
    hide Stored, DeltaBlock;
    assert (8 * b + j) % 8 == j && 8 * b + j - j == 8 * b;
  }

  /** The iterator reads the packed differences back exactly when every block comes back the way it reads it. */
  lemma IteratorDeltasRoundTrip(head: seq<uint8>, packed: seq<uint8>, entries: seq<nat>, bits: nat)
    requires |entries| < TWO_TO_32 && Ascending(entries) && DeltasFit(entries, bits) && 0 < bits < 64
    requires |entries| * bits <= 8 * |packed|
    requires FieldsStored(packed, entries, bits, |entries|)
    ensures IteratorDeltas(head + packed, |head|, |entries|, bits) == DeltaSeq(entries, |entries|) <==>
            IteratorSafe(entries, bits)
  {
    hide Field, Decoded, Stored, DeltaBlock, FieldsStored, IteratorDeltas, IteratorDelta, ReadSafely, DeltaSeq, Delta,
         Fit, Pow2, DeltasFit, InIteratorBlock, StoredDelta;
    var n := |entries|;
    var d := IteratorDeltas(head + packed, |head|, n, bits);
    forall b: nat | 8 * b + 8 <= n
      ensures (forall j: nat :: j < 8 ==> d[8 * b + j] == DeltaBlock(entries, 8 * b)[j]) <==>
              ReadSafely(DeltaBlock(entries, 8 * b), bits, InIteratorBlock(8 * b, n))
    {
      IteratorBlockReadBack(head, packed, entries, bits, b);
    }
    if IteratorSafe(entries, bits) {
      forall i: nat | i < n
        ensures d[i] == Delta(entries, i)
      {
        if InFullBlock(i, n) {
          var b := i / 8;
          assert ReadSafely(DeltaBlock(entries, 8 * b), bits, InIteratorBlock(8 * b, n));
          assert d[8 * b + i % 8] == DeltaBlock(entries, 8 * b)[i % 8];
        } else {
          OutsideBlocks(head, packed, entries, bits, i);
        }
      }
      assert d == DeltaSeq(entries, n);
    } else if n > WRAPS + 2 && bits == 35 && Bit(Delta(entries, WRAPS + 2), 33) {
      OutsideBlocks(head, packed, entries, bits, WRAPS + 2);
      assert DeltaSeq(entries, n)[WRAPS + 2] == Delta(entries, WRAPS + 2);
    }
  }

  lemma OutsideBlocks(head: seq<uint8>, packed: seq<uint8>, entries: seq<nat>, bits: nat, i: nat)
    requires |entries| < TWO_TO_32 && Ascending(entries) && DeltasFit(entries, bits)
    requires |entries| * bits <= 8 * |packed| && FieldsStored(packed, entries, bits, |entries|)
    requires i < |entries| && !InFullBlock(i, |entries|)
    ensures IteratorDelta(head + packed, |head|, |entries|, bits, i) == Delta(entries, i) <==>
            !(i == WRAPS + 2 && bits == 35 && Bit(Delta(entries, i), 33))
  {
    hide Field, Decoded, DeltaBlock, FieldsStored, IteratorDelta, Delta, Pow2, Bit;
    IteratorDeltaStored(head, packed, entries, bits, i);
    BlockKinds(i, |entries|);
    InLastBlock(i, |entries|);
    DecodedExact(bits, i % 8, Delta(entries, i));
  }

  /** The bits after the last field that the iterator reads as part of a block fit the last byte of the form. */
  predicate StaysWithin(n: nat, bits: nat)
    requires n < TWO_TO_32
  {
    n <= WRAPS || (TWO_TO_32 - n) * bits < 8
  }

  lemma RoundedUp(n: nat, bits: nat)
    requires n < TWO_TO_32 && 0 <= n * bits
    ensures FieldsRead(n) * bits <= 8 * WholeBytes(n * bits) <==> StaysWithin(n, bits)
  {
    Distribute(n, TWO_TO_32 - n, bits);
    NaturalProduct(TWO_TO_32 - n, bits);
    BytesCover(n * bits, (TWO_TO_32 - n) * bits, 0x2000_0000 * bits);
  }

  lemma BytesCover(used: nat, rest: nat, bytes: nat)
    requires used + rest == 8 * bytes
    ensures used + rest <= 8 * WholeBytes(used) <==> rest < 8
  {
  }

  /**
   Over the compressed form of a sketch the iterator yields the sketch's entries exactly when every difference
   comes back the way the iterator reads it, whether or not deserialization recovers the sketch. It stays
   within the form exactly when its comparison does not wrap or the rounding up to bytes covers what it reads.
   */
  lemma IteratorRoundTrip4(bytes: seq<uint8>, c: CompactSketch, bits: uint8)
    requires Encodes4(bytes, c, bits)
    ensures Parse(bytes, c.seedHash).Ok?
    ensures var p := Parse(bytes, c.seedHash).value;
            && p.entryBits == bits != 64 && p.numEntries == |c.entries| && p.theta == c.theta
            && p.isOrdered && !p.isEmpty && p.seedHash == c.seedHash && !c.isEmpty && c.isOrdered
            && (Wrappable(bytes, p) <==> StaysWithin(|c.entries|, bits))
            && (Wrappable(bytes, p) ==>
                 ((forall i: nat :: i < p.numEntries ==> Yielded(bytes, p, i) == c.entries[i]) <==>
                  IteratorSafe(c.entries, bits)))
  {
    hide Pow2, Hashes, DeltasFit, FieldsStored, Parse, Header4, IteratorSafe, IteratorDeltas, SumAt, DeltaSeq;
    CompressibleHashes(c);
    AscendingHashes(c.entries);
    ParseOf4(bytes, c, bits, c.seedHash);
    var head, n := Header4(c, bits), |c.entries|;
    var packed := bytes[|head|..];
    assert bytes == head + packed;
    RoundedUp(n, bits);
    var d := IteratorDeltas(bytes, |head|, n, bits);
    IteratorDeltasRoundTrip(head, packed, c.entries, bits);
    IteratorWords(bytes, |head|, n, bits);
    SumsAgree(d, c.entries);
  }

  /** Sixteen hashes whose differences take 33 bits, the last of them with bit 31 set. */
  function DisputedSketch(seedHash: nat): (c: CompactSketch)
    ensures |c.entries| == 16 && Ascending(c.entries) && c.entries[15] == 0x1_8000_000e
    ensures forall i :: 0 <= i < 15 ==> c.entries[i] == 0x1_0000_0000 + i
  {
    CompactSketch(false, true, seedHash, MAX_THETA,
                  Consecutive(0x1_0000_0000, 15, seedHash).entries + [0x1_8000_000e])
  }

  lemma DisputedDeltas(seedHash: nat)
    ensures var entries := DisputedSketch(seedHash).entries;
            && DeltaBlock(entries, 0)[7] == 1 && DeltaBlock(entries, 8)[7] == 0x8000_0000
            && forall j: nat :: j < 16 ==> Delta(entries, j) < 0x2_0000_0000
  {
    hide DisputedSketch;
  }

  lemma DisputedBlocks(seedHash: nat)
    ensures !BlocksSafe(DisputedSketch(seedHash).entries, 33) && IteratorSafe(DisputedSketch(seedHash).entries, 33)
  {
    hide Pow2, Bit, DeltaBlock, DisputedSketch;
    var entries := DisputedSketch(seedHash).entries;
    DisputedDeltas(seedHash);
    Powers31To33();
    PowerBit(31);
    OneMoreBit(0);
    One();
    NoHighBits(1, 1, 31);
    assert !BlockSafe(DeltaBlock(entries, 8 * 1), 33);
    forall b: nat | 8 * b + 8 <= 16
      ensures ReadSafely(DeltaBlock(entries, 8 * b), 33, InIteratorBlock(8 * b, 16))
    {
      assert 8 * b == 0 || 8 * b == 8;
    }
  }

  lemma DisputedCompressible(seedHash: nat)
    requires seedHash < 0x1_0000
    ensures Compressible(DisputedSketch(seedHash)) && DisputedSketch(seedHash).seedHash == seedHash
  {
    hide Consecutive;
    var entries := DisputedSketch(seedHash).entries;
    assert forall i :: 0 <= i < 16 ==> 0 < entries[i] < MAX_THETA;
  }

  /** Bytes from which the iterator yields a sketch that deserialization loses. */
  method SerializeDisputed(seedHash: nat) returns (bytes: seq<uint8>)
    requires seedHash < 0x1_0000
    ensures Decode(bytes, seedHash) != Ok(DisputedSketch(seedHash))
    ensures Parse(bytes, seedHash).Ok? && Wrappable(bytes, Parse(bytes, seedHash).value)
    ensures Parse(bytes, seedHash).value.numEntries == 16
    ensures forall i: nat :: i < 16 ==>
              Yielded(bytes, Parse(bytes, seedHash).value, i) == DisputedSketch(seedHash).entries[i]
  {
    hide Decode, Parse, Wrappable, Yielded, BlocksSafe, IteratorSafe, Encodes4, DisputedSketch;
    var c := DisputedSketch(seedHash);
    DisputedCompressible(seedHash);
    bytes := SerializeVersion4(c);
    DisputedWidth(bytes, bytes[3], seedHash);
    DisputedBlocks(seedHash);
    RoundTrip4(bytes, c, bytes[3], seedHash);
    IteratorRoundTrip4(bytes, c, bytes[3]);
  }

  lemma DisputedWidth(bytes: seq<uint8>, bits: uint8, seedHash: nat)
    requires Encodes4(bytes, DisputedSketch(seedHash), bits)
    ensures bits == 33
  {
    hide FieldsStored, Header4, Hashes, Pow2, DisputedSketch;
    DisputedDeltas(seedHash);
    Width33(DisputedSketch(seedHash).entries, bits);
  }

  /** 2^32 - 5 consecutive hashes from 2 on, whose differences take two bits. */
  function OverrunSketch(seedHash: nat): CompactSketch
  {
    Consecutive(2, 0xffff_fffb, seedHash)
  }

  lemma OverrunWidth(seedHash: nat, bits: nat)
    requires Ascending(OverrunSketch(seedHash).entries) && 0 < bits
    requires DeltasFit(OverrunSketch(seedHash).entries, bits) && !DeltasFit(OverrunSketch(seedHash).entries, bits - 1)
    ensures bits == 2
  {
    hide Pow2, Consecutive;
    var c := OverrunSketch(seedHash);
    One();
    OneMoreBit(0);
    OneMoreBit(1);
    assert Delta(c.entries, 0) == 2 < Pow2(bits);
    if bits > 2 { Pow2Monotone(2, bits - 1); }
  }

  /** Bytes that deserialization reads back and the iterator reads past. */
  method SerializeOverrun(seedHash: nat) returns (bytes: seq<uint8>)
    requires seedHash < 0x1_0000
    ensures Decode(bytes, seedHash) == Ok(OverrunSketch(seedHash))
    ensures Parse(bytes, seedHash).Ok? && !Wrappable(bytes, Parse(bytes, seedHash).value)
  {
    hide Pow2, Consecutive, Decode, Parse, Wrappable, DeltaBlock, FieldsStored, Hashes, DeltasFit, IteratorSafe;
    var c := OverrunSketch(seedHash);
    ConsecutiveValid(2, 0xffff_fffb, seedHash);
    bytes := SerializeVersion4(c);
    OverrunWidth(seedHash, bytes[3]);
    RoundTrip4(bytes, c, bytes[3], seedHash);
    IteratorRoundTrip4(bytes, c, bytes[3]);
  }
}
