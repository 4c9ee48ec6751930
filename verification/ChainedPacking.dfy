/**
 Chains of single fields: packed one after the other they fill the stream with their concatenation, and
 unpacking reads them back. A block of eight fields is the chain of its eight fields.
 */
module ChainedPacking {
  import opened Bits
  import opened BitPacking
  import opened BlockPacking
  import opened BlockRoundTrip
  import opened DeltaStream

  /** From position `at` on the stream is the concatenation of the values, then clear up to the next byte. */
  ghost predicate Concatenated(s0: seq<uint8>, s1: seq<uint8>, at: nat, values: seq<nat>, bits: nat)
  {
    var end := at + |values| * bits;
    && |s0| == |s1| && end >= at
    && forall p: nat :: p < 8 * |s0| ==>
         (StreamBit(s1, p) <==>
           if p < at then StreamBit(s0, p)
           else if p < end then ConcatBit(values, bits, p - at)
           else p >= RoundUp8(end) && StreamBit(s0, p))
  }

  lemma {:induction false} ConcatBitOfAppend(values: seq<nat>, value: nat, bits: nat, p: nat)
    requires p < |values| * bits + bits
    ensures ConcatBit(values + [value], bits, p) <==>
            if p < |values| * bits then ConcatBit(values, bits, p) else Bit(value, bits - 1 - (p - |values| * bits))
  {
    var all := values + [value];
    if values != [] {
      assert all[1..] == values[1..] + [value];
      assert |values| * bits == |values[1..]| * bits + bits;
      if p >= bits { ConcatBitOfAppend(values[1..], value, bits, p - bits); }
    }
  }

  lemma NothingConcatenated(s: seq<uint8>, at: nat, bits: nat)
    requires ClearAhead(s, at)
    ensures Concatenated(s, s, at, [], bits)
  {
    assert at + 0 * bits == at;
  }

  /** One more field extends the concatenation, and leaves the rest of its last byte clear. */
  lemma FieldConcatenated(s0: seq<uint8>, s: seq<uint8>, t: seq<uint8>, at: nat, values: seq<nat>, value: nat,
                          bits: nat)
    requires 0 < bits && Concatenated(s0, s, at, values, bits)
    requires Written(s, t, at + |values| * bits, value, bits, bits)
    ensures Concatenated(s0, t, at, values + [value], bits)
  {
    hide Bit, StreamBit, ConcatBit, RoundUp8;
    var mid := at + |values| * bits;
    assert |values + [value]| * bits == |values| * bits + bits;
    RoundUpGrows(mid, mid + bits);
    forall p: nat | p < 8 * |s0|
      ensures StreamBit(t, p) <==>
                if p < at then StreamBit(s0, p)
                else if p < mid + bits then ConcatBit(values + [value], bits, p - at)
                else p >= RoundUp8(mid + bits) && StreamBit(s0, p)
    {
      if at <= p < mid + bits { ConcatBitOfAppend(values, value, bits, p - at); }
    }
  }

  lemma RoundUpGrows(a: nat, b: nat)
    requires a <= b
    ensures a <= RoundUp8(a) <= RoundUp8(b)
  {
  }

  lemma ClearAfter(s0: seq<uint8>, s: seq<uint8>, at: nat, values: seq<nat>, bits: nat)
    requires Concatenated(s0, s, at, values, bits)
    ensures ClearAhead(s, at + |values| * bits)
  {
  }

  /** Packs the values one after the other. */
  method PackChain(values: seq<nat>, bits: nat, buf: array<uint8>, ptr: nat, offset: nat)
    returns (ptr': nat, offset': nat)
    requires 0 < bits && offset < 8 && 8 * ptr + offset + |values| * bits <= 8 * buf.Length
    requires ClearAhead(buf[..], 8 * ptr + offset)
    modifies buf
    ensures offset' < 8 && 8 * ptr' + offset' == 8 * ptr + offset + |values| * bits
    ensures Concatenated(old(buf[..]), buf[..], 8 * ptr + offset, values, bits)
  {
    hide Concatenated, ClearAhead, Written;
    ghost var s0, at := buf[..], 8 * ptr + offset;
    NothingConcatenated(s0, at, bits);
    assert values[..0] == [];
    ptr', offset' := ptr, offset;
    for i := 0 to |values|
      invariant offset' < 8 && 8 * ptr' + offset' == at + i * bits
      invariant Concatenated(s0, buf[..], at, values[..i], bits)
    {
      ghost var s := buf[..];
      Position(i, |values|, bits);
      ClearAfter(s0, s, at, values[..i], bits);
      ptr', offset' := PackBits(values[i], bits, buf, ptr', offset');
      FieldConcatenated(s0, s, buf[..], at, values[..i], values[i], bits);
      assert values[..i + 1] == values[..i] + [values[i]];
    }
    assert values[..|values|] == values;
  }

  /** The values are the consecutive fields from position `at` on. */
  ghost predicate FieldsOf(data: seq<uint8>, at: nat, values: seq<nat>, bits: nat)
  {
    forall k: nat :: k < |values| ==>
      0 <= k * bits && at + k * bits + bits <= 8 * |data| && values[k] == Field(data, at + k * bits, bits)
  }

  /** Reads `n` consecutive fields. */
  method UnpackChain(bits: nat, n: nat, data: seq<uint8>, ptr: nat, offset: nat)
    returns (values: seq<nat>, ptr': nat, offset': nat)
    requires 0 < bits <= 64 && offset < 8 && 8 * ptr + offset + n * bits <= 8 * |data|
    ensures offset' < 8 && 8 * ptr' + offset' == 8 * ptr + offset + n * bits
    ensures |values| == n && FieldsOf(data, 8 * ptr + offset, values, bits)
  {
    hide Field;
    values, ptr', offset' := [], ptr, offset;
    for i := 0 to n
      invariant |values| == i && offset' < 8 && 8 * ptr' + offset' == 8 * ptr + offset + i * bits
      invariant FieldsOf(data, 8 * ptr + offset, values, bits)
    {
      Position(i, n, bits);
      var value;
      value, ptr', offset' := UnpackBits(bits, data, ptr', offset');
      values := values + [value];
    }
  }

  /** Field `k` of a concatenation is value `k`. */
  lemma FieldOfConcatenation(s0: seq<uint8>, s1: seq<uint8>, at: nat, values: seq<nat>, bits: nat, k: nat)
    requires Concatenated(s0, s1, at, values, bits) && Fit(values, bits) && k < |values| && 0 < bits
    requires at + |values| * bits <= 8 * |s1|
    ensures 0 <= k * bits && at + k * bits + bits <= 8 * |s1|
    ensures Field(s1, at + k * bits, bits) == values[k]
  {
    hide Bit, StreamBit, ConcatBit, RoundUp8, Pow2, Field;
    Position(k, |values|, bits);
    var v := values[k];
    forall i: nat | i < bits
      ensures Bit(v, i) <==> StreamBit(s1, at + k * bits + bits - 1 - i)
    {
      ConcatBitAt(values, bits, k, i);
      var p := at + k * bits + (bits - 1 - i);
      assert at <= p < at + |values| * bits;
      assert p - at == k * bits + (bits - 1 - i);
    }
    FieldUnique(s1, at + k * bits, bits, v);
  }

  /** Unpacking a packed chain gives back the values. */
  lemma ChainRoundTrip(s0: seq<uint8>, data: seq<uint8>, at: nat, packed: seq<nat>, unpacked: seq<nat>, bits: nat)
    requires 0 < bits && Fit(packed, bits) && |unpacked| == |packed| && at + |packed| * bits <= 8 * |data|
    requires Concatenated(s0, data, at, packed, bits) && FieldsOf(data, at, unpacked, bits)
    ensures unpacked == packed
  {
    hide Concatenated, Fit, Field;
    forall k: nat | k < |packed|
      ensures unpacked[k] == packed[k]
    {
      FieldOfConcatenation(s0, data, at, packed, bits, k);
    }
  }

  // ---- blocks ----

  /** What packing a block does to a buffer. */
  ghost predicate BlockPacked(s: seq<uint8>, t: seq<uint8>, ptr: nat, values: seq<nat>, bits: nat)
    requires |values| == 8
  {
    && |s| == |t| && ptr + bits <= |s|
    && (forall q :: 0 <= q < |s| && !(ptr <= q < ptr + bits) ==> t[q] == s[q])
    && (forall q: nat :: q < bits && !(bits == 19 && q == 10) ==> t[ptr + q] == PackedByte(values, bits, q))
    && (bits == 19 ==> t[ptr + 10] == Or(s[ptr + 10], PackedByte(values, bits, 10)))
  }

  /** Bit `r` of a block of width 13, within byte 6: as packed, and as the chain has it. */
  ghost predicate PackedBit13(value3: nat, value4: nat, r: nat)
    requires 48 <= r < 56
  {
    Bit(value3, 59 - r) || (r >= 52 && Bit(value4, 64 - r))
  }

  ghost predicate ChainedBit13(value3: nat, value4: nat, r: nat)
    requires 48 <= r < 56
  {
    if r < 52 then Bit(value3, 51 - r) else Bit(value4, 64 - r)
  }

  lemma Safe13Bits(value3: nat, value4: nat)
    ensures Safe13(value3, value4) <==>
            forall r: nat :: 48 <= r < 56 ==> (PackedBit13(value3, value4, r) <==> ChainedBit13(value3, value4, r))
  {
    hide Bit;
    if forall r: nat :: 48 <= r < 56 ==> (PackedBit13(value3, value4, r) <==> ChainedBit13(value3, value4, r)) {
      assert PackedBit13(value3, value4, 48) <==> ChainedBit13(value3, value4, 48);
      assert PackedBit13(value3, value4, 49) <==> ChainedBit13(value3, value4, 49);
      assert PackedBit13(value3, value4, 50) <==> ChainedBit13(value3, value4, 50);
      assert PackedBit13(value3, value4, 51) <==> ChainedBit13(value3, value4, 51);
      assert PackedBit13(value3, value4, 52) <==> ChainedBit13(value3, value4, 52);
      assert PackedBit13(value3, value4, 53) <==> ChainedBit13(value3, value4, 53);
      assert PackedBit13(value3, value4, 54) <==> ChainedBit13(value3, value4, 54);
      assert PackedBit13(value3, value4, 55) <==> ChainedBit13(value3, value4, 55);
    }
  }

  lemma ChainBitOf13(values: seq<nat>, r: nat)
    requires |values| == 8 && 48 <= r < 56
    ensures ConcatBit(values, 13, r) <==> ChainedBit13(values[3], values[4], r)
  {
    hide Bit, ConcatBit;
    if r < 52 { ConcatBitAt(values, 13, 3, 51 - r); } else { ConcatBitAt(values, 13, 4, 64 - r); }
  }

  /** The streams of a block's bytes and of the chain agree everywhere but in byte 6 of width 13. */
  lemma BlockStreamIsChain(s: seq<uint8>, t: seq<uint8>, u: seq<uint8>, ptr: nat, values: seq<nat>, bits: nat, p: nat)
    requires |values| == 8 && Fit(values, bits) && 0 < bits && |s| == |t| && HoldsBlock(t, ptr, values, bits)
    requires forall q :: 0 <= q < |s| && !(ptr <= q < ptr + bits) ==> t[q] == s[q]
    requires Concatenated(s, u, 8 * ptr, values, bits) && p < 8 * |s|
    ensures !(bits == 13 && 8 * ptr + 48 <= p < 8 * ptr + 56) ==> (StreamBit(t, p) <==> StreamBit(u, p))
    ensures bits == 13 && 8 * ptr + 48 <= p < 8 * ptr + 56 ==>
              && (StreamBit(t, p) <==> PackedBit13(values[3], values[4], p - 8 * ptr))
              && (StreamBit(u, p) <==> ChainedBit13(values[3], values[4], p - 8 * ptr))
  {
    hide Bit, ConcatBit, PackedByte, Or, Low, Shr, Pow2, Fit, ByteBit, HoldsBlock;
    var r := p - 8 * ptr;
    if 0 <= r < 8 * bits {
      BlockStream(t, ptr, values, bits, r);
      if bits == 13 && 48 <= r < 56 { ChainBitOf13(values, r); }
    } else {
      assert !(ptr <= p / 8 < ptr + bits);
    }
  }

  /** A block whose bytes are the computed ones is the chain, unless width 13 spoils its fields 3 and 4. */
  lemma BlockBytesAreChain(s: seq<uint8>, t: seq<uint8>, u: seq<uint8>, ptr: nat, values: seq<nat>, bits: nat)
    requires |values| == 8 && Fit(values, bits) && 0 < bits && |s| == |t| && HoldsBlock(t, ptr, values, bits)
    requires forall q :: 0 <= q < |s| && !(ptr <= q < ptr + bits) ==> t[q] == s[q]
    requires Concatenated(s, u, 8 * ptr, values, bits)
    ensures t == u <==> (bits == 13 ==> Safe13(values[3], values[4]))
  {
    hide Fit, HoldsBlock, Concatenated, StreamBit, PackedBit13, ChainedBit13, Safe13;
    assert ptr + bits <= |s| == |u| by { BufferSizes(s, t, u, ptr, values, bits); }
    Safe13Bits(values[3], values[4]);
    forall p: nat | p < 8 * |s|
      ensures !(bits == 13 && 8 * ptr + 48 <= p < 8 * ptr + 56) ==> (StreamBit(t, p) <==> StreamBit(u, p))
      ensures bits == 13 && 8 * ptr + 48 <= p < 8 * ptr + 56 ==>
                && (StreamBit(t, p) <==> PackedBit13(values[3], values[4], p - 8 * ptr))
                && (StreamBit(u, p) <==> ChainedBit13(values[3], values[4], p - 8 * ptr))
    {
      BlockStreamIsChain(s, t, u, ptr, values, bits, p);
    }
    if t == u && bits == 13 {
      forall r: nat | 48 <= r < 56
        ensures PackedBit13(values[3], values[4], r) <==> ChainedBit13(values[3], values[4], r)
      {
        assert StreamBit(t, 8 * ptr + r) <==> StreamBit(u, 8 * ptr + r);
      }
    } else if bits == 13 ==> Safe13(values[3], values[4]) {
      SameStreamSameBytes(t, u);
    }
  }

  lemma BufferSizes(s: seq<uint8>, t: seq<uint8>, u: seq<uint8>, ptr: nat, values: seq<nat>, bits: nat)
    requires |values| == 8 && |s| == |t| && HoldsBlock(t, ptr, values, bits)
    requires Concatenated(s, u, 8 * ptr, values, bits)
    ensures ptr + bits <= |s| == |u|
  {
  }

  /**
   A block packed at a byte boundary leaves the same bytes as a chain of its eight fields, exactly when
   width 13 does not spoil the fields and width 19 does not find other bits in the byte it adds to.
   */
  lemma BlockIsChain(s: seq<uint8>, t: seq<uint8>, u: seq<uint8>, ptr: nat, values: seq<nat>, bits: nat)
    requires |values| == 8 && Fit(values, bits) && 0 < bits && BlockPacked(s, t, ptr, values, bits)
    requires Concatenated(s, u, 8 * ptr, values, bits)
    ensures t == u <==>
            && (bits == 13 ==> Safe13(values[3], values[4]))
            && (bits == 19 ==> Or(s[ptr + 10], PackedByte(values, bits, 10)) == PackedByte(values, bits, 10))
  {
    hide Fit, Concatenated, PackedByte, Or, Safe13;
    var clean := if bits == 19 then t[ptr + 10 := PackedByte(values, bits, 10)] else t;
    BlockBytesAreChain(s, clean, u, ptr, values, bits);
    if bits == 19 {
      assert t == t[ptr + 10 := t[ptr + 10]];
      assert clean[ptr + 10] == PackedByte(values, bits, 10);
    }
  }

  /**
   At width 19 the packed fields are read back exactly when the byte that is added to held no bits but those
   of the block.
   */
  lemma Width19ReadsBack(s: seq<uint8>, t: seq<uint8>, ptr: nat, values: seq<nat>)
    requires |values| == 8 && Fit(values, 19) && BlockPacked(s, t, ptr, values, 19)
    ensures (forall j: nat :: j < 8 ==>
              j * 19 + 19 <= 8 * 19 && Field(t, 8 * ptr + j * 19, 19) == values[j]) <==>
            Or(s[ptr + 10], PackedByte(values, 19, 10)) == PackedByte(values, 19, 10)
  {
    hide Fit, PackedByte, Or, Field, StreamBit, Stored;
    var clean := t[ptr + 10 := PackedByte(values, 19, 10)];
    assert HoldsBlock(clean, ptr, values, 19);
    forall j: nat | j < 8
      ensures j * 19 + 19 <= 8 * 19 && Field(clean, 8 * ptr + j * 19, 19) == values[j]
    {
      StoredField(clean, ptr, values, 19, j);
      StoredPlain(values, 19, j);
    }
    if Field(t, 8 * ptr + 4 * 19, 19) == Field(clean, 8 * ptr + 4 * 19, 19) {
      SameByte(t, clean, 8 * ptr + 76, 19, ptr + 10);
    }
    if t[ptr + 10] == clean[ptr + 10] {
      assert t == clean;
    }
  }

  /** Equal fields have equal bytes within. */
  lemma SameByte(s: seq<uint8>, t: seq<uint8>, at: nat, n: nat, q: nat)
    requires at + n <= 8 * |s| && |s| == |t| && at <= 8 * q && 8 * q + 8 <= at + n
    requires Field(s, at, n) == Field(t, at, n)
    ensures s[q] == t[q]
  {
    hide Field, Bit, Pow2;
    forall i: nat | i < 8
      ensures Bit(s[q], i) <==> Bit(t[q], i)
    {
      FieldBit(s, at, n, at + n - 1 - (8 * q + 7 - i));
      FieldBit(t, at, n, at + n - 1 - (8 * q + 7 - i));
      assert (8 * q + 7 - i) / 8 == q && (8 * q + 7 - i) % 8 == 7 - i;
    }
    ByteBound(s[q]);
    ByteBound(t[q]);
    SameBits(s[q], t[q], 8);
  }
}
