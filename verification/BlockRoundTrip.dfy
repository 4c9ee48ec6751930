/** What packing a block and unpacking it again gives back, and when that is what went in. */
module BlockRoundTrip {
  import opened Bits
  import opened BitPacking
  import opened BlockPacking

  /** Width 13 leaves in the low four bits of field 3 the four bits it holds eight higher. */
  function Stored3(value3: nat): nat
  {
    Or(Shl(Shr(value3, 4), 4), Low(Shr(value3, 8), 4))
  }

  /** Width 13 mixes bits of field 3 into the four highest bits of field 4. */
  function Stored4(value3: nat, value4: nat): nat
  {
    Or(value4, Shl(Low(Shr(value3, 4), 4), 9))
  }

  /** Field `j` of the packed block. */
  function Stored(values: seq<nat>, bits: nat, j: nat): nat
    requires |values| == 8 && j < 8
  {
    if bits == 13 && j == 3 then Stored3(values[3])
    else if bits == 13 && j == 4 then Stored4(values[3], values[4])
    else values[j]
  }

  predicate Safe13(value3: nat, value4: nat)
  {
    && (Bit(value3, 8) <==> Bit(value3, 0)) && (Bit(value3, 9) <==> Bit(value3, 1))
    && (Bit(value3, 10) <==> Bit(value3, 2)) && (Bit(value3, 11) <==> Bit(value3, 3))
    && (Bit(value3, 4) ==> Bit(value4, 9)) && (Bit(value3, 5) ==> Bit(value4, 10))
    && (Bit(value3, 6) ==> Bit(value4, 11)) && (Bit(value3, 7) ==> Bit(value4, 12))
  }

  /** The block is one that the routines of its width carry through unharmed. */
  predicate BlockSafe(values: seq<nat>, bits: nat)
    requires |values| == 8
  {
    && (bits == 13 ==> Safe13(values[3], values[4]))
    && (bits == 33 ==> !Bit(values[7], 31))
    && (bits == 35 ==> !Bit(values[2], 33))
  }

  // ---- the fields of a packed block ----

  /** The eight values packed into the bytes at `ptr` of a buffer whose byte 10 was clear. */
  ghost predicate HoldsBlock(s: seq<uint8>, ptr: nat, values: seq<nat>, bits: nat)
    requires |values| == 8
  {
    ptr + bits <= |s| && forall q: nat :: q < bits ==> s[ptr + q] == PackedByte(values, bits, q)
  }

  lemma {:induction false} ConcatBitAt(values: seq<nat>, bits: nat, j: nat, i: nat)
    requires j < |values| && i < bits
    ensures 0 <= j * bits
    ensures ConcatBit(values, bits, j * bits + (bits - 1 - i)) <==> Bit(values[j], i)
  {
    assert j * bits >= 0;
    if j > 0 {
      assert j * bits == (j - 1) * bits + bits;
      ConcatBitAt(values[1..], bits, j - 1, i);
    }
  }

  /** The bits of a packed block are those of the concatenated values, but for byte 6 of width 13. */
  lemma BlockStream(s: seq<uint8>, ptr: nat, values: seq<nat>, bits: nat, p: nat)
    requires |values| == 8 && Fit(values, bits) && HoldsBlock(s, ptr, values, bits) && p < 8 * bits
    ensures bits != 13 || p / 8 != 6 ==> (StreamBit(s, 8 * ptr + p) <==> ConcatBit(values, bits, p))
    ensures bits == 13 && p / 8 == 6 ==>
              (StreamBit(s, 8 * ptr + p) <==> Bit(values[3], 59 - p) || (p >= 52 && Bit(values[4], 64 - p)))
  {
    hide Bit, Or, Low, Shr, Pow2, ConcatBit, Fit;
    var q, r := p / 8, p % 8;
    assert StreamBit(s, 8 * ptr + p) == ByteBit(s[ptr + q], r);
    assert s[ptr + q] == PackedByte(values, bits, q);
    if bits == 13 && q == 6 {
      BitOr(Low(Shr(values[3], 4), 8), Low(Shr(values[4], 9), 8), 7 - r);
      BitLow(Shr(values[3], 4), 8, 7 - r);
      BitShr(values[3], 4, 7 - r);
      BitLow(Shr(values[4], 9), 8, 7 - r);
      BitShr(values[4], 9, 7 - r);
      if p < 52 { FitAt(values, 13, 4); NoHighBits(values[4], 13, 64 - p); }
    } else {
      BlockByteBits(values, bits, -8 * q, r);
    }
  }

  lemma FitAt(values: seq<nat>, bits: nat, j: nat)
    requires Fit(values, bits) && j < |values|
    ensures values[j] < Pow2(bits)
  {
  }

  lemma Stored13Bits(value3: nat, value4: nat, i: nat)
    ensures Bit(Stored3(value3), i) <==> if i < 4 then Bit(value3, i + 8) else Bit(value3, i)
    ensures Bit(Stored4(value3, value4), i) <==> Bit(value4, i) || (9 <= i < 13 && Bit(value3, i - 5))
  {
    BitOr(Shl(Shr(value3, 4), 4), Low(Shr(value3, 8), 4), i);
    BitShl(Shr(value3, 4), 4, i);
    if i >= 4 { BitShr(value3, 4, i - 4); }
    BitLow(Shr(value3, 8), 4, i);
    BitShr(value3, 8, i);
    BitOr(value4, Shl(Low(Shr(value3, 4), 4), 9), i);
    BitShl(Low(Shr(value3, 4), 4), 9, i);
    if i >= 9 {
      BitLow(Shr(value3, 4), 4, i - 9);
      BitShr(value3, 4, i - 9);
    }
  }

  lemma StoredBits(values: seq<nat>, bits: nat, j: nat, i: nat)
    requires |values| == 8 && Fit(values, bits) && j < 8
    ensures bits == 13 && j == 3 ==>
              (Bit(Stored(values, bits, j), i) <==> if i < 4 then Bit(values[3], i + 8) else Bit(values[3], i))
    ensures bits == 13 && j == 4 ==>
              (Bit(Stored(values, bits, j), i) <==> Bit(values[4], i) || (9 <= i < 13 && Bit(values[3], i - 5)))
    ensures i >= bits ==> !Bit(Stored(values, bits, j), i)
  {
    Stored13Bits(values[3], values[4], i);
    if i >= bits {
      NoHighBits(values[j], bits, i);
      if bits == 13 && j == 4 { NoHighBits(values[3], bits, i + 8); }
    }
  }

  /** Reading a field of a packed block. */
  lemma StoredField(s: seq<uint8>, ptr: nat, values: seq<nat>, bits: nat, j: nat)
    requires |values| == 8 && Fit(values, bits) && HoldsBlock(s, ptr, values, bits) && j < 8
    ensures j * bits + bits <= 8 * bits
    ensures Field(s, 8 * ptr + j * bits, bits) == Stored(values, bits, j)
  {
    hide Bit, Pow2, Stored, ConcatBit, PackedByte, StreamBit, Field, HoldsBlock;
    FieldEnds(j, bits);
    BlockLength(s, ptr, values, bits);
    var v := Stored(values, bits, j);
    forall i: nat | i < bits
      ensures Bit(v, i) <==> StreamBit(s, 8 * ptr + j * bits + bits - 1 - i)
    {
      var p := j * bits + (bits - 1 - i);
      ConcatBitAt(values, bits, j, i);
      BlockStream(s, ptr, values, bits, p);
      StoredBits(values, bits, j, i);
      StoredPlain(values, bits, j);
      if bits == 13 { PositionsOf13(j, i); }
    }
    forall i: nat | i >= bits
      ensures !Bit(v, i)
    {
      StoredBits(values, bits, j, i);
    }
    BitsBound(v, bits);
    FieldUnique(s, 8 * ptr + j * bits, bits, v);
  }

  lemma BlockLength(s: seq<uint8>, ptr: nat, values: seq<nat>, bits: nat)
    requires |values| == 8 && HoldsBlock(s, ptr, values, bits)
    ensures ptr + bits <= |s|
  {
  }

  lemma StoredPlain(values: seq<nat>, bits: nat, j: nat)
    requires |values| == 8 && j < 8
    ensures !(bits == 13 && (j == 3 || j == 4)) ==> Stored(values, bits, j) == values[j]
  {
  }

  /** Only the four lowest bits of field 3 and the four highest of field 4 lie in byte 6. */
  lemma PositionsOf13(j: nat, i: nat)
    requires j < 8 && i < 13
    ensures var p := j * 13 + (12 - i);
            (p / 8 == 6 <==> (j == 3 && i < 4) || (j == 4 && i >= 9))
  {
  }

  // ---- packing and unpacking a block ----

  lemma ZeroExtensionChanges(f: nat)
    requires f < Pow2(33)
    ensures Or(f, SIGN_EXTENSION) != f
  {
    BitOr(f, SIGN_EXTENSION, 33);
    NoHighBits(f, 33, 33);
    SignExtensionBit(33);
  }

  /** A negative 32-bit int widened to 64 bits has all the higher bits set. */
  lemma SignExtensionBit(i: nat)
    ensures Bit(SIGN_EXTENSION, i) <==> 32 <= i < 64
  {
    hide Bit, Pow2, Shl;
    BitShl(0xffff_ffff, 32, i);
    Ones32();
    if 32 <= i < 64 { AllOnes(32, i - 32); }
    if i >= 64 { NoHighBits(0xffff_ffff, 32, i - 32); }
  }

  lemma Ones32()
    ensures Pow2(32) - 1 == 0xffff_ffff
  {
    assert Pow2(8) == 256;
    Pow2Add(8, 8);
    Pow2Add(16, 16);
  }

  /** The mask of width 35 clears bit 33 and no other. */
  lemma MaskBits(f: nat, i: nat)
    ensures Bit(Or(Shl(Shr(f, 34), 34), Low(f, 33)), i) <==> Bit(f, i) && i != 33
  {
    hide Or, Shl, Shr, Low, Bit;
    BitOr(Shl(Shr(f, 34), 34), Low(f, 33), i);
    BitShl(Shr(f, 34), 34, i);
    if i >= 34 { BitShr(f, 34, i - 34); }
    BitLow(f, 33, i);
  }

  /** What unpacking does to a stored field, bit by bit: two widths deviate, in one field each. */
  lemma DecodedBits(bits: nat, j: nat, f: nat, i: nat)
    ensures Bit(Decoded(bits, j, f), i) <==>
            || (Bit(f, i) && !(bits == 35 && j == 2 && i == 33))
            || (bits == 33 && j == 7 && Bit(f, 31) && 32 <= i < 64)
  {
    hide Or, Shl, Shr, Low, Bit;
    if bits == 33 && j == 7 && Bit(f, 31) {
      BitOr(f, SIGN_EXTENSION, i);
      SignExtensionBit(i);
    } else if bits == 35 && j == 2 {
      MaskBits(f, i);
    }
  }

  lemma MaskKeeps(f: nat)
    requires f < Pow2(35)
    ensures Or(Shl(Shr(f, 34), 34), Low(f, 33)) == f <==> !Bit(f, 33)
  {
    hide Or, Shl, Shr, Low, Bit, Pow2;
    var g := Or(Shl(Shr(f, 34), 34), Low(f, 33));
    forall i: nat
      ensures Bit(g, i) <==> Bit(f, i) && i != 33
    {
      MaskBits(f, i);
    }
    if !Bit(f, 33) {
      forall i: nat | i >= 35
        ensures !Bit(g, i)
      {
        NoHighBits(f, 35, i);
      }
      BitsBound(g, 35);
      SameBits(f, g, 35);
    }
  }

  /** Decoding is exact but for one bit in one field of two widths. */
  lemma DecodedExact(bits: nat, j: nat, f: nat)
    requires f < Pow2(bits)
    ensures Decoded(bits, j, f) == f <==> !(bits == 33 && j == 7 && Bit(f, 31)) && !(bits == 35 && j == 2 && Bit(f, 33))
  {
    hide Bit, Or, Pow2, Shl, Shr, Low;
    if bits == 33 && j == 7 && Bit(f, 31) { ZeroExtensionChanges(f); }
    if bits == 35 && j == 2 { MaskKeeps(f); }
  }

  lemma Stored13Exact(value3: nat, value4: nat)
    requires value3 < Pow2(13) && value4 < Pow2(13)
    ensures Stored3(value3) == value3 && Stored4(value3, value4) == value4 <==> Safe13(value3, value4)
  {
    hide Stored3, Stored4, Bit, Pow2;
    var x, y := Stored3(value3), Stored4(value3, value4);
    if Safe13(value3, value4) {
      forall i: nat
        ensures Bit(x, i) <==> Bit(value3, i)
        ensures Bit(y, i) <==> Bit(value4, i)
      {
        Stored13Bits(value3, value4, i);
      }
      SameNumber(x, value3, 13);
      SameNumber(y, value4, 13);
    }
    Stored13Bits(value3, value4, 0);
    Stored13Bits(value3, value4, 1);
    Stored13Bits(value3, value4, 2);
    Stored13Bits(value3, value4, 3);
    Stored13Bits(value3, value4, 9);
    Stored13Bits(value3, value4, 10);
    Stored13Bits(value3, value4, 11);
    Stored13Bits(value3, value4, 12);
  }

  lemma SameNumber(x: nat, y: nat, n: nat)
    requires y < Pow2(n) && forall i: nat :: Bit(x, i) <==> Bit(y, i)
    ensures x == y
  {
    forall i: nat | i >= n
      ensures !Bit(x, i)
    {
      NoHighBits(y, n, i);
    }
    BitsBound(x, n);
    SameBits(x, y, n);
  }

  /** Packing alone keeps every value exactly when width 13 does not spoil fields 3 and 4. */
  lemma StoredExact(values: seq<nat>, bits: nat)
    requires |values| == 8 && Fit(values, bits)
    ensures (forall j: nat :: j < 8 ==> Stored(values, bits, j) == values[j]) <==>
            (bits == 13 ==> Safe13(values[3], values[4]))
  {
    if bits == 13 {
      Stored13Exact(values[3], values[4]);
      if forall j: nat :: j < 8 ==> Stored(values, bits, j) == values[j] {
        assert Stored(values, bits, 3) == values[3] && Stored(values, bits, 4) == values[4];
      }
    }
  }

  /** A block of values comes back from packing and unpacking exactly when it is safe for its width. */
  lemma RoundTripOfBlock(values: seq<nat>, bits: nat)
    requires |values| == 8 && Fit(values, bits) && 0 < bits < 64
    ensures (forall j: nat :: j < 8 ==> Decoded(bits, j, Stored(values, bits, j)) == values[j]) <==>
            BlockSafe(values, bits)
  {
    if bits == 13 {
      Stored13Exact(values[3], values[4]);
      assert forall j: nat :: j < 8 ==> Decoded(bits, j, Stored(values, bits, j)) == Stored(values, bits, j);
      if forall j: nat :: j < 8 ==> Decoded(bits, j, Stored(values, bits, j)) == values[j] {
        assert Stored(values, bits, 3) == values[3] && Stored(values, bits, 4) == values[4];
      }
    } else {
      forall j: nat | j < 8
        ensures Stored(values, bits, j) == values[j]
        ensures Decoded(bits, j, values[j]) == values[j] <==>
                  !(bits == 33 && j == 7 && Bit(values[j], 31)) && !(bits == 35 && j == 2 && Bit(values[j], 33))
      {
        DecodedExact(bits, j, values[j]);
      }
      if bits == 33 { assert Stored(values, bits, 7) == values[7]; }
      if bits == 35 { assert Stored(values, bits, 2) == values[2]; }
    }
  }

  /**
   Three widths damage some block by themselves; at width 19 a zero block packed over a byte that is not clear
   does not leave its own byte there.
   */
  lemma UnsafeBlocks()
    ensures !BlockSafe([0, 0, 0, 1, 0, 0, 0, 0], 13)
    ensures !BlockSafe([0, 0, 0, 0, 0, 0, 0, 0x8000_0000], 33)
    ensures !BlockSafe([0, 0, 0x2_0000_0000, 0, 0, 0, 0, 0], 35)
    ensures Or(1, PackedByte([0, 0, 0, 0, 0, 0, 0, 0], 19, 10)) != PackedByte([0, 0, 0, 0, 0, 0, 0, 0], 19, 10)
  {
    hide PackedByte, Or, Bit, Pow2;
    ZeroBlock([0, 0, 0, 0, 0, 0, 0, 0]);
    BitZeroOfOne();
    Powers31And33();
    NoHighBits(1, 1, 8);
    PowerBit(31);
    PowerBit(33);
  }

  lemma Powers31And33()
    ensures Pow2(31) == 0x8000_0000 && Pow2(33) == 0x2_0000_0000 && Pow2(1) == 2
  {
    assert Pow2(11) == 2048 && Pow2(9) == 512;
    Pow2Add(11, 11);
    Pow2Add(22, 9);
    Pow2Add(22, 11);
  }

  /** Byte 10 of a block of zeros is not what adding to a 1 leaves. */
  lemma ZeroBlock(values: seq<nat>)
    requires |values| == 8 && forall j :: 0 <= j < 8 ==> values[j] == 0
    ensures Or(1, PackedByte(values, 19, 10)) != PackedByte(values, 19, 10)
  {
    hide PackedByte, Bit, Pow2, BlockByte, ConcatBit;
    assert Fit(values, 19) by { Pow2Positive(19); }
    var b := PackedByte(values, 19, 10);
    assert !Bit(b, 0) by {
      BlockByteBits(values, 19, -80, 7);
      ConcatBitAt(values, 19, 4, 7);
      ZeroHasNoBits(7);
      PlainByte(values);
    }
    BitOr(1, b, 0);
    assert Bit(1, 0) by { BitZeroOfOne(); }
  }

  lemma BitZeroOfOne()
    ensures Bit(1, 0)
  {
  }

  lemma Pow2Positive(n: nat)
    ensures 0 < Pow2(n)
  {
  }

  lemma PlainByte(values: seq<nat>)
    requires |values| == 8
    ensures PackedByte(values, 19, 10) == BlockByte(values, 19, -80)
  {
  }

  lemma {:induction false} PowerBit(n: nat)
    ensures Bit(Pow2(n), n)
  {
    if n > 0 {
      assert Pow2(n) / 2 == Pow2(n - 1);
      PowerBit(n - 1);
    }
  }
}
