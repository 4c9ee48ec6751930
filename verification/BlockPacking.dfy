/**
 Blocks of eight fields of `bits` bits each fill `bits` bytes. The routines are unrolled per width in
 the source: each byte of a block is the OR of the shifted fields that overlap it, and each field is the
 OR of the shifted bytes that overlap it. Four widths deviate and are modelled as written:
 13 packs byte 6 with a right shift, 19 keeps what was in byte 10, 33 sign-extends a byte of field 7,
 35 masks away a bit of field 2.
 */
module BlockPacking {
  import opened Bits
  import opened BitPacking

  /** Bit `p` of the concatenation of the values, each `bits` wide. */
  ghost predicate ConcatBit(values: seq<nat>, bits: nat, p: nat)
  {
    if values == [] then false
    else if p < bits then Bit(values[0], bits - 1 - p)
    else ConcatBit(values[1..], bits, p - bits)
  }

  ghost predicate Fit(values: seq<nat>, bits: nat)
  {
    forall j :: 0 <= j < |values| ==> values[j] < Pow2(bits)
  }

  // ---- packing ----

  /** What a field adds to a byte in which it starts at bit `at`, which may lie before or after the byte. */
  function FieldInByte(value: nat, bits: nat, at: int): (b: uint8)
  {
    if at >= 8 || at + bits <= 0 then 0
    else
      var shift := 8 - (at + bits);
      var x := if shift >= 0 then Shl(value, shift) else Shr(value, -shift);
      CastFits(x);
      Low(x, 8)
  }

  /** The byte made of consecutive fields of which the first starts at bit `at`. */
  function BlockByte(values: seq<nat>, bits: nat, at: int): (b: uint8)
  {
    if values == [] then 0
    else
      var first, rest := FieldInByte(values[0], bits, at), BlockByte(values[1..], bits, at + bits);
      OrFits(first, rest);
      Or(first, rest)
  }

  lemma OrFits(a: uint8, b: uint8)
    ensures Or(a, b) < 256
  {
    ByteBound(a);
    ByteBound(b);
    OrBound(a, b, 8);
  }

  lemma FieldInByteBits(value: nat, bits: nat, at: int, r: nat)
    requires value < Pow2(bits) && r < 8
    ensures ByteBit(FieldInByte(value, bits, at), r) <==> at <= r < at + bits && Bit(value, bits - 1 - (r - at))
  {
    hide Bit, Shl, Shr, Low, Pow2;
    if at >= 8 || at + bits <= 0 {
      ZeroHasNoBits(7 - r);
    } else {
      var shift := 8 - (at + bits);
      if shift >= 0 {
        BitLow(Shl(value, shift), 8, 7 - r);
        BitShl(value, shift, 7 - r);
      } else {
        BitLow(Shr(value, -shift), 8, 7 - r);
        BitShr(value, -shift, 7 - r);
      }
      if r < at { NoHighBits(value, bits, bits - 1 - (r - at)); }
    }
  }

  lemma {:induction false} BlockByteBits(values: seq<nat>, bits: nat, at: int, r: nat)
    requires Fit(values, bits) && r < 8
    ensures ByteBit(BlockByte(values, bits, at), r) <==> r >= at && ConcatBit(values, bits, r - at)
  {
    if values == [] {
      ZeroHasNoBits(7 - r);
    } else {
      FieldInByteBits(values[0], bits, at, r);
      BlockByteBits(values[1..], bits, at + bits, r);
      BitOr(FieldInByte(values[0], bits, at), BlockByte(values[1..], bits, at + bits), 7 - r);
    }
  }

  /** Byte `q` of a block as the routine for the width computes it. */
  function PackedByte(values: seq<nat>, bits: nat, q: nat): (b: uint8)
    requires |values| == 8
  {
    if bits == 13 && q == 6 then
      CastFits(Shr(values[3], 4));
      CastFits(Shr(values[4], 9));
      OrFits(Low(Shr(values[3], 4), 8), Low(Shr(values[4], 9), 8));
      Or(Low(Shr(values[3], 4), 8), Low(Shr(values[4], 9), 8))
    else BlockByte(values, bits, -8 * q)
  }

  /** Packs eight values into the `bits` bytes at `ptr`. */
  method PackBlock8(values: seq<nat>, bits: nat, buf: array<uint8>, ptr: nat)
    requires |values| == 8 && 0 < bits < 64 && ptr + bits <= buf.Length
    modifies buf
    ensures forall q :: 0 <= q < buf.Length && !(ptr <= q < ptr + bits) ==> buf[q] == old(buf[q])
    ensures forall q: nat :: q < bits && !(bits == 19 && q == 10) ==> buf[ptr + q] == PackedByte(values, bits, q)
    ensures bits == 19 ==> buf[ptr + 10] == Or(old(buf[ptr + 10]), PackedByte(values, bits, 10))
  {
    hide PackedByte, Or;
    ghost var s := buf[..];
    for q: nat := 0 to bits
      invariant forall i :: 0 <= i < buf.Length && !(ptr <= i < ptr + q) ==> buf[i] == s[i]
      invariant forall i: nat :: i < q && !(bits == 19 && i == 10) ==> buf[ptr + i] == PackedByte(values, bits, i)
      invariant bits == 19 && 10 < q ==> buf[ptr + 10] == Or(s[ptr + 10], PackedByte(values, bits, 10))
    {
      if bits == 19 && q == 10 {
        OrFits(buf[ptr + q], PackedByte(values, bits, q));
        buf[ptr + q] := Or(buf[ptr + q], PackedByte(values, bits, q));
      } else {
        buf[ptr + q] := PackedByte(values, bits, q);
      }
    }
  }

  // ---- unpacking ----

  /** What a byte adds to a field that starts at bit `at` of it, or before it. */
  function ByteInField(byte: uint8, at: int, bits: nat): nat
    requires at < 8 && at + bits > 0
  {
    var masked := if at > 0 then Low(byte, 8 - at) else byte;
    var shift := at + bits - 8;
    if shift >= 0 then Shl(masked, shift) else Shr(masked, -shift)
  }

  /** The bytes from `q` on of a field that starts at bit `at` of byte `q`, or before it. */
  function Gather(data: seq<uint8>, q: nat, at: int, bits: nat): nat
    requires at < 8 && 8 * q + at + bits <= 8 * |data|
    decreases if at + bits <= 0 then 0 else at + bits
  {
    if at + bits <= 0 then 0
    else Or(ByteInField(data[q], at, bits), Gather(data, q + 1, at - 8, bits))
  }

  lemma ByteInFieldBits(byte: uint8, at: int, bits: nat, i: nat)
    requires at < 8 && at + bits > 0
    ensures Bit(ByteInField(byte, at, bits), i) <==>
              var r := at + bits - 1 - i; i < bits && 0 <= r < 8 && ByteBit(byte, r)
  {
    var masked := if at > 0 then Low(byte, 8 - at) else byte;
    var shift := at + bits - 8;
    if at > 0 && i >= shift { BitLow(byte, 8 - at, i - shift); }
    if shift >= 0 { BitShl(masked, shift, i); } else { BitShr(masked, -shift, i); }
    if i - shift > 7 {
      ByteBound(byte);
      NoHighBits(byte, 8, i - shift);
    }
  }

  lemma {:induction false} GatherBits(data: seq<uint8>, q: nat, at: int, bits: nat, i: nat)
    requires at < 8 && 8 * q + at + bits <= 8 * |data|
    ensures Bit(Gather(data, q, at, bits), i) <==>
              i < bits && at + bits - 1 - i >= 0 && StreamBit(data, 8 * q + (at + bits - 1 - i))
    decreases if at + bits <= 0 then 0 else at + bits
  {
    if at + bits <= 0 {
      ZeroHasNoBits(i);
    } else {
      GatherBits(data, q + 1, at - 8, bits, i);
      ByteInFieldBits(data[q], at, bits, i);
      BitOr(ByteInField(data[q], at, bits), Gather(data, q + 1, at - 8, bits), i);
    }
  }

  /** A whole field gathered from its bytes is the field of the stream. */
  lemma GatherIsField(data: seq<uint8>, q: nat, at: nat, bits: nat)
    requires at < 8 && 8 * q + at + bits <= 8 * |data|
    ensures Gather(data, q, at, bits) == Field(data, 8 * q + at, bits)
  {
    forall i: nat
      ensures Bit(Gather(data, q, at, bits), i) <==> i < bits && StreamBit(data, 8 * q + at + bits - 1 - i)
    {
      GatherBits(data, q, at, bits, i);
    }
    BitsBound(Gather(data, q, at, bits), bits);
    FieldUnique(data, 8 * q + at, bits, Gather(data, q, at, bits));
  }

  /** A number without bits from `n` on is below 2^n. */
  lemma {:induction false} BitsBound(x: nat, n: nat)
    requires forall i: nat :: i >= n ==> !Bit(x, i)
    ensures x < Pow2(n)
    decreases n, x
  {
    if n > 0 {
      forall i: nat | i >= n - 1
        ensures !Bit(x / 2, i)
      {
        assert !Bit(x, i + 1);
      }
      BitsBound(x / 2, n - 1);
    } else if x > 0 {
      forall i: nat
        ensures !Bit(x / 2, i)
      {
        assert !Bit(x, i + 1);
      }
      assert !Bit(x, 0);
      BitsBound(x / 2, 0);
    }
  }

  /** The upper half of a 64-bit word, set by the sign of a byte shifted left by 24 in a 32-bit int. */
  const SIGN_EXTENSION: nat := Shl(0xffff_ffff, 32)

  /** Field `j` of a block at `ptr` as the routine for the width computes it. */
  function UnpackedField(data: seq<uint8>, ptr: nat, j: nat, bits: nat): nat
    requires j < 8 && ptr + bits <= |data|
  {
    FieldEnds(j, bits);
    var at := j * bits;
    if bits == 33 && j == 7 && data[ptr + 29] >= 128 then
      Or(Gather(data, ptr + at / 8, at % 8, bits), SIGN_EXTENSION)
    else if bits == 35 && j == 2 then
      Or(Shl(Shl(Low(Shr(data[ptr + 8], 1), 1), 1), 33), Gather(data, ptr + 9, -2, bits))
    else Gather(data, ptr + at / 8, at % 8, bits)
  }

  lemma FieldEnds(j: nat, bits: nat)
    requires j < 8
    ensures 0 <= j * bits && j * bits + bits <= 8 * bits
  {
  }

  /** What the unpacking routine makes of the stored field `f`. */
  function Decoded(bits: nat, j: nat, f: nat): nat
  {
    if bits == 33 && j == 7 && Bit(f, 31) then Or(f, SIGN_EXTENSION)
    else if bits == 35 && j == 2 then Or(Shl(Shr(f, 34), 34), Low(f, 33))
    else f
  }

  lemma TopBitOfByte(x: uint8)
    ensures Bit(x, 7) <==> x >= 128
  {
    assert Pow2(7) == 128;
    ShrLowSplit(x, 7);
    assert Shr(x, 7) * 128 + Low(x, 7) == x;
  }

  lemma UnpackedIsDecoded(data: seq<uint8>, ptr: nat, j: nat, bits: nat)
    requires j < 8 && ptr + bits <= |data|
    ensures j * bits + bits <= 8 * bits
    ensures UnpackedField(data, ptr, j, bits) == Decoded(bits, j, Field(data, 8 * ptr + j * bits, bits))
  {
    hide Bit, Or, Shl, Shr, Low, Gather, Field;
    FieldEnds(j, bits);
    var at := j * bits;
    assert at == 8 * (at / 8) + at % 8;
    GatherIsField(data, ptr + at / 8, at % 8, bits);
    var f := Field(data, 8 * ptr + at, bits);
    if bits == 33 && j == 7 {
      assert at == 231;
      FieldBit(data, 8 * ptr + at, bits, 31);
      TopBitOfByte(data[ptr + 29]);
    } else if bits == 35 && j == 2 {
      assert at == 70;
      MaskedField(data, ptr, f);
    }
  }

  lemma MaskedField(data: seq<uint8>, ptr: nat, f: nat)
    requires ptr + 35 <= |data| && f == Field(data, 8 * ptr + 70, 35)
    ensures Or(Shl(Shl(Low(Shr(data[ptr + 8], 1), 1), 1), 33), Gather(data, ptr + 9, -2, 35)) ==
            Or(Shl(Shr(f, 34), 34), Low(f, 33))
  {
    hide Or, Shl, Shr, Low, Gather, Field, Pow2;
    var b := data[ptr + 8];
    var head := Low(Shr(b, 1), 1);
    var x := Or(Shl(Shl(head, 1), 33), Gather(data, ptr + 9, -2, 35));
    var y := Or(Shl(Shr(f, 34), 34), Low(f, 33));
    forall i: nat
      ensures Bit(x, i) <==> (i == 34 && ByteBit(b, 6)) || (i < 33 && StreamBit(data, 8 * ptr + 104 - i))
      ensures Bit(y, i) <==> Bit(x, i)
    {
      BitOr(Shl(Shl(head, 1), 33), Gather(data, ptr + 9, -2, 35), i);
      BitShl(Shl(head, 1), 33, i);
      if i >= 33 { BitShl(head, 1, i - 33); }
      if i >= 34 {
        BitLow(Shr(b, 1), 1, i - 34);
        BitShr(b, 1, i - 34);
      }
      GatherBits(data, ptr + 9, -2, 35, i);
      BitOr(Shl(Shr(f, 34), 34), Low(f, 33), i);
      BitShl(Shr(f, 34), 34, i);
      if i >= 34 { BitShr(f, 34, i - 34); }
      BitLow(f, 33, i);
      FieldBit(data, 8 * ptr + 70, 35, i);
    }
    BitsBound(x, 35);
    BitsBound(y, 35);
    SameBits(x, y, 35);
  }

  method UnpackBlock8(bits: nat, data: seq<uint8>, ptr: nat) returns (values: seq<nat>)
    requires 0 < bits < 64 && ptr + bits <= |data|
    ensures |values| == 8
    ensures forall j: nat :: j < 8 ==>
              j * bits + bits <= 8 * bits && values[j] == Decoded(bits, j, Field(data, 8 * ptr + j * bits, bits))
  {
    hide UnpackedField, Decoded, Field;
    values := [];
    for j: nat := 0 to 8
      invariant |values| == j
      invariant forall i: nat :: i < j ==>
                  i * bits + bits <= 8 * bits && values[i] == Decoded(bits, i, Field(data, 8 * ptr + i * bits, bits))
    {
      UnpackedIsDecoded(data, ptr, j, bits);
      values := values + [UnpackedField(data, ptr, j, bits)];
    }
  }
}
