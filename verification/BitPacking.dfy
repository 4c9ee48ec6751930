/**
 Packing fixed-width fields into bytes, most significant bit first, across byte boundaries.
 Blocks of eight fields are packed and unpacked by one unrolled routine per width; four of the
 routines deviate from the common layout and are modelled as they are written.
 */
module BitPacking {
  import opened Bits
  import opened KMinimumValues

  // ---- the bit stream of a byte sequence ----

  /** Bit `r` of a byte, counted from the most significant one. */
  ghost predicate ByteBit(x: nat, r: nat)
    requires r < 8
  {
    Bit(x, 7 - r)
  }

  ghost predicate StreamBit(s: seq<uint8>, p: nat)
    requires p < 8 * |s|
  {
    ByteBit(s[p / 8], p % 8)
  }

  function RoundUp8(p: nat): nat { (p + 7) / 8 * 8 }

  /** The number whose binary digits are the `n` stream bits from position `at` on. */
  ghost function Field(s: seq<uint8>, at: nat, n: nat): (v: nat)
    requires at + n <= 8 * |s|
    ensures v < Pow2(n)
  {
    if n == 0 then 0 else 2 * Field(s, at, n - 1) + if StreamBit(s, at + n - 1) then 1 else 0
  }

  lemma {:induction false} FieldBit(s: seq<uint8>, at: nat, n: nat, i: nat)
    requires at + n <= 8 * |s|
    ensures Bit(Field(s, at, n), i) <==> i < n && StreamBit(s, at + n - 1 - i)
  {
    hide Bit, StreamBit, Pow2;
    if n == 0 {
      ZeroHasNoBits(i);
    } else {
      BitHalves(Field(s, at, n), i);
      assert Field(s, at, n) / 2 == Field(s, at, n - 1);
      if i > 0 { FieldBit(s, at, n - 1, i - 1); }
    }
  }

  /** A number below 2^n with the stream's bits is the field. */
  lemma FieldUnique(s: seq<uint8>, at: nat, n: nat, v: nat)
    requires at + n <= 8 * |s| && v < Pow2(n)
    requires forall i: nat :: i < n ==> (Bit(v, i) <==> StreamBit(s, at + n - 1 - i))
    ensures v == Field(s, at, n)
  {
    forall i: nat | i < n
      ensures Bit(v, i) <==> Bit(Field(s, at, n), i)
    {
      FieldBit(s, at, n, i);
    }
    SameBits(v, Field(s, at, n), n);
  }

  lemma SameStreamSameBytes(s: seq<uint8>, t: seq<uint8>)
    requires |s| == |t| && forall p: nat :: p < 8 * |s| ==> (StreamBit(s, p) <==> StreamBit(t, p))
    ensures s == t
  {
    forall q: nat | q < |s|
      ensures s[q] == t[q]
    {
      forall i: nat | i < 8
        ensures Bit(s[q], i) <==> Bit(t[q], i)
      {
        assert StreamBit(s, 8 * q + 7 - i) <==> StreamBit(t, 8 * q + 7 - i);
      }
      assert Pow2(8) == 256;
      SameBits(s[q], t[q], 8);
    }
  }

  // ---- pack_bits ----

  /** The first `n` of a field's `bits` bits have been written at position `at`; the rest of the last byte is clear. */
  ghost predicate Written(s0: seq<uint8>, s1: seq<uint8>, at: nat, value: nat, bits: nat, n: nat)
  {
    && |s0| == |s1| && n <= bits
    && forall p: nat :: p < 8 * |s0| ==>
         (StreamBit(s1, p) <==>
           if p < at then StreamBit(s0, p)
           else if p < at + n then Bit(value, bits - 1 - (p - at))
           else p >= RoundUp8(at + n) && StreamBit(s0, p))
  }

  /** The unwritten rest of a partly filled byte is clear. */
  ghost predicate ClearAhead(s: seq<uint8>, at: nat)
  {
    forall p: nat :: at <= p < RoundUp8(at) && p < 8 * |s| ==> !StreamBit(s, p)
  }

  lemma CastFits(x: nat)
    ensures Low(x, 8) < 256
  {
    ShrLowSplit(x, 8);
    assert Pow2(8) == 256;
  }

  /** The bits of a byte cut out of a value: bit `r` of the byte is bit `b - 1 - r` of the value. */
  lemma CutBits(value: nat, b: nat, r: nat)
    requires r < 8
    ensures b >= 8 ==> (Bit(Low(Shr(value, b - 8), 8), 7 - r) <==> Bit(value, b - 1 - r))
    ensures b < 8 ==> (Bit(Low(Shl(value, 8 - b), 8), 7 - r) <==> r < b && Bit(value, b - 1 - r))
  {
    if b >= 8 {
      BitLow(Shr(value, b - 8), 8, 7 - r);
      BitShr(value, b - 8, 7 - r);
    } else {
      BitLow(Shl(value, 8 - b), 8, 7 - r);
      BitShl(value, 8 - b, 7 - r);
    }
  }

  /** Same for the first, partial byte, of which `chunk` bits are left. */
  lemma ChunkBits(value: nat, b: nat, chunk: nat, r: nat)
    requires r < 8 && chunk < 8
    ensures b >= chunk ==>
              (Bit(Low(Shr(value, b - chunk), chunk), 7 - r) <==>
                r >= 8 - chunk && Bit(value, b - 1 - (r - (8 - chunk))))
    ensures b < chunk ==>
              (Bit(Low(Shl(value, chunk - b), chunk), 7 - r) <==>
                r >= 8 - chunk && r - (8 - chunk) < b && Bit(value, b - 1 - (r - (8 - chunk))))
  {
    if b >= chunk {
      BitLow(Shr(value, b - chunk), chunk, 7 - r);
      if r >= 8 - chunk { BitShr(value, b - chunk, 7 - r); }
    } else {
      BitLow(Shl(value, chunk - b), chunk, 7 - r);
      BitShl(value, chunk - b, 7 - r);
    }
  }

  lemma ChunkFits(head: uint8, x: nat, chunk: nat)
    requires chunk <= 8
    ensures Or(head, Low(x, chunk)) < 256
  {
    ShrLowSplit(x, chunk);
    Pow2Monotone(chunk, 8);
    assert Pow2(8) == 256;
    OrBound(head, Low(x, chunk), 8);
  }

  /** Writing one byte that holds the next bits of the field extends what has been written. */
  lemma ByteWritten(s0: seq<uint8>, s: seq<uint8>, at: nat, value: nat, bits: nat, n: nat, ptr: nat, byte: uint8,
                    n': nat)
    requires Written(s0, s, at, value, bits, n) && ptr < |s|
    requires n <= n' <= bits && 8 * ptr <= at + n && at + n' <= 8 * ptr + 8
    requires at + n < 8 * ptr + 8 && 8 * ptr < at + n'
    requires forall r: nat :: r < 8 ==>
               (ByteBit(byte, r) <==>
                 if 8 * ptr + r < at + n then StreamBit(s, 8 * ptr + r)
                 else 8 * ptr + r < at + n' && Bit(value, bits - 1 - (8 * ptr + r - at)))
    ensures Written(s0, s[ptr := byte], at, value, bits, n')
  {
    hide Bit, ByteBit;
    var t := s[ptr := byte];
    assert RoundUp8(at + n') == 8 * ptr + 8;
    forall p: nat | p < 8 * |s0|
      ensures StreamBit(t, p) <==>
                if p < at then StreamBit(s0, p)
                else if p < at + n' then Bit(value, bits - 1 - (p - at))
                else p >= RoundUp8(at + n') && StreamBit(s0, p)
    {
      if p / 8 == ptr {
        assert p == 8 * ptr + p % 8;
      } else {
        assert StreamBit(t, p) == StreamBit(s, p);
      }
    }
  }

  /** Writes the low `bits` bits of the value at bit `offset` of byte `ptr`. */
  method PackBits(value: nat, bits: nat, buf: array<uint8>, ptr: nat, offset: nat) returns (ptr': nat, offset': nat)
    requires 0 < bits && offset < 8 && 8 * ptr + offset + bits <= 8 * buf.Length
    requires ClearAhead(buf[..], 8 * ptr + offset)
    modifies buf
    ensures offset' < 8 && 8 * ptr' + offset' == 8 * ptr + offset + bits
    ensures Written(old(buf[..]), buf[..], 8 * ptr + offset, value, bits, bits)
  {
    hide Bit, Shr, Shl, Low, Or, Pow2, Written;
    ghost var s0, at := buf[..], 8 * ptr + offset;
    NothingWritten(s0, at, value, bits);
    var b: nat := bits;
    ptr' := ptr;
    if offset > 0 {
      var chunkBits := 8 - offset;
      if b < chunkBits {
        FirstByte(s0, at, value, bits, ptr, offset);
        buf[ptr] := Or(buf[ptr], Low(Shl(value, chunkBits - b), chunkBits));
        assert buf[..] == s0[ptr := buf[ptr]];
        return ptr, offset + b;
      }
      FirstByte(s0, at, value, bits, ptr, offset);
      buf[ptr] := Or(buf[ptr], Low(Shr(value, b - chunkBits), chunkBits));
      assert buf[..] == s0[ptr := buf[ptr]];
      ptr' := ptr + 1;
      b := b - chunkBits;
    }
    while b >= 8
      invariant b <= bits && at + (bits - b) == 8 * ptr'
      invariant Written(s0, buf[..], at, value, bits, bits - b)
    {
      ghost var s := buf[..];
      NextByte(s0, s, at, value, bits, b, ptr');
      buf[ptr'] := Low(Shr(value, b - 8), 8);
      assert buf[..] == s[ptr' := buf[ptr']];
      ptr' := ptr' + 1;
      b := b - 8;
    }
    if b > 0 {
      ghost var s := buf[..];
      NextByte(s0, s, at, value, bits, b, ptr');
      buf[ptr'] := Low(Shl(value, 8 - b), 8);
      assert buf[..] == s[ptr' := buf[ptr']];
      return ptr', b;
    }
    return ptr', 0;
  }

  lemma NothingWritten(s: seq<uint8>, at: nat, value: nat, bits: nat)
    requires ClearAhead(s, at)
    ensures Written(s, s, at, value, bits, 0)
  {
  }

  lemma FirstByte(s: seq<uint8>, at: nat, value: nat, bits: nat, ptr: nat, offset: nat)
    requires 0 < offset < 8 && 0 < bits && at == 8 * ptr + offset && at + bits <= 8 * |s| && ClearAhead(s, at)
    ensures var chunk := 8 - offset;
            if bits < chunk then
              var byte := Or(s[ptr], Low(Shl(value, chunk - bits), chunk));
              byte < 256 && Written(s, s[ptr := byte], at, value, bits, bits)
            else
              var byte := Or(s[ptr], Low(Shr(value, bits - chunk), chunk));
              byte < 256 && Written(s, s[ptr := byte], at, value, bits, chunk)
  {
    hide Bit, Shr, Shl, Low, Or, Pow2, Written;
    var chunk := 8 - offset;
    NothingWritten(s, at, value, bits);
    var piece := if bits < chunk then Low(Shl(value, chunk - bits), chunk) else Low(Shr(value, bits - chunk), chunk);
    ChunkFits(s[ptr], if bits < chunk then Shl(value, chunk - bits) else Shr(value, bits - chunk), chunk);
    var byte := Or(s[ptr], piece);
    var n' := if bits < chunk then bits else chunk;
    forall r: nat | r < 8
      ensures ByteBit(byte, r) <==>
                if 8 * ptr + r < at then StreamBit(s, 8 * ptr + r)
                else 8 * ptr + r < at + n' && Bit(value, bits - 1 - (8 * ptr + r - at))
    {
      BitOr(s[ptr], piece, 7 - r);
      ChunkBits(value, bits, chunk, r);
      assert StreamBit(s, 8 * ptr + r) == ByteBit(s[ptr], r);
    }
    ByteWritten(s, s, at, value, bits, 0, ptr, byte, n');
  }

  lemma NextByte(s0: seq<uint8>, s: seq<uint8>, at: nat, value: nat, bits: nat, b: nat, ptr: nat)
    requires 0 < b <= bits && at + (bits - b) == 8 * ptr && at + bits <= 8 * |s0|
    requires Written(s0, s, at, value, bits, bits - b)
    ensures if b >= 8 then
              var byte := Low(Shr(value, b - 8), 8);
              byte < 256 && Written(s0, s[ptr := byte], at, value, bits, bits - b + 8)
            else
              var byte := Low(Shl(value, 8 - b), 8);
              byte < 256 && Written(s0, s[ptr := byte], at, value, bits, bits)
  {
    var x := if b >= 8 then Shr(value, b - 8) else Shl(value, 8 - b);
    CastFits(x);
    var n' := if b >= 8 then bits - b + 8 else bits;
    forall r: nat | r < 8
      ensures ByteBit(Low(x, 8), r) <==> 8 * ptr + r < at + n' && Bit(value, bits - 1 - (8 * ptr + r - at))
    {
      CutBits(value, b, r);
    }
    ByteWritten(s0, s, at, value, bits, bits - b, ptr, Low(x, 8), n');
  }

  // ---- unpack_bits ----

  /** Reads `bits` bits at bit `offset` of byte `ptr`. */
  method UnpackBits(bits: nat, data: seq<uint8>, ptr: nat, offset: nat) returns (value: nat, ptr': nat, offset': nat)
    requires 0 < bits <= 64 && offset < 8 && 8 * ptr + offset + bits <= 8 * |data|
    ensures offset' < 8 && 8 * ptr' + offset' == 8 * ptr + offset + bits
    ensures value == Field(data, 8 * ptr + offset, bits)
  {
    hide Bit, Shr, Shl, Low, Or, Pow2, Field, StreamBit;
    ghost var at := 8 * ptr + offset;
    var availBits := 8 - offset;
    var chunkBits := Min(availBits, bits);
    LeadingChunk(data, ptr, offset, chunkBits);
    value := Low(Shr(data[ptr], availBits - chunkBits), chunkBits);
    ptr' := if availBits == chunkBits then ptr + 1 else ptr;
    offset' := (offset + chunkBits) % 8;
    var b: nat := bits - chunkBits;
    while b >= 8
      invariant b <= bits && value == Field(data, at, bits - b)
      invariant 8 * ptr' + offset' == at + (bits - b) && offset' < 8
      invariant b > 0 ==> offset' == 0
    {
      AppendBits(data, at, bits - b, ptr', 8, value);
      value := Shl(value, 8);
      value := Or(value, data[ptr']);
      ptr' := ptr' + 1;
      b := b - 8;
    }
    if b > 0 {
      AppendBits(data, at, bits - b, ptr', b, value);
      value := Shl(value, b);
      value := Or(value, Shr(data[ptr'], 8 - b));
      offset' := b;
    }
  }

  lemma LeadingChunk(data: seq<uint8>, ptr: nat, offset: nat, chunk: nat)
    requires ptr < |data| && offset < 8 && chunk <= 8 - offset
    ensures Low(Shr(data[ptr], 8 - offset - chunk), chunk) == Field(data, 8 * ptr + offset, chunk)
  {
    hide Pow2, Shr, Low, Bit, Field;
    var x := Shr(data[ptr], 8 - offset - chunk);
    ShrLowSplit(x, chunk);
    forall i: nat | i < chunk
      ensures Bit(Low(x, chunk), i) <==> StreamBit(data, 8 * ptr + offset + chunk - 1 - i)
    {
      BitLow(x, chunk, i);
      BitShr(data[ptr], 8 - offset - chunk, i);
    }
    FieldUnique(data, 8 * ptr + offset, chunk, Low(x, chunk));
  }

  /** Shifting in the top `b` bits of the next byte extends the field by `b`. */
  lemma AppendBits(data: seq<uint8>, at: nat, n: nat, ptr: nat, b: nat, value: nat)
    requires 0 < b <= 8 && at + n == 8 * ptr && ptr < |data| && value == Field(data, at, n)
    ensures Shr(data[ptr], 0) == data[ptr]
    ensures Or(Shl(value, b), Shr(data[ptr], 8 - b)) == Field(data, at, n + b)
  {
    hide Bit, Shl, Low, Or, Pow2, Field;
    var low := Shr(data[ptr], 8 - b);
    var v := Or(Shl(value, b), low);
    ByteBound(data[ptr]);
    ShrBound(data[ptr], 8 - b, b);
    ShlIsMul(value, b);
    Pow2Add(n, b);
    Pow2Monotone(b, n + b);
    ScaledBound(value, n, b);
    OrBound(Shl(value, b), low, n + b);
    forall i: nat | i < n + b
      ensures Bit(v, i) <==> StreamBit(data, at + n + b - 1 - i)
    {
      BitOr(Shl(value, b), low, i);
      BitShl(value, b, i);
      if i >= b {
        FieldBit(data, at, n, i - b);
        NoHighBits(low, b, i);
      } else {
        BitShr(data[ptr], 8 - b, i);
        assert at + n + b - 1 - i == 8 * ptr + (b - 1 - i);
      }
    }
    FieldUnique(data, at, n + b, v);
  }

  lemma ByteBound(x: uint8)
    ensures x < Pow2(8) == 256
  {
    assert Pow2(8) == 256;
  }

  lemma ScaledBound(value: nat, n: nat, b: nat)
    requires value < Pow2(n)
    ensures value * Pow2(b) < Pow2(n) * Pow2(b)
  {
  }
}
