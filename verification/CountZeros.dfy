/** Leading-zero counts by table lookup on the top non-zero byte. */
module CountZeros {
  import opened Bits

  /** The table of leading zeros of a byte. */
  function ByteLeadingZeros(b: nat): (z: nat)
    requires b < 256
    ensures if b == 0 then z == 8 else z < 8 && Pow2(7 - z) <= b < Pow2(8 - z)
  {
    assert Pow2(1) == 2 && Pow2(2) == 4 && Pow2(3) == 8 && Pow2(4) == 16;
    assert Pow2(5) == 32 && Pow2(6) == 64 && Pow2(7) == 128 && Pow2(8) == 256;
    if b == 0 then 8 else if b < 2 then 7 else if b < 4 then 6 else if b < 8 then 5
    else if b < 16 then 4 else if b < 32 then 3 else if b < 64 then 2 else if b < 128 then 1 else 0
  }

  /** Leading zeros of a `width`-bit number, found at the first byte, from the top, that is not zero. */
  function LeadingZeros(x: nat, width: nat): (z: nat)
    requires width >= 8 && width % 8 == 0 && x < Pow2(width)
    ensures if x == 0 then z == width else z < width && Pow2(width - 1 - z) <= x < Pow2(width - z)
    decreases width
  {
    var top := Shr(x, width - 8);
    ShrBound(x, width - 8, 8);
    assert Pow2(8) == 256;
    if x > Pow2(width - 8) - 1 then
      TopByte(x, width - 8, ByteLeadingZeros(top));
      ByteLeadingZeros(top)
    else if width == 8 then ByteLeadingZeros(x)
    else 8 + LeadingZeros(x, width - 8)
  }

  lemma TopByte(x: nat, shift: nat, z: nat)
    requires Pow2(shift) <= x && z == (if Shr(x, shift) < 256 then ByteLeadingZeros(Shr(x, shift)) else 0)
    requires Shr(x, shift) < 256
    ensures z < 8 && Pow2(shift + 7 - z) <= x < Pow2(shift + 8 - z)
  {
    hide Shr, Low, ByteLeadingZeros;
    var h := Shr(x, shift);
    ShrLowSplit(x, shift);
    ShrPositive(x, shift);
    Pow2Add(7 - z, shift);
    Pow2Add(8 - z, shift);
    Scale(Pow2(7 - z), h, Pow2(8 - z), Pow2(shift));
  }

  lemma {:induction false} ShrPositive(x: nat, n: nat)
    ensures Shr(x, n) >= 1 <==> x >= Pow2(n)
  {
    if n > 0 {
      ShrPositive(x / 2, n - 1);
    }
  }

  lemma Scale(low: nat, h: nat, high: nat, p: nat)
    requires low <= h < high
    ensures low * p <= h * p && h * p + p <= high * p
  {
    assert h * p + p == (h + 1) * p;
  }

  function CountLeadingZeros64(x: nat): nat
    requires x < Pow2(64)
  {
    LeadingZeros(x, 64)
  }

  function CountLeadingZeros32(x: nat): nat
    requires x < Pow2(32)
  {
    LeadingZeros(x, 32)
  }
}
