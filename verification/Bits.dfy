/** Unsigned shifts, masks and bitwise OR on natural numbers, and their bits. */
module Bits {

  const TWO_TO_32: nat := 0x1_0000_0000
  const TWO_TO_64: nat := 0x1_0000_0000_0000_0000

  type uint8 = x: nat | x < 256

  function Pow2(n: nat): (p: nat)
    ensures p >= 1
  {
    if n == 0 then 1 else 2 * Pow2(n - 1)
  }

  /** `x >> n` */
  function Shr(x: nat, n: nat): nat
  {
    if n == 0 then x else Shr(x / 2, n - 1)
  }

  /** `x << n`, without the truncation to a machine width */
  function Shl(x: nat, n: nat): nat
  {
    if n == 0 then x else 2 * Shl(x, n - 1)
  }

  /** `x & ((1 << n) - 1)`, which is also the cast to an n-bit unsigned type */
  function Low(x: nat, n: nat): nat
  {
    if n == 0 then 0 else x % 2 + 2 * Low(x / 2, n - 1)
  }

  /** `a | b` */
  function Or(a: nat, b: nat): nat
    decreases a + b
  {
    if a == 0 && b == 0 then 0
    else (if a % 2 == 1 || b % 2 == 1 then 1 else 0) + 2 * Or(a / 2, b / 2)
  }

  predicate Bit(x: nat, i: nat)
  {
    Shr(x, i) % 2 == 1
  }

  lemma Distribute(a: int, b: int, c: int)
    ensures (a + b) * c == a * c + b * c
  {
  }

  lemma One()
    ensures Pow2(0) == 1
  {
  }

  lemma {:induction false} Pow2Add(m: nat, n: nat)
    ensures Pow2(m + n) == Pow2(m) * Pow2(n)
  {
    if m > 0 {
      Pow2Add(m - 1, n);
      assert Pow2(m) * Pow2(n) == 2 * (Pow2(m - 1) * Pow2(n));
    }
  }

  lemma {:induction false} Pow2Monotone(m: nat, n: nat)
    requires m <= n
    ensures Pow2(m) <= Pow2(n)
    ensures m < n ==> 2 * Pow2(m) <= Pow2(n)
    decreases n
  {
    if m < n {
      Pow2Monotone(m, n - 1);
    }
  }

  // ---- shifts and masks as arithmetic ----

  lemma Doubled(a: int, b: int)
    ensures a * (2 * b) == 2 * (a * b)
  {
  }

  lemma {:induction false} ShlIsMul(x: nat, n: nat)
    ensures Shl(x, n) == x * Pow2(n)
  {
    if n > 0 {
      ShlIsMul(x, n - 1);
      Doubled(x, Pow2(n - 1));
    }
  }

  lemma {:induction false} ShrLowSplit(x: nat, n: nat)
    ensures x == Shr(x, n) * Pow2(n) + Low(x, n)
    ensures Low(x, n) < Pow2(n)
  {
    if n > 0 {
      var high, low := Shr(x / 2, n - 1), Low(x / 2, n - 1);
      ShrLowSplit(x / 2, n - 1);
      Doubled(high, Pow2(n - 1));
      assert Shr(x, n) == high && Low(x, n) == x % 2 + 2 * low && Pow2(n) == 2 * Pow2(n - 1);
      assert x == x % 2 + 2 * (x / 2);
    }
  }

  lemma ShrZero(x: nat, n: nat)
    requires x < Pow2(n)
    ensures Shr(x, n) == 0 && Low(x, n) == x
  {
    ShrLowSplit(x, n);
    if Shr(x, n) >= 1 {
      assert Shr(x, n) * Pow2(n) >= Pow2(n);
    }
  }

  // ---- bits ----

  lemma BitHalves(x: nat, i: nat)
    ensures Bit(x, 0) <==> x % 2 == 1
    ensures i > 0 ==> (Bit(x, i) <==> Bit(x / 2, i - 1))
  {
  }

  lemma {:induction false} AllOnes(n: nat, i: nat)
    requires i < n
    ensures Bit(Pow2(n) - 1, i)
  {
    if i > 0 {
      assert (Pow2(n) - 1) / 2 == Pow2(n - 1) - 1;
      AllOnes(n - 1, i - 1);
    }
  }

  lemma {:induction false} BitShr(x: nat, n: nat, i: nat)
    ensures Bit(Shr(x, n), i) <==> Bit(x, n + i)
  {
    hide Bit;
    if n > 0 {
      BitHalves(x, n + i);
      BitShr(x / 2, n - 1, i);
    }
  }

  lemma LowHalves(x: nat, n: nat)
    ensures n == 0 ==> Low(x, n) == 0
    ensures n > 0 ==> Low(x, n) / 2 == Low(x / 2, n - 1) && Low(x, n) % 2 == x % 2
  {
  }

  lemma {:induction false} BitLow(x: nat, n: nat, i: nat)
    ensures Bit(Low(x, n), i) <==> i < n && Bit(x, i)
  {
    hide Bit, Low;
    LowHalves(x, n);
    if n == 0 {
      ZeroHasNoBits(i);
    } else {
      BitHalves(x, i);
      BitHalves(Low(x, n), i);
      if i > 0 { BitLow(x / 2, n - 1, i - 1); }
    }
  }

  lemma ShlHalves(x: nat, n: nat)
    ensures n == 0 ==> Shl(x, n) == x
    ensures n > 0 ==> Shl(x, n) / 2 == Shl(x, n - 1) && Shl(x, n) % 2 == 0
  {
  }

  lemma {:induction false} BitShl(x: nat, n: nat, i: nat)
    ensures Bit(Shl(x, n), i) <==> i >= n && Bit(x, i - n)
  {
    hide Bit, Shl;
    ShlHalves(x, n);
    if n > 0 {
      BitHalves(Shl(x, n), i);
      if i > 0 { BitShl(x, n - 1, i - 1); }
    }
  }

  lemma OrHalves(a: nat, b: nat)
    ensures Or(a, b) / 2 == Or(a / 2, b / 2)
    ensures Or(a, b) % 2 == 1 <==> a % 2 == 1 || b % 2 == 1
  {
  }

  lemma {:induction false} BitOr(a: nat, b: nat, i: nat)
    ensures Bit(Or(a, b), i) <==> Bit(a, i) || Bit(b, i)
    decreases i
  {
    hide Or, Bit;
    OrHalves(a, b);
    BitHalves(a, i);
    BitHalves(b, i);
    BitHalves(Or(a, b), i);
    if i > 0 { BitOr(a / 2, b / 2, i - 1); }
  }

  lemma {:induction false} ZeroHasNoBits(i: nat)
    ensures !Bit(0, i)
  {
    if i > 0 {
      ZeroHasNoBits(i - 1);
    }
  }

  lemma NoHighBits(x: nat, n: nat, i: nat)
    requires x < Pow2(n) && n <= i
    ensures !Bit(x, i)
  {
    ShrZero(x, n);
    BitShr(x, n, i - n);
    ZeroHasNoBits(i - n);
  }

  lemma {:induction false} OrBound(a: nat, b: nat, n: nat)
    requires a < Pow2(n) && b < Pow2(n)
    ensures Or(a, b) < Pow2(n)
  {
    if n > 0 && (a > 0 || b > 0) {
      OrBound(a / 2, b / 2, n - 1);
    }
  }

  lemma {:induction false} ShrBound(x: nat, n: nat, m: nat)
    requires x < Pow2(n + m)
    ensures Shr(x, n) < Pow2(m)
  {
    if n > 0 {
      ShrBound(x / 2, n - 1, m);
    }
  }

  /** Numbers with the same bits are equal. */
  lemma {:induction false} SameBits(x: nat, y: nat, n: nat)
    requires x < Pow2(n) && y < Pow2(n)
    requires forall i: nat :: i < n ==> (Bit(x, i) <==> Bit(y, i))
    ensures x == y
  {
    if n > 0 {
      assert Bit(x, 0) <==> Bit(y, 0);
      forall i: nat | i < n - 1
        ensures Bit(x / 2, i) <==> Bit(y / 2, i)
      {
        assert Bit(x, i + 1) <==> Bit(y, i + 1);
      }
      SameBits(x / 2, y / 2, n - 1);
    }
  }
}
