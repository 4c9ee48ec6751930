/** Jaccard similarity and exact equality of two sketches. */
module JaccardSimilarity {
  import opened Bits
  import opened Sequences
  import opened KMinimumValues
  import opened Sizing
  import opened Sketches
  import opened Unions
  import opened Intersections

  const TWO_TO_31: nat := 0x8000_0000

  // ---- the next power of two, by smearing the top bit ----

  /** Exponent of the least power of two that is at least `n`. */
  function LgCeil(n: nat): (lg: nat)
    requires n > 0
    ensures n <= Pow2(lg) && (lg > 0 ==> Pow2(lg - 1) < n)
  {
    if n == 1 then 0 else Log2Bounds(n - 1); Log2(n - 1) + 1
  }

  /** Below the top bit `top`, the `w` highest bits are set; above it, none. */
  ghost predicate TopOnes(x: nat, top: nat, w: nat)
  {
    forall i: nat :: (i > top ==> !Bit(x, i)) && (i <= top < i + w ==> Bit(x, i))
  }

  lemma {:induction false} TopBit(n: nat)
    requires n > 0
    ensures Bit(n, Log2(n))
  {
    if n > 1 {
      TopBit(n / 2);
    }
  }

  lemma TopOnesStart(n: nat)
    requires n > 0
    ensures TopOnes(n, Log2(n), 1)
  {
    TopBit(n);
    Log2Bounds(n);
    forall i: nat | i > Log2(n)
      ensures !Bit(n, i)
    {
      NoHighBits(n, Log2(n) + 1, i);
    }
  }

  /** `x |= x >> w` doubles the run of ones. */
  lemma Smear(x: nat, top: nat, w: nat)
    requires TopOnes(x, top, w) && x < Pow2(32)
    ensures TopOnes(Or(x, Shr(x, w)), top, 2 * w) && Or(x, Shr(x, w)) < Pow2(32)
  {
    hide Pow2, Bit, Or, Shr;
    var y := Or(x, Shr(x, w));
    forall i: nat
      ensures (i > top ==> !Bit(y, i)) && (i <= top < i + 2 * w ==> Bit(y, i))
    {
      BitOr(x, Shr(x, w), i);
      BitShr(x, w, i);
      assert w + i > top ==> !Bit(x, w + i);
      assert w + i <= top < w + i + w ==> Bit(x, w + i);
    }
    ShrAtMost(x, w);
    OrBound(x, Shr(x, w), 32);
  }

  lemma {:induction false} ShrAtMost(x: nat, n: nat)
    ensures Shr(x, n) <= x
  {
    if n > 0 { ShrAtMost(x / 2, n - 1); }
  }

  lemma SmearedIsOnes(x: nat, top: nat)
    requires TopOnes(x, top, 32) && top < 32 && x < Pow2(32)
    ensures x == Pow2(top + 1) - 1
  {
    hide Pow2, Bit;
    Pow2Monotone(top + 1, 32);
    forall i: nat | i < 32
      ensures Bit(x, i) <==> Bit(Pow2(top + 1) - 1, i)
    {
      if i > top { NoHighBits(Pow2(top + 1) - 1, top + 1, i); } else { AllOnes(top + 1, i); }
    }
    SameBits(x, Pow2(top + 1) - 1, 32);
  }

  lemma Powers()
    ensures Pow2(32) == TWO_TO_32 && Pow2(31) == TWO_TO_31 && Pow2(26) == 0x400_0000
  {
    assert Pow2(6) == 64 && Pow2(5) == 32;
    Pow2Add(5, 5);
    Pow2Add(10, 10);
    Pow2Add(20, 6);
    Pow2Add(26, 5);
  }

  lemma Log2Range(x: nat)
    requires 0 < x < TWO_TO_32
    ensures Log2(x) < 32 && (Log2(x) == 31 <==> x >= TWO_TO_31)
  {
    hide Pow2, Log2;
    Powers();
    Log2Bounds(x);
    if Log2(x) >= 32 { Pow2Monotone(32, Log2(x)); }
    if Log2(x) < 31 { Pow2Monotone(Log2(x) + 1, 31); }
  }

  /** The value computed for a 32-bit argument: zero wraps around to zero, and so does anything above 2^31. */
  function CeilPow2(n: nat): nat
  {
    if n == 0 || n > TWO_TO_31 then 0 else Pow2(LgCeil(n))
  }

  lemma LgCeilOf(n: nat)
    ensures n > 1 ==> LgCeil(n) == Log2(n - 1) + 1
    ensures n == 1 ==> Pow2(LgCeil(n)) == 1
  {
  }

  lemma CeilPow2Is(n: nat)
    ensures 0 < n <= TWO_TO_31 ==> n <= CeilPow2(n) < 2 * n && exists lg: nat :: CeilPow2(n) == Pow2(lg)
  {
    if 0 < n {
      var lg := LgCeil(n);
      assert lg > 0 ==> Pow2(lg) == 2 * Pow2(lg - 1);
      if n == 1 { LgCeilOf(n); }
    }
  }

  method CeilingPowerOf2(n: nat) returns (r: nat)
    requires n < TWO_TO_32
    ensures r == CeilPow2(n)
    ensures 0 < n <= TWO_TO_31 ==> n <= r < 2 * n && exists lg: nat :: r == Pow2(lg)
    ensures n == 0 || n > TWO_TO_31 ==> r == 0
  {
    CeilPow2Is(n);
    hide Pow2, Or, Shr, Log2, TopOnes, Bit;
    LgCeilOf(n);
    r := (n + TWO_TO_32 - 1) % TWO_TO_32;
    if r == 0 { return 1; }  // every shift of zero is zero
    ghost var top := Log2(r);
    Powers();
    TopOnesStart(r);
    Log2Range(r);
    Smear(r, top, 1);
    r := Or(r, Shr(r, 1));
    Smear(r, top, 2);
    r := Or(r, Shr(r, 2));
    Smear(r, top, 4);
    r := Or(r, Shr(r, 4));
    Smear(r, top, 8);
    r := Or(r, Shr(r, 8));
    Smear(r, top, 16);
    r := Or(r, Shr(r, 16));
    SmearedIsOnes(r, top);
    Pow2Monotone(top + 1, if top < 31 then 31 else 32);
    r := (r + 1) % TWO_TO_32;
  }

  // ---- the union that similarity is measured in ----

  /** log2 of the nominal size of the union, from the 32-bit sum of the counts. */
  function UnionLgK(count: nat): nat
  {
    var lg := Log2(CeilPow2(count % TWO_TO_32));
    if lg < MIN_LG_K then MIN_LG_K else if lg > MAX_LG_K then MAX_LG_K else lg
  }

  /** Up to a sum of 2^31 the union holds all entries, or 2^26 of them if there are more. */
  lemma UnionLgKCovers(count: nat)
    requires count <= TWO_TO_31
    ensures count <= Pow2(UnionLgK(count)) || UnionLgK(count) == MAX_LG_K
    ensures Pow2(UnionLgK(count)) <= Pow2(MAX_LG_K) == 0x400_0000
  {
    hide Pow2, Log2;
    Powers();
    var lgK := UnionLgK(count);
    Pow2Monotone(lgK, MAX_LG_K);
    if count > 0 {
      var lg := LgCeil(count);
      Log2OfPow2(lg);
      if lg < lgK { Pow2Monotone(lg, lgK); }
    } else {
      Log2OfZero();
    }
  }

  /** The size is the least in the allowed range that holds that many, and the smallest where the sum has wrapped. */
  lemma UnionLgKIs(count: nat)
    ensures var lg, n := UnionLgK(count), count % TWO_TO_32;
            && 5 <= lg <= 26
            && (0 < n <= TWO_TO_31 ==> (lg < 26 ==> n <= Pow2(lg)) && (lg > 5 ==> Pow2(lg - 1) < n))
            && (n == 0 || n > TWO_TO_31 ==> lg == 5)
  {
    hide Pow2, Log2;
    var n := count % TWO_TO_32;
    if 0 < n <= TWO_TO_31 {
      var lg := LgCeil(n);
      Log2OfPow2(lg);
      if lg <= MIN_LG_K { Pow2Monotone(lg, MIN_LG_K); }
      if lg > MAX_LG_K { Pow2Monotone(MAX_LG_K - 1, lg - 1); }
    } else {
      Log2OfZero();
    }
  }

  lemma Log2OfZero()
    ensures Log2(0) == 0 && Pow2(0) == 1
  {
  }

  method ComputeUnion(seedHash: nat, a: CompactSketch, b: CompactSketch) returns (ok: bool, c: CompactSketch)
    requires ValidSketch(a) && ValidSketch(b) && !a.isEmpty && !b.isEmpty
    ensures ok <==> a.seedHash == seedHash && b.seedHash == seedHash
    ensures ok ==>
              && ValidSketch(c) && !c.isEmpty && c.seedHash == seedHash
              && Sample(Elements(c.entries), c.theta) ==
                 Kmv(Pow2(UnionLgK(|a.entries| + |b.entries|)), Elements(a.entries) + Elements(b.entries),
                     Min(a.theta, b.theta))
  {
    hide ValidSketch, Elements, Kmv, Pow2, Union.Valid;
    ValidInRange(a);
    ValidInRange(b);
    var ceiling := CeilingPowerOf2((|a.entries| + |b.entries|) % TWO_TO_32);
    var lg := Log2(ceiling);
    var lgK := if lg < MIN_LG_K then MIN_LG_K else if lg > MAX_LG_K then MAX_LG_K else lg;
    var u := new Union(lgK, X8, 1.0, seedHash);
    c := a;
    ok := u.Update(a);
    if !ok { return; }
    ok := u.Update(b);
    if !ok { return; }
    c := u.GetResult(false);
  }

  predicate IdenticalSets(a: CompactSketch, b: CompactSketch, u: CompactSketch)
  {
    && |u.entries| == |a.entries| && |u.entries| == |b.entries|
    && u.theta == a.theta && u.theta == b.theta
  }

  /** Comparing counts and thetas with the union decides equality, as long as the union fits its size. */
  lemma IdenticalMeansEqual(k: nat, a: CompactSketch, b: CompactSketch, u: CompactSketch)
    requires ValidSketch(a) && ValidSketch(b) && ValidSketch(u)
    requires Sample(Elements(u.entries), u.theta) ==
             Kmv(k, Elements(a.entries) + Elements(b.entries), Min(a.theta, b.theta))
    ensures IdenticalSets(a, b, u) <==>
            a.theta == b.theta && Elements(a.entries) == Elements(b.entries) && |a.entries| <= k
  {
    hide ValidSketch, Elements;
    ValidInRange(a);
    ValidInRange(b);
    ValidInRange(u);
    var ea, eb := Elements(a.entries), Elements(b.entries);
    if a.theta == b.theta {
      assert Below(ea + eb, a.theta) == ea + eb;
      KmvSaturated(k, ea + eb, a.theta);
      if u.theta == a.theta {
        SubsetCard(ea, ea + eb);
        SubsetCard(eb, ea + eb);
      }
      if ea == eb { assert ea + eb == ea; }
    }
  }

  /**
   Both are empty, or neither is and they have the same theta and entries, of which there are at most 2^26.
   `sameObject`: the two arguments are one object in memory.
   */
  method ExactlyEqual(seedHash: nat, sameObject: bool, a: CompactSketch, b: CompactSketch)
    returns (ok: bool, equal: bool)
    requires ValidSketch(a) && ValidSketch(b) && (sameObject ==> a == b)
    ensures ok <==> sameObject || a.isEmpty || b.isEmpty || (a.seedHash == seedHash && b.seedHash == seedHash)
    ensures ok ==> (equal <==>
                      || sameObject
                      || (a.isEmpty && b.isEmpty)
                      || (!a.isEmpty && !b.isEmpty && a.theta == b.theta && |a.entries| <= 0x400_0000
                          && forall h :: h in a.entries <==> h in b.entries))
  {
    if sameObject { return true, true; }
    if a.isEmpty && b.isEmpty { return true, true; }
    if a.isEmpty || b.isEmpty { return true, false; }
    hide ValidSketch, Elements, Pow2, UnionLgK, Kmv, IdenticalSets;
    var u: CompactSketch;
    ok, u := ComputeUnion(seedHash, a, b);
    if !ok { return false, false; }
    IdenticalMeansEqual(Pow2(UnionLgK(|a.entries| + |b.entries|)), a, b, u);
    SameElements(a, b);
    return true, IdenticalSets(a, b, u);
  }

  /** Equal sets of entries fit the sizing union exactly up to 2^26 of them. */
  lemma SameElements(a: CompactSketch, b: CompactSketch)
    requires ValidSketch(a) && ValidSketch(b)
    ensures Elements(a.entries) == Elements(b.entries) <==> forall h :: h in a.entries <==> h in b.entries
    ensures Elements(a.entries) == Elements(b.entries) ==>
              (|a.entries| <= Pow2(UnionLgK(|a.entries| + |b.entries|)) <==> |a.entries| <= 0x400_0000)
  {
    hide Elements, ValidSketch, Pow2, UnionLgK;
    AllMembers(a.entries);
    AllMembers(b.entries);
    ValidInRange(a);
    ValidInRange(b);
    EqualityLimit(|a.entries|);
  }

  lemma UnionSizeLimit(count: nat)
    ensures Pow2(UnionLgK(count)) <= 0x400_0000
  {
    hide Pow2, Log2;
    Powers();
    Pow2Monotone(UnionLgK(count), MAX_LG_K);
  }

  /** For equal counts the union is large enough exactly up to 2^26 entries. */
  lemma EqualityLimit(n: nat)
    ensures n <= Pow2(UnionLgK(n + n)) <==> n <= 0x400_0000
  {
    hide Pow2, UnionLgK;
    UnionSizeLimit(n + n);
    if n <= 0x400_0000 { UnionLgKCovers(n + n); }
  }

  /** A sketch counts as equal to a copy of itself exactly up to 2^26 entries. */
  method EqualToCopy(c: CompactSketch, ordered: bool) returns (equal: bool)
    requires ValidSketch(c)
    ensures equal <==> |c.entries| <= 0x400_0000
  {
    hide ValidSketch, CopyCompact;
    CopyIsValid(c, ordered);
    ValidInRange(c);
    AllMembers(c.entries);
    AllMembers(CopyCompact(c, ordered).entries);
    var ok;
    ok, equal := ExactlyEqual(c.seedHash, false, c, CopyCompact(c, ordered));
  }

  method UnequalToCopy(seedHash: nat) returns (c: CompactSketch, equal: bool)
    ensures ValidSketch(c) && |c.entries| == 0x400_0001 && !equal
  {
    hide ValidSketch;
    ConsecutiveValid(1, 0x400_0001, seedHash);
    c := Consecutive(1, 0x400_0001, seedHash);
    equal := EqualToCopy(c, true);
  }

  // ---- the estimate ----

  /** `Ratio` is a fraction of counts; an empty total counts as one half. */
  datatype Estimate = One | Zero | Ratio(shared: nat, total: nat) | Rejected

  method Jaccard(seedHash: nat, sameObject: bool, a: CompactSketch, b: CompactSketch) returns (ok: bool, e: Estimate)
    requires ValidSketch(a) && ValidSketch(b) && (sameObject ==> a == b)
    ensures ok <==> sameObject || a.isEmpty || b.isEmpty || (a.seedHash == seedHash && b.seedHash == seedHash)
    ensures sameObject || (a.isEmpty && b.isEmpty) ==> e == One
    ensures !sameObject && a.isEmpty != b.isEmpty ==> e == Zero
    ensures ok && !sameObject && !a.isEmpty && !b.isEmpty ==> e == JaccardOf(a, b)
    ensures ok ==> (e == Rejected <==>
                      && !sameObject && a.entries != [] && b.entries != [] && a.theta == b.theta == MAX_THETA
                      && (forall h :: h in a.entries ==> h !in b.entries) && |a.entries| + |b.entries| > 0x400_0000)
    ensures ok && !sameObject && !a.isEmpty && !b.isEmpty && |a.entries| + |b.entries| <= 0x400_0000 ==>
              var theta := Min(a.theta, b.theta);
              e == if a.theta == b.theta && (forall h :: h in a.entries <==> h in b.entries) then One
                   else Ratio(|Below(Elements(a.entries) * Elements(b.entries), theta)|,
                              |Below(Elements(a.entries) + Elements(b.entries), theta)|)
  {
    hide ValidSketch, Elements, Pow2, UnionLgK, Kmv, EndsProcess, JaccardOf, Below;
    WithinLimit(a, b);
    EndsWhen(a, b);
    RejectedExactly(a, b);
    if sameObject { return true, One; }
    if a.isEmpty && b.isEmpty { return true, One; }
    if a.isEmpty || b.isEmpty { return true, Zero; }
    var u: CompactSketch;
    ok, u := ComputeUnion(seedHash, a, b);
    if !ok { return false, Zero; }
    e := Compare(seedHash, a, b, u);
  }

  lemma SumLimit(count: nat)
    ensures count > Pow2(UnionLgK(count)) <==> count > 0x400_0000
  {
    hide Pow2, UnionLgK;
    UnionSizeLimit(count);
    if count <= 0x400_0000 { UnionLgKCovers(count); }
  }

  lemma EndsWhen(a: CompactSketch, b: CompactSketch)
    ensures EndsProcess(a, b) <==>
              && a.entries != [] && b.entries != [] && a.theta == b.theta == MAX_THETA
              && (forall h :: h in a.entries ==> h !in b.entries) && |a.entries| + |b.entries| > 0x400_0000
  {
    hide Elements, Pow2, UnionLgK;
    SumLimit(|a.entries| + |b.entries|);
    forall h | h in a.entries && h in b.entries
      ensures h in Elements(a.entries) * Elements(b.entries)
    {
      ElementsMember(a.entries, h);
      ElementsMember(b.entries, h);
    }
    AllMembers(a.entries);
    AllMembers(b.entries);
  }

  /** With at most 2^26 entries together the similarity is that of the two sets below the common theta. */
  lemma WithinLimit(a: CompactSketch, b: CompactSketch)
    requires ValidSketch(a) && ValidSketch(b)
    ensures |a.entries| + |b.entries| <= 0x400_0000 ==>
              var theta := Min(a.theta, b.theta);
              JaccardOf(a, b) ==
              if a.theta == b.theta && (forall h :: h in a.entries <==> h in b.entries) then One
              else Ratio(|Below(Elements(a.entries) * Elements(b.entries), theta)|,
                         |Below(Elements(a.entries) + Elements(b.entries), theta)|)
  {
    hide Elements, ValidSketch, JaccardOf, UnionLgK, Pow2;
    JaccardExact(a, b);
    SameElements(a, b);
  }

  /** Beyond the size of the union, the hashes are counted below the one that exactly that many precede. */
  lemma BeyondLimit(a: CompactSketch, b: CompactSketch)
    requires ValidSketch(a) && ValidSketch(b)
    requires |Below(Elements(a.entries) + Elements(b.entries), Min(a.theta, b.theta))| >
             Pow2(UnionLgK(|a.entries| + |b.entries|))
    ensures var all, k := Elements(a.entries) + Elements(b.entries), Pow2(UnionLgK(|a.entries| + |b.entries|));
            exists theta ::
              && theta in all && theta < Min(a.theta, b.theta) && |Below(all, theta)| == k
              && (JaccardOf(a, b) == Rejected
                  || JaccardOf(a, b) == Ratio(|Below(Elements(a.entries) * Elements(b.entries), theta)|, k))
  {
    hide Elements, ValidSketch, UnionLgK, Pow2, Kmv, EndsProcess;
    var all, k := Elements(a.entries) + Elements(b.entries), Pow2(UnionLgK(|a.entries| + |b.entries|));
    KmvIs(k, all, Min(a.theta, b.theta));
    assert Below(all, Min(a.theta, b.theta)) == set h | h in all && h < Min(a.theta, b.theta);
    var theta := UnionOf(a, b).theta;
    assert UnionOf(a, b).entries == Below(all, theta);
    ValidInRange(a);
    if Elements(a.entries) == Elements(b.entries) {
      assert all == Elements(a.entries);
      SubsetCard(Below(all, Min(a.theta, b.theta)), all);
    }
  }

  /** Compares the sketches by their union. */
  method Compare(seedHash: nat, a: CompactSketch, b: CompactSketch, u: CompactSketch) returns (e: Estimate)
    requires ValidSketch(a) && ValidSketch(b) && ValidSketch(u) && !a.isEmpty && !b.isEmpty && !u.isEmpty
    requires a.seedHash == seedHash && b.seedHash == seedHash && u.seedHash == seedHash
    requires Sample(Elements(u.entries), u.theta) == UnionOf(a, b)
    ensures e == JaccardOf(a, b)
  {
    hide ValidSketch, Elements, Pow2, UnionLgK, Kmv, Below, Step, EndsProcess, Keep, IdenticalSets;
    EndsUnequal(a, b);
    IdenticalMeansEqual(Pow2(UnionLgK(|a.entries| + |b.entries|)), a, b, u);
    if IdenticalSets(a, b, u) { return One; }
    var inter := IntersectThree(seedHash, a, b, u);
    SharedOfUnion(a, b, u, inter);
    if inter.theta > u.theta { return Rejected; }
    var total := if u.theta == inter.theta then |u.entries| else |Keep(u.entries, inter.theta, {})|;
    return Ratio(|inter.entries|, total);
  }

  /** The theta check fails exactly for disjoint exact sketches whose union is cut. */
  lemma RejectedExactly(a: CompactSketch, b: CompactSketch)
    requires ValidSketch(a) && ValidSketch(b)
    ensures JaccardOf(a, b) == Rejected <==> EndsProcess(a, b)
    ensures EndsProcess(a, b) ==> !a.isEmpty && !b.isEmpty
  {
    hide ValidSketch, Elements, Pow2, UnionLgK, Kmv, EndsProcess;
    EndsUnequal(a, b);
  }

  lemma AlwaysKnown(s: State, c: CompactSketch)
    ensures Step(s, c).Known?
  {
  }

  /** The third update ensures that the intersection is a subset of the union. */
  method IntersectThree(seedHash: nat, a: CompactSketch, b: CompactSketch, u: CompactSketch) returns (c: CompactSketch)
    requires ValidSketch(a) && ValidSketch(b) && ValidSketch(u)
    requires a.seedHash == seedHash && b.seedHash == seedHash && u.seedHash == seedHash
    ensures ValidSketch(c)
    ensures Step(Step(Step(Universe, a), b), u) == Known(c.isEmpty, c.theta, Elements(c.entries))
  {
    hide ValidSketch, Elements, Step, Intersection.Valid;
    AlwaysKnown(Step(Step(Universe, a), b), u);
    var i := new Intersection(seedHash);
    var ok := i.Update(a);
    ok := i.Update(b);
    ok := i.Update(u);
    ok, c := i.GetResult(false);
  }

  /** What the union and the intersection are compared by; the check of thetas fails exactly for `EndsProcess`. */
  lemma SharedOfUnion(a: CompactSketch, b: CompactSketch, u: CompactSketch, inter: CompactSketch)
    requires ValidSketch(a) && ValidSketch(b) && ValidSketch(u) && ValidSketch(inter)
    requires !a.isEmpty && !b.isEmpty && !u.isEmpty
    requires Sample(Elements(u.entries), u.theta) == UnionOf(a, b)
    requires Step(Step(Step(Universe, a), b), u) == Known(inter.isEmpty, inter.theta, Elements(inter.entries))
    ensures |u.entries| == |UnionOf(a, b).entries|
    ensures |inter.entries| == |Below(Elements(a.entries) * Elements(b.entries), u.theta)|
    ensures inter.theta >= u.theta && (inter.theta > u.theta <==> EndsProcess(a, b))
  {
    hide ValidSketch, Elements, Pow2, UnionLgK, Kmv, Step;
    var ea, eb := Elements(a.entries), Elements(b.entries);
    KmvSaturated(Pow2(UnionLgK(|a.entries| + |b.entries|)), ea + eb, Min(a.theta, b.theta));
    IntersectAll(a, b, u);
    ValidInRange(a);
    ValidInRange(b);
    ValidInRange(inter);
    ValidInRange(u);
    CutExactly(a, b);
  }

  lemma EndsUnequal(a: CompactSketch, b: CompactSketch)
    requires ValidSketch(a) && ValidSketch(b)
    ensures EndsProcess(a, b) ==> Elements(a.entries) != Elements(b.entries) && !a.isEmpty && !b.isEmpty
  {
    EmptyElements(a.entries);
  }

  /** Intersecting A, B and their union leaves what A and B share below the union's theta. */
  lemma IntersectAll(a: CompactSketch, b: CompactSketch, u: CompactSketch)
    requires ValidSketch(a) && ValidSketch(b) && ValidSketch(u) && !a.isEmpty && !b.isEmpty && !u.isEmpty
    requires Elements(u.entries) == Below(Elements(a.entries) + Elements(b.entries), u.theta)
    requires u.theta <= Min(a.theta, b.theta)
    ensures var ea, eb, s := Elements(a.entries), Elements(b.entries), Step(Step(Step(Universe, a), b), u);
            && s.Known?
            && if ea != {} && eb != {} && ea * eb == {} && Min(a.theta, b.theta) == MAX_THETA
               then s.theta == MAX_THETA && s.keys == {}
               else s.theta == u.theta && s.keys == Below(ea * eb, u.theta)
  {
    hide Elements, ValidSketch;
    ValidInRange(a);
    ValidInRange(b);
    ValidInRange(u);
    EmptyElements(a.entries);
    EmptyElements(b.entries);
    EmptyElements(u.entries);
    var ea, eb := Elements(a.entries), Elements(b.entries);
    assert ea * Below(eb, Min(a.theta, b.theta)) == ea * eb;
    assert (ea * eb) * Below(Elements(u.entries), u.theta) == Below(ea * eb, u.theta);
  }

  ghost function UnionOf(a: CompactSketch, b: CompactSketch): Sample
  {
    Kmv(Pow2(UnionLgK(|a.entries| + |b.entries|)), Elements(a.entries) + Elements(b.entries), Min(a.theta, b.theta))
  }

  /**
   The union is cut exactly when more hashes lie below the common theta than it has room for; for disjoint
   exact sketches, when they have more entries together.
   */
  lemma CutExactly(a: CompactSketch, b: CompactSketch)
    requires ValidSketch(a) && ValidSketch(b)
    ensures var k, theta := Pow2(UnionLgK(|a.entries| + |b.entries|)), Min(a.theta, b.theta);
            var all := Below(Elements(a.entries) + Elements(b.entries), theta);
            && (UnionOf(a, b).theta < theta <==> |all| > k)
            && (|all| <= k ==> UnionOf(a, b) == Sample(all, theta))
    ensures a.theta == b.theta == MAX_THETA && Elements(a.entries) * Elements(b.entries) == {} ==>
              Below(Elements(a.entries) + Elements(b.entries), MAX_THETA) == Elements(a.entries) + Elements(b.entries)
              && |Elements(a.entries) + Elements(b.entries)| == |a.entries| + |b.entries|
    ensures (a.entries == [] <==> Elements(a.entries) == {}) && (b.entries == [] <==> Elements(b.entries) == {})
    ensures (a.entries != [] ==> !a.isEmpty) && (b.entries != [] ==> !b.isEmpty)
  {
    hide Elements, ValidSketch, Pow2, UnionLgK;
    ValidInRange(a);
    ValidInRange(b);
    EmptyElements(a.entries);
    EmptyElements(b.entries);
    var ea, eb := Elements(a.entries), Elements(b.entries);
    assert |ea + eb| == |ea| + |eb| - |ea * eb|;
  }

  /** Disjoint exact sketches, both with entries, that have more of them together than the union has room for. */
  predicate EndsProcess(a: CompactSketch, b: CompactSketch)
  {
    && a.entries != [] && b.entries != [] && Elements(a.entries) * Elements(b.entries) == {}
    && a.theta == b.theta == MAX_THETA
    && |a.entries| + |b.entries| > Pow2(UnionLgK(|a.entries| + |b.entries|))
  }

  /** What similarity is, in terms of the two entry sets. */
  ghost function JaccardOf(a: CompactSketch, b: CompactSketch): Estimate
  {
    var u := UnionOf(a, b);
    var ea, eb := Elements(a.entries), Elements(b.entries);
    if a.theta == b.theta && ea == eb && |a.entries| <= Pow2(UnionLgK(|a.entries| + |b.entries|)) then One
    else if EndsProcess(a, b) then Rejected
    else Ratio(|Below(ea * eb, u.theta)|, |u.entries|)
  }

  /** As long as the union is not cut, similarity is the plain ratio of counts below the common theta. */
  lemma JaccardExact(a: CompactSketch, b: CompactSketch)
    requires ValidSketch(a) && ValidSketch(b)
    ensures var ea, eb, theta := Elements(a.entries), Elements(b.entries), Min(a.theta, b.theta);
            |Below(ea + eb, theta)| <= Pow2(UnionLgK(|a.entries| + |b.entries|)) ==>
              && (JaccardOf(a, b) == One <==> a.theta == b.theta && ea == eb)
              && (JaccardOf(a, b) != One ==>
                   JaccardOf(a, b) == Ratio(|Below(ea * eb, theta)|, |Below(ea + eb, theta)|))
    ensures |a.entries| + |b.entries| <= 0x400_0000 ==>
              |Below(Elements(a.entries) + Elements(b.entries), Min(a.theta, b.theta))|
              <= Pow2(UnionLgK(|a.entries| + |b.entries|))
  {
    hide Elements, ValidSketch, Pow2, UnionLgK;
    CutExactly(a, b);
    ValidInRange(a);
    ValidInRange(b);
    var ea, eb := Elements(a.entries), Elements(b.entries);
    var all := Below(ea + eb, Min(a.theta, b.theta));
    SubsetCard(all, ea + eb);
    assert |ea + eb| == |ea| + |eb| - |ea * eb|;
    if a.theta == b.theta && ea == eb { assert all == ea; }
    if |a.entries| + |b.entries| <= 0x400_0000 { UnionLgKCovers(|a.entries| + |b.entries|); }
  }

  /** Two sketches whose similarity ends the process. */
  lemma ProcessEnds(seedHash: nat)
    ensures var a, b := Consecutive(1, 0x400_0000, seedHash), Consecutive(0x400_0001, 0x400_0000, seedHash);
            && ValidSketch(a) && ValidSketch(b) && EndsProcess(a, b) && JaccardOf(a, b) == Rejected
  {
    hide ValidSketch, Pow2, UnionLgK, Consecutive, Elements;
    var a, b := Consecutive(1, 0x400_0000, seedHash), Consecutive(0x400_0001, 0x400_0000, seedHash);
    ConsecutiveValid(1, 0x400_0000, seedHash);
    ConsecutiveValid(0x400_0001, 0x400_0000, seedHash);
    UnionSizeLimit(0x800_0000);
    assert 1 in Elements(a.entries) && 1 !in Elements(b.entries);
  }
}
