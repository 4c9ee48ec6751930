/** The A-not-B operator and its three ways of computing the same thing. */
module SetDifferences {
  import Bits
  import opened Sequences
  import opened KMinimumValues
  import opened Sizing
  import Probing
  import opened UpdateTable
  import opened Sketches
  import opened Intersections

  /** `std::set_difference` of two ascending ranges, keeping what lies below theta. */
  method SortedDifference(a: seq<nat>, b: seq<nat>, theta: nat) returns (entries: seq<nat>)
    requires Ascending(a) && Ascending(b)
    ensures entries == Keep(a, theta, Elements(b))
  {
    hide Keep, Elements;
    entries := [];
    var i: nat, j: nat := 0, 0;
    KeepNothing(a, theta, Elements(b));
    while i < |a|
      invariant i <= |a| && j <= |b|
      invariant forall q, r :: 0 <= q < j && i <= r < |a| ==> b[q] < a[r]
      invariant entries == Keep(a[..i], theta, Elements(b))
      decreases |a| - i + |b| - j
    {
      if j == |b| || a[i] < b[j] {
        NotAmong(b, j, a[i]);
        KeepStep(a, i, theta, Elements(b));
        if a[i] < theta { entries := entries + [a[i]]; }
        i := i + 1;
      } else if b[j] < a[i] {
        j := j + 1;
      } else {
        Among(b, j);
        KeepStep(a, i, theta, Elements(b));
        i, j := i + 1, j + 1;
      }
    }
    assert a[..i] == a;
  }

  lemma KeepNothing(s: seq<nat>, theta: nat, excluded: set<nat>)
    ensures Keep(s[..0], theta, excluded) == []
  {
  }

  lemma NotAmong(b: seq<nat>, j: nat, x: nat)
    requires Ascending(b) && j <= |b| && (forall q :: 0 <= q < j ==> b[q] < x) && (j < |b| ==> x < b[j])
    ensures x !in Elements(b)
  {
  }

  lemma Among(b: seq<nat>, j: nat)
    requires j < |b|
    ensures b[j] in Elements(b)
  {
  }

  lemma NothingBelow(entries: seq<nat>, theta: nat)
    ensures Below(Elements(entries[..0]), theta) == {}
  {
    NoElements(entries);
  }

  lemma NextBelow(b: CompactSketch, i: nat, theta: nat)
    requires ValidSketch(b) && i < |b.entries|
    ensures var before, hash := Below(Elements(b.entries[..i]), theta), b.entries[i];
            && hash != 0 && hash !in before
            && Below(Elements(b.entries[..i + 1]), theta) == before + (if hash < theta then {hash} else {})
            && (hash >= theta && b.isOrdered ==> Below(Elements(b.entries), theta) == before)
  {
    hide Elements, Distinct;
    NextElement(b.entries, i);
    ValidInRange(b);
    if b.entries[i] >= theta && b.isOrdered { NothingMoreBelow(b.entries, i, theta); }
  }

  /** A scratch table of the keys of B below theta; it is sized by count and never gives up a key. */
  method ScratchTable(b: CompactSketch, theta: nat) returns (table: ThetaTable)
    requires ValidSketch(b) && b.entries != []
    ensures fresh(table) && fresh(table.entries) && table.Valid() && table.lgCur > 0
    ensures table.KeySet() == Below(Elements(b.entries), theta)
  {
    hide Probing.WellPlaced, Probing.Keys, Elements, Keep, Capacity, OnLadder, Bits.Pow2, Distinct, Ascending, Below,
         InRange, ValidSketch;
    var lgSize := LgSizeFromCount(|b.entries|);
    ScratchTableFits(|b.entries|);
    table := new ThetaTable(lgSize, lgSize, X1, 1.0, 0, 0, true);
    NothingBelow(b.entries, theta);
    var i: nat := 0;
    while i < |b.entries|
      invariant i <= |b.entries| && fresh(table.entries) && table.Valid() && table.lgCur == lgSize
      invariant table.KeySet() == Below(Elements(b.entries[..i]), theta) && table.numEntries <= i
    {
      var hash := b.entries[i];
      NextBelow(b, i, theta);
      if hash < theta {
        var index, found := table.Find(hash);
        table.Insert(index, hash);  // may "resize" the table to its own size
      } else if b.isOrdered {
        return;
      }
      i := i + 1;
    }
    assert b.entries[..i] == b.entries;
  }

  /** Scans A, looking up B in a scratch table. */
  method HashedDifference(a: CompactSketch, b: CompactSketch, theta: nat) returns (entries: seq<nat>)
    requires ValidSketch(a) && ValidSketch(b) && b.entries != []
    ensures entries == Keep(a.entries, theta, Elements(b.entries))
  {
    hide Probing.WellPlaced, Probing.Keys, Elements, Keep;
    var table := ScratchTable(b, theta);
    entries := [];
    ghost var excluded := Elements(b.entries);
    KeepNothing(a.entries, theta, excluded);
    var i: nat := 0;
    while i < |a.entries|
      invariant i <= |a.entries| && table.Valid() && table.lgCur > 0
      invariant table.KeySet() == Below(excluded, theta)
      invariant entries == Keep(a.entries[..i], theta, excluded)
    {
      var hash := a.entries[i];
      KeepStep(a.entries, i, theta, excluded);
      if hash < theta {
        var index, found := table.Find(hash);
        if !found { entries := entries + [hash]; }
      } else if a.isOrdered {
        KeepStops(a.entries, i, theta, excluded);
        return;
      }
      i := i + 1;
    }
    assert a.entries[..i] == a.entries;
  }

  /** The hashes of A below the common theta that B does not retain. */
  function NotIn(a: CompactSketch, b: CompactSketch): set<nat>
  {
    Below(Elements(a.entries), Min(a.theta, b.theta)) - Elements(b.entries)
  }

  /**
   A is copied when it is empty, or when it retains something and B is empty; only then the seed hashes are not
   compared. `ok == false` is one of the source's two "seed hash mismatch" errors.
   */
  method Compute(seedHash: nat, a: CompactSketch, b: CompactSketch, ordered: bool)
    returns (ok: bool, c: CompactSketch)
    requires ValidSketch(a) && ValidSketch(b)
    ensures ok <==> a.isEmpty || (b.isEmpty && a.entries != []) || (a.seedHash == seedHash && b.seedHash == seedHash)
    ensures ok ==> ValidSketch(c)
    ensures ok && (a.isEmpty || (b.isEmpty && a.entries != [])) ==>
              && (forall h :: h in c.entries <==> h in a.entries) && |c.entries| == |a.entries|
              && c.theta == a.theta && c.isEmpty == a.isEmpty && c.seedHash == a.seedHash
              && (c.isOrdered <==> a.isOrdered || ordered)
    ensures ok && !a.isEmpty && (b.isEmpty ==> a.entries == []) ==>
              && (forall h :: h in c.entries <==> h in a.entries && h < a.theta && h < b.theta && h !in b.entries)
              && c.theta == Min(a.theta, b.theta) && c.seedHash == seedHash
              && (c.isEmpty <==> c.entries == [] && a.theta == b.theta == MAX_THETA)
              && (c.isOrdered <==> a.isOrdered || ordered || |c.entries| <= 1)
  {
    hide Probing.WellPlaced, Keep, Sort, CopyCompact, Distinct, Ascending;
    if a.isEmpty || (|a.entries| > 0 && b.isEmpty) {
      CopyIsValid(a, ordered);
      c := CopyCompact(a, ordered);
      AllMembers(a.entries);
      AllMembers(c.entries);
      return true, c;
    }
    c := a;
    if a.seedHash != seedHash { return false, c; }
    if b.seedHash != seedHash { return false, c; }
    var theta := Min(a.theta, b.theta);
    var entries: seq<nat>;
    var isEmpty := a.isEmpty;
    if |b.entries| == 0 {
      entries := Keep(a.entries, theta, {});
      EmptyElements(b.entries);
    } else if a.isOrdered && b.isOrdered {
      entries := SortedDifference(a.entries, b.entries, theta);
    } else {
      entries := HashedDifference(a, b, theta);
    }
    KeptElements(a.entries, theta, Elements(b.entries));
    KeptDistinct(a.entries, theta, Elements(b.entries));
    if a.isOrdered { KeptAscending(a.entries, theta, Elements(b.entries)); }
    if |entries| == 0 && theta == MAX_THETA { isEmpty := true; }
    if ordered && !a.isOrdered {
      SortAscending(entries);
      entries := Sort(entries);
    }
    MadeValid(isEmpty, a.isOrdered || ordered, seedHash, theta, entries);
    c := MakeCompact(isEmpty, a.isOrdered || ordered, seedHash, theta, entries);
    LeftOver(a, b, c.entries);
    return true, c;
  }

  lemma LeftOver(a: CompactSketch, b: CompactSketch, rest: seq<nat>)
    requires Elements(rest) == NotIn(a, b)
    ensures forall h :: h in rest <==> h in a.entries && h < a.theta && h < b.theta && h !in b.entries
  {
    AllMembers(rest);
    AllMembers(a.entries);
    AllMembers(b.entries);
  }

  /**
   A-not-B and the intersection of the same two sketches divide A: no hash is in both results, every hash of A
   below the common theta is in one, and both carry that theta. With an empty sketch, A-not-B has all of A.
   */
  method Divide(seedHash: nat, a: CompactSketch, b: CompactSketch, ordered: bool)
    returns (ok: bool, rest: CompactSketch, shared: CompactSketch)
    requires ValidSketch(a) && ValidSketch(b)
    ensures a.seedHash == b.seedHash == seedHash ==> ok
    ensures ok ==> forall h :: h in shared.entries ==> h in a.entries && h in b.entries && h !in rest.entries
    ensures ok && !a.isEmpty && !b.isEmpty ==>
              && rest.theta == shared.theta == Min(a.theta, b.theta)
              && forall h :: h in rest.entries || h in shared.entries <==> h in a.entries && h < rest.theta
    ensures ok && (a.isEmpty || b.isEmpty) ==>
              && shared.entries == [] && shared.isEmpty && shared.theta == MAX_THETA
              && forall h :: h in rest.entries <==> h in a.entries
  {
    hide ValidSketch, Step, Intersection.Valid;
    shared := a;
    ok, rest := Compute(seedHash, a, b, ordered);
    if !ok { return; }
    var x := new Intersection(seedHash);
    ok := x.Update(a);
    if !ok { return; }
    ok := x.Update(b);
    if !ok { return; }
    PairState(a, b);
    ok, shared := x.GetResult(ordered);
    AllMembers(a.entries);
    AllMembers(b.entries);
    AllMembers(shared.entries);
    EmptyElements(shared.entries);
  }

  /** Intersecting two sketches. */
  lemma PairState(a: CompactSketch, b: CompactSketch)
    requires ValidSketch(a) && ValidSketch(b)
    ensures var both := Step(Step(Universe, a), b);
            && both.Known?
            && (a.isEmpty || b.isEmpty ==> both == Known(true, MAX_THETA, {}))
            && (!a.isEmpty && !b.isEmpty ==>
                 both.theta == Min(a.theta, b.theta) && both.keys == Elements(a.entries) * Elements(b.entries))
    ensures a.isEmpty ==> a.entries == []
    ensures forall h :: h in a.entries ==> h < a.theta
    ensures forall h :: h in b.entries ==> h < b.theta
  {
    ElementsBelow(a);
    ElementsBelow(b);
    EmptyElements(a.entries);
    EmptyElements(b.entries);
    assert Elements(a.entries) * Below(Elements(b.entries), Min(a.theta, b.theta)) ==
           Elements(a.entries) * Elements(b.entries);
  }

  /**
   For non-empty A and B, what intersecting and subtracting B leave of A is disjoint and together
   is all of A below the common theta, which both results carry.
   */
  lemma Conservation(a: CompactSketch, b: CompactSketch)
    requires ValidSketch(a) && ValidSketch(b) && !a.isEmpty && !b.isEmpty
    ensures var both := Fold([a, b]);
            && both.Known? && both.theta == Min(a.theta, b.theta)
            && both.keys * NotIn(a, b) == {}
            && both.keys + NotIn(a, b) == Below(Elements(a.entries), both.theta)
  {
    var inputs := [a, b];
    assert inputs[..1] == [a] && [a][..0] == [];
    assert Fold([a]) == Step(Universe, a) && Fold(inputs) == Step(Fold([a]), b);
    ElementsBelow(a);
    ElementsBelow(b);
    assert a.entries == [] ==> Elements(a.entries) == {};
  }
}
