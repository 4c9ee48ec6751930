/** Compact sketches, and the update sketch that builds a sample from a stream of hashes. */
module Sketches {
  import opened Bits
  import opened Sequences
  import opened KMinimumValues
  import Probing
  import opened Sizing
  import opened UpdateTable

  /** An immutable sketch; also what the set operations read from a sketch of any kind. */
  datatype CompactSketch = CompactSketch(
    isEmpty: bool, isOrdered: bool, seedHash: nat, theta: nat, entries: seq<nat>)

  /** The constructor from parts: at most one entry is always ordered. */
  function MakeCompact(isEmpty: bool, isOrdered: bool, seedHash: nat, theta: nat, entries: seq<nat>): CompactSketch
  {
    CompactSketch(isEmpty, isOrdered || |entries| <= 1, seedHash, theta, entries)
  }

  /** Distinct non-zero entries, all below theta, ascending if flagged so. */
  ghost predicate ValidSketch(c: CompactSketch)
  {
    && c.theta <= MAX_THETA
    && Distinct(c.entries)
    && (forall i :: 0 <= i < |c.entries| ==> 0 < c.entries[i] < c.theta)
    && (c.isOrdered ==> Ascending(c.entries))
    && (c.isEmpty ==> c.entries == [])
  }

  ghost predicate InRange(keys: set<nat>, theta: nat)
  {
    forall x :: x in keys ==> 0 < x < theta
  }

  lemma MadeValid(isEmpty: bool, isOrdered: bool, seedHash: nat, theta: nat, entries: seq<nat>)
    requires theta <= MAX_THETA && Distinct(entries) && InRange(Elements(entries), theta)
    requires (isOrdered ==> Ascending(entries)) && (isEmpty ==> entries == [])
    ensures ValidSketch(MakeCompact(isEmpty, isOrdered, seedHash, theta, entries))
  {
    assert forall i :: 0 <= i < |entries| ==> entries[i] in Elements(entries);
  }

  lemma ValidInRange(c: CompactSketch)
    requires ValidSketch(c)
    ensures InRange(Elements(c.entries), c.theta) && 0 !in c.entries && c.theta <= MAX_THETA
    ensures Distinct(c.entries) && |c.entries| == |Elements(c.entries)| && (c.isEmpty ==> c.entries == [])
  {
    DistinctCount(c.entries);
  }

  /** The hashes from `first` on, `n` of them, in an exact sketch. */
  function Consecutive(first: nat, n: nat, seedHash: nat): (c: CompactSketch)
    ensures |c.entries| == n && !c.isEmpty && c.isOrdered && c.theta == MAX_THETA && c.seedHash == seedHash
    ensures forall i :: 0 <= i < n ==> c.entries[i] == first + i
  {
    CompactSketch(false, true, seedHash, MAX_THETA, seq(n, i requires 0 <= i < n => first + i))
  }

  lemma ConsecutiveValid(first: nat, n: nat, seedHash: nat)
    requires 0 < first && first + n <= MAX_THETA
    ensures ValidSketch(Consecutive(first, n, seedHash))
    ensures forall h :: h in Elements(Consecutive(first, n, seedHash).entries) <==> first <= h < first + n
  {
    hide Consecutive;
    var c := Consecutive(first, n, seedHash);
    forall h | first <= h < first + n
      ensures h in c.entries
    {
      assert c.entries[h - first] == h;
    }
  }

  /** The sketch of capacity `k` has sampled exactly the hashes `seen`, from the threshold `start`. */
  ghost predicate Represents(c: CompactSketch, k: nat, seen: set<nat>, start: nat)
  {
    && 0 !in seen
    && (c.isEmpty ==> seen == {})
    && (!c.isEmpty ==> Saturated(k, seen, start, c.theta) && Elements(c.entries) == Below(seen, c.theta))
  }

  /** Copy of a sketch, sorted if requested and not sorted yet. */
  function CopyCompact(other: CompactSketch, ordered: bool): CompactSketch
  {
    var entries :=
      if other.isEmpty then []
      else if ordered && !other.isOrdered then Sort(other.entries)
      else other.entries;
    CompactSketch(other.isEmpty, other.isOrdered || ordered, other.seedHash, other.theta, entries)
  }

  lemma CopyIsValid(other: CompactSketch, ordered: bool)
    requires ValidSketch(other)
    ensures var c := CopyCompact(other, ordered);
            && ValidSketch(c) && Elements(c.entries) == Elements(other.entries) && |c.entries| == |other.entries|
            && c == other.(isOrdered := other.isOrdered || ordered, entries := c.entries)
            && (c.isOrdered ==> Ascending(c.entries))
  {
    hide Sort, Elements;
    SortAscending(other.entries);
    ValidInRange(other);
    EntriesInRange(CopyCompact(other, ordered).entries, other.theta);
  }

  lemma EntriesInRange(entries: seq<nat>, theta: nat)
    requires InRange(Elements(entries), theta)
    ensures forall i :: 0 <= i < |entries| ==> 0 < entries[i] < theta
  {
    assert forall i :: 0 <= i < |entries| ==> entries[i] in Elements(entries);
  }

  /** Absorbing one more hash keeps a table a saturated sample of what was seen. */
  lemma AbsorbKeepsSample(k: nat, keys: set<nat>, theta: nat, key: nat, keys': set<nat>, theta': nat,
                          seen: set<nat>, start: nat)
    requires Absorbed(k, keys, theta, key, keys', theta')
    requires keys == Below(seen, theta) && Saturated(k, seen, start, theta) && key < theta
    ensures keys' == Below(seen + {key}, theta') && Saturated(k, seen + {key}, start, theta')
    ensures theta' <= theta
  {
    assert keys + {key} == Below(seen + {key}, theta);
    SaturatedGrows(k, seen, start, theta, seen + {key}, start);
    if theta' != theta || keys' != keys + {key} {
      assert Below(keys + {key}, theta') == Below(seen + {key}, theta');
    }
  }

  /** The hash value zero is reserved for empty slots and never sampled. */
  function Offered(hash: nat): set<nat>
  {
    if hash == 0 then {} else {hash}
  }

  lemma ScreenedKeepsSample(k: nat, seen: set<nat>, start: nat, theta: nat, hash: nat)
    requires Saturated(k, seen, start, theta) && (hash == 0 || hash >= theta)
    ensures Saturated(k, seen + Offered(hash), start, theta)
    ensures Below(seen + Offered(hash), theta) == Below(seen, theta)
  {
    SaturatedGrows(k, seen, start, theta, seen + Offered(hash), start);
  }

  /**
   What one hash makes of the keys and theta of a sketch of nominal size 2^lgK: a new hash below theta joins them,
   and if it is one too many for the full table the smallest stay.
   */
  ghost function AfterHash(lgK: nat, s: Sample, hash: nat): Sample
  {
    if hash == 0 || hash >= s.theta || hash in s.entries then s
    else if |s.entries| + 1 > Capacity(lgK + 1, lgK) then Kmv(Pow2(lgK), s.entries + {hash}, s.theta)
    else Sample(s.entries + {hash}, s.theta)
  }

  /** The untrimmed state after a sequence of hashes. */
  ghost function AfterHashes(lgK: nat, hashes: seq<nat>, start: nat): Sample
  {
    if hashes == [] then Sample({}, start)
    else AfterHash(lgK, AfterHashes(lgK, hashes[..|hashes| - 1], start), hashes[|hashes| - 1])
  }

  lemma OfferedState(table: ThetaTable, keys: set<nat>, theta: nat, overflows: bool, num: nat, key: nat)
    requires |keys| == num && keys == Below(keys, theta) && 0 < key < theta
    requires overflows <==> num + 1 > Capacity(table.lgNom + 1, table.lgNom)
    requires key in keys || !overflows ==> table.theta == theta && table.KeySet() == keys + {key}
    requires key !in keys && overflows ==>
               && IsCutoff(Pow2(table.lgNom), keys + {key}, table.theta)
               && table.KeySet() == Below(keys + {key}, table.theta)
    ensures Sample(table.KeySet(), table.theta) == AfterHash(table.lgNom, Sample(keys, theta), key)
  {
    hide Capacity, Pow2;
    if key in keys {
      assert keys + {key} == keys;
    } else if overflows {
      KmvFromCutoff(Pow2(table.lgNom), keys + {key}, theta, table.theta);
    }
  }

  lemma ScreenedState(table: ThetaTable, hash: nat)
    requires hash == 0 || hash >= table.theta
    ensures AfterHash(table.lgNom, Sample(table.KeySet(), table.theta), hash) == Sample(table.KeySet(), table.theta)
  {
  }

  lemma SamplingRange(table: ThetaTable)
    requires table.Valid()
    ensures 0.0 < table.p <= 1.0 && |table.KeySet()| == table.numEntries
  {
  }

  class UpdateSketch {
    const table: ThetaTable
    /** the non-zero hashes offered since the last reset */
    ghost var seen: set<nat>

    ghost predicate Valid()
      reads this, table, table.entries
    {
      && table.Valid() && table.Loaded()
      && 0 !in seen
      && table.KeySet() == Below(seen, table.theta)
      && Saturated(Pow2(table.lgNom), seen, StartingTheta(table.p), table.theta)
      && (table.isEmpty ==> seen == {})
    }

    ghost function State(): Sample
      reads this, table, table.entries
    {
      Sample(table.KeySet(), table.theta)
    }

    /** As the builder makes it. */
    constructor (lgK: nat, rf: nat, p: real, seedHash: nat)
      requires MIN_LG_K <= lgK <= MAX_LG_K && 0.0 < p <= 1.0
      ensures Valid() && fresh(table) && fresh(table.entries)
      ensures seen == {} && table.isEmpty && table.lgCur == StartingSubMultiple(lgK + 1, MIN_LG_K, rf)
      ensures table.lgNom == lgK && table.rf == rf && table.p == p && table.seedHash == seedHash
    {
      LadderStart(lgK, rf);
      table := new ThetaTable(StartingSubMultiple(lgK + 1, MIN_LG_K, rf), lgK, rf, p, StartingTheta(p), seedHash, true);
      seen := {};
    }

    /** Updates the sketch with a hash: of a row, or supplied by the caller. */
    method Update(hash: nat)
      requires Valid()
      modifies this, table, table.entries
      ensures Valid() && !table.isEmpty
      ensures table.entries == old(table.entries) || fresh(table.entries)
      ensures seen == old(seen) + Offered(hash)
      ensures table.theta <= old(table.theta)
      ensures State() == AfterHash(table.lgNom, old(State()), hash)
    {
      hide Probing.WellPlaced, OnLadder, StartingTheta, Saturated, Absorbed, Capacity, Pow2, Below, Probing.Keys,
           IsCutoff, ThetaTable.Overflows, ThetaTable.Valid, ThetaTable.Loaded, AfterHash;
      SamplingRange(table);
      OverflowLimit(table);
      BelowBelow(seen, table.theta, table.theta);
      seen := seen + Offered(hash);
      var h := table.Screen(hash);
      if h != 0 {
        table.Offer(h);
        AbsorbKeepsSample(Pow2(table.lgNom), old(table.KeySet()), old(table.theta), h,
                          table.KeySet(), table.theta, old(seen), StartingTheta(table.p));
        OfferedState(table, old(table.KeySet()), old(table.theta), old(table.Overflows()), old(table.numEntries), h);
      } else {
        ScreenedState(table, hash);
        ScreenedKeepsSample(Pow2(table.lgNom), old(seen), StartingTheta(table.p), table.theta, hash);
      }
    }

    /** Cuts to the nominal size: the state becomes the reference sample of what was seen. */
    method Trim()
      requires Valid()
      modifies table, table.entries
      ensures Valid() && table.isEmpty == old(table.isEmpty) && table.theta <= old(table.theta)
      ensures table.entries == old(table.entries) || fresh(table.entries)
      ensures Sample(table.KeySet(), table.theta) == Kmv(Pow2(table.lgNom), seen, StartingTheta(table.p))
    {
      var k := Pow2(table.lgNom);
      KmvAtThreshold(k, seen, StartingTheta(table.p), table.theta);
      ghost var keys, theta := table.KeySet(), table.theta;
      table.Trim();
      if table.theta != theta {
        KmvFromCutoff(k, keys, theta, table.theta);
        assert Below(keys, table.theta) == Below(seen, table.theta);
      }
      KmvSaturated(k, seen, StartingTheta(table.p));
    }

    method Reset()
      requires Valid()
      modifies this, table, table.entries
      ensures Valid() && seen == {} && table.isEmpty
      ensures table.lgCur == StartingSubMultiple(table.lgNom + 1, MIN_LG_K, table.rf)
      ensures table.entries == old(table.entries) || fresh(table.entries)
    {
      LadderStart(table.lgNom, table.rf);
      table.Reset();
      seen := {};
    }

    /** The sketch as set operations see it: at most one entry counts as ordered. */
    method View() returns (c: CompactSketch)
      requires Valid()
      ensures ValidSketch(c) && Represents(c, Pow2(table.lgNom), seen, StartingTheta(table.p))
      ensures c.isEmpty == table.isEmpty && c.seedHash == table.seedHash && |c.entries| == table.numEntries
      ensures !table.isEmpty ==> c.theta == table.theta && Elements(c.entries) == table.KeySet()
      ensures table.isEmpty ==> c.theta == MAX_THETA
      ensures c.isOrdered <==> table.numEntries <= 1
    {
      var entries := table.Retained();
      assert forall i :: 0 <= i < |entries| ==> entries[i] in Elements(entries);
      c := CompactSketch(table.isEmpty, !(table.numEntries > 1), table.seedHash,
                         if table.isEmpty then MAX_THETA else table.theta, entries);
    }

    method Compact(ordered: bool) returns (c: CompactSketch)
      requires Valid()
      ensures ValidSketch(c) && Represents(c, Pow2(table.lgNom), seen, StartingTheta(table.p))
      ensures ordered ==> c.isOrdered && Ascending(c.entries)
      ensures c.isEmpty == table.isEmpty && c.seedHash == table.seedHash && |c.entries| == table.numEntries
      ensures !table.isEmpty ==> c.theta == table.theta && Elements(c.entries) == table.KeySet()
      ensures table.isEmpty ==> c.theta == MAX_THETA
      ensures c.isOrdered <==> ordered || table.numEntries <= 1
    {
      var view := View();
      CopyIsValid(view, ordered);
      c := CopyCompact(view, ordered);
    }
  }

  /**
   A run of updates followed by trim and ordered compaction. The outcome depends only on the set of
   hashes: not on their order or multiplicity, nor on when the table grew or was rebuilt.
   */
  method BuildAndTrim(lgK: nat, rf: nat, p: real, seedHash: nat, hashes: seq<nat>) returns (c: CompactSketch)
    requires MIN_LG_K <= lgK <= MAX_LG_K && 0.0 < p <= 1.0
    ensures ValidSketch(c) && c.isOrdered && c.seedHash == seedHash
    ensures c.isEmpty <==> hashes == []
    ensures hashes != [] ==>
              Sample(Elements(c.entries), c.theta) == Kmv(Pow2(lgK), Elements(hashes) - {0}, StartingTheta(p))
    ensures hashes == [] ==> c.entries == [] && c.theta == MAX_THETA
  {
    hide UpdateSketch.Valid, Kmv, StartingTheta, Saturated, AfterHash;
    var sketch := new UpdateSketch(lgK, rf, p, seedHash);
    for i := 0 to |hashes|
      invariant sketch.Valid() && fresh(sketch) && fresh(sketch.table) && fresh(sketch.table.entries)
      invariant sketch.seen == Elements(hashes[..i]) - {0}
      invariant sketch.table.isEmpty <==> i == 0
    {
      assert hashes[..i + 1] == hashes[..i] + [hashes[i]];
      ElementsAppend(hashes[..i], hashes[i]);
      sketch.Update(hashes[i]);
    }
    assert hashes[..|hashes|] == hashes;
    sketch.Trim();
    c := sketch.Compact(true);
  }

  /** A fresh sketch retains its first hash exactly if it is not zero and lies below the fraction `p` of all hashes. */
  method FirstHash(lgK: nat, rf: nat, p: real, seedHash: nat, hash: nat) returns (sketch: UpdateSketch)
    requires MIN_LG_K <= lgK <= MAX_LG_K && 0.0 < p <= 1.0
    ensures fresh(sketch) && sketch.Valid() && !sketch.table.isEmpty
    ensures sketch.table.KeySet() == if hash != 0 && (hash + 1) as real <= MAX_THETA as real * p then {hash} else {}
    ensures sketch.table.theta as real <= MAX_THETA as real * p < sketch.table.theta as real + 1.0
  {
    hide StartingTheta, UpdateSketch.Valid, Capacity, Kmv;
    StartingThetaIs(p, hash);
    sketch := new UpdateSketch(lgK, rf, p, seedHash);
    NothingSeen(sketch);
    CapacityCoversNominal(lgK);
    sketch.Update(hash);
  }

  lemma NothingSeen(sketch: UpdateSketch)
    requires sketch.Valid() && sketch.seen == {}
    ensures sketch.State() == Sample({}, StartingTheta(sketch.table.p))
  {
    assert Below({}, sketch.table.theta) == {};
  }

  // ---- the untrimmed state ----

  lemma NextHash(lgK: nat, hashes: seq<nat>, i: nat, start: nat)
    requires i < |hashes|
    ensures AfterHashes(lgK, hashes[..i + 1], start) == AfterHash(lgK, AfterHashes(lgK, hashes[..i], start), hashes[i])
  {
    assert hashes[..i + 1][..i] == hashes[..i];
  }

  /** As long as the full table has room for all hashes, the untrimmed state is all of them. */
  lemma {:induction false} AllFit(lgK: nat, hashes: seq<nat>, start: nat)
    requires |Below(Elements(hashes) - {0}, start)| <= Capacity(lgK + 1, lgK)
    ensures AfterHashes(lgK, hashes, start) == Sample(Below(Elements(hashes) - {0}, start), start)
  {
    hide Capacity, Elements;
    NoElements(hashes);
    if hashes == [] {
      assert hashes[..0] == hashes;
    } else {
      var n := |hashes| - 1;
      var before, h := Below(Elements(hashes[..n]) - {0}, start), hashes[n];
      assert hashes == hashes[..n] + [h];
      ElementsAppend(hashes[..n], h);
      var after := Below(Elements(hashes) - {0}, start);
      assert after == if h == 0 || h >= start then before else before + {h};
      SubsetCard(before, after);
      AllFit(lgK, hashes[..n], start);
      if h in before { assert after == before; }
    }
  }

  /** The numbers from `first` to below `end`. */
  function Span(first: nat, end: nat): (r: set<nat>)
    requires first <= end
    ensures |r| == end - first && forall h: nat :: h in r <==> first <= h < end
    decreases end
  {
    if first == end then {} else Span(first, end - 1) + {end - 1}
  }

  lemma KmvOfSpan(k: nat, first: nat, end: nat, theta: nat)
    requires first + k < end <= theta
    ensures Kmv(k, Span(first, end), theta) == Sample(Span(first, first + k), first + k)
    ensures |Span(first, first + k)| == k
  {
    hide Span;
    assert Below(Span(first, end), first + k) == Span(first, first + k);
    KmvFromCutoff(k, Span(first, end), theta, first + k);
  }

  function Rising(n: nat): (s: seq<nat>)
    ensures |s| == n && forall i :: 0 <= i < n ==> s[i] == i + 1
  {
    seq(n, i requires 0 <= i < n => i + 1)
  }

  function Falling(n: nat): (s: seq<nat>)
    ensures |s| == n && forall i :: 0 <= i < n ==> s[i] == n - i
  {
    seq(n, i requires 0 <= i < n => n - i)
  }

  lemma RisingPrefix(n: nat, m: nat)
    requires m <= n
    ensures Elements(Rising(n)[..m]) == Span(1, m + 1)
  {
    hide Rising;
    var s := Rising(n)[..m];
    assert forall i :: 0 <= i < m ==> s[i] == i + 1;
    forall h | 1 <= h < m + 1
      ensures h in s
    {
      assert s[h - 1] == h;
    }
  }

  lemma FallingPrefix(n: nat, m: nat)
    requires m <= n
    ensures Elements(Falling(n)[..m]) == Span(n - m + 1, n + 1)
  {
    hide Falling;
    var s := Falling(n)[..m];
    assert forall i :: 0 <= i < m ==> s[i] == n - i;
    forall h | n - m + 1 <= h < n + 1
      ensures h in s
    {
      assert s[n - h] == h;
    }
  }

  lemma FullTable()
    ensures Capacity(13, 12) == 7680 && Pow2(12) == 4096
  {
    assert Pow2(6) == 64;
    Pow2Add(6, 6);
    assert Pow2(13) == 2 * Pow2(12);
  }

  /** A prefix that the full table has room for. */
  lemma PrefixFits(hashes: seq<nat>, first: nat, end: nat)
    requires 0 < first <= end <= MAX_THETA && end - first <= 7680 && Elements(hashes) == Span(first, end)
    ensures AfterHashes(12, hashes, MAX_THETA) == Sample(Span(first, end), MAX_THETA)
  {
    hide Capacity, Pow2, Elements, AfterHashes, Span;
    FullTable();
    assert Below(Span(first, end) - {0}, MAX_THETA) == Span(first, end);
    AllFit(12, hashes, MAX_THETA);
  }

  /** With more hashes than that, how many are retained depends on their order: 4096 of 1 to 7682, or one more. */
  lemma CountDependsOnOrder()
    ensures Elements(Rising(7682)) == Elements(Falling(7682))
    ensures |AfterHashes(12, Rising(7682), MAX_THETA).entries| == 4096
    ensures |AfterHashes(12, Falling(7682), MAX_THETA).entries| == 4097
  {
    hide AfterHashes, Rising, Falling, Elements, Span;
    RisingPrefix(7682, 7682);
    FallingPrefix(7682, 7682);
    assert Rising(7682)[..7682] == Rising(7682) && Falling(7682)[..7682] == Falling(7682);
    RisingCount();
    FallingCount();
  }

  lemma RisingCount()
    ensures |AfterHashes(12, Rising(7682), MAX_THETA).entries| == 4096
  {
    hide Capacity, Pow2, AfterHashes, Rising, Elements, Kmv, Span;
    var s := Rising(7682);
    FullTable();
    RisingPrefix(7682, 7680);
    PrefixFits(s[..7680], 1, 7681);
    NextHash(12, s, 7680, MAX_THETA);
    assert Span(1, 7681) + {7681} == Span(1, 7682);
    KmvOfSpan(4096, 1, 7682, MAX_THETA);
    NextHash(12, s, 7681, MAX_THETA);
    assert s[..7682] == s;
  }

  lemma FallingCount()
    ensures |AfterHashes(12, Falling(7682), MAX_THETA).entries| == 4097
  {
    hide Capacity, Pow2, AfterHashes, Falling, Elements, Kmv, Span;
    var s := Falling(7682);
    FullTable();
    FallingPrefix(7682, 7680);
    PrefixFits(s[..7680], 3, 7683);
    NextHash(12, s, 7680, MAX_THETA);
    assert Span(3, 7683) + {2} == Span(2, 7683);
    KmvOfSpan(4096, 2, 7683, MAX_THETA);
    NextHash(12, s, 7681, MAX_THETA);
    assert s[..7682] == s;
    assert Span(2, 4098) + {1} == Span(1, 4098);
  }

  // ---- any run of operations ----

  datatype Operation = UpdateWith(hash: nat) | TrimNow | ResetNow

  /** The non-zero hashes offered since the last reset. */
  function SeenAfter(run: seq<Operation>): set<nat>
  {
    if run == [] then {}
    else
      var before := SeenAfter(run[..|run| - 1]);
      match run[|run| - 1]
      case UpdateWith(hash) => before + Offered(hash)
      case TrimNow => before
      case ResetNow => {}
  }

  /** Whether nothing was offered since the last reset. */
  predicate EmptyAfter(run: seq<Operation>)
  {
    run == [] || run[|run| - 1].ResetNow? || (run[|run| - 1].TrimNow? && EmptyAfter(run[..|run| - 1]))
  }

  /** A hash counts as seen if it is not zero and was offered with no reset after it. */
  lemma {:induction false} SeenIs(run: seq<Operation>, h: nat)
    ensures h in SeenAfter(run) <==>
            h != 0 && exists i :: 0 <= i < |run| && run[i] == UpdateWith(h) && NoReset(run, i + 1)
  {
    if run != [] {
      var n := |run| - 1;
      SeenIs(run[..n], h);
      assert forall i :: 0 <= i <= n ==> (NoReset(run, i) <==> NoReset(run[..n], i) && !run[n].ResetNow?);
      if h != 0 && exists i :: 0 <= i < n && run[..n][i] == UpdateWith(h) && NoReset(run[..n], i + 1) {
        var i :| 0 <= i < n && run[..n][i] == UpdateWith(h) && NoReset(run[..n], i + 1);
        assert run[i] == UpdateWith(h);
      }
      if run[n] == UpdateWith(h) { assert NoReset(run, n + 1); }
    }
  }

  predicate NoReset(run: seq<Operation>, from: nat)
  {
    forall j :: from <= j < |run| ==> !run[j].ResetNow?
  }

  /** The sketch is empty if a reset follows every update. */
  lemma {:induction false} EmptyIs(run: seq<Operation>)
    ensures EmptyAfter(run) <==> forall i :: 0 <= i < |run| && run[i].UpdateWith? ==> !NoReset(run, i + 1)
  {
    if run != [] {
      var n := |run| - 1;
      EmptyIs(run[..n]);
      assert forall i :: 0 <= i <= n ==> (NoReset(run, i) <==> NoReset(run[..n], i) && !run[n].ResetNow?);
      assert NoReset(run, n + 1);
      if run[n].TrimNow? && !EmptyAfter(run[..n]) {
        var i :| 0 <= i < n && run[..n][i].UpdateWith? && NoReset(run[..n], i + 1);
        assert run[i].UpdateWith? && NoReset(run, i + 1);
      }
      if run[n].TrimNow? && EmptyAfter(run[..n]) {
        forall i | 0 <= i < |run| && run[i].UpdateWith?
          ensures !NoReset(run, i + 1)
        {
          assert run[..n][i].UpdateWith?;
        }
      }
    }
  }

  /**
   Every reachable state retains exactly the seen hashes below theta; theta is the starting one or a seen hash
   with at least k below it; and theta never rises but by a reset. `thetas` records theta after each operation.
   */
  method Perform(run: seq<Operation>, lgK: nat, rf: nat, p: real, seedHash: nat)
    returns (sketch: UpdateSketch, ghost thetas: seq<nat>)
    requires MIN_LG_K <= lgK <= MAX_LG_K && 0.0 < p <= 1.0
    ensures fresh(sketch) && fresh(sketch.table) && fresh(sketch.table.entries) && sketch.Valid()
    ensures sketch.table.lgNom == lgK && sketch.table.p == p && sketch.table.seedHash == seedHash
    ensures sketch.seen == SeenAfter(run) && sketch.table.isEmpty == EmptyAfter(run)
    ensures sketch.table.KeySet() == Below(SeenAfter(run), sketch.table.theta)
    ensures Saturated(Pow2(lgK), SeenAfter(run), StartingTheta(p), sketch.table.theta)
    ensures |thetas| == |run| + 1 && thetas[|run|] == sketch.table.theta
    ensures forall i :: 0 <= i < |run| && !run[i].ResetNow? ==> thetas[i + 1] <= thetas[i]
  {
    hide UpdateSketch.Valid, Kmv, StartingTheta, Saturated, IsCutoff, Offered, AfterHash;
    sketch := new UpdateSketch(lgK, rf, p, seedHash);
    thetas := [sketch.table.theta];
    for i := 0 to |run|
      invariant sketch.Valid() && fresh(sketch) && fresh(sketch.table) && fresh(sketch.table.entries)
      invariant sketch.seen == SeenAfter(run[..i]) && sketch.table.isEmpty == EmptyAfter(run[..i])
      invariant |thetas| == i + 1 && thetas[i] == sketch.table.theta
      invariant forall j :: 0 <= j < i && !run[j].ResetNow? ==> thetas[j + 1] <= thetas[j]
    {
      assert run[..i + 1][..i] == run[..i];
      match run[i] {
        case UpdateWith(hash) => sketch.Update(hash);
        case TrimNow => sketch.Trim();
        case ResetNow => sketch.Reset();
      }
      thetas := thetas + [sketch.table.theta];
    }
    assert run[..|run|] == run;
    InvariantOf(sketch);
  }

  lemma InvariantOf(sketch: UpdateSketch)
    requires sketch.Valid()
    ensures sketch.table.KeySet() == Below(sketch.seen, sketch.table.theta)
    ensures Saturated(Pow2(sketch.table.lgNom), sketch.seen, StartingTheta(sketch.table.p), sketch.table.theta)
  {
  }

  /** Trims in between change nothing of what a final trim leaves. */
  method PerformAndTrim(run: seq<Operation>, lgK: nat, rf: nat, p: real, seedHash: nat) returns (c: CompactSketch)
    requires MIN_LG_K <= lgK <= MAX_LG_K && 0.0 < p <= 1.0
    ensures ValidSketch(c) && c.isOrdered && c.seedHash == seedHash
    ensures c.isEmpty == EmptyAfter(run)
    ensures !EmptyAfter(run) ==>
              Sample(Elements(c.entries), c.theta) == Kmv(Pow2(lgK), SeenAfter(run), StartingTheta(p))
  {
    hide UpdateSketch.Valid, Kmv, StartingTheta, Saturated, AfterHash;
    ghost var thetas;
    var sketch: UpdateSketch;
    sketch, thetas := Perform(run, lgK, rf, p, seedHash);
    sketch.Trim();
    c := sketch.Compact(true);
  }
}
