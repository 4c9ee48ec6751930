/** The union operator: a table with its own theta, and the lowest theta seen so far. */
module Unions {
  import opened Bits
  import opened Sequences
  import opened KMinimumValues
  import opened Sizing
  import Probing
  import opened UpdateTable
  import opened Sketches

  /**
   What a union knows after seeing the entries `all` under the lowest theta `low`: below its
   effective threshold `m` the table holds exactly what was seen.
   */
  ghost predicate Tracks(k: nat, keys: set<nat>, tableTheta: nat, m: nat, done: set<nat>, all: set<nat>, low: nat)
  {
    && done <= all && keys <= all
    && keys == Below(keys, tableTheta)
    && Below(keys, m) == Below(done, m)
    && Saturated(k, all, low, m)
  }

  lemma AbsorbKeepsTracking(k: nat, keys: set<nat>, theta: nat, key: nat, keys': set<nat>, theta': nat,
                            unionTheta: nat, done: set<nat>, all: set<nat>, low: nat)
    requires Absorbed(k, keys, theta, key, keys', theta')
    requires Tracks(k, keys, theta, Min(unionTheta, theta), done, all, low)
    requires key in all && key < theta
    ensures Tracks(k, keys', theta', Min(unionTheta, theta'), done + {key}, all, low)
  {
    var m, m' := Min(unionTheta, theta), Min(unionTheta, theta');
    if theta' == theta && keys' == keys + {key} {
      assert Below(keys', m) == Below(Below(keys, m) + {key}, m);
      assert Below(done + {key}, m) == Below(Below(done, m) + {key}, m);
    } else {
      BelowBelow(keys + {key}, theta', m');
      assert theta' in keys ==> theta' in Below(keys, theta);
      assert m' <= m;
      assert Below(keys + {key}, m') == Below(Below(keys, m) + {key}, m');
      assert Below(done + {key}, m') == Below(Below(done, m) + {key}, m');
      SubsetCard(Below(keys + {key}, theta'), Below(all, theta'));
    }
  }

  /** A hash at or above the effective threshold changes nothing below it. */
  lemma SkipKeepsTracking(k: nat, keys: set<nat>, theta: nat, key: nat, m: nat, done: set<nat>, all: set<nat>, low: nat)
    requires Tracks(k, keys, theta, m, done, all, low)
    requires key in all && key >= m
    ensures Tracks(k, keys, theta, m, done + {key}, all, low)
  {
    assert Below(done + {key}, m) == Below(done, m);
  }

  /** Early stop: nothing in the rest of an ordered input lies below the threshold. */
  lemma StopKeepsTracking(k: nat, keys: set<nat>, theta: nat, m: nat, before: set<nat>, entries: seq<nat>, i: nat,
                          all: set<nat>, low: nat)
    requires i < |entries| && Ascending(entries) && entries[i] >= m
    requires Tracks(k, keys, theta, m, before + Elements(entries[..i]), all, low)
    requires before + Elements(entries) <= all
    ensures Tracks(k, keys, theta, m, before + Elements(entries), all, low)
  {
    forall x | x in Elements(entries) && x < m
      ensures x in Elements(entries[..i])
    {
      var j :| 0 <= j < |entries| && entries[j] == x;
      assert j < i;
      assert entries[..i][j] == x;
    }
    assert Below(before + Elements(entries), m) == Below(before + Elements(entries[..i]), m);
  }

  /** A new input lowers the threshold and enlarges what must be tracked. */
  lemma InputKeepsTracking(k: nat, keys: set<nat>, theta: nat, m: nat, all: set<nat>, low: nat,
                           all': set<nat>, inputTheta: nat)
    requires Tracks(k, keys, theta, m, all, all, low) && all <= all'
    ensures Tracks(k, keys, theta, Min(m, inputTheta), all, all', Min(low, inputTheta))
  {
    SaturatedGrows(k, all, low, m, all', Min(low, inputTheta));
    BelowBelow(keys, m, inputTheta);
    BelowBelow(all, m, inputTheta);
  }

  class Union {
    const table: ThetaTable
    var unionTheta: nat
    /** the entries of all non-empty inputs, and the lowest of their thetas and the starting one */
    ghost var all: set<nat>
    ghost var low: nat

    ghost predicate Valid()
      reads this, table, table.entries
    {
      && table.Valid() && table.Loaded()
      && unionTheta <= table.theta
      && 0 !in all && low <= StartingTheta(table.p)
      && Tracks(Pow2(table.lgNom), table.KeySet(), table.theta, unionTheta, all, all, low)
      && (table.isEmpty ==> all == {} && low == StartingTheta(table.p))
    }

    constructor (lgK: nat, rf: nat, p: real, seedHash: nat)
      requires MIN_LG_K <= lgK <= MAX_LG_K && 0.0 < p <= 1.0
      ensures Valid() && fresh(table) && fresh(table.entries)
      ensures all == {} && low == StartingTheta(p) && table.isEmpty
      ensures table.lgNom == lgK && table.p == p && table.seedHash == seedHash
    {
      LadderStart(lgK, rf);
      table := new ThetaTable(StartingSubMultiple(lgK + 1, MIN_LG_K, rf), lgK, rf, p, StartingTheta(p), seedHash, true);
      unionTheta := StartingTheta(p);
      all, low := {}, StartingTheta(p);
    }

    /** Adds a sketch; `false` is the source's "seed hash mismatch" error. */
    method Update(sketch: CompactSketch) returns (ok: bool)
      requires Valid() && ValidSketch(sketch)
      modifies this, table, table.entries
      ensures Valid() && (table.entries == old(table.entries) || fresh(table.entries))
      ensures ok <==> sketch.isEmpty || sketch.seedHash == table.seedHash
      ensures ok && !sketch.isEmpty ==>
                !table.isEmpty && all == old(all) + Elements(sketch.entries) && low == Min(old(low), sketch.theta)
      ensures !ok || sketch.isEmpty ==>
                && table.isEmpty == old(table.isEmpty) && all == old(all) && low == old(low)
                && unionTheta == old(unionTheta) && table.theta == old(table.theta)
                && table.KeySet() == old(table.KeySet())
    {
      hide ValidSketch, Elements, ThetaTable.Valid, ThetaTable.Loaded, Tracks;
      if sketch.isEmpty { return true; }
      if sketch.seedHash != table.seedHash { return false; }
      Accept(sketch);
      return true;
    }

    method Accept(sketch: CompactSketch)
      requires Valid() && ValidSketch(sketch)
      modifies this, table, table.entries
      ensures Valid() && (table.entries == old(table.entries) || fresh(table.entries))
      ensures !table.isEmpty && all == old(all) + Elements(sketch.entries) && low == Min(old(low), sketch.theta)
    {
      hide Probing.WellPlaced, OnLadder, StartingTheta, Tracks, Absorbed, Capacity, Pow2, Below, Probing.Keys, Elements,
           ValidSketch, Distinct, Ascending;
      ghost var before, k := all, Pow2(table.lgNom);
      SketchScanned(sketch);
      all, low := all + Elements(sketch.entries), Min(low, sketch.theta);
      InputKeepsTracking(k, table.KeySet(), table.theta, unionTheta, before, old(low), all, sketch.theta);
      table.isEmpty := false;
      unionTheta := Min(unionTheta, sketch.theta);
      Scan(sketch.entries, sketch.isOrdered, before);
      unionTheta := Min(unionTheta, table.theta);
    }

    /** Offers the entries of one input to the table. */
    method Scan(entries: seq<nat>, isOrdered: bool, ghost before: set<nat>)
      requires table.Valid() && table.Loaded() && unionTheta <= table.theta
      requires 0 !in entries && (isOrdered ==> Ascending(entries))
      requires all == before + Elements(entries)
      requires Tracks(Pow2(table.lgNom), table.KeySet(), table.theta, unionTheta, before, all, low)
      modifies table, table.entries
      ensures table.Valid() && table.Loaded() && table.isEmpty == old(table.isEmpty)
      ensures table.entries == old(table.entries) || fresh(table.entries)
      ensures Tracks(Pow2(table.lgNom), table.KeySet(), table.theta, Min(unionTheta, table.theta), all, all, low)
    {
      hide Probing.WellPlaced, OnLadder, StartingTheta, Tracks, Absorbed, Capacity, Pow2, Below, Probing.Keys, Elements;
      ghost var k := Pow2(table.lgNom);
      assert before + Elements(entries[..0]) == before by { NoElements(entries); }
      for i := 0 to |entries|
        invariant table.Valid() && table.Loaded() && table.isEmpty == old(table.isEmpty)
        invariant table.entries == old(table.entries) || fresh(table.entries)
        invariant Tracks(k, table.KeySet(), table.theta, Min(unionTheta, table.theta),
                         before + Elements(entries[..i]), all, low)
      {
        var hash := entries[i];
        PrefixStep(before, entries, i);
        if hash < unionTheta && hash < table.theta {
          ghost var keys, theta := table.KeySet(), table.theta;
          table.Offer(hash);
          AbsorbKeepsTracking(k, keys, theta, hash, table.KeySet(), table.theta, unionTheta,
                              before + Elements(entries[..i]), all, low);
        } else {
          if isOrdered {
            StopKeepsTracking(k, table.KeySet(), table.theta, Min(unionTheta, table.theta), before, entries, i,
                              all, low);
            return;
          }
          SkipKeepsTracking(k, table.KeySet(), table.theta, hash, Min(unionTheta, table.theta),
                            before + Elements(entries[..i]), all, low);
        }
      }
      assert entries[..|entries|] == entries;
    }

    /** The result, whatever the order, kind and early stops of the inputs: the sample of all entries. */
    method GetResult(ordered: bool) returns (c: CompactSketch)
      requires Valid()
      ensures ValidSketch(c) && c.seedHash == table.seedHash && c.isEmpty == table.isEmpty
      ensures Sample(Elements(c.entries), c.theta) == Kmv(Pow2(table.lgNom), all, low)
      ensures c.isOrdered <==> ordered || |c.entries| <= 1
    {
      hide Probing.WellPlaced, OnLadder, StartingTheta, Capacity, Pow2, Probing.Keys, Elements, Below, Saturated,
           ValidSketch, InRange, Distinct, Ascending;
      ghost var k := Pow2(table.lgNom);
      KmvAtThreshold(k, all, low, unionTheta);
      SampleInRange(k, all, low, unionTheta);
      if table.isEmpty {
        return MakeCompact(true, true, table.seedHash, unionTheta, []);
      }
      var entries, theta := Collect();
      entries, theta := CutToNominal(entries, theta, Pow2(table.lgNom), all);
      if ordered {
        SortAscending(entries);
        entries := Sort(entries);
      }
      MadeValid(table.isEmpty, ordered, table.seedHash, theta, entries);
      c := MakeCompact(table.isEmpty, ordered, table.seedHash, theta, entries);
    }

    /** The keys of the table below the effective threshold. */
    method Collect() returns (entries: seq<nat>, theta: nat)
      requires Valid()
      ensures theta == unionTheta && Distinct(entries) && Elements(entries) == Below(all, theta)
    {
      hide Probing.WellPlaced, OnLadder, StartingTheta, Capacity, Pow2, Probing.Keys, NonZero;
      theta := Min(unionTheta, table.theta);
      entries := table.Retained();
      if unionTheta < table.theta {
        KeptElements(entries, theta, {});
        KeptDistinct(entries, theta, {});
        entries := Keep(entries, theta, {});
      }
    }

    method Reset()
      requires Valid()
      modifies this, table, table.entries
      ensures Valid() && all == {} && low == StartingTheta(table.p) && table.isEmpty
      ensures table.entries == old(table.entries) || fresh(table.entries)
    {
      LadderStart(table.lgNom, table.rf);
      table.Reset();
      unionTheta := table.theta;
      all, low := {}, unionTheta;
    }
  }

  lemma SketchScanned(c: CompactSketch)
    requires ValidSketch(c)
    ensures 0 !in c.entries && 0 !in Elements(c.entries) && (c.isOrdered ==> Ascending(c.entries))
  {
  }

  /** Keeps the `nominal` smallest of the distinct hashes below theta, if there are more. */
  method CutToNominal(entries: seq<nat>, theta: nat, nominal: nat, ghost all: set<nat>)
    returns (kept: seq<nat>, cut: nat)
    requires Distinct(entries) && Elements(entries) == Below(all, theta)
    ensures Distinct(kept) && Elements(kept) == Below(all, cut) && cut <= theta
    ensures Sample(Elements(kept), cut) == Kmv(nominal, all, theta)
  {
    hide Elements, Below;
    DistinctCount(entries);
    kept, cut := entries, theta;
    if |entries| > nominal {
      var split := NthElement(entries, nominal);
      SplitIsCutoff(entries, split, nominal);
      KmvFromSplit(nominal, all, theta, split[nominal]);
      cut := split[nominal];
      kept := split[..nominal];
    }
  }

  lemma SampleInRange(k: nat, all: set<nat>, low: nat, m: nat)
    requires Saturated(k, all, low, m) && low <= MAX_THETA && 0 !in all
    ensures m <= MAX_THETA
    ensures forall theta :: InRange(Below(all, theta), theta)
    ensures all == {} ==>
              && m == low && Kmv(k, all, low) == Sample({}, low) && Elements([]) == {}
              && ValidSketch(MakeCompact(true, true, 0, m, []))
    ensures forall seedHash :: all == {} ==> ValidSketch(MakeCompact(true, true, seedHash, m, []))
  {
    if all == {} { assert Below(all, low) == {}; }
  }

  lemma PrefixStep(before: set<nat>, entries: seq<nat>, i: nat)
    requires i < |entries|
    ensures before + Elements(entries[..i + 1]) == before + Elements(entries[..i]) + {entries[i]}
    ensures entries[i] in Elements(entries)
  {
    assert entries[..i + 1] == entries[..i] + [entries[i]];
    ElementsAppend(entries[..i], entries[i]);
  }

  /** Cutting what is below `theta` to the nominal size is the reference sample. */
  lemma KmvFromSplit(k: nat, all: set<nat>, theta: nat, cut: nat)
    requires IsCutoff(k, Below(all, theta), cut)
    ensures Kmv(k, all, theta) == Sample(Below(Below(all, theta), cut), cut)
    ensures cut < theta && Below(Below(all, theta), cut) == Below(all, cut)
  {
    BelowBelow(all, theta, cut);
    KmvFromCutoff(k, all, theta, cut);
  }

  // ---- the union of any number of sketches ----

  function AllEntries(inputs: seq<CompactSketch>): set<nat>
  {
    if inputs == [] then {}
    else AllEntries(inputs[..|inputs| - 1]) + Elements(inputs[|inputs| - 1].entries)
  }

  /** The lowest of a starting threshold and the thetas of the non-empty inputs. */
  function LowestOf(inputs: seq<CompactSketch>, start: nat): nat
  {
    if inputs == [] then start
    else
      var rest, c := LowestOf(inputs[..|inputs| - 1], start), inputs[|inputs| - 1];
      if c.isEmpty then rest else Min(rest, c.theta)
  }

  lemma {:induction false} AllEntriesIs(inputs: seq<CompactSketch>, h: nat)
    ensures h in AllEntries(inputs) <==> exists i :: 0 <= i < |inputs| && h in inputs[i].entries
  {
    if inputs != [] {
      var n := |inputs| - 1;
      AllEntriesIs(inputs[..n], h);
      assert forall i :: 0 <= i < n ==> inputs[..n][i] == inputs[i];
      if h in AllEntries(inputs[..n]) {
        var i :| 0 <= i < n && h in inputs[..n][i].entries;
        assert h in inputs[i].entries;
      }
    }
  }

  /** A bound from below holds of the lowest theta if it holds of the start and of every non-empty input. */
  lemma {:induction false} LowestOfIs(inputs: seq<CompactSketch>, start: nat, bound: nat)
    ensures bound <= LowestOf(inputs, start) <==>
            bound <= start && forall i :: 0 <= i < |inputs| && !inputs[i].isEmpty ==> bound <= inputs[i].theta
  {
    if inputs != [] {
      LowestOfIs(inputs[..|inputs| - 1], start, bound);
      assert inputs == inputs[..|inputs| - 1] + [inputs[|inputs| - 1]];
    }
  }

  lemma LowestAtMostStart(inputs: seq<CompactSketch>, start: nat)
    ensures LowestOf(inputs, start) <= start
  {
    LowestOfIs(inputs, start, LowestOf(inputs, start));
  }

  /** Two lists of inputs together. */
  lemma {:induction false} EntriesTogether(a: seq<CompactSketch>, b: seq<CompactSketch>, start: nat)
    ensures AllEntries(a + b) == AllEntries(a) + AllEntries(b)
    ensures LowestOf(a + b, start) == Min(LowestOf(a, start), LowestOf(b, start))
    decreases |b|
  {
    LowestAtMostStart(a, start);
    if b == [] {
      assert a + b == a;
    } else {
      var n := |b| - 1;
      EntriesTogether(a, b[..n], start);
      assert (a + b)[..|a + b| - 1] == a + b[..n] && (a + b)[|a + b| - 1] == b[n];
    }
  }

  /** What a union is a function of does not depend on the order or repetition of the inputs. */
  lemma UnionIgnoresOrder(a: seq<CompactSketch>, b: seq<CompactSketch>, start: nat)
    requires forall c :: c in a <==> c in b
    ensures AllEntries(a) == AllEntries(b) && LowestOf(a, start) == LowestOf(b, start)
  {
    hide AllEntries, LowestOf;
    forall h: nat
      ensures h in AllEntries(a) <==> h in AllEntries(b)
    {
      AllEntriesIs(a, h);
      AllEntriesIs(b, h);
      assert forall i :: 0 <= i < |a| ==> a[i] in b;
      assert forall i :: 0 <= i < |b| ==> b[i] in a;
    }
    LowestAtMost(a, b, start);
    LowestAtMost(b, a, start);
  }

  lemma LowestAtMost(a: seq<CompactSketch>, b: seq<CompactSketch>, start: nat)
    requires forall c :: c in b ==> c in a
    ensures LowestOf(a, start) <= LowestOf(b, start)
  {
    hide LowestOf;
    LowestOfIs(a, start, LowestOf(a, start));
    LowestOfIs(b, start, LowestOf(a, start));
    assert forall i :: 0 <= i < |b| ==> b[i] in a;
  }

  /**
   A run of the operator over any inputs: its result is the sample of capacity 2^lgK of all their entries
   from the lowest of their thetas. `false` is a seed hash mismatch.
   */
  method UnionOfAll(inputs: seq<CompactSketch>, lgK: nat, rf: nat, p: real, seedHash: nat)
    returns (ok: bool, c: CompactSketch)
    requires MIN_LG_K <= lgK <= MAX_LG_K && 0.0 < p <= 1.0
    requires forall i :: 0 <= i < |inputs| ==> ValidSketch(inputs[i])
    ensures ok <==> forall i :: 0 <= i < |inputs| ==> inputs[i].isEmpty || inputs[i].seedHash == seedHash
    ensures ok ==>
              && ValidSketch(c) && c.isOrdered && c.seedHash == seedHash
              && (c.isEmpty <==> forall i :: 0 <= i < |inputs| ==> inputs[i].isEmpty)
              && Sample(Elements(c.entries), c.theta) ==
                 Kmv(Pow2(lgK), AllEntries(inputs), LowestOf(inputs, StartingTheta(p)))
  {
    hide ValidSketch, Kmv, Union.Valid, StartingTheta, Pow2, Elements;
    var u := new Union(lgK, rf, p, seedHash);
    for i := 0 to |inputs|
      invariant u.Valid() && fresh(u) && fresh(u.table) && fresh(u.table.entries)
      invariant u.all == AllEntries(inputs[..i]) && u.low == LowestOf(inputs[..i], StartingTheta(p))
      invariant u.table.isEmpty <==> forall j :: 0 <= j < i ==> inputs[j].isEmpty
      invariant forall j :: 0 <= j < i ==> inputs[j].isEmpty || inputs[j].seedHash == seedHash
    {
      InputsStep(inputs, i, StartingTheta(p));
      var accepted := u.Update(inputs[i]);
      if !accepted { return false, CompactSketch(true, true, seedHash, MAX_THETA, []); }
    }
    assert inputs[..|inputs|] == inputs;
    c := u.GetResult(true);
    ok := true;
  }

  lemma InputsStep(inputs: seq<CompactSketch>, i: nat, start: nat)
    requires i < |inputs| && ValidSketch(inputs[i])
    ensures AllEntries(inputs[..i + 1]) ==
            if inputs[i].isEmpty then AllEntries(inputs[..i]) else AllEntries(inputs[..i]) + Elements(inputs[i].entries)
    ensures LowestOf(inputs[..i + 1], start) ==
            if inputs[i].isEmpty then LowestOf(inputs[..i], start)
            else Min(LowestOf(inputs[..i], start), inputs[i].theta)
  {
    assert inputs[..i + 1][..i] == inputs[..i];
  }
}
