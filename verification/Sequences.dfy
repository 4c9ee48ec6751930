/** Sequences of hashes as they sit in arrays and vectors, and the library algorithms run on them. */
module Sequences {
  import opened KMinimumValues

  function Elements(s: seq<nat>): set<nat>
  {
    set x | x in s
  }

  ghost predicate Distinct(s: seq<nat>)
  {
    forall i, j :: 0 <= i < j < |s| ==> s[i] != s[j]
  }

  ghost predicate Ascending(s: seq<nat>)
  {
    forall i, j :: 0 <= i < j < |s| ==> s[i] < s[j]
  }

  lemma {:induction false} DistinctCount(s: seq<nat>)
    requires Distinct(s)
    ensures |Elements(s)| == |s|
  {
    if s != [] {
      var n := |s| - 1;
      DistinctCount(s[..n]);
      ElementsAppend(s[..n], s[n]);
      assert s == s[..n] + [s[n]];
    }
  }

  lemma ElementsMember(s: seq<nat>, x: nat)
    ensures x in Elements(s) <==> x in s
  {
  }

  lemma EmptyElements(s: seq<nat>)
    ensures s == [] <==> Elements(s) == {}
  {
    if s != [] { assert s[0] in Elements(s); }
  }

  lemma AllMembers(s: seq<nat>)
    ensures forall h: nat :: h in Elements(s) <==> h in s
  {
  }

  lemma NoElements(s: seq<nat>)
    ensures Elements(s[..0]) == {}
  {
  }

  lemma ElementsAppend(s: seq<nat>, x: nat)
    ensures Elements(s + [x]) == Elements(s) + {x}
  {
    assert (s + [x])[|s|] == x;
    forall y | y in Elements(s)
      ensures y in Elements(s + [x])
    {
      var i :| 0 <= i < |s| && s[i] == y;
      assert (s + [x])[i] == y;
    }
  }

  lemma NextElement(s: seq<nat>, i: nat)
    requires i < |s| && Distinct(s)
    ensures Elements(s[..i + 1]) == Elements(s[..i]) + {s[i]} && s[i] !in Elements(s[..i])
  {
    assert s[..i + 1] == s[..i] + [s[i]];
    ElementsAppend(s[..i], s[i]);
  }

  lemma DistinctByMultiplicity(s: seq<nat>)
    ensures Distinct(s) <==> forall x :: multiset(s)[x] <= 1
  {
    MultiplicityBounds(s);
    if Distinct(s) {
      forall x
        ensures multiset(s)[x] <= 1
      {
        DistinctMultiplicity(s, x);
      }
    }
  }

  lemma {:induction false} MultiplicityBounds(s: seq<nat>)
    ensures forall i, j :: 0 <= i < j < |s| && s[i] == s[j] ==> multiset(s)[s[i]] >= 2
  {
    forall i, j | 0 <= i < j < |s| && s[i] == s[j]
      ensures multiset(s)[s[i]] >= 2
    {
      assert s == s[..i] + [s[i]] + s[i + 1..j] + [s[j]] + s[j + 1..];
    }
  }

  lemma {:induction false} DistinctMultiplicity(s: seq<nat>, x: nat)
    requires Distinct(s)
    ensures multiset(s)[x] == if x in s then 1 else 0
  {
    if s != [] {
      var n := |s| - 1;
      assert s == s[..n] + [s[n]];
      DistinctMultiplicity(s[..n], x);
    }
  }

  /** Rearranging a sequence keeps its elements and their distinctness. */
  lemma Rearranged(s: seq<nat>, r: seq<nat>)
    requires multiset(s) == multiset(r)
    ensures |s| == |r| && Elements(s) == Elements(r) && (Distinct(s) <==> Distinct(r))
  {
    assert |multiset(s)| == |s| && |multiset(r)| == |r|;
    DistinctByMultiplicity(s);
    DistinctByMultiplicity(r);
    assert forall x :: x in s <==> x in multiset(s);
    assert forall x :: x in r <==> x in multiset(r);
  }

  // ---- skipping empty slots ----

  /** The non-zero entries, in order. */
  function NonZero(s: seq<nat>): seq<nat>
  {
    if s == [] then []
    else NonZero(s[..|s| - 1]) + if s[|s| - 1] != 0 then [s[|s| - 1]] else []
  }

  lemma NonZeroAppend(s: seq<nat>, x: nat)
    ensures NonZero(s + [x]) == NonZero(s) + if x != 0 then [x] else []
  {
    assert (s + [x])[..|s|] == s;
  }

  lemma {:induction false} NonZeroElements(s: seq<nat>)
    ensures Elements(NonZero(s)) == Elements(s) - {0}
    ensures |NonZero(s)| <= |s|
  {
    hide Elements;
    NoElements(s);
    if s != [] {
      var n := |s| - 1;
      assert s == s[..n] + [s[n]];
      NonZeroElements(s[..n]);
      ElementsAppend(s[..n], s[n]);
      ElementsAppend(NonZero(s[..n]), s[n]);
      var before := Elements(s[..n]);
      assert (before + {s[n]}) - {0} == (before - {0}) + if s[n] != 0 then {s[n]} else {};
      assert (before - {0}) + {} == before - {0} && NonZero(s[..n]) + [] == NonZero(s[..n]);
    } else {
      assert s[..0] == s == NonZero(s);
    }
  }

  lemma {:induction false} NonZeroOfUniform(s: seq<nat>)
    ensures (forall i :: 0 <= i < |s| ==> s[i] != 0) ==> NonZero(s) == s
    ensures (forall i :: 0 <= i < |s| ==> s[i] == 0) ==> NonZero(s) == []
  {
    if s != [] {
      assert s == s[..|s| - 1] + [s[|s| - 1]];
      NonZeroOfUniform(s[..|s| - 1]);
    }
  }

  lemma {:induction false} NonZeroDistinct(s: seq<nat>)
    requires forall i, j :: 0 <= i < j < |s| && s[i] == s[j] ==> s[i] == 0
    ensures Distinct(NonZero(s))
  {
    if s != [] {
      var n := |s| - 1;
      NonZeroDistinct(s[..n]);
      NonZeroElements(s[..n]);
      if s[n] != 0 {
        assert s[n] !in s[..n];
        assert s[n] !in Elements(NonZero(s[..n]));
      }
    }
  }

  // ---- filtering ----

  /** The entries below theta that are not excluded, in order (`std::copy_if` when none are). */
  function Keep(s: seq<nat>, theta: nat, excluded: set<nat>): seq<nat>
  {
    if s == [] then []
    else
      var last := s[|s| - 1];
      Keep(s[..|s| - 1], theta, excluded) + if last < theta && last !in excluded then [last] else []
  }

  lemma KeepStep(s: seq<nat>, i: nat, theta: nat, excluded: set<nat>)
    requires i < |s|
    ensures Keep(s[..i + 1], theta, excluded) ==
            Keep(s[..i], theta, excluded) + if s[i] < theta && s[i] !in excluded then [s[i]] else []
  {
    assert s[..i + 1][..i] == s[..i];
  }

  lemma {:induction false} KeptElements(s: seq<nat>, theta: nat, excluded: set<nat>)
    ensures Elements(Keep(s, theta, excluded)) == Below(Elements(s), theta) - excluded
  {
    if s != [] {
      var n := |s| - 1;
      KeptElements(s[..n], theta, excluded);
      assert s == s[..n] + [s[n]];
      ElementsAppend(s[..n], s[n]);
      var kept := Keep(s[..n], theta, excluded);
      ElementsAppend(kept, s[n]);
      KeepStep(s, n, theta, excluded);
      assert s[..n + 1] == s;
      assert Below(Elements(s), theta) == Below(Elements(s[..n]), theta) + if s[n] < theta then {s[n]} else {};
      assert kept + [] == kept;
    } else {
      assert Elements(s) == {};
    }
  }

  lemma {:induction false} KeptDistinct(s: seq<nat>, theta: nat, excluded: set<nat>)
    requires Distinct(s)
    ensures Distinct(Keep(s, theta, excluded))
  {
    if s != [] {
      var n := |s| - 1;
      KeptDistinct(s[..n], theta, excluded);
      KeptElements(s[..n], theta, excluded);
      var kept := Keep(s[..n], theta, excluded);
      assert s[n] !in Elements(s[..n]);
      assert forall i :: 0 <= i < |kept| ==> kept[i] in Elements(kept);
    }
  }

  lemma {:induction false} KeptAscending(s: seq<nat>, theta: nat, excluded: set<nat>)
    requires Ascending(s)
    ensures Ascending(Keep(s, theta, excluded))
  {
    if s != [] {
      var n := |s| - 1;
      KeptAscending(s[..n], theta, excluded);
      KeptElements(s[..n], theta, excluded);
      var kept := Keep(s[..n], theta, excluded);
      assert forall x :: x in Elements(s[..n]) ==> x < s[n];
      assert forall i :: 0 <= i < |kept| ==> kept[i] in Elements(kept);
    }
  }

  /** In an ascending sequence, nothing is kept from the first entry at or above theta on. */
  lemma {:induction false} KeepStops(s: seq<nat>, i: nat, theta: nat, excluded: set<nat>)
    requires Ascending(s) && i <= |s| && (i < |s| ==> s[i] >= theta)
    ensures Keep(s, theta, excluded) == Keep(s[..i], theta, excluded)
    decreases |s|
  {
    if i == |s| {
      assert s[..i] == s;
    } else {
      var n := |s| - 1;
      KeepStops(s[..n], i, theta, excluded);
      assert s[..n][..i] == s[..i];
    }
  }

  // ---- std::sort and std::nth_element, by their library contracts ----

  ghost predicate Sorted(s: seq<nat>)
  {
    forall i, j :: 0 <= i < j < |s| ==> s[i] <= s[j]
  }

  lemma BoundCarriesOver(r: seq<nat>, s: seq<nat>, x: nat, bound: nat)
    requires multiset(r) == multiset(s) + multiset{x}
    requires x <= bound && forall y :: y in s ==> y <= bound
    ensures forall i :: 0 <= i < |r| ==> r[i] <= bound
  {
    forall i | 0 <= i < |r|
      ensures r[i] <= bound
    {
      assert r[i] in multiset(r);
      assert r[i] in s || r[i] == x;
    }
  }

  function InsertSorted(s: seq<nat>, x: nat): (r: seq<nat>)
    ensures multiset(r) == multiset(s) + multiset{x}
  {
    if s == [] || s[|s| - 1] <= x then s + [x]
    else
      var init, last := s[..|s| - 1], s[|s| - 1];
      assert s == init + [last];
      InsertSorted(init, x) + [last]
  }

  lemma {:induction false} InsertKeepsSorted(s: seq<nat>, x: nat)
    requires Sorted(s)
    ensures Sorted(InsertSorted(s, x))
  {
    if s != [] && x < s[|s| - 1] {
      var init, last := s[..|s| - 1], s[|s| - 1];
      InsertKeepsSorted(init, x);
      BoundCarriesOver(InsertSorted(init, x), init, x, last);
    }
  }

  function Sort(s: seq<nat>): (r: seq<nat>)
    ensures multiset(r) == multiset(s) && Sorted(r)
  {
    if s == [] then []
    else
      var init, last := s[..|s| - 1], s[|s| - 1];
      assert s == init + [last];
      InsertKeepsSorted(Sort(init), last);
      InsertSorted(Sort(init), last)
  }

  /** Sorting distinct hashes yields them in strictly ascending order. */
  lemma SortAscending(s: seq<nat>)
    ensures |Sort(s)| == |s| && Elements(Sort(s)) == Elements(s)
    ensures Distinct(s) ==> Ascending(Sort(s)) && Distinct(Sort(s))
  {
    Rearranged(s, Sort(s));
  }

  /** `std::nth_element` on the whole range: position n splits the range by value. */
  method NthElement(s: seq<nat>, n: nat) returns (r: seq<nat>)
    requires n < |s|
    ensures multiset(r) == multiset(s) && |r| == |s|
    ensures forall i :: 0 <= i < n ==> r[i] <= r[n]
    ensures forall i :: n < i < |r| ==> r[n] <= r[i]
  {
    r := Sort(s);
    Rearranged(s, r);
  }

  /** On distinct hashes, the part before the split is everything below the split value. */
  lemma SplitIsCutoff(s: seq<nat>, r: seq<nat>, n: nat)
    requires Distinct(s) && n < |s|
    requires multiset(r) == multiset(s) && |r| == |s|
    requires forall i :: 0 <= i < n ==> r[i] <= r[n]
    requires forall i :: n < i < |r| ==> r[n] <= r[i]
    ensures IsCutoff(n, Elements(s), r[n])
    ensures Elements(r[..n]) == Below(Elements(s), r[n])
    ensures Distinct(r[..n])
  {
    Rearranged(s, r);
    DistinctCount(r[..n]);
    assert r[n] in Elements(r);
    forall x | x in Below(Elements(s), r[n])
      ensures x in r[..n]
    {
      var i :| 0 <= i < |r| && r[i] == x;
      assert i < n;
      assert r[..n][i] == x;
    }
    forall x | x in r[..n]
      ensures x in Below(Elements(s), r[n])
    {
      var i :| 0 <= i < n && r[i] == x;
      assert x in Elements(r);
    }
    assert Elements(r[..n]) == Below(Elements(s), r[n]);
  }

  lemma AscendingLast(s: seq<nat>)
    requires Ascending(s) && s != []
    ensures s[|s| - 1] in Elements(s) && forall x :: x in Elements(s) ==> x <= s[|s| - 1]
    ensures Elements(s[..|s| - 1]) == Elements(s) - {s[|s| - 1]}
  {
    var n := |s| - 1;
    assert s == s[..n] + [s[n]];
    ElementsAppend(s[..n], s[n]);
    assert s[n] !in s[..n];
  }

  /** A strictly ascending sequence is determined by its elements. */
  lemma {:induction false} AscendingUnique(s: seq<nat>, r: seq<nat>)
    requires Ascending(s) && Ascending(r) && Elements(s) == Elements(r)
    ensures s == r
  {
    DistinctCount(s);
    DistinctCount(r);
    if s != [] {
      AscendingLast(s);
      AscendingLast(r);
      var n := |s| - 1;
      AscendingUnique(s[..n], r[..n]);
      assert s == s[..n] + [s[n]] && r == r[..n] + [r[n]];
    }
  }
}
