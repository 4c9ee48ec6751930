/** The intersection operator: a state machine from "everything" through retained keys to "empty". */
module Intersections {
  import Bits
  import opened Sequences
  import opened KMinimumValues
  import opened Sizing
  import Probing
  import opened UpdateTable
  import opened Sketches

  /** `Universe` before the first update; then the flag, threshold and keys of the result. */
  datatype State = Universe | Known(isEmpty: bool, theta: nat, keys: set<nat>)

  /** One update of the abstract state. */
  function Step(s: State, c: CompactSketch): State
  {
    if s.Known? && s.isEmpty then s
    else if c.isEmpty then Known(true, MAX_THETA, {})
    else
      var theta := Min(if s.Known? then s.theta else MAX_THETA, c.theta);
      if (s.Known? && s.keys == {}) || c.entries == [] then Known(false, theta, {})
      else if s.Universe? then Known(false, theta, Elements(c.entries))
      else
        var keys := s.keys * Below(Elements(c.entries), theta);
        Known(keys == {} && theta == MAX_THETA, theta, keys)
  }

  function Fold(inputs: seq<CompactSketch>): State
  {
    if inputs == [] then Universe
    else Step(Fold(inputs[..|inputs| - 1]), inputs[|inputs| - 1])
  }

  function Common(inputs: seq<CompactSketch>): set<nat>
    requires inputs != []
  {
    var n := |inputs| - 1;
    if n == 0 then Elements(inputs[0].entries)
    else Common(inputs[..n]) * Elements(inputs[n].entries)
  }

  predicate InEvery(inputs: seq<CompactSketch>, h: nat)
  {
    forall i :: 0 <= i < |inputs| ==> h in inputs[i].entries
  }

  lemma InEveryStep(inputs: seq<CompactSketch>, h: nat)
    requires inputs != []
    ensures var n := |inputs| - 1;
            InEvery(inputs, h) <==> InEvery(inputs[..n], h) && h in inputs[n].entries
  {
    assert forall i :: 0 <= i < |inputs| - 1 ==> inputs[..|inputs| - 1][i] == inputs[i];
  }

  /** `Common` is what every input retains. */
  lemma {:induction false} CommonIsInEvery(inputs: seq<CompactSketch>, h: nat)
    requires inputs != []
    ensures h in Common(inputs) <==> InEvery(inputs, h)
  {
    hide Elements, InEvery;
    var n := |inputs| - 1;
    ElementsMember(inputs[n].entries, h);
    InEveryStep(inputs, h);
    if n == 0 { NoInputs(inputs[..n], h); } else { CommonIsInEvery(inputs[..n], h); }
  }

  lemma NoInputs(inputs: seq<CompactSketch>, h: nat)
    requires inputs == []
    ensures InEvery(inputs, h)
  {
  }

  function LowestTheta(inputs: seq<CompactSketch>): nat
  {
    if inputs == [] then MAX_THETA
    else Min(LowestTheta(inputs[..|inputs| - 1]), inputs[|inputs| - 1].theta)
  }

  lemma {:induction false} LowestThetaBounds(inputs: seq<CompactSketch>)
    ensures LowestTheta(inputs) <= MAX_THETA
    ensures forall i :: 0 <= i < |inputs| ==> LowestTheta(inputs) <= inputs[i].theta
  {
    if inputs != [] {
      LowestThetaBounds(inputs[..|inputs| - 1]);
    }
  }

  lemma {:induction false} LowestThetaAttained(inputs: seq<CompactSketch>)
    ensures LowestTheta(inputs) == MAX_THETA || exists i :: 0 <= i < |inputs| && LowestTheta(inputs) == inputs[i].theta
  {
    if inputs != [] {
      LowestThetaAttained(inputs[..|inputs| - 1]);
    }
  }

  /** A hash that every input retains lies below every input's theta. */
  lemma {:induction false} CommonBelowLowest(inputs: seq<CompactSketch>)
    requires inputs != [] && forall i :: 0 <= i < |inputs| ==> ValidSketch(inputs[i])
    ensures Below(Common(inputs), LowestTheta(inputs)) == Common(inputs)
  {
    var n := |inputs| - 1;
    ElementsBelow(inputs[n]);
    if n > 0 {
      CommonBelowLowest(inputs[..n]);
    } else {
      assert LowestTheta(inputs[..0]) == MAX_THETA;
    }
    forall h | h in Common(inputs)
      ensures h < LowestTheta(inputs)
    {
      assert h in Below(Elements(inputs[n].entries), inputs[n].theta);
      if n > 0 { assert h in Below(Common(inputs[..n]), LowestTheta(inputs[..n])); }
    }
  }

  /**
   After any updates with valid sketches: the keys are the hashes that every input retains; unless
   the result is flagged empty, no input was empty and theta is the lowest of all input thetas;
   if it is flagged empty, nothing is retained and theta is the maximum.
   */
  lemma {:induction false} FoldClosedForm(inputs: seq<CompactSketch>)
    requires inputs != [] && forall i :: 0 <= i < |inputs| ==> ValidSketch(inputs[i])
    ensures Fold(inputs).Known? && Fold(inputs).keys == Common(inputs)
    ensures !Fold(inputs).isEmpty ==>
              Fold(inputs).theta == LowestTheta(inputs) && forall i :: 0 <= i < |inputs| ==> !inputs[i].isEmpty
    ensures Fold(inputs).isEmpty ==> Fold(inputs).theta == MAX_THETA && Fold(inputs).keys == {}
  {
    hide ValidSketch, Elements;
    var n := |inputs| - 1;
    var init, c := inputs[..n], inputs[n];
    NothingCommonWithEmpty(c);
    CommonBelowLowest(inputs);
    if n == 0 {
      assert Fold(init) == Universe && LowestTheta(init) == MAX_THETA;
    } else {
      FoldClosedForm(init);
      assert Common(inputs) == Common(init) * Elements(c.entries);
      assert Common(init) * Below(Elements(c.entries), LowestTheta(inputs)) ==
             Below(Common(inputs), LowestTheta(inputs));
      assert inputs == init + [c];
    }
  }

  lemma NothingCommonWithEmpty(c: CompactSketch)
    requires ValidSketch(c)
    ensures c.entries == [] ==> Elements(c.entries) == {}
    ensures c.isEmpty ==> c.entries == []
    ensures c.theta <= MAX_THETA
  {
  }

  lemma FoldOfThree(a: CompactSketch, b: CompactSketch, c: CompactSketch)
    ensures Fold([a, b, c]) == Step(Step(Step(Universe, a), b), c)
  {
    hide Step;
    assert [a, b, c][..2] == [a, b] && [a, b][..1] == [a] && [a][..0] == [];
    assert Fold([a]) == Step(Fold([]), a);
  }

  /** The flag and theta do depend on the order: disjoint exact sketches first, or after a sampled one. */
  lemma FlagDependsOnOrder()
    ensures exists a: CompactSketch, b: CompactSketch, c: CompactSketch ::
              && ValidSketch(a) && ValidSketch(b) && ValidSketch(c)
              && Fold([a, b, c]) == Known(true, MAX_THETA, {})
              && Fold([c, a, b]) == Known(false, 5, {})
  {
    var a := CompactSketch(false, true, 0, MAX_THETA, [1]);
    var b := CompactSketch(false, true, 0, MAX_THETA, [2]);
    var c := CompactSketch(false, true, 0, 5, [1]);
    FoldOfThree(a, b, c);
    FoldOfThree(c, a, b);
    assert Elements([1]) == {1} && Elements([2]) == {2};
    assert {1} * Below({1}, 5) == {1} && {1} * Below({2}, 5) == {} && {1} * Below({2}, MAX_THETA) == {};
    assert Step(Universe, a) == Known(false, MAX_THETA, {1}) && Step(Universe, c) == Known(false, 5, {1});
    assert Step(Known(false, MAX_THETA, {1}), b) == Known(true, MAX_THETA, {});
    assert Step(Known(false, 5, {1}), a) == Known(false, 5, {1});
  }

  // ---- exactly when the result is flagged empty ----

  /** An input in exact mode that retains something. */
  predicate Exact(c: CompactSketch)
  {
    c.theta == MAX_THETA && c.entries != []
  }

  predicate AllExact(inputs: seq<CompactSketch>)
  {
    forall i :: 0 <= i < |inputs| ==> Exact(inputs[i])
  }

  /** Exact inputs that have no hash in common. */
  predicate SharesNothing(inputs: seq<CompactSketch>)
  {
    inputs != [] && AllExact(inputs) && Common(inputs) == {}
  }

  predicate SomeEmpty(inputs: seq<CompactSketch>)
  {
    exists i :: 0 <= i < |inputs| && inputs[i].isEmpty
  }

  /** Some input is empty, or the first few are exact and share nothing. */
  predicate RaisesFlag(inputs: seq<CompactSketch>)
  {
    SomeEmpty(inputs) || exists n :: 0 < n <= |inputs| && SharesNothing(inputs[..n])
  }

  /** The flag in terms of hashes: the first few inputs are exact, each retains something, and they share nothing. */
  lemma FlagIs(inputs: seq<CompactSketch>)
    ensures RaisesFlag(inputs) <==>
            || (exists i :: 0 <= i < |inputs| && inputs[i].isEmpty)
            || exists n :: 0 < n <= |inputs|
                 && (forall c :: c in inputs[..n] ==> c.theta == MAX_THETA && c.entries != [])
                 && forall h :: !InEvery(inputs[..n], h)
  {
    hide SharesNothing, InEvery;
    forall n | 0 < n <= |inputs|
      ensures SharesNothing(inputs[..n]) <==>
                && (forall c :: c in inputs[..n] ==> c.theta == MAX_THETA && c.entries != [])
                && forall h :: !InEvery(inputs[..n], h)
    {
      SharesNothingIs(inputs[..n]);
    }
    if exists n :: 0 < n <= |inputs| && SharesNothing(inputs[..n]) {
      var n :| 0 < n <= |inputs| && SharesNothing(inputs[..n]);
      assert |inputs[..n]| == n;
    }
  }

  lemma SharesNothingIs(inputs: seq<CompactSketch>)
    requires inputs != []
    ensures SharesNothing(inputs) <==>
              && (forall c :: c in inputs ==> c.theta == MAX_THETA && c.entries != [])
              && forall h :: !InEvery(inputs, h)
  {
    hide Common, InEvery;
    forall h: nat
      ensures h in Common(inputs) <==> InEvery(inputs, h)
    {
      CommonIsInEvery(inputs, h);
    }
  }

  lemma FlagStep(inputs: seq<CompactSketch>)
    requires inputs != []
    ensures var n := |inputs| - 1;
            RaisesFlag(inputs) <==> RaisesFlag(inputs[..n]) || inputs[n].isEmpty || SharesNothing(inputs)
  {
    hide SharesNothing;
    var n := |inputs| - 1;
    var init := inputs[..n];
    assert forall i :: 0 <= i < n ==> init[i] == inputs[i];
    assert forall m :: 0 < m <= n ==> init[..m] == inputs[..m];
    assert inputs[..|inputs|] == inputs;
    if SomeEmpty(init) {
      var i :| 0 <= i < n && init[i].isEmpty;
      assert inputs[i].isEmpty;
    }
    if exists m :: 0 < m <= n && SharesNothing(init[..m]) {
      var m :| 0 < m <= n && SharesNothing(init[..m]);
      assert SharesNothing(inputs[..m]);
    }
    if exists m :: 0 < m <= |inputs| && SharesNothing(inputs[..m]) {
      var m :| 0 < m <= |inputs| && SharesNothing(inputs[..m]);
      if m <= n { assert SharesNothing(init[..m]); }
    }
  }

  lemma LowestIsMaximal(inputs: seq<CompactSketch>)
    requires forall i :: 0 <= i < |inputs| ==> ValidSketch(inputs[i])
    ensures LowestTheta(inputs) == MAX_THETA <==> forall i :: 0 <= i < |inputs| ==> inputs[i].theta == MAX_THETA
  {
    hide LowestTheta;
    LowestThetaBounds(inputs);
    LowestThetaAttained(inputs);
  }

  /** Inputs with a hash in common all retain something. */
  lemma CommonMeansEntries(inputs: seq<CompactSketch>)
    requires inputs != [] && Common(inputs) != {}
    ensures forall i :: 0 <= i < |inputs| ==> inputs[i].entries != []
  {
    hide Common;
    var h :| h in Common(inputs);
    CommonIsInEvery(inputs, h);
  }

  /** Inputs that share something are exact if and only if their lowest theta is the maximum. */
  lemma ExactIfShared(inputs: seq<CompactSketch>)
    requires inputs != [] && Common(inputs) != {} && forall i :: 0 <= i < |inputs| ==> ValidSketch(inputs[i])
    ensures AllExact(inputs) <==> LowestTheta(inputs) == MAX_THETA
  {
    hide Common, LowestTheta, ValidSketch;
    CommonMeansEntries(inputs);
    LowestIsMaximal(inputs);
  }

  /**
   The state after any updates with valid sketches. It is flagged empty exactly when an input is, or the first
   few are exact and share nothing; otherwise it has the common hashes and the lowest theta.
   */
  lemma {:induction false} FoldIs(inputs: seq<CompactSketch>)
    requires inputs != [] && forall i :: 0 <= i < |inputs| ==> ValidSketch(inputs[i])
    ensures Fold(inputs) == if RaisesFlag(inputs) then Known(true, MAX_THETA, {})
                            else Known(false, LowestTheta(inputs), Common(inputs))
  {
    hide ValidSketch, RaisesFlag, AllExact, Common, LowestTheta, Elements;
    var n := |inputs| - 1;
    var init, c := inputs[..n], inputs[n];
    FlagStep(inputs);
    FoldClosedForm(inputs);
    NothingCommonWithEmpty(c);
    if n == 0 {
      OneInput(inputs);
    } else {
      FoldIs(init);
      FoldClosedForm(init);
      WholeRaisesFlag(init);
      LastInput(inputs);
    }
  }

  lemma OneInput(inputs: seq<CompactSketch>)
    requires |inputs| == 1
    ensures !RaisesFlag(inputs[..0]) && !SharesNothing(inputs) && Fold(inputs[..0]) == Universe
  {
    EmptyElements(inputs[0].entries);
  }

  lemma WholeRaisesFlag(inputs: seq<CompactSketch>)
    ensures SharesNothing(inputs) ==> RaisesFlag(inputs)
  {
    assert inputs[..|inputs|] == inputs;
  }

  /** When the inputs before share something, the last one decides. */
  lemma LastInput(inputs: seq<CompactSketch>)
    requires |inputs| > 1 && forall i :: 0 <= i < |inputs| ==> ValidSketch(inputs[i])
    ensures var n := |inputs| - 1; var init, c := inputs[..n], inputs[n];
            && LowestTheta(inputs) == Min(LowestTheta(init), c.theta)
            && Common(inputs) == Common(init) * Elements(c.entries)
            && Common(init) * Below(Elements(c.entries), LowestTheta(inputs)) == Common(inputs)
            && (SharesNothing(inputs) && !SharesNothing(init) <==>
                Common(init) != {} && c.entries != [] && Common(inputs) == {} && LowestTheta(inputs) == MAX_THETA)
  {
    hide ValidSketch, Elements;
    var n := |inputs| - 1;
    var init, c := inputs[..n], inputs[n];
    assert inputs == init + [c];
    CommonBelowLowest(inputs);
    NothingCommonWithEmpty(c);
    assert Common(init) * Below(Elements(c.entries), LowestTheta(inputs)) == Below(Common(inputs), LowestTheta(inputs));
    if Common(init) != {} { ExactIfShared(init); }
    assert AllExact(inputs) <==> AllExact(init) && Exact(c);
    LowestThetaBounds(init);
  }

  /**
   The retained keys do not depend on the order or repetition of the inputs; the whole state does not either,
   if and only if both lists raise the flag or neither does.
   */
  lemma KeysIgnoreOrder(a: seq<CompactSketch>, b: seq<CompactSketch>)
    requires a != [] && b != []
    requires forall i :: 0 <= i < |a| ==> ValidSketch(a[i]) && a[i] in b
    requires forall i :: 0 <= i < |b| ==> ValidSketch(b[i]) && b[i] in a
    ensures Fold(a).Known? && Fold(b).Known? && Fold(a).keys == Fold(b).keys
    ensures Fold(a) == Fold(b) <==> (RaisesFlag(a) <==> RaisesFlag(b))
  {
    hide ValidSketch, Common, Fold, LowestTheta, RaisesFlag;
    FoldIs(a);
    FoldIs(b);
    FoldClosedForm(a);
    FoldClosedForm(b);
    CommonShrinks(a, b);
    CommonShrinks(b, a);
    LowestIgnoresOrder(a, b);
  }

  lemma LowestIgnoresOrder(a: seq<CompactSketch>, b: seq<CompactSketch>)
    requires forall c :: c in a <==> c in b
    ensures LowestTheta(a) == LowestTheta(b)
  {
    hide LowestTheta;
    assert forall i :: 0 <= i < |a| ==> a[i] in b;
    assert forall i :: 0 <= i < |b| ==> b[i] in a;
    LowestThetaBounds(a);
    LowestThetaBounds(b);
    LowestThetaAttained(a);
    LowestThetaAttained(b);
  }

  // ---- exactly when the order matters ----

  function ExactOnes(inputs: seq<CompactSketch>): (r: seq<CompactSketch>)
    ensures AllExact(r) && forall c :: c in r <==> c in inputs && Exact(c)
  {
    if inputs == [] then []
    else
      var n := |inputs| - 1;
      assert inputs == inputs[..n] + [inputs[n]];
      ExactOnes(inputs[..n]) + if Exact(inputs[n]) then [inputs[n]] else []
  }

  function Others(inputs: seq<CompactSketch>): (r: seq<CompactSketch>)
    ensures multiset(r) + multiset(ExactOnes(inputs)) == multiset(inputs)
    ensures forall c :: c in r <==> c in inputs && !Exact(c)
  {
    if inputs == [] then []
    else
      var n := |inputs| - 1;
      assert inputs == inputs[..n] + [inputs[n]];
      Others(inputs[..n]) + if Exact(inputs[n]) then [] else [inputs[n]]
  }

  /**
   An input is empty, all of them share something, or the exact ones cannot empty the result early in one order
   and not in another: there are none, they share something, or there are no others.
   */
  predicate OrderFree(inputs: seq<CompactSketch>)
    requires inputs != []
  {
    || SomeEmpty(inputs) || Common(inputs) != {}
    || ExactOnes(inputs) == [] || Common(ExactOnes(inputs)) != {} || AllExact(inputs)
  }

  lemma CommonShrinks(part: seq<CompactSketch>, whole: seq<CompactSketch>)
    requires part != [] && whole != [] && forall c :: c in part ==> c in whole
    ensures Common(whole) <= Common(part)
  {
    hide Common;
    forall h | h in Common(whole)
      ensures h in Common(part)
    {
      CommonIsInEvery(whole, h);
      CommonIsInEvery(part, h);
      assert forall i :: 0 <= i < |part| ==> part[i] in whole;
    }
  }

  lemma SameMembers(a: seq<CompactSketch>, b: seq<CompactSketch>)
    requires forall c :: c in a <==> c in b
    ensures SomeEmpty(a) == SomeEmpty(b) && AllExact(a) == AllExact(b) && (a == [] <==> b == [])
  {
    if a != [] { assert a[0] in b; }
    if b != [] { assert b[0] in a; }
    assert forall i :: 0 <= i < |a| ==> a[i] in b;
    assert forall i :: 0 <= i < |b| ==> b[i] in a;
  }

  lemma SameInputs(a: seq<CompactSketch>, b: seq<CompactSketch>)
    requires multiset(a) == multiset(b)
    ensures |a| == |b| && forall c :: c in a <==> c in b
    ensures SomeEmpty(a) == SomeEmpty(b) && AllExact(a) == AllExact(b)
  {
    assert |multiset(a)| == |a| && |multiset(b)| == |b|;
    assert forall c :: c in a <==> c in multiset(a);
    assert forall c :: c in b <==> c in multiset(b);
    SameMembers(a, b);
  }

  /** Where the order does not matter, exact inputs that share nothing mean that all inputs are such. */
  lemma PartForGood(a: seq<CompactSketch>, part: seq<CompactSketch>)
    requires a != [] && OrderFree(a) && SharesNothing(part) && forall c :: c in part ==> c in a
    ensures SomeEmpty(a) || SharesNothing(a)
  {
    hide Common, Exact;
    forall c | c in part
      ensures c in ExactOnes(a)
    {
    }
    assert part[0] in ExactOnes(a);
    CommonShrinks(part, ExactOnes(a));
    CommonShrinks(part, a);
  }

  /** A flag raised in some order is raised for a reason that no order changes. */
  lemma RaisedForGood(a: seq<CompactSketch>, b: seq<CompactSketch>)
    requires a != [] && (forall c :: c in b ==> c in a) && OrderFree(a) && RaisesFlag(b)
    ensures SomeEmpty(a) || SharesNothing(a)
  {
    hide Common, Exact, OrderFree, SharesNothing;
    if SomeEmpty(b) {
      var i :| 0 <= i < |b| && b[i].isEmpty;
      assert b[i] in a;
    } else {
      var n :| 0 < n <= |b| && SharesNothing(b[..n]);
      PartForGood(a, b[..n]);
    }
  }

  lemma FlagIgnoresOrder(a: seq<CompactSketch>, b: seq<CompactSketch>)
    requires a != [] && multiset(a) == multiset(b) && OrderFree(a)
    ensures RaisesFlag(a) <==> RaisesFlag(b)
  {
    hide Common, Exact, OrderFree;
    SameInputs(a, b);
    CommonShrinks(a, b);
    CommonShrinks(b, a);
    if RaisesFlag(a) { RaisedForGood(a, a); }
    if RaisesFlag(b) { RaisedForGood(a, b); }
    WholeRaisesFlag(a);
    WholeRaisesFlag(b);
  }

  /** Exact inputs that share nothing, taken first, raise the flag. */
  lemma ExactFirst(a: seq<CompactSketch>)
    requires ExactOnes(a) != [] && Common(ExactOnes(a)) == {}
    ensures RaisesFlag(ExactOnes(a) + Others(a))
  {
    hide Common, Exact, ExactOnes, Others;
    var inputs, n := ExactOnes(a) + Others(a), |ExactOnes(a)|;
    assert inputs[..n] == ExactOnes(a);
    assert SharesNothing(inputs[..n]);
  }

  /** Taken after an input that is not exact, they do not. */
  lemma ExactLast(a: seq<CompactSketch>)
    requires !SomeEmpty(a) && !AllExact(a)
    ensures !RaisesFlag(Others(a) + ExactOnes(a))
  {
    hide Common, Exact, ExactOnes, Others;
    var inputs := Others(a) + ExactOnes(a);
    var i :| 0 <= i < |a| && !Exact(a[i]);
    assert a[i] in Others(a);
    assert !Exact(inputs[0]) by { assert inputs[0] == Others(a)[0] && Others(a)[0] in Others(a); }
    forall n | 0 < n <= |inputs|
      ensures !SharesNothing(inputs[..n])
    {
      assert inputs[..n][0] == inputs[0];
    }
    forall j | 0 <= j < |inputs|
      ensures !inputs[j].isEmpty
    {
      assert inputs[j] in a by { assert inputs[j] in Others(a) || inputs[j] in ExactOnes(a); }
    }
  }

  lemma ExactAndOthers(a: seq<CompactSketch>)
    ensures multiset(ExactOnes(a) + Others(a)) == multiset(a) == multiset(Others(a) + ExactOnes(a))
  {
    hide ExactOnes, Others;
  }

  lemma RearrangedState(a: seq<CompactSketch>, b: seq<CompactSketch>)
    requires a != [] && multiset(b) == multiset(a) && forall i :: 0 <= i < |a| ==> ValidSketch(a[i])
    ensures Fold(a) == Fold(b) <==> (RaisesFlag(a) <==> RaisesFlag(b))
  {
    hide ValidSketch, Fold, RaisesFlag;
    SameInputs(a, b);
    assert forall i :: 0 <= i < |a| ==> a[i] in b;
    assert forall i :: 0 <= i < |b| ==> b[i] in a;
    KeysIgnoreOrder(a, b);
  }

  /** Every rearrangement of the inputs yields one state exactly under that condition. */
  lemma OrderMatters(a: seq<CompactSketch>)
    requires a != [] && forall i :: 0 <= i < |a| ==> ValidSketch(a[i])
    ensures (forall b :: multiset(b) == multiset(a) ==> Fold(b) == Fold(a)) <==> OrderFree(a)
  {
    hide ValidSketch, Fold, RaisesFlag, ExactOnes, Others, SomeEmpty, AllExact, Common;
    if OrderFree(a) {
      forall b | multiset(b) == multiset(a)
        ensures Fold(b) == Fold(a)
      {
        RearrangedState(a, b);
        FlagIgnoresOrder(a, b);
      }
    } else {
      ExactFirst(a);
      ExactLast(a);
      ExactAndOthers(a);
      RearrangedState(a, ExactOnes(a) + Others(a));
      RearrangedState(a, Others(a) + ExactOnes(a));
    }
  }

  /** A table sized for exactly these distinct keys; no insertion overflows it. */
  method TableOf(entries: seq<nat>, theta: nat, seedHash: nat) returns (table: ThetaTable)
    requires entries != [] && Distinct(entries) && 0 !in entries
    ensures fresh(table) && fresh(table.entries) && table.Valid()
    ensures table.KeySet() == Elements(entries) && table.numEntries == |entries|
    ensures table.theta == theta && table.seedHash == seedHash && !table.isEmpty && table.lgCur > 0
  {
    hide Probing.WellPlaced, Probing.Keys, Capacity, Elements, Bits.Pow2, Distinct;
    var lgSize := LgSizeFromCount(|entries|);
    ScratchTableFits(|entries|);
    table := new ThetaTable(lgSize, lgSize - 1, X1, 1.0, theta, seedHash, false);
    NoElements(entries);
    for i := 0 to |entries|
      invariant fresh(table.entries) && table.Valid()
      invariant table.lgCur == lgSize && table.theta == theta && !table.isEmpty
      invariant table.KeySet() == Elements(entries[..i]) && table.numEntries == i
    {
      NextElement(entries, i);
      var index, found := table.Find(entries[i]);
      assert !found;  // the source reports a duplicate key here
      table.Insert(index, entries[i]);
    }
    assert entries[..|entries|] == entries;
  }

  class Intersection {
    var isValid: bool
    var table: ThetaTable
    const seedHash: nat

    ghost predicate Valid()
      reads this, table, table.entries
    {
      && table.Valid() && table.seedHash == seedHash
      && table.theta <= MAX_THETA && InRange(table.KeySet(), table.theta)
      && (table.numEntries > 0 ==> table.lgCur > 0)
      && (!isValid ==> table.numEntries == 0 && !table.isEmpty && table.theta == MAX_THETA)
      && (table.isEmpty ==> table.numEntries == 0 && table.theta == MAX_THETA)
    }

    ghost function Abs(): State
      reads this, table, table.entries
    {
      if isValid then Known(table.isEmpty, table.theta, table.KeySet()) else Universe
    }

    constructor (seedHash: nat)
      ensures Valid() && Abs() == Universe && fresh(table) && fresh(table.entries)
      ensures this.seedHash == seedHash
    {
      isValid := false;
      this.seedHash := seedHash;
      table := new ThetaTable(0, 0, X1, 1.0, MAX_THETA, seedHash, false);
    }

    /** Intersects with a sketch; `false` is the source's "seed hash mismatch" error. */
    method Update(sketch: CompactSketch) returns (ok: bool)
      requires Valid() && ValidSketch(sketch)
      modifies this, table
      ensures Valid() && (table == old(table) || (fresh(table) && fresh(table.entries)))
      ensures table == old(table) ==> table.entries == old(table.entries)
      ensures ok <==> old(table.isEmpty) || sketch.isEmpty || sketch.seedHash == seedHash
      ensures Abs() == if ok then Step(old(Abs()), sketch) else old(Abs())
    {
      hide Probing.WellPlaced, Elements, ValidSketch, InRange, Probing.Keys, Below, OnLadder, Capacity, Bits.Pow2;
      if table.isEmpty { return true; }
      if !sketch.isEmpty && sketch.seedHash != seedHash { return false; }
      ValidInRange(sketch);
      KeysInRange(table.KeySet(), table.theta, Elements(sketch.entries), sketch.theta);
      table.isEmpty := table.isEmpty || sketch.isEmpty;
      table.theta := if table.isEmpty then MAX_THETA else Min(table.theta, sketch.theta);
      if isValid && table.numEntries == 0 { return true; }
      Combine(sketch);
      return true;
    }

    /** Replaces the table by what the sketch and the previous state leave. */
    method Combine(sketch: CompactSketch)
      requires table.Valid() && table.seedHash == seedHash && ValidSketch(sketch)
      requires table.theta <= MAX_THETA && (isValid ==> table.numEntries > 0 && table.lgCur > 0)
      requires table.isEmpty == sketch.isEmpty
      modifies this
      ensures isValid && fresh(table) && fresh(table.entries) && table.Valid() && table.seedHash == seedHash
      ensures table.theta == old(table.theta) && (table.numEntries > 0 ==> table.lgCur > 0)
      ensures table.KeySet() ==
              if sketch.entries == [] then {}
              else if !old(isValid) then Elements(sketch.entries)
              else old(table.KeySet()) * Below(Elements(sketch.entries), table.theta)
      ensures table.isEmpty <==>
              || sketch.isEmpty
              || (old(isValid) && sketch.entries != [] && table.KeySet() == {} && table.theta == MAX_THETA)
    {
      hide Probing.WellPlaced, Elements, ValidSketch, InRange, Probing.Keys, Below, OnLadder, Capacity, Bits.Pow2;
      ValidInRange(sketch);
      if |sketch.entries| == 0 {
        isValid := true;
        table := new ThetaTable(0, 0, X1, 1.0, table.theta, seedHash, table.isEmpty);
        return;
      }
      if !isValid {
        isValid := true;
        table := TableOf(sketch.entries, table.theta, seedHash);
      } else {
        Replace(sketch);
      }
    }

    /** Replaces the table by one of the matching entries, or by the empty result. */
    method Replace(sketch: CompactSketch)
      requires table.Valid() && table.seedHash == seedHash && table.lgCur > 0 && ValidSketch(sketch)
      requires !table.isEmpty && table.theta <= MAX_THETA
      modifies this`table
      ensures fresh(table) && fresh(table.entries) && table.Valid() && table.seedHash == seedHash
      ensures table.theta == old(table.theta)
      ensures table.KeySet() == old(table.KeySet()) * Below(Elements(sketch.entries), table.theta)
      ensures table.isEmpty <==> table.KeySet() == {} && table.theta == MAX_THETA
      ensures table.numEntries > 0 ==> table.lgCur > 0
    {
      hide Probing.WellPlaced, Elements, ValidSketch, Probing.Keys, Below, OnLadder, Capacity, Bits.Pow2;
      var matched := Match(sketch);
      DistinctCount(matched);
      if |matched| == 0 {
        table := new ThetaTable(0, 0, X1, 1.0, table.theta, seedHash, table.isEmpty);
        if table.theta == MAX_THETA { table.isEmpty := true; }
      } else {
        table := TableOf(matched, table.theta, seedHash);
      }
    }

    /** The entries of the sketch below theta that the table holds. */
    method Match(sketch: CompactSketch) returns (matched: seq<nat>)
      requires table.Valid() && table.lgCur > 0 && ValidSketch(sketch)
      ensures Distinct(matched) && 0 !in matched
      ensures Elements(matched) == table.KeySet() * Below(Elements(sketch.entries), table.theta)
    {
      hide Probing.WellPlaced, Probing.Keys;
      var numRetained := |sketch.entries|;
      var maxMatches := Min(table.numEntries, numRetained);
      matched := [];
      var matchCount: nat := 0;
      var count: nat := 0;
      while count < numRetained
        invariant count <= numRetained && matchCount == |matched|
        invariant Distinct(matched)
        invariant Elements(matched) == table.KeySet() * Below(Elements(sketch.entries[..count]), table.theta)
      {
        var hash := sketch.entries[count];
        NextElement(sketch.entries, count);
        if hash < table.theta {
          var index, found := table.Find(hash);
          if found {
            RoomForMatch(matched, table.KeySet(), sketch.entries, count);
            assert matchCount < maxMatches;  // the source reports "max matches exceeded" otherwise
            ElementsAppend(matched, hash);
            matched := matched + [hash];
            matchCount := matchCount + 1;
          }
        } else if sketch.isOrdered {
          NothingMoreBelow(sketch.entries, count, table.theta);
          break;
        }
        count := count + 1;
      }
      assert sketch.entries[..numRetained] == sketch.entries;
      assert 0 !in Elements(matched);
      // the source reports corruption if the scan ended early without order, or ran past the count
      assert count <= numRetained && (!sketch.isOrdered ==> count == numRetained);
    }

    /** The result; `false` is the source's error before the first update. */
    method GetResult(ordered: bool) returns (ok: bool, c: CompactSketch)
      requires Valid()
      ensures ok <==> Abs().Known?
      ensures ok ==> ValidSketch(c) && c.seedHash == seedHash && Abs() == Known(c.isEmpty, c.theta, Elements(c.entries))
      ensures ok ==> (c.isOrdered <==> ordered || |c.entries| <= 1)
    {
      c := CompactSketch(false, true, seedHash, MAX_THETA, []);
      if !isValid { return false, c; }
      hide Probing.WellPlaced, NonZero, Probing.Keys, InRange, ValidSketch;
      var entries: seq<nat> := [];
      if table.numEntries > 0 {
        entries := table.Retained();
        if ordered {
          SortAscending(entries);
          entries := Sort(entries);
        }
      }
      MadeValid(table.isEmpty, ordered, seedHash, table.theta, entries);
      c := MakeCompact(table.isEmpty, ordered, seedHash, table.theta, entries);
      return true, c;
    }
  }

  /**
   A run of the operator over any inputs: what every one of them retains, and the lowest theta unless the flag is
   raised. It fails without inputs, or on a seed hash mismatch before the flag is raised.
   */
  method IntersectionOfAll(inputs: seq<CompactSketch>, seedHash: nat, ordered: bool)
    returns (ok: bool, c: CompactSketch)
    requires forall i :: 0 <= i < |inputs| ==> ValidSketch(inputs[i])
    ensures ok <==> inputs != [] && forall i :: 0 <= i < |inputs| ==>
                      inputs[i].isEmpty || inputs[i].seedHash == seedHash || RaisesFlag(inputs[..i])
    ensures ok ==>
              && ValidSketch(c) && c.seedHash == seedHash && (c.isOrdered <==> ordered || |c.entries| <= 1)
              && (forall h :: h in c.entries <==> forall i :: 0 <= i < |inputs| ==> h in inputs[i].entries)
              && (c.isEmpty <==> RaisesFlag(inputs))
              && if c.isEmpty then c.theta == MAX_THETA
                 else (forall i :: 0 <= i < |inputs| ==> c.theta <= inputs[i].theta)
                      && exists i :: 0 <= i < |inputs| && c.theta == inputs[i].theta
  {
    hide ValidSketch, RaisesFlag, Fold, Step, Elements, Common, LowestTheta, Intersection.Valid;
    c := CompactSketch(true, true, seedHash, MAX_THETA, []);
    var x := new Intersection(seedHash);
    NothingFolded();
    for i := 0 to |inputs|
      invariant x.Valid() && fresh(x) && fresh(x.table) && fresh(x.table.entries) && x.seedHash == seedHash
      invariant x.Abs() == Fold(inputs[..i])
      invariant forall j :: 0 <= j < i ==>
                  inputs[j].isEmpty || inputs[j].seedHash == seedHash || RaisesFlag(inputs[..j])
    {
      FoldFlag(inputs[..i]);
      FoldNext(inputs, i);
      EmptyMeansKnown(x);
      var accepted := x.Update(inputs[i]);
      if !accepted { return false, c; }
    }
    assert inputs[..|inputs|] == inputs;
    ok, c := x.GetResult(ordered);
    FoldFlag(inputs);
    if inputs != [] { ResultIs(inputs, c); }
  }

  lemma NothingFolded()
    ensures Fold([]) == Universe
  {
  }

  lemma EmptyMeansKnown(x: Intersection)
    requires x.Valid()
    ensures x.table.isEmpty ==> x.Abs().Known? && x.Abs().isEmpty
    ensures x.Abs().Known? && x.Abs().isEmpty ==> x.table.isEmpty
  {
  }

  lemma FoldNext(inputs: seq<CompactSketch>, i: nat)
    requires i < |inputs|
    ensures Fold(inputs[..i + 1]) == Step(Fold(inputs[..i]), inputs[i])
  {
    hide Step;
    assert inputs[..i + 1][..i] == inputs[..i];
  }

  lemma FoldFlag(inputs: seq<CompactSketch>)
    requires forall i :: 0 <= i < |inputs| ==> ValidSketch(inputs[i])
    ensures Fold(inputs).Known? <==> inputs != []
    ensures Fold(inputs).Known? && Fold(inputs).isEmpty <==> RaisesFlag(inputs)
  {
    hide ValidSketch, Step, Common, LowestTheta;
    if inputs != [] { FoldIs(inputs); }
  }

  /** A sketch that shows the folded state. */
  lemma ResultIs(inputs: seq<CompactSketch>, c: CompactSketch)
    requires inputs != [] && forall i :: 0 <= i < |inputs| ==> ValidSketch(inputs[i])
    requires Fold(inputs) == Known(c.isEmpty, c.theta, Elements(c.entries))
    ensures forall h :: h in c.entries <==> forall i :: 0 <= i < |inputs| ==> h in inputs[i].entries
    ensures c.isEmpty <==> RaisesFlag(inputs)
    ensures c.isEmpty ==> c.theta == MAX_THETA
    ensures !c.isEmpty ==> (forall i :: 0 <= i < |inputs| ==> c.theta <= inputs[i].theta)
                           && exists i :: 0 <= i < |inputs| && c.theta == inputs[i].theta
  {
    hide ValidSketch, RaisesFlag, Fold, Elements, Common, LowestTheta;
    FoldIs(inputs);
    FoldClosedForm(inputs);
    LowestThetaBounds(inputs);
    LowestThetaAttained(inputs);
    forall h
      ensures h in c.entries <==> forall i :: 0 <= i < |inputs| ==> h in inputs[i].entries
    {
      ElementsMember(c.entries, h);
      CommonIsInEvery(inputs, h);
    }
    LowestIsMaximal(inputs);
    if LowestTheta(inputs) == MAX_THETA { assert inputs[0].theta == MAX_THETA; }
  }

  /** Lowering theta, or keeping only what lies below it, keeps keys in range. */
  lemma KeysInRange(keys: set<nat>, theta: nat, entries: set<nat>, theta': nat)
    requires InRange(keys, theta) && InRange(entries, theta')
    ensures InRange({}, MAX_THETA) && InRange({}, Min(theta, theta'))
    ensures keys == {} ==> InRange(keys, Min(theta, theta'))
    ensures theta' <= theta ==> InRange(entries, Min(theta, theta'))
    ensures InRange(keys * Below(entries, Min(theta, theta')), Min(theta, theta'))
    ensures |keys| == 0 <==> keys == {}
    ensures |entries| == 0 <==> entries == {}
  {
  }

  lemma ElementsBelow(c: CompactSketch)
    requires ValidSketch(c)
    ensures forall theta :: c.theta <= theta ==> Below(Elements(c.entries), theta) == Elements(c.entries)
    ensures 0 !in c.entries
  {
  }

  /** A further match fits both counts. */
  lemma RoomForMatch(matched: seq<nat>, keys: set<nat>, entries: seq<nat>, i: nat)
    requires Distinct(matched) && Distinct(entries) && i < |entries| && entries[i] in keys
    requires Elements(matched) <= keys * Elements(entries[..i])
    ensures entries[i] !in matched && |matched| < |keys| && |matched| < |entries|
  {
    NextElement(entries, i);
    DistinctCount(matched);
    DistinctCount(entries[..i]);
    SubsetCard(Elements(matched), Elements(entries[..i]));
    SubsetCard(Elements(matched) + {entries[i]}, keys);
    assert entries[i] !in Elements(matched);
  }

  lemma NothingMoreBelow(entries: seq<nat>, i: nat, theta: nat)
    requires Ascending(entries) && i < |entries| && entries[i] >= theta
    ensures Below(Elements(entries), theta) == Below(Elements(entries[..i]), theta)
  {
    forall x | x in Elements(entries) && x < theta
      ensures x in Elements(entries[..i])
    {
      var j :| 0 <= j < |entries| && entries[j] == x;
      assert j < i;
      assert entries[..i][j] == x;
    }
  }
}
