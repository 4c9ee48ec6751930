/** The aggregate callbacks that intersect: accumulating serialized sketches, merging states, shipping them. */
module IntersectionHandles {
  import opened Bits
  import opened Sequences
  import opened KMinimumValues
  import opened Sizing
  import opened Sketches
  import opened Intersections
  import opened Codec
  import opened WrappedIterator
  import opened Handles

  /** What all absorbed sketches retain, the lowest of their thetas, and whether the result is flagged empty. */
  datatype Shared = Everything | Shared(keys: set<nat>, low: nat, flagged: bool)

  function Meet(a: Shared, b: Shared): Shared
  {
    if a.Everything? then b
    else if b.Everything? then a
    else
      var keys, low := a.keys * b.keys, Min(a.low, b.low);
      Shared(keys, low,
             a.flagged || b.flagged || (a.keys != {} && b.keys != {} && keys == {} && low == MAX_THETA))
  }

  function SharedOf(view: CompactSketch): Shared
  {
    Shared(Elements(view.entries), view.theta, view.isEmpty)
  }

  /** A result holds the shared keys and the flag; flagged it has no keys and the maximal theta, else the lowest. */
  ghost predicate Agrees(isEmpty: bool, theta: nat, keys: set<nat>, content: Shared)
  {
    && content.Shared? && keys == content.keys && InRange(keys, theta) && theta <= MAX_THETA
    && isEmpty == content.flagged
    && if isEmpty then keys == {} && theta == MAX_THETA else theta == content.low
  }

  ghost predicate StandsForShared(c: CompactSketch, seedHash: nat, content: Shared)
  {
    && ValidSketch(c) && FieldWidths(c) && c.seedHash == seedHash && c.isOrdered
    && Agrees(c.isEmpty, c.theta, Elements(c.entries), content)
  }

  ghost predicate HoldsShared(h: Handle, seedHash: nat, content: Shared)
    reads if h.IntersectionState? then {h.intersection, h.intersection.table, h.intersection.table.entries} else {}
  {
    match h
    case NoHandle => content.Everything?
    case ImmutableSketch(c) => StandsForShared(c, seedHash, content)
    case IntersectionState(x) =>
      && x.Valid() && x.isValid && x.seedHash == seedHash && x.table.numEntries < TWO_TO_32
      && Agrees(x.table.isEmpty, x.table.theta, x.table.KeySet(), content)
    case _ => false
  }

  /** Intersecting a state with a sketch that agrees with some content meets the contents. */
  lemma StepMeets(s: State, content: Shared, c: CompactSketch, other: Shared)
    requires if s.Known? then Agrees(s.isEmpty, s.theta, s.keys, content) else content.Everything?
    requires ValidSketch(c) && Agrees(c.isEmpty, c.theta, Elements(c.entries), other)
    ensures var t := Step(s, c);
            t.Known? && Agrees(t.isEmpty, t.theta, t.keys, Meet(content, other))
    ensures s.Known? ==> Step(s, c).keys <= s.keys
    ensures s.Universe? ==> Step(s, c).keys <= Elements(c.entries)
  {
    hide ValidSketch, Elements;
    ValidInRange(c);
    if s.Known? {
      var theta := Min(s.theta, c.theta);
      assert s.keys * Below(Elements(c.entries), theta) == s.keys * Elements(c.entries);
    }
  }

  /** Feeds one sketch to an intersection that holds a content. */
  method Absorb(x: Intersection, seedHash: nat, c: CompactSketch, ghost content: Shared, ghost other: Shared)
    returns (ok: bool)
    requires if x.isValid then HoldsShared(IntersectionState(x), seedHash, content) else content.Everything?
    requires x.Valid() && x.seedHash == seedHash
    requires ValidSketch(c) && |c.entries| < TWO_TO_32 && Agrees(c.isEmpty, c.theta, Elements(c.entries), other)
    modifies x, x.table
    ensures x.Valid() && x.seedHash == seedHash
    ensures ok <==> old(x.table.isEmpty) || c.isEmpty || c.seedHash == seedHash
    ensures ok ==> HoldsShared(IntersectionState(x), seedHash, Meet(content, other))
    ensures x.table == old(x.table) || (fresh(x.table) && fresh(x.table.entries))
    ensures x.table == old(x.table) ==> x.table.entries == old(x.table.entries)
  {
    hide ValidSketch, Elements, InRange, Agrees, Meet, Step, Intersection.Valid;
    ghost var s := x.Abs();
    StepMeets(s, content, c, other);
    KeyCount(x, c);
    ok := x.Update(c);
    if ok { ResultCount(x, s.Known?, if s.Known? then s.keys else {}, Elements(c.entries)); }
  }

  lemma KeyCount(x: Intersection, c: CompactSketch)
    requires x.Valid() && ValidSketch(c)
    ensures |x.table.KeySet()| == x.table.numEntries && |c.entries| == |Elements(c.entries)|
  {
    ValidInRange(c);
  }

  lemma ResultCount(x: Intersection, known: bool, before: set<nat>, entries: set<nat>)
    requires x.Valid() && x.isValid && |before| < TWO_TO_32 && |entries| < TWO_TO_32
    requires x.table.KeySet() <= if known then before else entries
    ensures x.table.numEntries < TWO_TO_32
  {
    SubsetCard(x.table.KeySet(), if known then before else entries);
  }

  /** Sketches that were read hold at most 2^32 - 1 entries, and empty ones the maximal theta. */
  lemma ReadAgrees(bytes: seq<uint8>, seedHash: nat, view: CompactSketch)
    requires Reads(bytes, seedHash, view) && ValidSketch(view)
    ensures |view.entries| < TWO_TO_32 && Agrees(view.isEmpty, view.theta, Elements(view.entries), SharedOf(view))
  {
    hide Yielded, Elements;
    ValidInRange(view);
    ParsedCount(bytes, seedHash);
    assert view.isEmpty ==> view.entries == [];
    NoElements(view.entries);
    assert view.entries[..0] == [];
  }

  /** Once the result is empty, further inputs are not looked at. */
  ghost predicate AlreadyEmpty(h: Handle)
    reads if h.IntersectionState? then {h.intersection, h.intersection.table} else {}
  {
    h.IntersectionState? && h.intersection.table.isEmpty
  }

  /** Intersects the state with a serialized sketch. */
  method IntersectionAccum(handle: Handle, seedHash: nat, bytes: seq<uint8>, ghost content: Shared)
    returns (r: Result<Handle>)
    requires handle.NoHandle? || handle.IntersectionState?
    requires HoldsShared(handle, seedHash, content)
    requires forall view :: Reads(bytes, seedHash, view) ==> ValidSketch(view)
    modifies Footprint(handle)
    ensures r.Ok? <==>
            exists view :: Reads(bytes, seedHash, view) &&
              (view.isEmpty || view.seedHash == seedHash || old(AlreadyEmpty(handle)))
    ensures r.Ok? ==> r.value.IntersectionState? && fresh(Footprint(r.value) - old(Footprint(handle)))
    ensures forall view :: r.Ok? && Reads(bytes, seedHash, view) ==>
              HoldsShared(r.value, seedHash, Meet(content, SharedOf(view)))
  {
    hide ValidSketch, Reads, Agrees, Meet, SharedOf, Intersection.Valid;
    var wrapped := Wrap(bytes, seedHash);
    if wrapped.Err? { return Err(wrapped.error); }
    ReadAgrees(bytes, seedHash, wrapped.value);
    var x: Intersection;
    if handle.NoHandle? {
      x := new Intersection(seedHash);
    } else {
      x := handle.intersection;
    }
    var ok := Absorb(x, seedHash, wrapped.value, content, SharedOf(wrapped.value));
    if !ok { return Err(SeedMismatch); }
    r := Ok(IntersectionState(x));
  }

  /** The sketch behind a handle. */
  method GetResult(handle: Handle, seedHash: nat, ghost content: Shared) returns (c: CompactSketch)
    requires !handle.NoHandle? && seedHash < 0x1_0000 && HoldsShared(handle, seedHash, content)
    ensures StandsForShared(c, seedHash, content)
  {
    hide Agrees, Elements;
    match handle
    case ImmutableSketch(compact) =>
      c := compact;
    case IntersectionState(x) =>
      var known;
      known, c := x.GetResult(true);
      KeyCount(x, c);
      Words64();
  }

  /** Merges two states into a new intersection. */
  method IntersectionMerge(left: Handle, right: Handle, seedHash: nat, ghost a: Shared, ghost b: Shared)
    returns (h: Handle)
    requires seedHash < 0x1_0000 && HoldsShared(left, seedHash, a) && HoldsShared(right, seedHash, b)
    ensures HoldsShared(h, seedHash, Meet(a, b))
    ensures h == NoHandle || (h.IntersectionState? && fresh(Footprint(h)))
    ensures h == NoHandle <==> left.NoHandle? && right.NoHandle?
  {
    hide Agrees, Elements, ValidSketch, Intersection.Valid, FieldWidths;
    if left.NoHandle? && right.NoHandle? { return NoHandle; }
    var x := new Intersection(seedHash);
    if !left.NoHandle? {
      var c := GetResult(left, seedHash, a);
      SmallEnough(c);
      var ok := Absorb(x, seedHash, c, Everything, a);
    }
    if !right.NoHandle? {
      var c := GetResult(right, seedHash, b);
      SmallEnough(c);
      var ok := Absorb(x, seedHash, c, a, b);
    }
    h := IntersectionState(x);
  }

  lemma SmallEnough(c: CompactSketch)
    requires FieldWidths(c)
    ensures |c.entries| < TWO_TO_32
  {
  }

  /** Consumes the state; `c` is the sketch that the bytes serialize. */
  method Serialize(handle: Handle, seedHash: nat, junk: Junk, ghost content: Shared)
    returns (bytes: seq<uint8>, ghost c: CompactSketch)
    requires seedHash < 0x1_0000 && HoldsShared(handle, seedHash, content)
    ensures bytes == [] <==> handle.NoHandle?
    ensures !handle.NoHandle? ==> StandsForShared(c, seedHash, content) && bytes == Serialize3(c, junk)
  {
    hide Agrees, Elements, Serialize3;
    var compact := CompactSketch(true, true, seedHash, MAX_THETA, []);
    if handle.NoHandle? { return [], compact; }
    compact := GetResult(handle, seedHash, content);
    return Serialize3(compact, junk), compact;
  }

  /** Ships a state: serialized on one node, deserialized on another. */
  method ShipState(handle: Handle, seedHash: nat, junk: Junk, ghost content: Shared) returns (h: Handle)
    requires seedHash < 0x1_0000 && HoldsShared(handle, seedHash, content)
    ensures HoldsShared(h, seedHash, content) && Footprint(h) == {}
    ensures if handle.NoHandle? then h.NoHandle? else h.ImmutableSketch?
  {
    hide Agrees, Elements, Serialize3, Decode;
    var bytes, c := Serialize(handle, seedHash, junk, content);
    if !handle.NoHandle? { SharedSurvives(c, junk, seedHash, content); }
    var r := DeserializeState(bytes, seedHash);
    h := r.value;
  }

  lemma SharedSurvives(c: CompactSketch, junk: Junk, seedHash: nat, content: Shared)
    requires StandsForShared(c, seedHash, content)
    ensures Decode(Serialize3(c, junk), seedHash) == Ok(c)
  {
    hide Decode, Serialize3;
    RoundTrip3(c, junk, seedHash);
  }

  // ---- any tree of intersections ----

  lemma CommonTogether(a: seq<CompactSketch>, b: seq<CompactSketch>)
    requires a != [] && b != []
    ensures Common(a + b) == Common(a) * Common(b)
  {
    hide Common;
    forall h: nat
      ensures h in Common(a + b) <==> h in Common(a) && h in Common(b)
    {
      CommonIsInEvery(a, h);
      CommonIsInEvery(b, h);
      CommonIsInEvery(a + b, h);
      assert forall i :: 0 <= i < |a| ==> (a + b)[i] == a[i];
      assert forall i :: 0 <= i < |b| ==> (a + b)[|a| + i] == b[i];
    }
  }

  lemma {:induction false} LowestTogether(a: seq<CompactSketch>, b: seq<CompactSketch>)
    ensures LowestTheta(a + b) == Min(LowestTheta(a), LowestTheta(b))
    decreases |b|
  {
    LowestThetaBounds(a);
    if b == [] {
      assert a + b == a;
    } else {
      var n := |b| - 1;
      LowestTogether(a, b[..n]);
      assert (a + b)[..|a + b| - 1] == a + b[..n] && (a + b)[|a + b| - 1] == b[n];
    }
  }

  /**
   Whether the plan's result is flagged empty: some leaf raises the flag in its own order, or a merge brings
   together exact sketches that share nothing.
   */
  ghost predicate Flagged(plan: Plan, seedHash: nat)
    requires Runnable(plan, seedHash)
  {
    match plan
    case Rows(_) => false
    case Blobs(blobs) => RaisesFlag(ViewsOf(blobs, seedHash))
    case Merge(left, right) =>
      PlanContent(plan, seedHash);
      || Flagged(left, seedHash) || Flagged(right, seedHash)
      || SharesNothing(ViewsOf(BlobsOf(plan), seedHash))
    case Ship(p, _) => Flagged(p, seedHash)
  }

  function OutcomeOf(views: seq<CompactSketch>, flagged: bool): Shared
  {
    if views == [] then Everything else Shared(Common(views), LowestTheta(views), flagged)
  }

  /** The hashes that every sketch of the leaves retains, the lowest of their thetas, and the flag. */
  ghost function Outcome(plan: Plan, seedHash: nat): Shared
    requires Runnable(plan, seedHash)
  {
    PlanContent(plan, seedHash);
    OutcomeOf(ViewsOf(BlobsOf(plan), seedHash), Flagged(plan, seedHash))
  }

  lemma ViewsValid(blobs: seq<seq<uint8>>, seedHash: nat)
    requires AllAcceptable(blobs, seedHash)
    ensures forall c :: c in ViewsOf(blobs, seedHash) ==> ValidSketch(c)
  {
    hide Acceptable, ValidSketch;
    forall i | 0 <= i < |blobs|
      ensures ValidSketch(ViewsOf(blobs, seedHash)[i])
    {
      assert ViewsOf(blobs, seedHash)[i] == ViewOf(blobs[i], seedHash);
    }
  }

  /** Exact leaves that share nothing raise the flag however they are arranged. */
  lemma {:induction false} AllRaiseFlag(plan: Plan, seedHash: nat)
    requires Runnable(plan, seedHash) && AllAcceptable(BlobsOf(plan), seedHash)
    requires SharesNothing(ViewsOf(BlobsOf(plan), seedHash))
    ensures Flagged(plan, seedHash)
  {
    hide SharesNothing, RaisesFlag, Acceptable;
    assert ViewsOf([], seedHash) == [];
    NothingToShare();
    match plan
    case Blobs(blobs) => WholeRaisesFlag(ViewsOf(blobs, seedHash));
    case Merge(_, _) =>
    case Ship(p, _) => AllRaiseFlag(p, seedHash);
  }

  lemma NothingToShare()
    ensures !SharesNothing([]) && !RaisesFlag([])
  {
  }

  lemma {:induction false} NothingFlagged(plan: Plan, seedHash: nat)
    requires Runnable(plan, seedHash) && BlobsOf(plan) == []
    ensures !Flagged(plan, seedHash)
  {
    hide SharesNothing, RaisesFlag;
    NothingToShare();
    assert ViewsOf([], seedHash) == [];
    match plan
    case Rows(_) =>
    case Blobs(_) =>
    case Merge(left, right) =>
      NothingFlagged(left, seedHash);
      NothingFlagged(right, seedHash);
    case Ship(p, _) =>
      NothingFlagged(p, seedHash);
  }

  /** Exact lists that each share something raise the flag together when they share nothing with each other. */
  lemma SharesTogether(a: seq<CompactSketch>, b: seq<CompactSketch>)
    requires a != [] && b != [] && forall c :: c in a + b ==> ValidSketch(c)
    requires !SharesNothing(a) && !SharesNothing(b)
    ensures SharesNothing(a + b) <==>
            Common(a) != {} && Common(b) != {} && Common(a + b) == {} && LowestTheta(a + b) == MAX_THETA
  {
    hide ValidSketch, Common, LowestTheta, Exact;
    LowestTogether(a, b);
    LowestThetaBounds(a);
    LowestThetaBounds(b);
    assert AllExact(a + b) <==> AllExact(a) && AllExact(b) by {
      assert forall i :: 0 <= i < |a| ==> (a + b)[i] == a[i];
      assert forall i :: 0 <= i < |b| ==> (a + b)[|a| + i] == b[i];
    }
    if Common(a) != {} && Common(b) != {} {
      ExactIfShared(a);
      ExactIfShared(b);
    }
  }

  lemma OutcomesMeet(a: seq<CompactSketch>, b: seq<CompactSketch>, flagA: bool, flagB: bool)
    requires forall c :: c in a + b ==> ValidSketch(c)
    requires (SharesNothing(a) ==> flagA) && (SharesNothing(b) ==> flagB)
    requires (a == [] ==> !flagA) && (b == [] ==> !flagB)
    ensures OutcomeOf(a + b, flagA || flagB || SharesNothing(a + b)) == Meet(OutcomeOf(a, flagA), OutcomeOf(b, flagB))
  {
    hide ValidSketch, Common, LowestTheta, SharesNothing;
    if a == [] {
      assert a + b == b;
    } else if b == [] {
      assert a + b == a;
    } else {
      CommonTogether(a, b);
      LowestTogether(a, b);
      if !SharesNothing(a) && !SharesNothing(b) { SharesTogether(a, b); }
    }
  }

  /** Merging meets the outcomes of the two sides. */
  lemma MergeMeets(left: Plan, right: Plan, seedHash: nat)
    requires Runnable(left, seedHash) && Runnable(right, seedHash)
    ensures Outcome(Merge(left, right), seedHash) == Meet(Outcome(left, seedHash), Outcome(right, seedHash))
  {
    hide ContentOfPlan, Acceptable, ValidSketch, SharesNothing, RaisesFlag, OutcomeOf, Meet;
    PlanContent(left, seedHash);
    PlanContent(right, seedHash);
    BlobsTogether(BlobsOf(left), BlobsOf(right), seedHash);
    var a, b := ViewsOf(BlobsOf(left), seedHash), ViewsOf(BlobsOf(right), seedHash);
    ViewsValid(BlobsOf(left) + BlobsOf(right), seedHash);
    if SharesNothing(a) { AllRaiseFlag(left, seedHash); }
    if SharesNothing(b) { AllRaiseFlag(right, seedHash); }
    if a == [] { NothingFlagged(left, seedHash); }
    if b == [] { NothingFlagged(right, seedHash); }
    OutcomesMeet(a, b, Flagged(left, seedHash), Flagged(right, seedHash));
  }

  lemma {:induction false} EmptyFlags(plan: Plan, seedHash: nat)
    requires Runnable(plan, seedHash) && AllAcceptable(BlobsOf(plan), seedHash)
    requires SomeEmpty(ViewsOf(BlobsOf(plan), seedHash))
    ensures Flagged(plan, seedHash)
  {
    hide SharesNothing, Acceptable, ContentOfPlan;
    assert ViewsOf([], seedHash) == [];
    match plan
    case Blobs(_) =>
    case Merge(left, right) =>
      PlanContent(left, seedHash);
      PlanContent(right, seedHash);
      BlobsTogether(BlobsOf(left), BlobsOf(right), seedHash);
      if SomeEmpty(ViewsOf(BlobsOf(left), seedHash)) {
        EmptyFlags(left, seedHash);
      } else {
        EmptyFlags(right, seedHash);
      }
    case Ship(p, _) =>
      EmptyFlags(p, seedHash);
  }

  lemma {:induction false} FlaggedForGood(plan: Plan, seedHash: nat, all: seq<CompactSketch>)
    requires Runnable(plan, seedHash) && AllAcceptable(BlobsOf(plan), seedHash)
    requires all != [] && OrderFree(all) && Flagged(plan, seedHash)
    requires forall c :: c in ViewsOf(BlobsOf(plan), seedHash) ==> c in all
    ensures SomeEmpty(all) || SharesNothing(all)
  {
    hide SharesNothing, RaisesFlag, OrderFree, Acceptable, ContentOfPlan, SomeEmpty;
    match plan
    case Blobs(blobs) => RaisedForGood(all, ViewsOf(blobs, seedHash));
    case Merge(left, right) =>
      PlanContent(left, seedHash);
      PlanContent(right, seedHash);
      BlobsTogether(BlobsOf(left), BlobsOf(right), seedHash);
      if Flagged(left, seedHash) {
        FlaggedForGood(left, seedHash, all);
      } else if Flagged(right, seedHash) {
        FlaggedForGood(right, seedHash, all);
      } else {
        PartForGood(all, ViewsOf(BlobsOf(plan), seedHash));
      }
    case Ship(p, _) => FlaggedForGood(p, seedHash, all);
  }

  /** Where the order of the sketches does not matter, neither does the arrangement of the plan. */
  lemma ArrangementFree(plan: Plan, seedHash: nat)
    requires Runnable(plan, seedHash) && AllAcceptable(BlobsOf(plan), seedHash) && BlobsOf(plan) != []
    requires OrderFree(ViewsOf(BlobsOf(plan), seedHash))
    ensures var views := ViewsOf(BlobsOf(plan), seedHash);
            Flagged(plan, seedHash) <==> SomeEmpty(views) || SharesNothing(views)
  {
    hide SharesNothing, OrderFree, Flagged, Acceptable, SomeEmpty;
    var views := ViewsOf(BlobsOf(plan), seedHash);
    if Flagged(plan, seedHash) { FlaggedForGood(plan, seedHash, views); }
    if SomeEmpty(views) { EmptyFlags(plan, seedHash); }
    if SharesNothing(views) { AllRaiseFlag(plan, seedHash); }
  }

  // ---- where the arrangement matters ----

  /** The serialized sketches that are exact, or the others. */
  ghost function BlobsWhere(blobs: seq<seq<uint8>>, seedHash: nat, exact: bool): seq<seq<uint8>>
  {
    if blobs == [] then []
    else
      var n := |blobs| - 1;
      BlobsWhere(blobs[..n], seedHash, exact) + if ExactBlob(blobs[n], seedHash) == exact then [blobs[n]] else []
  }

  ghost predicate ExactBlob(bytes: seq<uint8>, seedHash: nat)
  {
    Acceptable(bytes, seedHash) && Exact(ViewOf(bytes, seedHash))
  }

  lemma {:induction false} AllBlobs(blobs: seq<seq<uint8>>, seedHash: nat)
    ensures multiset(BlobsWhere(blobs, seedHash, true)) + multiset(BlobsWhere(blobs, seedHash, false)) ==
            multiset(blobs)
  {
    hide ExactBlob;
    if blobs != [] {
      var n := |blobs| - 1;
      AllBlobs(blobs[..n], seedHash);
      AddedOnce(BlobsWhere(blobs[..n], seedHash, true), BlobsWhere(blobs[..n], seedHash, false), blobs);
    }
  }

  lemma AddedOnce(a: seq<seq<uint8>>, b: seq<seq<uint8>>, blobs: seq<seq<uint8>>)
    requires blobs != []
    requires multiset(a) + multiset(b) == multiset(blobs[..|blobs| - 1])
    ensures var x := [blobs[|blobs| - 1]];
            multiset(a + x) + multiset(b + []) == multiset(a + []) + multiset(b + x) == multiset(blobs)
  {
    assert blobs == blobs[..|blobs| - 1] + [blobs[|blobs| - 1]];
    assert a + [] == a && b + [] == b;
  }

  lemma {:induction false} ViewsWhere(blobs: seq<seq<uint8>>, seedHash: nat, exact: bool)
    requires AllAcceptable(blobs, seedHash)
    ensures var r := BlobsWhere(blobs, seedHash, exact);
            && AllAcceptable(r, seedHash)
            && ViewsOf(r, seedHash) ==
               if exact then ExactOnes(ViewsOf(blobs, seedHash)) else Others(ViewsOf(blobs, seedHash))
  {
    hide Acceptable, Reads, ValidSketch, ViewOf, Exact, AllExact;
    if blobs != [] {
      var n := |blobs| - 1;
      LastView(blobs, seedHash);
      ViewsWhere(blobs[..n], seedHash, exact);
      OneView(blobs[n], seedHash);
      if ExactBlob(blobs[n], seedHash) == exact {
        BlobsTogether(BlobsWhere(blobs[..n], seedHash, exact), [blobs[n]], seedHash);
      } else {
        assert BlobsWhere(blobs, seedHash, exact) == BlobsWhere(blobs[..n], seedHash, exact);
      }
    }
  }

  lemma LastView(blobs: seq<seq<uint8>>, seedHash: nat)
    requires blobs != [] && AllAcceptable(blobs, seedHash)
    ensures var n, views := |blobs| - 1, ViewsOf(blobs, seedHash);
            && AllAcceptable(blobs[..n], seedHash) && ViewsOf(blobs[..n], seedHash) == views[..n]
            && Acceptable(blobs[n], seedHash) && views[n] == ViewOf(blobs[n], seedHash)
  {
    hide Acceptable, ViewOf;
  }

  lemma OneView(bytes: seq<uint8>, seedHash: nat)
    requires Acceptable(bytes, seedHash)
    ensures AllAcceptable([bytes], seedHash) && ViewsOf([bytes], seedHash) == [ViewOf(bytes, seedHash)]
  {
    hide Acceptable, ViewOf;
  }

  /** Flags of plans over the same sketches differ only where the order of the sketches matters. */
  lemma FlagsAgree(p: Plan, q: Plan, seedHash: nat)
    requires Runnable(p, seedHash) && Runnable(q, seedHash) && BlobsOf(p) != []
    requires AllAcceptable(BlobsOf(p), seedHash) && AllAcceptable(BlobsOf(q), seedHash)
    requires forall b :: b in BlobsOf(p) <==> b in BlobsOf(q)
    requires OrderFree(ViewsOf(BlobsOf(p), seedHash)) && Flagged(q, seedHash)
    ensures Flagged(p, seedHash)
  {
    hide OrderFree, Flagged, Acceptable, Common;
    var a, b := ViewsOf(BlobsOf(p), seedHash), ViewsOf(BlobsOf(q), seedHash);
    SameViews(BlobsOf(q), BlobsOf(p), seedHash);
    FlaggedForGood(q, seedHash, a);
    if SomeEmpty(a) { EmptyFlags(p, seedHash); } else { AllRaiseFlag(p, seedHash); }
  }

  /** Every plan over the same sketches raises the same flag exactly where their order does not matter. */
  lemma ArrangementMatters(p: Plan, seedHash: nat)
    requires Runnable(p, seedHash) && AllAcceptable(BlobsOf(p), seedHash) && BlobsOf(p) != []
    ensures (forall q :: Runnable(q, seedHash) && multiset(BlobsOf(q)) == multiset(BlobsOf(p)) ==>
                           Flagged(q, seedHash) == Flagged(p, seedHash)) <==>
            OrderFree(ViewsOf(BlobsOf(p), seedHash))
  {
    hide OrderFree, Flagged, Acceptable, ContentOfPlan, RaisesFlag, SomeEmpty, AllExact, ExactOnes, Others, Runnable,
         BlobsWhere;
    var blobs := BlobsOf(p);
    if OrderFree(ViewsOf(blobs, seedHash)) {
      forall q | Runnable(q, seedHash) && multiset(BlobsOf(q)) == multiset(blobs)
        ensures Flagged(q, seedHash) == Flagged(p, seedHash)
      {
        PlanContent(q, seedHash);
        SameArrangement(p, q, seedHash);
      }
    } else {
      TwoArrangements(blobs, seedHash);
      var first, last := BlobsWhere(blobs, seedHash, true), BlobsWhere(blobs, seedHash, false);
      AllBlobs(blobs, seedHash);
      assert BlobsOf(Blobs(first + last)) == first + last && BlobsOf(Blobs(last + first)) == last + first;
      assert multiset(first + last) == multiset(blobs) == multiset(last + first);
    }
  }

  lemma SameArrangement(p: Plan, q: Plan, seedHash: nat)
    requires Runnable(p, seedHash) && Runnable(q, seedHash) && BlobsOf(p) != []
    requires AllAcceptable(BlobsOf(p), seedHash) && AllAcceptable(BlobsOf(q), seedHash)
    requires multiset(BlobsOf(p)) == multiset(BlobsOf(q)) && OrderFree(ViewsOf(BlobsOf(p), seedHash))
    ensures Flagged(p, seedHash) == Flagged(q, seedHash)
  {
    hide OrderFree, Flagged, Acceptable, Common, SharesNothing, Exact, ViewOf;
    var a, b := ViewsOf(BlobsOf(p), seedHash), ViewsOf(BlobsOf(q), seedHash);
    assert forall x :: x in BlobsOf(p) <==> x in multiset(BlobsOf(p));
    assert forall x :: x in BlobsOf(q) <==> x in multiset(BlobsOf(q));
    SameViews(BlobsOf(p), BlobsOf(q), seedHash);
    SameViews(BlobsOf(q), BlobsOf(p), seedHash);
    SameMembers(a, b);
    SharesAlike(a, b);
    if Flagged(q, seedHash) { FlagsAgree(p, q, seedHash); }
    if Flagged(p, seedHash) {
      FlaggedForGood(p, seedHash, a);
      if SomeEmpty(b) { EmptyFlags(q, seedHash); } else { AllRaiseFlag(q, seedHash); }
    }
  }

  lemma SharesAlike(a: seq<CompactSketch>, b: seq<CompactSketch>)
    requires forall c :: c in a <==> c in b
    ensures SharesNothing(a) == SharesNothing(b)
  {
    hide Common, Exact;
    SameMembers(a, b);
    if a != [] {
      CommonShrinks(a, b);
      CommonShrinks(b, a);
    }
  }

  /** Where the order matters, taking the exact sketches first or last gives different flags. */
  lemma TwoArrangements(blobs: seq<seq<uint8>>, seedHash: nat)
    requires blobs != [] && AllAcceptable(blobs, seedHash) && !OrderFree(ViewsOf(blobs, seedHash))
    ensures var first, last := BlobsWhere(blobs, seedHash, true), BlobsWhere(blobs, seedHash, false);
            && Runnable(Blobs(first + last), seedHash) && Runnable(Blobs(last + first), seedHash)
            && Flagged(Blobs(first + last), seedHash) && !Flagged(Blobs(last + first), seedHash)
  {
    hide Acceptable, RaisesFlag, SomeEmpty, AllExact, ExactOnes, Others, BlobsWhere, Common, ViewOf;
    var first, last := BlobsWhere(blobs, seedHash, true), BlobsWhere(blobs, seedHash, false);
    ViewsWhere(blobs, seedHash, true);
    ViewsWhere(blobs, seedHash, false);
    BlobsTogether(first, last, seedHash);
    BlobsTogether(last, first, seedHash);
    ExactFirst(ViewsOf(blobs, seedHash));
    ExactLast(ViewsOf(blobs, seedHash));
  }

  /** One more sketch meets the outcome of those before. */
  lemma NextMeets(views: seq<CompactSketch>, i: nat)
    requires i < |views| && forall c :: c in views ==> ValidSketch(c)
    ensures OutcomeOf(views[..i + 1], RaisesFlag(views[..i + 1])) ==
            Meet(OutcomeOf(views[..i], RaisesFlag(views[..i])), SharedOf(views[i]))
  {
    hide ValidSketch, Common, LowestTheta, SharesNothing, RaisesFlag, Elements;
    var inputs, init := views[..i + 1], views[..i];
    assert inputs[..i] == init && inputs[i] == views[i];
    assert forall j :: 0 <= j <= i ==> inputs[j] in views;
    FlagStep(inputs);
    WholeRaisesFlag(init);
    EmptyElements(views[i].entries);
    if i == 0 {
      OneInput(inputs);
      FirstInput(inputs);
    } else {
      LastInput(inputs);
    }
  }

  lemma FirstInput(inputs: seq<CompactSketch>)
    requires |inputs| == 1 && ValidSketch(inputs[0])
    ensures Common(inputs) == Elements(inputs[0].entries) && LowestTheta(inputs) == inputs[0].theta
  {
    assert LowestTheta(inputs[..0]) == MAX_THETA;
  }

  method RunBlobs(blobs: seq<seq<uint8>>, seedHash: nat) returns (h: Handle)
    requires AllAcceptable(blobs, seedHash)
    ensures HoldsShared(h, seedHash, Outcome(Blobs(blobs), seedHash))
    ensures fresh(Footprint(h))
  {
    hide HoldsShared, OutcomeOf, Meet, SharedOf, Reads, ValidSketch, ViewsOf, RaisesFlag;
    ghost var views := ViewsOf(blobs, seedHash);
    ViewsValid(blobs, seedHash);
    h := Init(seedHash);
    NothingYet(seedHash);
    for i := 0 to |blobs|
      invariant HoldsShared(h, seedHash, OutcomeOf(views[..i], RaisesFlag(views[..i]))) && fresh(Footprint(h))
      invariant h.NoHandle? || h.IntersectionState?
    {
      BlobsStep(blobs, seedHash, i);
      NextMeets(views, i);
      var r := IntersectionAccum(h, seedHash, blobs[i], OutcomeOf(views[..i], RaisesFlag(views[..i])));
      h := r.value;
    }
    assert views[..|blobs|] == views;
  }

  lemma NothingYet(seedHash: nat)
    ensures HoldsShared(NoHandle, seedHash, Everything) && Footprint(NoHandle) == {}
    ensures forall flagged :: OutcomeOf([], flagged) == Everything
  {
  }

  /**
   However the intersections are arranged in a tree and wherever states are shipped, the state holds what
   all the sketches share, the lowest theta, and the flag that the arrangement raises.
   */
  method Run(plan: Plan, seedHash: nat) returns (h: Handle)
    requires seedHash < 0x1_0000 && Runnable(plan, seedHash) && RowsOf(plan) == []
    ensures HoldsShared(h, seedHash, Outcome(plan, seedHash))
    ensures fresh(Footprint(h))
    decreases plan
  {
    hide HoldsShared, Footprint, Outcome, Meet, Acceptable;
    match plan
    case Rows(_) =>
      h := Init(seedHash);
      NothingYet(seedHash);
      NoLeaf(plan, seedHash);
    case Blobs(blobs) =>
      h := RunBlobs(blobs, seedHash);
    case Merge(left, right) =>
      var l := Run(left, seedHash);
      var r := Run(right, seedHash);
      MergeMeets(left, right, seedHash);
      NothingYet(seedHash);
      h := IntersectionMerge(l, r, seedHash, Outcome(left, seedHash), Outcome(right, seedHash));
    case Ship(p, junk) =>
      var s := Run(p, seedHash);
      ShippedOutcome(p, junk, seedHash);
      h := ShipState(s, seedHash, junk, Outcome(p, seedHash));
  }

  lemma NoLeaf(plan: Plan, seedHash: nat)
    requires plan.Rows?
    ensures Outcome(plan, seedHash) == Everything
  {
  }

  lemma ShippedOutcome(p: Plan, junk: Junk, seedHash: nat)
    requires Runnable(p, seedHash)
    ensures Outcome(Ship(p, junk), seedHash) == Outcome(p, seedHash)
  {
  }

  /** Executes a plan and serializes its state. */
  method Aggregate(plan: Plan, seedHash: nat, junk: Junk) returns (bytes: seq<uint8>, ghost c: CompactSketch)
    requires seedHash < 0x1_0000 && Runnable(plan, seedHash) && RowsOf(plan) == []
    ensures bytes == [] <==> BlobsOf(plan) == []
    ensures bytes != [] ==> bytes == Serialize3(c, junk) && StandsForShared(c, seedHash, Outcome(plan, seedHash))
    ensures AllAcceptable(BlobsOf(plan), seedHash)
    ensures bytes != [] ==>
              var views := ViewsOf(BlobsOf(plan), seedHash);
              && Decode(bytes, seedHash) == Ok(c) && c.isOrdered && c.seedHash == seedHash
              && (forall h :: h in c.entries <==> forall i :: 0 <= i < |views| ==> h in views[i].entries)
              && (c.isEmpty <==> Flagged(plan, seedHash))
              && if c.isEmpty then c.theta == MAX_THETA
                 else (forall i :: 0 <= i < |views| ==> c.theta <= views[i].theta)
                      && exists i :: 0 <= i < |views| && c.theta == views[i].theta
  {
    hide Serialize3, Outcome, StandsForShared, Decode, Acceptable, ViewOf, ViewsOf, Flagged;
    var h := Run(plan, seedHash);
    NothingHeld(h, plan, seedHash);
    bytes, c := Serialize(h, seedHash, junk, Outcome(plan, seedHash));
    PlanContent(plan, seedHash);
    if bytes != [] {
      SharedSurvives(c, junk, seedHash, Outcome(plan, seedHash));
      SharedIs(c, plan, seedHash);
    }
  }

  /** A sketch that agrees with the outcome, in terms of the sketches of the leaves. */
  lemma SharedIs(c: CompactSketch, plan: Plan, seedHash: nat)
    requires Runnable(plan, seedHash) && StandsForShared(c, seedHash, Outcome(plan, seedHash))
    requires AllAcceptable(BlobsOf(plan), seedHash) && BlobsOf(plan) != []
    ensures c.isOrdered && c.seedHash == seedHash && (c.isEmpty <==> Flagged(plan, seedHash))
    ensures var views := ViewsOf(BlobsOf(plan), seedHash);
            && (forall h :: h in c.entries <==> forall i :: 0 <= i < |views| ==> h in views[i].entries)
            && if c.isEmpty then c.theta == MAX_THETA
               else (forall i :: 0 <= i < |views| ==> c.theta <= views[i].theta)
                    && exists i :: 0 <= i < |views| && c.theta == views[i].theta
  {
    hide Acceptable, ViewOf, ValidSketch, Flagged, Common, LowestTheta, Elements;
    var views := ViewsOf(BlobsOf(plan), seedHash);
    LowestThetaBounds(views);
    LowestThetaAttained(views);
    ViewsValid(BlobsOf(plan), seedHash);
    LowestIsMaximal(views);
    forall h
      ensures h in c.entries <==> forall i :: 0 <= i < |views| ==> h in views[i].entries
    {
      ElementsMember(c.entries, h);
      CommonIsInEvery(views, h);
    }
    if LowestTheta(views) == MAX_THETA { assert views[0].theta == MAX_THETA; }
  }

  lemma NothingHeld(h: Handle, plan: Plan, seedHash: nat)
    requires Runnable(plan, seedHash) && HoldsShared(h, seedHash, Outcome(plan, seedHash))
    ensures h.NoHandle? <==> BlobsOf(plan) == []
  {
    hide ContentOfPlan, Flagged, Acceptable;
    PlanContent(plan, seedHash);
  }

  /** Two results with the same keys and theta have the same bytes exactly if they are flagged alike. */
  lemma SharedBytes(c: CompactSketch, d: CompactSketch, x: Shared, y: Shared, seedHash: nat, junk: Junk)
    requires StandsForShared(c, seedHash, x) && StandsForShared(d, seedHash, y)
    requires x.keys == y.keys && x.low == y.low
    ensures Serialize3(c, junk) == Serialize3(d, junk) <==> x.flagged == y.flagged
  {
    hide Serialize3, Decode, FieldWidths;
    SharedSurvives(c, junk, seedHash, x);
    SharedSurvives(d, junk, seedHash, y);
    if x.flagged == y.flagged { AscendingUnique(c.entries, d.entries); }
  }

  /** Two executions over the same sketches yield the same bytes exactly if they raise the same flag. */
  method SameOutcome(p: Plan, q: Plan, seedHash: nat, junk: Junk) returns (a: seq<uint8>, b: seq<uint8>)
    requires seedHash < 0x1_0000 && Runnable(p, seedHash) && Runnable(q, seedHash)
    requires RowsOf(p) == [] && RowsOf(q) == [] && forall x :: x in BlobsOf(p) <==> x in BlobsOf(q)
    ensures a == b <==> Flagged(p, seedHash) == Flagged(q, seedHash)
  {
    hide Serialize3, Outcome, StandsForShared, Flagged;
    ghost var c, d;
    a, c := Aggregate(p, seedHash, junk);
    b, d := Aggregate(q, seedHash, junk);
    if BlobsOf(p) != [] { assert BlobsOf(p)[0] in BlobsOf(q); }
    if BlobsOf(q) != [] { assert BlobsOf(q)[0] in BlobsOf(p); }
    if a != [] && b != [] {
      SameKeys(p, q, seedHash);
      SharedBytes(c, d, Outcome(p, seedHash), Outcome(q, seedHash), seedHash, junk);
    } else {
      NothingFlagged(p, seedHash);
      NothingFlagged(q, seedHash);
    }
  }

  lemma SameKeys(p: Plan, q: Plan, seedHash: nat)
    requires Runnable(p, seedHash) && Runnable(q, seedHash) && BlobsOf(p) != [] && BlobsOf(q) != []
    requires forall x :: x in BlobsOf(p) <==> x in BlobsOf(q)
    ensures var x, y := Outcome(p, seedHash), Outcome(q, seedHash);
            && x.Shared? && y.Shared? && x.keys == y.keys && x.low == y.low
            && x.flagged == Flagged(p, seedHash) && y.flagged == Flagged(q, seedHash)
  {
    hide ContentOfPlan, Flagged, Acceptable, Common, LowestTheta, ViewOf;
    PlanContent(p, seedHash);
    PlanContent(q, seedHash);
    var a, b := ViewsOf(BlobsOf(p), seedHash), ViewsOf(BlobsOf(q), seedHash);
    SameViews(BlobsOf(p), BlobsOf(q), seedHash);
    SameViews(BlobsOf(q), BlobsOf(p), seedHash);
    CommonShrinks(a, b);
    CommonShrinks(b, a);
    LowestIgnoresOrder(a, b);
  }
}
