/**
 The aggregate callbacks: states behind handles are created, updated, merged by union, shipped as bytes
 and read back. Whatever the split of the rows and the tree of merges, the outcome is the same.
 */
module Handles {
  import opened Bits
  import opened Sequences
  import opened KMinimumValues
  import opened Sizing
  import opened Sketches
  import opened Unions
  import opened Intersections
  import opened Codec
  import opened WrappedIterator

  datatype Handle =
    | NoHandle
    | MutableSketch(sketch: UpdateSketch)
    | ImmutableSketch(compact: CompactSketch)
    | UnionState(union: Union)
    | IntersectionState(intersection: Intersection)

  const NOMINAL: nat := 4096

  type Junk = s: seq<uint8> | |s| == 6 witness [0, 0, 0, 0, 0, 0]

  /** Whether a state has absorbed anything, the hashes it has absorbed, and the lowest threshold with them. */
  datatype Content = Content(any: bool, seen: set<nat>, low: nat)

  const NOTHING: Content := Content(false, {}, MAX_THETA)

  function Join(a: Content, b: Content): Content
  {
    Content(a.any || b.any, a.seen + b.seen, Min(a.low, b.low))
  }

  ghost function SampleOf(c: Content): Sample
  {
    Kmv(NOMINAL, c.seen, c.low)
  }

  /** A sketch that stands for the content: its threshold is saturated, its entries are all below it. */
  ghost predicate StandsFor(c: CompactSketch, seedHash: nat, content: Content)
  {
    && ValidSketch(c) && FieldWidths(c) && c.seedHash == seedHash && (|c.entries| <= 1 ==> c.isOrdered)
    && c.isEmpty == !content.any && (c.isEmpty ==> content == NOTHING && c.theta == MAX_THETA)
    && Saturated(NOMINAL, content.seen, content.low, c.theta) && Elements(c.entries) == Below(content.seen, c.theta)
  }

  /** The ordered sketch of exactly that sample. */
  ghost predicate Canonical(c: CompactSketch, s: Sample)
  {
    Sample(Elements(c.entries), c.theta) == s && c.isOrdered
  }

  ghost predicate Holds(h: Handle, seedHash: nat, content: Content)
    reads if h.MutableSketch? then {h.sketch, h.sketch.table, h.sketch.table.entries}
          else if h.UnionState? then {h.union, h.union.table, h.union.table.entries} else {}
  {
    && content.low <= MAX_THETA
    && match h
    case NoHandle => content == NOTHING
    case MutableSketch(s) =>
      && s.Valid() && s.table.lgNom == DEFAULT_LG_K && s.table.p == 1.0 && s.table.seedHash == seedHash
      && !s.table.isEmpty && content == Content(true, s.seen, MAX_THETA)
    case ImmutableSketch(c) => StandsFor(c, seedHash, content)
    case UnionState(u) =>
      && u.Valid() && u.table.lgNom == DEFAULT_LG_K && u.table.p == 1.0 && u.table.seedHash == seedHash
      && Kmv(NOMINAL, u.all, u.low) == SampleOf(content)
      && u.table.isEmpty == !content.any && (u.table.isEmpty ==> content == NOTHING)
    case IntersectionState(_) => false  // see IntersectionHandles
  }

  /** The objects behind a handle. */
  ghost function Footprint(h: Handle): set<object>
    reads match h
          case MutableSketch(s) => {s, s.table}
          case UnionState(u) => {u, u.table}
          case IntersectionState(x) => {x, x.table}
          case _ => {}
  {
    match h
    case MutableSketch(s) => {s, s.table, s.table.entries}
    case UnionState(u) => {u, u.table, u.table.entries}
    case IntersectionState(x) => {x, x.table, x.table.entries}
    case _ => {}
  }

  lemma NominalIsPow2()
    ensures Pow2(DEFAULT_LG_K) == NOMINAL && Pow2(DEFAULT_LG_K + 1) == 2 * NOMINAL
  {
    assert Pow2(6) == 64;
    Pow2Add(6, 6);
  }

  // ---- accumulation ----

  /** The initial state holds nothing. */
  method Init(ghost seedHash: nat) returns (h: Handle)
    ensures h == NoHandle && Holds(h, seedHash, NOTHING) && Footprint(h) == {}
  {
    h := NoHandle;
  }

  /** What one row contributes; the reserved hash zero only marks the state as non-empty. */
  function RowContent(hash: nat): Content
  {
    Content(true, Offered(hash), MAX_THETA)
  }

  /** Updates the state with the hash of a blob, or with a supplied hash. */
  method BuildAccum(handle: Handle, seedHash: nat, hash: nat, ghost content: Content) returns (h: Handle)
    requires handle.NoHandle? || handle.MutableSketch?
    requires Holds(handle, seedHash, content)
    modifies Footprint(handle)
    ensures h.MutableSketch? && Holds(h, seedHash, Join(content, RowContent(hash)))
    ensures h.sketch.State() ==
            AfterHash(DEFAULT_LG_K,
                      if handle.NoHandle? then Sample({}, MAX_THETA) else old(handle.sketch.State()), hash)
    ensures fresh(Footprint(h) - old(Footprint(handle)))
  {
    hide UpdateSketch.Valid, StandsFor, Kmv, AfterHash;
    var state: UpdateSketch;
    if handle.NoHandle? {
      state := new UpdateSketch(DEFAULT_LG_K, X8, 1.0, seedHash);
      NothingSeen(state);
    } else {
      state := handle.sketch;
    }
    state.Update(hash);
    h := MutableSketch(state);
  }

  /** The variant that takes a zero hash for NULL and ignores it. */
  method BuildAccumByHashEmptyIsNull(handle: Handle, seedHash: nat, hash: nat, ghost content: Content)
    returns (h: Handle)
    requires handle.NoHandle? || handle.MutableSketch?
    requires Holds(handle, seedHash, content)
    modifies Footprint(handle)
    ensures hash == 0 ==> h == handle && Holds(h, seedHash, content)
    ensures hash != 0 ==> Holds(h, seedHash, Join(content, RowContent(hash)))
    ensures fresh(Footprint(h) - old(Footprint(handle)))
  {
    if hash == 0 { return handle; }
    h := BuildAccum(handle, seedHash, hash, content);
  }

  /** A serialized sketch as the union reads it through the lazy iterator. */
  ghost predicate Reads(bytes: seq<uint8>, seedHash: nat, view: CompactSketch)
  {
    && Parse(bytes, seedHash).Ok?
    && var p := Parse(bytes, seedHash).value;
       && Wrappable(bytes, p)
       && view.isEmpty == p.isEmpty && view.isOrdered == p.isOrdered
       && view.seedHash == p.seedHash && view.theta == p.theta && |view.entries| == p.numEntries
       && forall i: nat :: i < p.numEntries ==> view.entries[i] == Yielded(bytes, p, i)
  }

  method Wrap(bytes: seq<uint8>, seedHash: nat) returns (r: Result<CompactSketch>)
    ensures r.Ok? ==> Reads(bytes, seedHash, r.value)
    ensures (exists view :: Reads(bytes, seedHash, view)) ==> r.Ok?
    ensures forall view :: Reads(bytes, seedHash, view) ==> r == Ok(view)
  {
    hide Parse, Yielded;
    var parsed := Parse(bytes, seedHash);
    match parsed
    case Err(e) => return Err(e);
    case Ok(p) =>
      if p.entryBits == 64 {
        if |bytes| < p.start + 8 * p.numEntries { return Err(TooShort); }
      } else if !Wrappable(bytes, p) {
        return Err(BadWidth);
      }
      var entries := Iterate(bytes, p);
      var view := CompactSketch(p.isEmpty, p.isOrdered, p.seedHash, p.theta, entries);
      forall other | Reads(bytes, seedHash, other)
        ensures other == view
      {
        assert other.entries == view.entries;
      }
      return Ok(view);
  }

  /** What a sketch contributes to a union: nothing if it is empty. */
  function ContentOf(view: CompactSketch): Content
  {
    if view.isEmpty then NOTHING else Content(true, Elements(view.entries), view.theta)
  }

  /** Contents with the same sample keep the same sample when joined with more. */
  lemma JoinKeepsSample(a: Content, b: Content, c: Content)
    requires SampleOf(a) == SampleOf(b)
    ensures SampleOf(Join(a, c)) == SampleOf(Join(b, c)) && SampleOf(Join(c, a)) == SampleOf(Join(c, b))
  {
    MergeOfSamples(NOMINAL, a.seen, a.low, c.seen, c.low);
    MergeOfSamples(NOMINAL, b.seen, b.low, c.seen, c.low);
    MergeOfSamples(NOMINAL, c.seen, c.low, a.seen, a.low);
    MergeOfSamples(NOMINAL, c.seen, c.low, b.seen, b.low);
  }

  /** A sketch that stands for a content contributes the same sample as the content itself. */
  lemma StandInSample(c: CompactSketch, seedHash: nat, content: Content)
    requires StandsFor(c, seedHash, content)
    ensures SampleOf(ContentOf(c)) == SampleOf(content)
  {
    if !c.isEmpty { KmvAtThreshold(NOMINAL, content.seen, content.low, c.theta); }
  }

  /** Feeds one sketch to a union that holds a content. */
  method Absorb(u: Union, seedHash: nat, view: CompactSketch, ghost content: Content) returns (ok: bool)
    requires Holds(UnionState(u), seedHash, content) && ValidSketch(view)
    modifies u, u.table, u.table.entries
    ensures Holds(UnionState(u), seedHash, if ok then Join(content, ContentOf(view)) else content)
    ensures ok <==> view.isEmpty || view.seedHash == seedHash
    ensures u.table.isEmpty == (old(u.table.isEmpty) && !(ok && !view.isEmpty))
    ensures u.table.entries == old(u.table.entries) || fresh(u.table.entries)
  {
    hide ValidSketch, Kmv, Elements, Union.Valid;
    ghost var before := Content(content.any, u.all, u.low);
    ValidInRange(view);
    LowBound(u, seedHash, content);
    ok := u.Update(view);
    if ok && !view.isEmpty {
      JoinKeepsSample(before, content, ContentOf(view));
    } else if ok {
      JoinNothing(content);
    }
  }

  lemma LowBound(u: Union, seedHash: nat, content: Content)
    requires Holds(UnionState(u), seedHash, content)
    ensures u.low <= MAX_THETA
  {
  }

  lemma JoinNothing(content: Content)
    requires content.low <= MAX_THETA
    ensures Join(content, NOTHING) == content && Join(NOTHING, content) == content
  {
  }

  method NewUnion(seedHash: nat) returns (u: Union)
    ensures Holds(UnionState(u), seedHash, NOTHING) && fresh(u) && fresh(u.table) && fresh(u.table.entries)
  {
    u := new Union(DEFAULT_LG_K, X8, 1.0, seedHash);
  }

  /** Updates the union with a serialized sketch; an error is one of the parser's exceptions. */
  method UnionAccum(handle: Handle, seedHash: nat, bytes: seq<uint8>, ghost content: Content)
    returns (r: Result<Handle>)
    requires handle.NoHandle? || handle.UnionState?
    requires Holds(handle, seedHash, content)
    requires forall view :: Reads(bytes, seedHash, view) ==> ValidSketch(view)
    modifies Footprint(handle)
    ensures r.Ok? <==> exists view :: Reads(bytes, seedHash, view) && (view.isEmpty || view.seedHash == seedHash)
    ensures r.Ok? ==> r.value.UnionState? && fresh(Footprint(r.value) - old(Footprint(handle)))
    ensures forall view :: r.Ok? && Reads(bytes, seedHash, view) ==>
              Holds(r.value, seedHash, Join(content, ContentOf(view)))
  {
    hide ValidSketch, Kmv, Reads, Union.Valid;
    var wrapped := Wrap(bytes, seedHash);
    if wrapped.Err? { return Err(wrapped.error); }
    var u: Union;
    if handle.NoHandle? {
      u := NewUnion(seedHash);
    } else {
      u := handle.union;
    }
    var ok := Absorb(u, seedHash, wrapped.value, content);
    if !ok { return Err(SeedMismatch); }
    r := Ok(UnionState(u));
  }

  // ---- merging ----

  /** The sketch behind a handle: a union gives its result, a sketch is itself. */
  method GetResult(handle: Handle, seedHash: nat, ghost content: Content) returns (c: CompactSketch)
    requires !handle.NoHandle? && seedHash < 0x1_0000 && Holds(handle, seedHash, content)
    ensures StandsFor(c, seedHash, content)
    ensures handle.ImmutableSketch? ==> c == handle.compact
    ensures handle.UnionState? ==> Canonical(c, SampleOf(content))
  {
    hide Kmv, Pow2, Union.Valid;
    NominalIsPow2();
    match handle
    case MutableSketch(s) =>
      LoadBound(s);
      c := s.View();
      StandsForView(c, seedHash, content, 2 * NOMINAL);
    case ImmutableSketch(compact) =>
      c := compact;
    case UnionState(u) =>
      c := u.GetResult(true);
      KmvSaturated(NOMINAL, content.seen, content.low);
      ValidInRange(c);
      EmptyResult(u, seedHash, content);
      StandsForView(c, seedHash, content, NOMINAL);
  }

  lemma EmptyResult(u: Union, seedHash: nat, content: Content)
    requires Holds(UnionState(u), seedHash, content)
    ensures u.table.isEmpty ==> SampleOf(content).theta == MAX_THETA
  {
    assert Below({}, MAX_THETA) == {};
  }

  lemma LoadBound(s: UpdateSketch)
    requires s.Valid() && s.table.lgNom == DEFAULT_LG_K
    ensures s.table.numEntries < 2 * NOMINAL
  {
    hide Pow2;
    NominalIsPow2();
    CapacityLeavesFreeSlot(s.table.lgCur, s.table.lgNom);
    Pow2Monotone(s.table.lgCur, DEFAULT_LG_K + 1);
  }

  lemma StandsForView(c: CompactSketch, seedHash: nat, content: Content, bound: nat)
    requires ValidSketch(c) && c.seedHash == seedHash < 0x1_0000 && |c.entries| <= bound <= 2 * NOMINAL
    requires |c.entries| <= 1 ==> c.isOrdered
    requires c.isEmpty == !content.any && (c.isEmpty ==> content == NOTHING && c.theta == MAX_THETA)
    requires Saturated(NOMINAL, content.seen, content.low, c.theta)
    requires Elements(c.entries) == Below(content.seen, c.theta)
    ensures StandsFor(c, seedHash, content)
  {
  }

  /** Merges two states into a new union. */
  method UnionMerge(left: Handle, right: Handle, seedHash: nat, ghost a: Content, ghost b: Content) returns (h: Handle)
    requires seedHash < 0x1_0000 && Holds(left, seedHash, a) && Holds(right, seedHash, b)
    ensures Holds(h, seedHash, Join(a, b))
    ensures h == NoHandle <==> left.NoHandle? && right.NoHandle?
    ensures h == NoHandle || (h.UnionState? && fresh(Footprint(h)))
  {
    hide Holds, Join, StandsFor, Footprint;
    NothingHeld(left, seedHash, a);
    NothingHeld(right, seedHash, b);
    if left.NoHandle? && right.NoHandle? { return NoHandle; }
    var u := NewUnion(seedHash);
    MergeSide(u, left, seedHash, NOTHING, a);
    MergeSide(u, right, seedHash, a, b);
    h := UnionState(u);
    FootprintOfUnion(u);
  }

  lemma FootprintOfUnion(u: Union)
    ensures Footprint(UnionState(u)) == {u, u.table, u.table.entries}
  {
  }

  /** Takes one side, if there is one, into the new union. */
  method MergeSide(u: Union, side: Handle, seedHash: nat, ghost before: Content, ghost content: Content)
    requires seedHash < 0x1_0000 && Holds(UnionState(u), seedHash, before) && Holds(side, seedHash, content)
    modifies u, u.table, u.table.entries
    ensures Holds(UnionState(u), seedHash, Join(before, content))
    ensures u.table.entries == old(u.table.entries) || fresh(u.table.entries)
  {
    NothingHeld(side, seedHash, content);
    NothingHeld(UnionState(u), seedHash, before);
    if !side.NoHandle? {
      hide Holds, Join, StandsFor;
      var c := GetResult(side, seedHash, content);
      MergeInto(u, seedHash, c, before, content);
    }
  }

  lemma NothingHeld(h: Handle, seedHash: nat, content: Content)
    requires Holds(h, seedHash, content)
    ensures Join(content, NOTHING) == content && Join(NOTHING, content) == content && content.low <= MAX_THETA
    ensures h.NoHandle? ==> content == NOTHING
    ensures Join(NOTHING, NOTHING) == NOTHING
  {
    JoinNothing(content);
  }

  /** Updating a union with a sketch that stands for a content joins the content to it. */
  method MergeInto(u: Union, seedHash: nat, c: CompactSketch, ghost before: Content, ghost content: Content)
    requires Holds(UnionState(u), seedHash, before) && StandsFor(c, seedHash, content) && content.low <= MAX_THETA
    modifies u, u.table, u.table.entries
    ensures Holds(UnionState(u), seedHash, Join(before, content))
    ensures u.table.entries == old(u.table.entries) || fresh(u.table.entries)
  {
    hide ValidSketch, Kmv, Union.Valid, SampleOf;
    StandInSample(c, seedHash, content);
    JoinKeepsSample(ContentOf(c), content, before);
    var ok := Absorb(u, seedHash, c, before);
  }

  // ---- shipping ----

  /** Consumes the state; `c` is the sketch that the bytes serialize. */
  method Serialize(handle: Handle, seedHash: nat, junk: Junk, ghost content: Content)
    returns (bytes: seq<uint8>, ghost c: CompactSketch)
    requires seedHash < 0x1_0000 && Holds(handle, seedHash, content)
    ensures bytes == [] <==> handle.NoHandle?
    ensures !handle.NoHandle? ==> StandsFor(c, seedHash, content) && bytes == Serialize3(c, junk)
    ensures handle.MutableSketch? ==> Canonical(c, handle.sketch.State())
    ensures handle.ImmutableSketch? ==> c == handle.compact
    ensures handle.UnionState? ==> Canonical(c, SampleOf(content))
  {
    hide Serialize3, Pow2, Union.Valid, Kmv;
    var compact := CompactSketch(true, true, seedHash, MAX_THETA, []);
    if handle.NoHandle? {
      bytes, c := [], compact;
    } else if handle.MutableSketch? {
      NominalIsPow2();
      LoadBound(handle.sketch);
      compact := handle.sketch.Compact(true);
      StandsForView(compact, seedHash, content, 2 * NOMINAL);
      bytes, c := Serialize3(compact, junk), compact;
    } else {
      compact := GetResult(handle, seedHash, content);
      bytes, c := Serialize3(compact, junk), compact;
    }
  }

  method DeserializeState(bytes: seq<uint8>, seedHash: nat) returns (r: Result<Handle>)
    ensures bytes == [] ==> r == Ok(NoHandle)
    ensures bytes != [] ==>
              r == match Decode(bytes, seedHash) case Ok(c) => Ok(ImmutableSketch(c)) case Err(e) => Err(e)
  {
    if |bytes| == 0 { return Ok(NoHandle); }
    var d := Deserialize(bytes, seedHash);
    match d
    case Ok(c) => return Ok(ImmutableSketch(c));
    case Err(e) => return Err(e);
  }

  /** A shipped state stands for what it stood for. */
  lemma ShippingKeepsSketch(c: CompactSketch, junk: Junk, seedHash: nat, content: Content)
    requires StandsFor(c, seedHash, content)
    ensures Decode(Serialize3(c, junk), seedHash) == Ok(c)
  {
    hide Decode, Serialize3;
    RoundTrip3(c, junk, seedHash);
  }

  // ---- any split of the rows, any tree of merges ----

  /**
   How an aggregate may be executed: leaves build from row hashes or accumulate serialized sketches,
   states are merged in any tree, and shipped between nodes anywhere.
   */
  datatype Plan =
    | Rows(hashes: seq<nat>)
    | Blobs(blobs: seq<seq<uint8>>)
    | Merge(left: Plan, right: Plan)
    | Ship(plan: Plan, junk: Junk)

  /** Every serialized input reads as a valid sketch with the expected seed hash. */
  ghost predicate Acceptable(bytes: seq<uint8>, seedHash: nat)
  {
    && (forall view :: Reads(bytes, seedHash, view) ==> ValidSketch(view))
    && exists view :: Reads(bytes, seedHash, view) && (view.isEmpty || view.seedHash == seedHash)
  }

  ghost predicate AllAcceptable(blobs: seq<seq<uint8>>, seedHash: nat)
  {
    forall i :: 0 <= i < |blobs| ==> Acceptable(blobs[i], seedHash)
  }

  ghost predicate Runnable(plan: Plan, seedHash: nat)
  {
    match plan
    case Rows(_) => true
    case Blobs(blobs) => AllAcceptable(blobs, seedHash)
    case Merge(left, right) => Runnable(left, seedHash) && Runnable(right, seedHash)
    case Ship(p, _) => Runnable(p, seedHash)
  }

  /** The sketch that the bytes read as. */
  ghost function ViewOf(bytes: seq<uint8>, seedHash: nat): (view: CompactSketch)
    requires Acceptable(bytes, seedHash)
    ensures Reads(bytes, seedHash, view) && ValidSketch(view)
  {
    var view :| Reads(bytes, seedHash, view);
    view
  }

  ghost function ViewsOf(blobs: seq<seq<uint8>>, seedHash: nat): (views: seq<CompactSketch>)
    requires AllAcceptable(blobs, seedHash)
    ensures |views| == |blobs| && forall i :: 0 <= i < |blobs| ==> views[i] == ViewOf(blobs[i], seedHash)
  {
    seq(|blobs|, i requires 0 <= i < |blobs| => ViewOf(blobs[i], seedHash))
  }

  function ContentOfRows(hashes: seq<nat>): Content
  {
    if hashes == [] then NOTHING else Content(true, Elements(hashes) - {0}, MAX_THETA)
  }

  /** What a union of the sketches is a function of. */
  function ContentOfViews(views: seq<CompactSketch>): Content
  {
    Content(exists i :: 0 <= i < |views| && !views[i].isEmpty, AllEntries(views), LowestOf(views, MAX_THETA))
  }

  /** All that the plan's leaves feed in, whatever its shape. */
  ghost function ContentOfPlan(plan: Plan, seedHash: nat): Content
    requires Runnable(plan, seedHash)
  {
    match plan
    case Rows(hashes) => ContentOfRows(hashes)
    case Blobs(blobs) => ContentOfViews(ViewsOf(blobs, seedHash))
    case Merge(left, right) => Join(ContentOfPlan(left, seedHash), ContentOfPlan(right, seedHash))
    case Ship(p, _) => ContentOfPlan(p, seedHash)
  }

  /** Whether the plan's state comes out of a union, possibly shipped. */
  predicate EndsInUnion(plan: Plan)
  {
    match plan
    case Rows(_) => false
    case Blobs(_) => true
    case Merge(_, _) => true
    case Ship(p, _) => EndsInUnion(p)
  }

  /** The rows of all leaves. */
  function RowsOf(plan: Plan): seq<nat>
  {
    match plan
    case Rows(hashes) => hashes
    case Blobs(_) => []
    case Merge(left, right) => RowsOf(left) + RowsOf(right)
    case Ship(p, _) => RowsOf(p)
  }

  /** The serialized sketches of all leaves. */
  function BlobsOf(plan: Plan): seq<seq<uint8>>
  {
    match plan
    case Rows(_) => []
    case Blobs(blobs) => blobs
    case Merge(left, right) => BlobsOf(left) + BlobsOf(right)
    case Ship(p, _) => BlobsOf(p)
  }

  predicate NoInput(plan: Plan)
  {
    RowsOf(plan) == [] && BlobsOf(plan) == []
  }

  method RunRows(hashes: seq<nat>, seedHash: nat) returns (h: Handle)
    ensures Holds(h, seedHash, ContentOfRows(hashes))
    ensures h.NoHandle? || h.MutableSketch?
    ensures h.NoHandle? <==> hashes == []
    ensures h.MutableSketch? ==> h.sketch.State() == AfterHashes(DEFAULT_LG_K, hashes, MAX_THETA)
    ensures fresh(Footprint(h))
  {
    hide Holds, ContentOfRows, Join, AfterHash;
    NoRows();
    h := Init(seedHash);
    for i := 0 to |hashes|
      invariant Holds(h, seedHash, ContentOfRows(hashes[..i])) && fresh(Footprint(h))
      invariant h.NoHandle? || h.MutableSketch?
      invariant h.NoHandle? <==> i == 0
      invariant h.MutableSketch? ==> h.sketch.State() == AfterHashes(DEFAULT_LG_K, hashes[..i], MAX_THETA)
    {
      RowsStep(hashes, i);
      NextHash(DEFAULT_LG_K, hashes, i, MAX_THETA);
      h := BuildAccum(h, seedHash, hashes[i], ContentOfRows(hashes[..i]));
    }
    assert hashes[..|hashes|] == hashes;
  }

  lemma NoRows()
    ensures ContentOfRows([]) == NOTHING
  {
  }

  lemma RowsStep(hashes: seq<nat>, i: nat)
    requires i < |hashes|
    ensures ContentOfRows(hashes[..i + 1]) == Join(ContentOfRows(hashes[..i]), RowContent(hashes[i]))
  {
    assert hashes[..i + 1] == hashes[..i] + [hashes[i]];
    ElementsAppend(hashes[..i], hashes[i]);
    assert Elements(hashes[..0]) == {};
  }

  method RunBlobs(blobs: seq<seq<uint8>>, seedHash: nat) returns (h: Handle)
    requires AllAcceptable(blobs, seedHash)
    ensures Holds(h, seedHash, ContentOfViews(ViewsOf(blobs, seedHash)))
    ensures h.NoHandle? || h.UnionState?
    ensures h.NoHandle? <==> blobs == []
    ensures fresh(Footprint(h))
  {
    hide Holds, ContentOfViews, Join, Reads, ValidSketch, ViewsOf, ContentOf;
    ghost var views := ViewsOf(blobs, seedHash);
    NoViews();
    h := Init(seedHash);
    for i := 0 to |blobs|
      invariant Holds(h, seedHash, ContentOfViews(views[..i])) && fresh(Footprint(h))
      invariant h.NoHandle? || h.UnionState?
      invariant h.NoHandle? <==> i == 0
    {
      BlobsStep(blobs, seedHash, i);
      ViewsStep(views, i);
      var r := UnionAccum(h, seedHash, blobs[i], ContentOfViews(views[..i]));
      h := r.value;
    }
    assert views[..|blobs|] == views;
  }

  lemma NoViews()
    ensures ContentOfViews([]) == NOTHING
  {
  }

  lemma BlobsStep(blobs: seq<seq<uint8>>, seedHash: nat, i: nat)
    requires i < |blobs| && AllAcceptable(blobs, seedHash)
    ensures Acceptable(blobs[i], seedHash)
    ensures Reads(blobs[i], seedHash, ViewsOf(blobs, seedHash)[i]) && ValidSketch(ViewsOf(blobs, seedHash)[i])
  {
    assert ViewsOf(blobs, seedHash)[i] == ViewOf(blobs[i], seedHash);
  }

  lemma ViewsStep(views: seq<CompactSketch>, i: nat)
    requires i < |views| && ValidSketch(views[i])
    ensures ContentOfViews(views[..i + 1]) == Join(ContentOfViews(views[..i]), ContentOf(views[i]))
  {
    hide AllEntries, LowestOf;
    InputsStep(views, i, MAX_THETA);
    LowestAtMostStart(views[..i], MAX_THETA);
    assert views[..i + 1][..i] == views[..i] && views[..i + 1][i] == views[i];
    if exists j :: 0 <= j < i && !views[j].isEmpty {
      var j :| 0 <= j < i && !views[j].isEmpty;
      assert !views[..i][j].isEmpty && !views[..i + 1][j].isEmpty;
    }
  }

  /** Serializing the handle's state gives the ordered sketch of that sample. */
  ghost predicate Yields(h: Handle, s: Sample)
    reads match h
          case MutableSketch(m) => {m, m.table, m.table.entries}
          case UnionState(u) => {u, u.table}
          case _ => {}
  {
    match h
    case NoHandle => true
    case MutableSketch(m) => m.State() == s
    case ImmutableSketch(c) => Canonical(c, s)
    case UnionState(u) => Kmv(NOMINAL, u.all, u.low) == s
    case IntersectionState(_) => false
  }

  /** Ships a state: serialized on one node, deserialized on another. */
  method RunShip(handle: Handle, seedHash: nat, junk: Junk, ghost content: Content, ghost s: Sample)
    returns (h: Handle)
    requires seedHash < 0x1_0000 && Holds(handle, seedHash, content) && Yields(handle, s)
    ensures Holds(h, seedHash, content) && Footprint(h) == {}
    ensures if handle.NoHandle? then h.NoHandle? else h.ImmutableSketch?
    ensures Yields(h, s)
  {
    hide StandsFor, Serialize3, Decode, Canonical;
    var bytes, c := Serialize(handle, seedHash, junk, content);
    if !handle.NoHandle? { ShippingKeepsSketch(c, junk, seedHash, content); }
    var r := DeserializeState(bytes, seedHash);
    h := r.value;
  }

  /**
   The sample that a plan's final sketch holds. A union's is that of the content; a leaf of rows that no union
   takes is serialized as its table happens to be, which is not trimmed.
   */
  ghost function ResultOf(plan: Plan, seedHash: nat): Sample
    requires Runnable(plan, seedHash)
  {
    if EndsInUnion(plan) then SampleOf(ContentOfPlan(plan, seedHash))
    else AfterHashes(DEFAULT_LG_K, RowsOf(plan), MAX_THETA)
  }

  /** Executes a plan with the callbacks. */
  method Run(plan: Plan, seedHash: nat) returns (h: Handle)
    requires seedHash < 0x1_0000 && Runnable(plan, seedHash)
    ensures Holds(h, seedHash, ContentOfPlan(plan, seedHash))
    ensures Yields(h, ResultOf(plan, seedHash))
    ensures h.NoHandle? <==> NoInput(plan)
    ensures fresh(Footprint(h))
    decreases plan
  {
    hide Holds, Footprint, StandsFor, Serialize3, Canonical, ContentOfRows, ContentOfViews, Join, Yields, SampleOf;
    match plan
    case Rows(hashes) =>
      h := RunRows(hashes, seedHash);
      LeafYields(h, plan, seedHash);
    case Blobs(blobs) =>
      h := RunBlobs(blobs, seedHash);
      UnionYields(h, plan, seedHash);
    case Merge(left, right) =>
      var l := Run(left, seedHash);
      var r := Run(right, seedHash);
      h := UnionMerge(l, r, seedHash, ContentOfPlan(left, seedHash), ContentOfPlan(right, seedHash));
      FootprintOfNone();
      UnionYields(h, plan, seedHash);
    case Ship(p, junk) =>
      var s := Run(p, seedHash);
      h := RunShip(s, seedHash, junk, ContentOfPlan(p, seedHash), ResultOf(p, seedHash));
  }

  lemma LeafYields(h: Handle, plan: Plan, seedHash: nat)
    requires plan.Rows? && (h.NoHandle? || h.MutableSketch?)
    requires h.MutableSketch? ==> h.sketch.State() == AfterHashes(DEFAULT_LG_K, plan.hashes, MAX_THETA)
    ensures Yields(h, ResultOf(plan, seedHash))
  {
  }

  lemma UnionYields(h: Handle, plan: Plan, seedHash: nat)
    requires Runnable(plan, seedHash) && EndsInUnion(plan) && (h.NoHandle? || h.UnionState?)
    requires Holds(h, seedHash, ContentOfPlan(plan, seedHash))
    ensures Yields(h, ResultOf(plan, seedHash))
  {
  }

  lemma FootprintOfNone()
    ensures Footprint(NoHandle) == {}
  {
  }

  /** Executes a plan and serializes its state, the way the final value of an aggregate is made. */
  method Aggregate(plan: Plan, seedHash: nat, junk: Junk) returns (bytes: seq<uint8>, ghost c: CompactSketch)
    requires seedHash < 0x1_0000 && Runnable(plan, seedHash)
    ensures bytes == [] <==> NoInput(plan)
    ensures bytes != [] ==> bytes == Serialize3(c, junk) && StandsFor(c, seedHash, ContentOfPlan(plan, seedHash))
    ensures bytes != [] ==> Canonical(c, ResultOf(plan, seedHash))
    ensures bytes == [] ==> ContentOfPlan(plan, seedHash) == NOTHING
  {
    hide StandsFor, Serialize3, Canonical, ContentOfRows, ContentOfViews, Join, ResultOf, ContentOfPlan, NoInput;
    var h := Run(plan, seedHash);
    ghost var content := ContentOfPlan(plan, seedHash);
    bytes, c := Serialize(h, seedHash, junk, content);
  }

  /** A sketch that stands for a content is the content's sample exactly when it has at most k entries. */
  lemma SampleWhenTrimmed(c: CompactSketch, seedHash: nat, content: Content)
    requires StandsFor(c, seedHash, content)
    ensures Kmv(NOMINAL, Elements(c.entries), c.theta) == SampleOf(content)
    ensures Sample(Elements(c.entries), c.theta) == SampleOf(content) <==> |c.entries| <= NOMINAL
  {
    KmvAtThreshold(NOMINAL, content.seen, content.low, c.theta);
    KmvSaturated(NOMINAL, content.seen, content.low);
    ValidInRange(c);
  }

  /** Two ordered sketches that stand for one content have the same bytes exactly when they have one sample. */
  lemma SameBytes(c: CompactSketch, d: CompactSketch, r: Sample, s: Sample, seedHash: nat, content: Content, junk: Junk)
    requires StandsFor(c, seedHash, content) && StandsFor(d, seedHash, content)
    requires Canonical(c, r) && Canonical(d, s)
    ensures Serialize3(c, junk) == Serialize3(d, junk) <==> r == s
    ensures c == d <==> r == s
  {
    hide Serialize3, Decode;
    RoundTrip3(c, junk, seedHash);
    RoundTrip3(d, junk, seedHash);
    if r == s { AscendingUnique(c.entries, d.entries); }
  }

  /**
   Whether the plan's result is what a trim leaves: it comes out of a union, or the rows of its one leaf happen to
   leave no more than k entries.
   */
  ghost predicate Trimmed(plan: Plan)
  {
    EndsInUnion(plan) || |AfterHashes(DEFAULT_LG_K, RowsOf(plan), MAX_THETA).entries| <= NOMINAL
  }

  /** The number of different non-zero hashes below the maximal theta. */
  function RowCount(hashes: seq<nat>): nat
  {
    |Below(Elements(hashes) - {0}, MAX_THETA)|
  }

  /** As long as the full table has room for all rows, their number decides. */
  lemma TrimmedByCount(plan: Plan)
    ensures RowCount(RowsOf(plan)) <= 7680 ==>
              (Trimmed(plan) <==> EndsInUnion(plan) || RowCount(RowsOf(plan)) <= NOMINAL)
  {
    hide Capacity, Pow2, Elements, AfterHashes;
    FullTable();
    if RowCount(RowsOf(plan)) <= 7680 { AllFit(DEFAULT_LG_K, RowsOf(plan), MAX_THETA); }
  }

  /** The result is the sample of the plan's content exactly if it is trimmed. */
  lemma ResultWhenTrimmed(plan: Plan, c: CompactSketch, seedHash: nat)
    requires Runnable(plan, seedHash) && StandsFor(c, seedHash, ContentOfPlan(plan, seedHash))
    requires Canonical(c, ResultOf(plan, seedHash))
    ensures ResultOf(plan, seedHash) == SampleOf(ContentOfPlan(plan, seedHash)) <==> Trimmed(plan)
  {
    hide ContentOfPlan, AfterHashes, Kmv, Elements, ValidSketch;
    SampleWhenTrimmed(c, seedHash, ContentOfPlan(plan, seedHash));
    ValidInRange(c);
  }

  /**
   Two executions over the same content yield the same bytes exactly if both or neither have inputs, and both
   results are trimmed or the same rows-only tables are left.
   */
  method SameOutcome(p: Plan, q: Plan, seedHash: nat, junk: Junk) returns (a: seq<uint8>, b: seq<uint8>)
    requires seedHash < 0x1_0000 && Runnable(p, seedHash) && Runnable(q, seedHash)
    requires ContentOfPlan(p, seedHash) == ContentOfPlan(q, seedHash)
    ensures a == b <==>
            && NoInput(p) == NoInput(q) && Trimmed(p) == Trimmed(q)
            && (Trimmed(p) ||
                AfterHashes(DEFAULT_LG_K, RowsOf(p), MAX_THETA) == AfterHashes(DEFAULT_LG_K, RowsOf(q), MAX_THETA))
  {
    hide StandsFor, Serialize3, Canonical, ContentOfPlan, Runnable, EndsInUnion, NoInput, AfterHashes, SampleOf;
    ghost var c, d;
    a, c := Aggregate(p, seedHash, junk);
    b, d := Aggregate(q, seedHash, junk);
    NoInputTrimmed(p);
    NoInputTrimmed(q);
    if a != [] && b != [] {
      SameBytes(c, d, ResultOf(p, seedHash), ResultOf(q, seedHash), seedHash, ContentOfPlan(p, seedHash), junk);
      ResultWhenTrimmed(p, c, seedHash);
      ResultWhenTrimmed(q, d, seedHash);
    }
  }

  lemma NoInputTrimmed(plan: Plan)
    ensures NoInput(plan) ==> Trimmed(plan)
  {
  }

  /** A serialized state reads back, lazily too, as the sketch that was serialized. */
  lemma SerializedReads(c: CompactSketch, junk: Junk, seedHash: nat, content: Content)
    requires StandsFor(c, seedHash, content)
    ensures Reads(Serialize3(c, junk), seedHash, c)
    ensures Acceptable(Serialize3(c, junk), seedHash) && ViewOf(Serialize3(c, junk), seedHash) == c
    ensures SampleOf(ContentOf(c)) == SampleOf(content)
  {
    hide Decode, Serialize3, Parse, Yielded, ReadLE, Kmv;
    var bytes := Serialize3(c, junk);
    StandInSample(c, seedHash, content);
    RoundTrip3(c, junk, seedHash);
    ParseOf3(c, junk, seedHash);
    IteratorYieldsEntries(bytes, seedHash, c);
    forall view | Reads(bytes, seedHash, view)
      ensures view == c
    {
      assert view.entries == c.entries;
    }
  }

  /**
   A compressed sketch reads lazily as itself exactly when the iterator stays within the form and every difference
   comes back the way it is read.
   */
  lemma CompressedReads(bytes: seq<uint8>, c: CompactSketch, bits: uint8)
    requires Encodes4(bytes, c, bits)
    ensures Reads(bytes, c.seedHash, c) <==> StaysWithin(|c.entries|, bits) && IteratorSafe(c.entries, bits)
  {
    hide Encodes4, IteratorSafe, Parse, Yielded, Wrappable;
    IteratorRoundTrip4(bytes, c, bits);
  }

  // ---- what a plan's content is ----

  /** The content of a plan is that of all its rows together with all its serialized sketches. */
  lemma {:induction false} PlanContent(plan: Plan, seedHash: nat)
    requires Runnable(plan, seedHash)
    ensures AllAcceptable(BlobsOf(plan), seedHash)
    ensures ContentOfPlan(plan, seedHash) ==
            Join(ContentOfRows(RowsOf(plan)), ContentOfViews(ViewsOf(BlobsOf(plan), seedHash)))
  {
    hide ContentOfRows, ContentOfViews, Join, Acceptable;
    NoRows();
    NoViews();
    match plan
    case Rows(hashes) =>
      RowsLow(hashes);
      JoinNothing(ContentOfRows(hashes));
      assert ViewsOf([], seedHash) == [];
    case Blobs(blobs) =>
      ViewsLow(ViewsOf(blobs, seedHash));
      JoinNothing(ContentOfViews(ViewsOf(blobs, seedHash)));
    case Merge(left, right) =>
      PlanContent(left, seedHash);
      PlanContent(right, seedHash);
      RowsTogether(RowsOf(left), RowsOf(right));
      BlobsTogether(BlobsOf(left), BlobsOf(right), seedHash);
      ViewsTogether(ViewsOf(BlobsOf(left), seedHash), ViewsOf(BlobsOf(right), seedHash));
      JoinsRegroup(ContentOfRows(RowsOf(left)), ContentOfViews(ViewsOf(BlobsOf(left), seedHash)),
                   ContentOfRows(RowsOf(right)), ContentOfViews(ViewsOf(BlobsOf(right), seedHash)));
    case Ship(p, _) =>
      PlanContent(p, seedHash);
  }

  /**
   The content in terms of the leaves: the non-zero row hashes and what the serialized sketches retain, the lowest
   theta of those that are not empty, and whether there was a row or such a sketch.
   */
  lemma ContentIs(plan: Plan, seedHash: nat, h: nat)
    requires Runnable(plan, seedHash)
    ensures AllAcceptable(BlobsOf(plan), seedHash)
    ensures var content, views := ContentOfPlan(plan, seedHash), ViewsOf(BlobsOf(plan), seedHash);
            && (h in content.seen <==>
                 (h != 0 && h in RowsOf(plan)) || exists i :: 0 <= i < |views| && h in views[i].entries)
            && (h <= content.low <==>
                 h <= MAX_THETA && forall i :: 0 <= i < |views| && !views[i].isEmpty ==> h <= views[i].theta)
            && (content.any <==> RowsOf(plan) != [] || exists i :: 0 <= i < |views| && !views[i].isEmpty)
  {
    hide ContentOfPlan, AllEntries, LowestOf, Acceptable, ViewOf, ViewsOf, Runnable;
    PlanContent(plan, seedHash);
    var views := ViewsOf(BlobsOf(plan), seedHash);
    AllEntriesIs(views, h);
    LowestOfIs(views, MAX_THETA, h);
    ElementsMember(RowsOf(plan), h);
  }

  /**
   An aggregate by union in full: the bytes decode to the ordered sample of capacity 4096 of all that the leaves
   hold, whatever the tree and the shipping.
   */
  method AggregateUnion(plan: Plan, seedHash: nat, junk: Junk) returns (bytes: seq<uint8>)
    requires seedHash < 0x1_0000 && Runnable(plan, seedHash) && EndsInUnion(plan)
    requires RowsOf(plan) != [] || BlobsOf(plan) != []
    ensures AllAcceptable(BlobsOf(plan), seedHash) && Decode(bytes, seedHash).Ok?
    ensures var views, c := ViewsOf(BlobsOf(plan), seedHash), Decode(bytes, seedHash).value;
            && c.isOrdered && c.seedHash == seedHash
            && Sample(Elements(c.entries), c.theta) ==
               Kmv(4096, (Elements(RowsOf(plan)) - {0}) + AllEntries(views), LowestOf(views, MAX_THETA))
            && (c.isEmpty <==> RowsOf(plan) == [] && forall i :: 0 <= i < |views| ==> views[i].isEmpty)
  {
    hide StandsFor, Serialize3, ContentOfPlan, Runnable, EndsInUnion, Kmv, Decode, Acceptable, ViewOf, ViewsOf,
         Elements, AllEntries, LowestOf;
    ghost var c;
    bytes, c := Aggregate(plan, seedHash, junk);
    ghost var content := ContentOfPlan(plan, seedHash);
    ShippingKeepsSketch(c, junk, seedHash, content);
    EmptyAlike(c, seedHash, content);
    ContentIs(plan, seedHash, 0);
    PlanSets(plan, seedHash);
  }

  lemma PlanSets(plan: Plan, seedHash: nat)
    requires Runnable(plan, seedHash)
    ensures AllAcceptable(BlobsOf(plan), seedHash)
    ensures var content, views := ContentOfPlan(plan, seedHash), ViewsOf(BlobsOf(plan), seedHash);
            && content.seen == (Elements(RowsOf(plan)) - {0}) + AllEntries(views)
            && content.low == LowestOf(views, MAX_THETA)
  {
    hide ContentOfPlan, Runnable, Acceptable, ViewOf, ViewsOf, AllEntries, LowestOf;
    PlanContent(plan, seedHash);
    LowestAtMostStart(ViewsOf(BlobsOf(plan), seedHash), MAX_THETA);
    NoElements(RowsOf(plan));
    assert RowsOf(plan)[..0] == [];
  }

  lemma EmptyAlike(c: CompactSketch, seedHash: nat, content: Content)
    requires StandsFor(c, seedHash, content)
    ensures c.isEmpty == !content.any && c.seedHash == seedHash
  {
  }

  lemma RowsLow(hashes: seq<nat>)
    ensures ContentOfRows(hashes).low == MAX_THETA
  {
  }

  lemma ViewsLow(views: seq<CompactSketch>)
    ensures ContentOfViews(views).low <= MAX_THETA
  {
    LowestAtMostStart(views, MAX_THETA);
  }

  lemma JoinsRegroup(a: Content, b: Content, c: Content, d: Content)
    ensures Join(Join(a, b), Join(c, d)) == Join(Join(a, c), Join(b, d))
  {
    assert (a.seen + b.seen) + (c.seen + d.seen) == (a.seen + c.seen) + (b.seen + d.seen);
  }

  lemma RowsTogether(a: seq<nat>, b: seq<nat>)
    ensures ContentOfRows(a + b) == Join(ContentOfRows(a), ContentOfRows(b))
  {
    assert Elements(a + b) == Elements(a) + Elements(b);
    assert Elements([]) == {};
  }

  lemma BlobsTogether(a: seq<seq<uint8>>, b: seq<seq<uint8>>, seedHash: nat)
    requires AllAcceptable(a, seedHash) && AllAcceptable(b, seedHash)
    ensures AllAcceptable(a + b, seedHash) && ViewsOf(a + b, seedHash) == ViewsOf(a, seedHash) + ViewsOf(b, seedHash)
  {
    hide Acceptable, ViewOf;
  }

  lemma ViewsTogether(a: seq<CompactSketch>, b: seq<CompactSketch>)
    ensures ContentOfViews(a + b) == Join(ContentOfViews(a), ContentOfViews(b))
  {
    hide AllEntries, LowestOf;
    EntriesTogether(a, b, MAX_THETA);
    LowestAtMostStart(a, MAX_THETA);
    LowestAtMostStart(b, MAX_THETA);
    assert forall i :: 0 <= i < |a| ==> (a + b)[i] == a[i];
    assert forall i :: 0 <= i < |b| ==> (a + b)[|a| + i] == b[i];
  }

  /** The content depends only on the set of row hashes and the set of serialized sketches. */
  lemma SameInputsSameContent(p: Plan, q: Plan, seedHash: nat)
    requires Runnable(p, seedHash) && Runnable(q, seedHash)
    requires Elements(RowsOf(p)) == Elements(RowsOf(q)) && forall b :: b in BlobsOf(p) <==> b in BlobsOf(q)
    ensures ContentOfPlan(p, seedHash) == ContentOfPlan(q, seedHash) && NoInput(p) == NoInput(q)
  {
    hide ContentOfPlan, Join, AllEntries, LowestOf, Elements, Acceptable, ViewOf;
    PlanContent(p, seedHash);
    PlanContent(q, seedHash);
    EmptyElements(RowsOf(p));
    EmptyElements(RowsOf(q));
    SameViews(BlobsOf(p), BlobsOf(q), seedHash);
    SameViews(BlobsOf(q), BlobsOf(p), seedHash);
    UnionIgnoresOrder(ViewsOf(BlobsOf(p), seedHash), ViewsOf(BlobsOf(q), seedHash), MAX_THETA);
    if BlobsOf(p) != [] { assert BlobsOf(p)[0] in BlobsOf(q); }
    if BlobsOf(q) != [] { assert BlobsOf(q)[0] in BlobsOf(p); }
  }

  lemma SameViews(a: seq<seq<uint8>>, b: seq<seq<uint8>>, seedHash: nat)
    requires AllAcceptable(a, seedHash) && AllAcceptable(b, seedHash) && forall x :: x in a ==> x in b
    ensures forall c :: c in ViewsOf(a, seedHash) ==> c in ViewsOf(b, seedHash)
    ensures ContentOfViews(ViewsOf(a, seedHash)).any ==> ContentOfViews(ViewsOf(b, seedHash)).any
  {
    hide Acceptable, ViewOf;
    forall i | 0 <= i < |a|
      ensures ViewsOf(a, seedHash)[i] in ViewsOf(b, seedHash)
    {
      assert a[i] in b;
      var j :| 0 <= j < |b| && b[j] == a[i];
      assert ViewsOf(b, seedHash)[j] == ViewsOf(a, seedHash)[i];
    }
  }

  lemma {:induction false} RowsRunnable(plan: Plan, seedHash: nat)
    requires BlobsOf(plan) == []
    ensures Runnable(plan, seedHash)
  {
    match plan
    case Rows(_) =>
    case Blobs(_) =>
    case Merge(left, right) =>
      RowsRunnable(left, seedHash);
      RowsRunnable(right, seedHash);
    case Ship(p, _) =>
      RowsRunnable(p, seedHash);
  }

  lemma RowsPlan(plan: Plan, seedHash: nat)
    requires BlobsOf(plan) == []
    ensures Runnable(plan, seedHash) && ContentOfPlan(plan, seedHash) == ContentOfRows(RowsOf(plan))
  {
    hide ContentOfPlan, Join, ContentOfRows, ContentOfViews, Runnable;
    RowsRunnable(plan, seedHash);
    PlanContent(plan, seedHash);
    assert ViewsOf([], seedHash) == [];
    NoViews();
    RowsLow(RowsOf(plan));
    JoinNothing(ContentOfRows(RowsOf(plan)));
  }

  /**
   The merge-tree theorem: however the rows are split into build aggregates, merged in a tree and shipped between
   nodes, the bytes are those of the sequential sketch of all rows after trim, exactly if the result is trimmed.
   */
  method MatchesSequential(plan: Plan, seedHash: nat, junk: Junk)
    returns (bytes: seq<uint8>, sequential: CompactSketch)
    requires seedHash < 0x1_0000 && BlobsOf(plan) == []
    ensures bytes == [] <==> RowsOf(plan) == []
    ensures RowsOf(plan) != [] ==> (bytes == Serialize3(sequential, junk) <==> Trimmed(plan))
    ensures ValidSketch(sequential) && sequential.isOrdered && sequential.seedHash == seedHash
    ensures RowsOf(plan) != [] ==>
              !sequential.isEmpty
              && Sample(Elements(sequential.entries), sequential.theta) ==
                 Kmv(NOMINAL, Elements(RowsOf(plan)) - {0}, MAX_THETA)
  {
    hide Serialize3, EndsInUnion, ContentOfPlan, Kmv, Runnable, Trimmed, ResultOf;
    RowsPlan(plan, seedHash);
    ghost var c;
    bytes, c := Aggregate(plan, seedHash, junk);
    sequential := BuildAndTrim(DEFAULT_LG_K, X8, 1.0, seedHash, RowsOf(plan));
    if RowsOf(plan) != [] {
      ghost var content := ContentOfPlan(plan, seedHash);
      NominalIsPow2();
      SequentialStandsFor(sequential, seedHash, content);
      SameBytes(c, sequential, ResultOf(plan, seedHash), SampleOf(content), seedHash, content, junk);
      ResultWhenTrimmed(plan, c, seedHash);
    }
  }

  lemma SequentialStandsFor(c: CompactSketch, seedHash: nat, content: Content)
    requires ValidSketch(c) && c.isOrdered && !c.isEmpty && c.seedHash == seedHash < 0x1_0000 && content.any
    requires Sample(Elements(c.entries), c.theta) == SampleOf(content)
    ensures StandsFor(c, seedHash, content)
  {
    hide Kmv;
    KmvSaturated(NOMINAL, content.seen, content.low);
    ValidInRange(c);
    StandsForView(c, seedHash, content, NOMINAL);
  }

  /** One leaf of 4097 rows that nothing merges keeps them all, shipped or not. */
  method LeafKeepsAll(seedHash: nat, junk: Junk) returns (bytes: seq<uint8>, sequential: CompactSketch)
    requires seedHash < 0x1_0000
    ensures bytes != [] && bytes != Serialize3(sequential, junk)
    ensures Sample(Elements(sequential.entries), sequential.theta) ==
            Kmv(NOMINAL, Elements(Rising(4097)) - {0}, MAX_THETA)
  {
    hide Serialize3, Rising, Trimmed, Kmv, Elements;
    bytes, sequential := MatchesSequential(Rows(Rising(4097)), seedHash, junk);
    RisingCounted(4097);
    TrimmedByCount(Rows(Rising(4097)));
  }

  lemma RisingCounted(n: nat)
    requires n < MAX_THETA
    ensures RowCount(Rising(n)) == n
  {
    hide Rising, Elements, Span;
    RisingPrefix(n, n);
    assert Rising(n)[..n] == Rising(n);
    assert Below(Span(1, n + 1) - {0}, MAX_THETA) == Span(1, n + 1);
  }

  /** Two leaves of the same 7682 rows in different order, of which one result is trimmed and the other is not. */
  lemma LeavesDependOnOrder()
    ensures Elements(Rising(7682)) == Elements(Falling(7682))
    ensures Trimmed(Rows(Rising(7682))) && !Trimmed(Rows(Falling(7682)))
  {
    hide AfterHashes, Rising, Falling;
    CountDependsOnOrder();
  }
}
