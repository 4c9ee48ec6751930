/**
 The update table of theta sketches: an open-addressing hash table of non-zero hashes that
 grows in steps and, at full size, is rebuilt to its nominal number of smallest keys.
 */
module UpdateTable {
  import opened Bits
  import opened Sequences
  import opened KMinimumValues
  import opened Probing
  import opened Sizing

  /** Searches an array of slots for a key; returns the slot that holds it or the empty slot for it. */
  method FindIn(slots: array<nat>, lg: nat, key: nat) returns (index: nat, found: bool)
    requires WellPlaced(slots[..], lg) && |Keys(slots[..])| < slots.Length && key != 0
    ensures index < slots.Length && IsSlotFor(slots[..], lg, key, index)
    ensures found <==> slots[index] == key
    ensures !found <==> slots[index] == 0
    ensures found <==> key in Keys(slots[..])
  {
    ghost var s := slots[..];
    SearchStops(s, lg, key);
    var stride := Stride(key, lg);
    index := Low(key, lg);
    ghost var loopIndex := index;
    ghost var j: nat := 0;
    assert index == Probe(key, lg, 0);
    while true
      invariant j < Pow2(lg) && index == Probe(key, lg, j)
      invariant PathClear(s, lg, key, j)
      decreases Pow2(lg) - j
    {
      var probe := slots[index];
      if probe == 0 {
        assert OnPath(s, lg, key, index, j);
        StoredOnlyAtSlot(s, lg, key, index);
        return index, false;
      } else if probe == key {
        assert OnPath(s, lg, key, index, j);
        return index, true;
      }
      index := Low(index + stride, lg);
      j := j + 1;
      assert index == Probe(key, lg, j);
      // never back at the first slot: an empty slot lies ahead on the cycle
      ProbeReturns(key, lg, j);
      assert index != loopIndex;
    }
  }

  /** Stores a key that is not in the table yet in the empty slot its search finds. */
  method PlaceIn(slots: array<nat>, lg: nat, key: nat)
    requires WellPlaced(slots[..], lg) && |Keys(slots[..])| < slots.Length
    requires key != 0 && key !in Keys(slots[..])
    modifies slots
    ensures WellPlaced(slots[..], lg) && Keys(slots[..]) == old(Keys(slots[..])) + {key}
  {
    var index, found := FindIn(slots, lg, key);
    PlaceKey(slots[..], lg, key, index);
    slots[index] := key;
    assert slots[..] == old(slots[..])[index := key];
  }

  method FirstEmptySlot(slots: array<nat>) returns (i: nat)
    ensures i <= slots.Length && slots[..i] == NonZero(slots[..Min(i + 1, slots.Length)])
    ensures i < slots.Length ==> slots[i] == 0
  {
    i := 0;
    while i < slots.Length
      invariant 0 <= i <= slots.Length
      invariant forall q :: 0 <= q < i ==> slots[q] != 0
    {
      if slots[i] == 0 { break; }
      i := i + 1;
    }
    FirstEmpty(slots[..], i);
    assert slots[..][..Min(i + 1, slots.Length)] == slots[..Min(i + 1, slots.Length)];
  }

  /** Moves the non-empty entries to the front, keeping their order. */
  method ConsolidateNonEmpty(slots: array<nat>, num: nat)
    requires num == |NonZero(slots[..])|
    modifies slots
    ensures num <= slots.Length && slots[..num] == NonZero(old(slots[..]))
    ensures forall q :: num <= q < slots.Length ==> slots[q] == 0
  {
    hide NonZero;
    ghost var s := slots[..];
    var size := slots.Length;
    var i: nat := FirstEmptySlot(slots);
    var j: nat := i + 1;
    ghost var front := NonZero(s[..Min(j, size)]);
    while j < size
      invariant i < j && (j <= size || (i == size && j == size + 1))
      invariant front == NonZero(s[..Min(j, size)]) && |front| == i
      invariant forall q :: 0 <= q < i ==> slots[q] == front[q]
      invariant forall q :: i <= q < Min(j, size) ==> slots[q] == 0
      invariant forall q :: j <= q < size ==> slots[q] == s[q]
    {
      NonZeroStep(s, j);
      front := NonZero(s[..j + 1]);
      if slots[j] != 0 {
        slots[i] := slots[j];
        slots[j] := 0;
        i := i + 1;
        if i == num {
          j := j + 1;
          break;
        }
      }
      j := j + 1;
    }
    NonZeroSuffix(s, Min(j, size));
    assert front == NonZero(s) && i == num;
    assert slots[..num] == front;
  }

  lemma FirstEmpty(s: seq<nat>, i: nat)
    requires i <= |s| && forall q :: 0 <= q < i ==> s[q] != 0
    requires i < |s| ==> s[i] == 0
    ensures s[..i] == NonZero(s[..Min(i + 1, |s|)])
  {
    NonZeroOfUniform(s[..i]);
    if i < |s| { NonZeroStep(s, i); }
  }

  lemma NonZeroStep(s: seq<nat>, j: nat)
    requires j < |s|
    ensures NonZero(s[..j + 1]) == NonZero(s[..j]) + if s[j] != 0 then [s[j]] else []
  {
    assert s[..j + 1] == s[..j] + [s[j]];
    NonZeroAppend(s[..j], s[j]);
  }

  /** When a prefix already holds all the non-zero entries, the rest is empty. */
  lemma {:induction false} NonZeroSuffix(s: seq<nat>, j: nat)
    requires j <= |s|
    ensures |NonZero(s[..j])| <= |NonZero(s)|
    ensures j == |s| ==> s[..j] == s
    ensures |NonZero(s[..j])| == |NonZero(s)| ==>
              NonZero(s[..j]) == NonZero(s) && forall q :: j <= q < |s| ==> s[q] == 0
    decreases |s| - j
  {
    if j == |s| {
      assert s[..j] == s;
    } else {
      NonZeroStep(s, j);
      NonZeroSuffix(s, j + 1);
    }
  }

  /** Brings the `nominal` smallest keys to the front; returns the next smallest. */
  method SelectNominal(slots: array<nat>, ghost lg: nat, num: nat, nominal: nat) returns (cut: nat)
    requires WellPlaced(slots[..], lg) && nominal < num == |Keys(slots[..])|
    modifies slots
    ensures nominal <= slots.Length
    ensures IsCutoff(nominal, old(Keys(slots[..])), cut)
    ensures Elements(slots[..nominal]) == Below(old(Keys(slots[..])), cut)
    ensures Distinct(slots[..nominal]) && 0 !in slots[..nominal]
  {
    hide WellPlaced, NonZero, IsCutoff, Keys, Below, Elements;
    ghost var s := slots[..];
    KeysAsSequence(s, lg);
    ConsolidateNonEmpty(slots, num);
    var front := NthElement(slots[..num], nominal);
    SplitIsCutoff(NonZero(s), front, nominal);
    NoZeroBelow(s, front[..nominal], front[nominal]);
    forall i | 0 <= i < num {
      slots[i] := front[i];
    }
    cut := slots[nominal];
    assert slots[..nominal] == front[..nominal];
  }

  /** The non-zero entries of a table list its keys once each. */
  lemma KeysAsSequence(s: seq<nat>, lg: nat)
    requires WellPlaced(s, lg)
    ensures Distinct(NonZero(s)) && Elements(NonZero(s)) == Keys(s) && |NonZero(s)| == |Keys(s)|
  {
    hide WellPlaced, NonZero;
    StoredNonZero(s, lg);
    NonZeroElements(s);
    DistinctCount(NonZero(s));
  }

  lemma NoZeroBelow(s: seq<nat>, front: seq<nat>, cut: nat)
    requires Elements(front) == Below(Keys(s), cut)
    ensures 0 !in front
  {
    assert 0 !in Keys(s);
    assert 0 !in Elements(front);
  }

  /** A new table of size 2^lg holding the first `n` entries of an array. */
  method HashPrefix(source: array<nat>, n: nat, lg: nat) returns (slots: array<nat>)
    requires n <= source.Length && n < Pow2(lg)
    requires Distinct(source[..n]) && 0 !in source[..n]
    ensures fresh(slots) && slots.Length == Pow2(lg) && WellPlaced(slots[..], lg)
    ensures Keys(slots[..]) == Elements(source[..n])
  {
    hide WellPlaced, Keys, Pow2, Elements, Distinct;
    slots := NewSlots(lg);
    ghost var s := source[..n];
    NoElements(s);
    for i := 0 to n
      invariant WellPlaced(slots[..], lg)
      invariant Keys(slots[..]) == Elements(s[..i])
    {
      NextElement(s, i);
      PrefixCount(s, i);
      PlaceIn(slots, lg, source[i]);
    }
    assert s[..n] == s;
  }

  lemma PrefixCount(s: seq<nat>, i: nat)
    requires i <= |s| && Distinct(s)
    ensures |Elements(s[..i])| == i
  {
    DistinctCount(s[..i]);
  }

  /** A new table of size 2^lgNew holding every key of an old one; the old slots are discarded. */
  method MoveKeys(source: array<nat>, lg: nat, lgNew: nat) returns (slots: array<nat>)
    requires WellPlaced(source[..], lg) && |Keys(source[..])| <= Pow2(lgNew)
    ensures fresh(slots) && slots.Length == Pow2(lgNew) && WellPlaced(slots[..], lgNew)
    ensures Keys(slots[..]) == Keys(source[..])
  {
    hide WellPlaced, Keys, Pow2;
    slots := NewSlots(lgNew);
    ghost var s := source[..];
    NoKeys(s);
    for i := 0 to source.Length
      invariant WellPlaced(slots[..], lgNew)
      invariant Keys(slots[..]) == Keys(s[..i])
    {
      KeysStep(s, i);
      if source[i] != 0 {
        PrefixKeys(s, lg, i);
        PlaceIn(slots, lgNew, source[i]);
      }
    }
    assert s[..source.Length] == s;
  }

  method NewSlots(lg: nat) returns (slots: array<nat>)
    ensures fresh(slots) && slots.Length == Pow2(lg)
    ensures WellPlaced(slots[..], lg) && Keys(slots[..]) == {}
  {
    slots := new nat[Pow2(lg)](_ => 0);
    EmptyTable(slots[..], lg);
  }

  method ClearSlots(slots: array<nat>, ghost lg: nat)
    requires slots.Length == Pow2(lg)
    modifies slots
    ensures WellPlaced(slots[..], lg) && Keys(slots[..]) == {}
  {
    for i := 0 to slots.Length
      invariant forall q :: 0 <= q < i ==> slots[q] == 0
    {
      if slots[i] != 0 {
        slots[i] := 0;
      }
    }
    EmptyTable(slots[..], lg);
  }

  lemma NothingStored(s: seq<nat>)
    ensures NonZero(s[..0]) == []
    ensures s == [] ==> NonZero(s) == [] && Distinct([]) && Keys(s) == {} == Elements([])
  {
  }

  class ThetaTable {
    var isEmpty: bool
    var lgCur: nat
    const lgNom: nat
    const rf: nat
    const p: real
    var numEntries: nat
    var theta: nat
    /** hash of the seed of the hash function; compared, never computed, here */
    const seedHash: nat
    var entries: array<nat>

    ghost predicate Placed()
      reads this, entries
    {
      && lgCur <= lgNom + 1
      && entries.Length == (if lgCur == 0 then 0 else Pow2(lgCur))
      && (lgCur > 0 ==> WellPlaced(entries[..], lgCur))
      && numEntries == |Keys(entries[..])|
    }

    /** A placed table with a free slot: searches terminate. */
    ghost predicate Valid()
      reads this, entries
    {
      && Placed()
      && 0.0 < p <= 1.0
      && (lgCur > 0 ==> numEntries < Pow2(lgCur))
    }

    ghost function KeySet(): set<nat>
      reads this, entries
    {
      Keys(entries[..])
    }

    constructor (lgCur: nat, lgNom: nat, rf: nat, p: real, theta: nat, seedHash: nat, isEmpty: bool)
      requires lgCur <= lgNom + 1 && 0.0 < p <= 1.0
      ensures Valid() && KeySet() == {} && fresh(entries)
      ensures this.lgCur == lgCur && this.lgNom == lgNom && this.rf == rf && this.p == p
      ensures this.theta == theta && this.seedHash == seedHash && this.isEmpty == isEmpty
    {
      this.isEmpty, this.lgCur, this.lgNom, this.rf, this.p := isEmpty, lgCur, lgNom, rf, p;
      this.numEntries, this.theta, this.seedHash := 0, theta, seedHash;
      var size := if lgCur > 0 then Pow2(lgCur) else 0;
      this.entries := new nat[size](_ => 0);
      new;
      if lgCur > 0 { EmptyTable(entries[..], lgCur); }
    }

    /** Records that data arrived; hashes at or above theta are replaced by the reserved zero. */
    method Screen(hash: nat) returns (h: nat)
      modifies this`isEmpty
      ensures !isEmpty && KeySet() == old(KeySet())
      ensures Valid() == old(Valid()) && Loaded() == old(Loaded()) && Overflows() == old(Overflows())
      ensures h == if hash >= theta then 0 else hash
    {
      isEmpty := false;
      if hash >= theta { return 0; }
      return hash;
    }

    method Find(key: nat) returns (index: nat, found: bool)
      requires Valid() && lgCur > 0 && key != 0
      ensures index < entries.Length && IsSlotFor(entries[..], lgCur, key, index)
      ensures found <==> key in KeySet()
      ensures !found <==> entries[index] == 0
    {
      index, found := FindIn(entries, lgCur, key);
    }

    /** Whether storing one more key triggers a rebuild. */
    ghost predicate Overflows()
      reads this
    {
      lgCur > lgNom && numEntries + 1 > Capacity(lgCur, lgNom)
    }

    /** A table that cannot grow needs a second free slot. */
    ghost predicate HasRoom()
      reads this
    {
      lgCur > 0 && (lgCur <= lgNom && rf == 0 ==> numEntries + 1 < Pow2(lgCur))
    }

    method Insert(index: nat, key: nat)
      requires Valid() && HasRoom() && key != 0
      requires index < entries.Length && IsSlotFor(entries[..], lgCur, key, index) && entries[index] == 0
      modifies this, entries
      ensures Valid() && isEmpty == old(isEmpty)
      ensures entries == old(entries) || fresh(entries)
      ensures old(Overflows()) ==>
                && IsCutoff(Pow2(lgNom), old(KeySet()) + {key}, theta)
                && KeySet() == Below(old(KeySet()) + {key}, theta)
                && numEntries == Pow2(lgNom) && lgCur == old(lgCur)
      ensures !old(Overflows()) ==>
                && theta == old(theta) && KeySet() == old(KeySet()) + {key}
                && numEntries == old(numEntries) + 1
                && lgCur == if numEntries > Capacity(old(lgCur), lgNom) then LgNewSize(old(lgCur), lgNom, rf)
                            else old(lgCur)
    {
      hide WellPlaced;
      Store(index, key);
      CapacityLeavesFreeSlot(lgCur, lgNom);
      if numEntries > Capacity(lgCur, lgNom) {
        MakeRoom();
      }
    }

    /** Growth, or rebuilding when the table is at its full size. */
    method MakeRoom()
      requires Placed() && lgCur > 0 && 0.0 < p <= 1.0
      requires Capacity(lgCur, lgNom) < numEntries <= Pow2(lgCur)
      requires lgCur <= lgNom && rf == 0 ==> numEntries < Pow2(lgCur)
      modifies this`entries, this`theta, this`numEntries, this`lgCur, entries
      ensures Valid() && fresh(entries)
      ensures old(lgCur) <= lgNom ==>
                && theta == old(theta) && KeySet() == old(KeySet()) && numEntries == old(numEntries)
                && lgCur == LgNewSize(old(lgCur), lgNom, rf)
      ensures old(lgCur) > lgNom ==>
                && IsCutoff(Pow2(lgNom), old(KeySet()), theta) && KeySet() == Below(old(KeySet()), theta)
                && numEntries == Pow2(lgNom) && lgCur == old(lgCur)
    {
      hide WellPlaced, Keys, IsCutoff, Below;
      if lgCur <= lgNom {
        if rf > 0 { Pow2Monotone(lgCur, LgNewSize(lgCur, lgNom, rf)); }
        Resize();
      } else {
        CapacityCoversNominal(lgNom);
        Rebuild();
      }
    }

    /** Within its load limit at a size from which growth reaches the full size exactly. */
    ghost predicate Loaded()
      reads this
    {
      MIN_LG_K <= lgNom && OnLadder(lgCur, lgNom, rf) && numEntries <= Capacity(lgCur, lgNom)
    }

    /** Adds a key unless it is already stored. */
    method Offer(key: nat)
      requires Valid() && Loaded() && key != 0
      modifies this, entries
      ensures Valid() && Loaded() && isEmpty == old(isEmpty)
      ensures entries == old(entries) || fresh(entries)
      ensures Absorbed(Pow2(lgNom), old(KeySet()), old(theta), key, KeySet(), theta)
      ensures key in old(KeySet()) || !old(Overflows()) ==> theta == old(theta) && KeySet() == old(KeySet()) + {key}
      ensures key !in old(KeySet()) && old(Overflows()) ==>
                IsCutoff(Pow2(lgNom), old(KeySet()) + {key}, theta) && KeySet() == Below(old(KeySet()) + {key}, theta)
    {
      var index, found := Find(key);
      if !found {
        RoomOnLadder(lgCur, lgNom, rf);
        Insert(index, key);
        LoadAfterInsert(old(lgCur), old(numEntries), lgCur, numEntries, lgNom, rf);
      } else {
        assert KeySet() + {key} == KeySet();
      }
    }

    /** Writes the key into its slot; the table may be full afterwards. */
    method Store(index: nat, key: nat)
      requires Valid() && lgCur > 0 && key != 0
      requires index < entries.Length && IsSlotFor(entries[..], lgCur, key, index) && entries[index] == 0
      modifies this`numEntries, entries
      ensures Placed() && KeySet() == old(KeySet()) + {key}
      ensures numEntries == old(numEntries) + 1
    {
      PlaceKey(entries[..], lgCur, key, index);
      entries[index] := key;
      assert entries[..] == old(entries[..])[index := key];
      numEntries := numEntries + 1;
    }

    /** Rehashes into a table of the next size, which may be the same size. */
    method Resize()
      requires Placed() && 0 < lgCur <= lgNom && 0.0 < p <= 1.0
      requires numEntries < Pow2(LgNewSize(lgCur, lgNom, rf))
      modifies this`entries, this`lgCur
      ensures Valid() && KeySet() == old(KeySet()) && fresh(entries)
      ensures lgCur == LgNewSize(old(lgCur), lgNom, rf)
    {
      var lgNew := LgNewSize(lgCur, lgNom, rf);
      var newEntries := MoveKeys(entries, lgCur, lgNew);
      entries := newEntries;
      lgCur := lgNew;
    }

    /** Keeps the nominal number of smallest keys and lowers theta to the next one. */
    method Rebuild()
      requires Placed() && lgCur == lgNom + 1 && 0.0 < p <= 1.0
      requires numEntries > Pow2(lgNom)
      modifies this`entries, this`theta, this`numEntries, entries
      ensures Valid() && fresh(entries)
      ensures IsCutoff(Pow2(lgNom), old(KeySet()), theta)
      ensures KeySet() == Below(old(KeySet()), theta)
      ensures numEntries == Pow2(lgNom)
    {
      hide WellPlaced;
      var nominal := Pow2(lgNom);
      theta := SelectNominal(entries, lgCur, numEntries, nominal);
      numEntries := nominal;
      DistinctCount(entries[..nominal]);
      entries := HashPrefix(entries, nominal, lgCur);
    }

    /** The stored keys in slot order, as the iterators that skip empty slots yield them. */
    method Retained() returns (s: seq<nat>)
      requires Valid()
      ensures s == NonZero(entries[..])
      ensures Distinct(s) && Elements(s) == KeySet() && |s| == numEntries
    {
      hide WellPlaced, NonZero, Keys, Elements, Distinct, Pow2;
      s := [];
      NothingStored(entries[..]);
      assert entries[..0] == entries[..][..0];
      var index := NextOccupied(0);
      while index < entries.Length
        invariant index <= entries.Length
        invariant index < entries.Length ==> entries[index] != 0
        invariant s == NonZero(entries[..index])
      {
        s := s + [entries[index]];
        NonZeroStep(entries[..], index);
        assert entries[..][..index + 1] == entries[..index + 1] && entries[..][..index] == entries[..index];
        index := NextOccupied(index + 1);
      }
      assert entries[..index] == entries[..];
      if lgCur > 0 { KeysAsSequence(entries[..], lgCur); } else { NothingStored(entries[..]); }
    }

    /** First occupied slot at or after `from`. */
    method NextOccupied(from: nat) returns (index: nat)
      requires from <= entries.Length
      ensures from <= index <= entries.Length
      ensures index < entries.Length ==> entries[index] != 0
      ensures NonZero(entries[..index]) == NonZero(entries[..from])
    {
      hide NonZero;
      index := from;
      while index < entries.Length && entries[index] == 0
        invariant from <= index <= entries.Length
        invariant NonZero(entries[..index]) == NonZero(entries[..from])
      {
        NonZeroStep(entries[..], index);
        assert entries[..][..index + 1] == entries[..index + 1] && entries[..][..index] == entries[..index];
        index := index + 1;
      }
    }

    /** Removes keys in excess of the nominal number, if any. */
    method Trim()
      requires Valid()
      modifies this`entries, this`theta, this`numEntries, entries
      ensures Valid() && (entries == old(entries) || fresh(entries))
      ensures if old(numEntries) > Pow2(lgNom)
              then IsCutoff(Pow2(lgNom), old(KeySet()), theta) && KeySet() == Below(old(KeySet()), theta)
              else theta == old(theta) && KeySet() == old(KeySet())
      ensures numEntries <= Pow2(lgNom)
    {
      if numEntries > Pow2(lgNom) {
        if lgCur <= lgNom { Pow2Monotone(lgCur, lgNom); }
        Rebuild();
      }
    }

    /** Back to the initial empty state at the starting size and threshold. */
    method Reset()
      requires Valid() && MIN_LG_K <= lgNom && lgCur > 0
      modifies this, entries
      ensures Valid() && KeySet() == {} && isEmpty && theta == StartingTheta(p)
      ensures lgCur == StartingSubMultiple(lgNom + 1, MIN_LG_K, rf)
      ensures entries == old(entries) || fresh(entries)
    {
      hide WellPlaced, OnLadder, StartingSubMultiple, StartingTheta, Pow2, Capacity;
      LadderStart(lgNom, rf);
      ClearSlots(entries, lgCur);
      var lg := StartingSubMultiple(lgNom + 1, MIN_LG_K, rf);
      var slots := entries;
      if lg != lgCur {
        slots := NewSlots(lg);
      }
      entries, lgCur, numEntries := slots, lg, 0;
      theta, isEmpty := StartingTheta(p), true;
    }
  }

  /**
   Effect of offering a key to a table of nominal size k: the key joins, and if that
   overflows the table, the k smallest stay and theta becomes the next smallest.
   */
  ghost predicate Absorbed(k: nat, keys: set<nat>, theta: nat, key: nat, keys': set<nat>, theta': nat)
  {
    || (theta' == theta && keys' == keys + {key})
    || (IsCutoff(k, keys + {key}, theta') && keys' == Below(keys + {key}, theta'))
  }

  /** On the ladder a table that cannot grow is at full size, so it never lacks room. */
  lemma RoomOnLadder(lgCur: nat, lgNom: nat, rf: nat)
    requires OnLadder(lgCur, lgNom, rf)
    ensures lgCur > 0 && (lgCur <= lgNom ==> rf > 0)
  {
    if lgCur <= lgNom { LadderStep(lgCur, lgNom, rf); }
  }

  /** A loaded table overflows exactly when it is asked to hold more than 15/16 of the full size. */
  lemma OverflowLimit(table: ThetaTable)
    requires table.Loaded()
    ensures table.Overflows() <==> table.numEntries + 1 > Capacity(table.lgNom + 1, table.lgNom)
  {
    CapacityCoversNominal(table.lgNom);
    if table.lgCur <= table.lgNom {
      Pow2Monotone(table.lgCur, table.lgNom);
      Pow2Monotone(MIN_LG_K, table.lgNom);
    }
  }

  /** Inserting keeps a table within its load limit and on the ladder. */
  lemma LoadAfterInsert(lgCur: nat, num: nat, lgCur': nat, num': nat, lgNom: nat, rf: nat)
    requires MIN_LG_K <= lgNom && OnLadder(lgCur, lgNom, rf) && num <= Capacity(lgCur, lgNom)
    requires if lgCur > lgNom && num + 1 > Capacity(lgCur, lgNom)
             then num' == Pow2(lgNom) && lgCur' == lgCur
             else num' == num + 1
                  && lgCur' == if num' > Capacity(lgCur, lgNom) then LgNewSize(lgCur, lgNom, rf) else lgCur
    ensures OnLadder(lgCur', lgNom, rf) && num' <= Capacity(lgCur', lgNom)
  {
    CapacityCoversNominal(lgNom);
    if num + 1 > Capacity(lgCur, lgNom) && lgCur <= lgNom {
      LadderStep(lgCur, lgNom, rf);
      CapacityAfterGrowth(lgCur, lgCur', lgNom);
    }
  }

  lemma StoredNonZero(s: seq<nat>, lg: nat)
    requires WellPlaced(s, lg)
    ensures Distinct(NonZero(s))
  {
    StoredOnce(s, lg);
    NonZeroDistinct(s);
  }

  lemma NoKeys(s: seq<nat>)
    ensures Keys(s[..0]) == {}
  {
  }

  lemma KeysStep(s: seq<nat>, i: nat)
    requires i < |s|
    ensures Keys(s[..i + 1]) == Keys(s[..i]) + if s[i] != 0 then {s[i]} else {}
  {
    assert s[..i + 1] == s[..i] + [s[i]];
    ElementsAppend(s[..i], s[i]);
  }

  /** A prefix that lacks one stored key has fewer keys than the table. */
  lemma PrefixKeys(s: seq<nat>, lg: nat, i: nat)
    requires WellPlaced(s, lg) && i < |s| && s[i] != 0
    ensures s[i] !in Keys(s[..i])
    ensures |Keys(s[..i])| < |Keys(s)|
  {
    StoredOnce(s, lg);
    assert s[i] in Keys(s);
    SubsetCard(Keys(s[..i]) + {s[i]}, Keys(s));
  }
}
