/** The binary forms of a compact sketch: little-endian, version 3 (plain) and version 4 (compressed). */
module Codec {
  import opened Bits
  import opened Sequences
  import opened Sizing
  import opened Sketches
  import opened BitPacking
  import opened BlockPacking
  import opened BlockRoundTrip
  import opened CountZeros
  import opened DeltaCoding
  import opened DeltaStream
  import opened DeltaReading

  const SKETCH_TYPE: uint8 := 3
  const UNCOMPRESSED_SERIAL_VERSION: uint8 := 3
  const COMPRESSED_SERIAL_VERSION: uint8 := 4

  datatype Error = TooShort | WrongType | SeedMismatch | UnsupportedVersion | BadCount | BadWidth
  datatype Result<+T> = Ok(value: T) | Err(error: Error)

  // ---- little-endian numbers ----

  function WriteLE(v: nat, n: nat): (s: seq<uint8>)
    ensures |s| == n
  {
    if n == 0 then [] else [v % 256] + WriteLE(v / 256, n - 1)
  }

  function ReadLE(s: seq<uint8>, at: nat, n: nat): nat
    requires at + n <= |s|
    decreases n
  {
    if n == 0 then 0 else s[at] + 256 * ReadLE(s, at + 1, n - 1)
  }

  lemma OneMoreByte(n: nat)
    ensures Pow2(8 * (n + 1)) == 256 * Pow2(8 * n)
  {
    assert Pow2(8) == 256;
    assert 8 * (n + 1) == 8 + 8 * n;
    Pow2Add(8, 8 * n);
  }

  lemma {:induction false} ReadWritten(s: seq<uint8>, at: nat, v: nat, n: nat)
    requires at + n <= |s| && s[at..at + n] == WriteLE(v, n) && v < Pow2(8 * n)
    ensures ReadLE(s, at, n) == v
    decreases n
  {
    hide Pow2;
    if n > 0 {
      assert s[at] == s[at..at + n][0] == v % 256;
      assert s[at + 1..at + n] == s[at..at + n][1..] == WriteLE(v / 256, n - 1);
      OneMoreByte(n - 1);
      ReadWritten(s, at + 1, v / 256, n - 1);
    } else {
      One();
    }
  }

  function WriteEntries(entries: seq<nat>): (s: seq<uint8>)
    ensures |s| == 8 * |entries|
  {
    if entries == [] then [] else WriteLE(entries[0], 8) + WriteEntries(entries[1..])
  }

  function ReadEntries(s: seq<uint8>, at: nat, n: nat): (entries: seq<nat>)
    requires at + 8 * n <= |s|
    ensures |entries| == n
    decreases n
  {
    if n == 0 then [] else [ReadLE(s, at, 8)] + ReadEntries(s, at + 8, n - 1)
  }

  lemma {:induction false} EntriesReadWritten(s: seq<uint8>, at: nat, entries: seq<nat>)
    requires at + 8 * |entries| <= |s| && s[at..at + 8 * |entries|] == WriteEntries(entries)
    requires forall i :: 0 <= i < |entries| ==> entries[i] < TWO_TO_64
    ensures ReadEntries(s, at, |entries|) == entries
    decreases |entries|
  {
    hide Pow2, ReadLE, WriteLE;
    if entries != [] {
      var w := WriteEntries(entries);
      assert s[at..at + 8] == w[..8] == WriteLE(entries[0], 8);
      assert s[at + 8..at + 8 + 8 * |entries[1..]|] == w[8..] == WriteEntries(entries[1..]);
      Words64();
      ReadWritten(s, at, entries[0], 8);
      EntriesReadWritten(s, at + 8, entries[1..]);
    }
  }

  lemma Words64()
    ensures Pow2(64) == TWO_TO_64 && Pow2(32) == TWO_TO_32 && Pow2(16) == 0x1_0000 && Pow2(63) == MAX_THETA + 1
  {
    assert Pow2(8) == 256 && Pow2(7) == 128;
    Pow2Add(8, 8);
    Pow2Add(16, 16);
    Pow2Add(32, 32);
    Pow2Add(32, 16);
    Pow2Add(48, 8);
    Pow2Add(56, 7);
  }

  // ---- what fits the fields of the format ----

  ghost predicate FieldWidths(c: CompactSketch)
  {
    && c.seedHash < 0x1_0000 && c.theta < TWO_TO_64 && |c.entries| < TWO_TO_32
    && forall i :: 0 <= i < |c.entries| ==> c.entries[i] < TWO_TO_64
  }

  predicate IsEstimationMode(c: CompactSketch)
  {
    c.theta < MAX_THETA && !c.isEmpty
  }

  /** Flags: read-only (bit 1), empty (2), compact (3), ordered (4). */
  function FlagsByte(isEmpty: bool, isOrdered: bool): uint8
  {
    8 + 2 + (if isEmpty then 4 else 0) + (if isOrdered then 16 else 0)
  }

  lemma FlagBits(isEmpty: bool, isOrdered: bool)
    ensures var f := FlagsByte(isEmpty, isOrdered);
            && (Bit(f, 2) <==> isEmpty) && (Bit(f, 4) <==> isOrdered) && Bit(f, 1) && Bit(f, 3)
            && !Bit(f, 0) && !Bit(f, 5) && !Bit(f, 6) && !Bit(f, 7)
  {
    hide Shr, Bit;
    var f := FlagsByte(isEmpty, isOrdered);
    LowBits(f);
    LowBits(f / 8);
    BitAbove(f, 3, 0);
    BitAbove(f, 3, 1);
    BitAbove(f, 3, 2);
    NoBitsFrom32(f);
  }

  lemma LowBits(x: nat)
    ensures (Bit(x, 0) <==> x % 2 == 1) && (Bit(x, 1) <==> x / 2 % 2 == 1) && (Bit(x, 2) <==> x / 4 % 2 == 1)
  {
    BitHalves(x, 1);
    BitHalves(x, 2);
    BitHalves(x / 2, 1);
  }

  lemma BitAbove(x: nat, n: nat, i: nat)
    requires n == 3
    ensures Bit(x, n + i) <==> Bit(x / 8, i)
  {
    BitShr(x, 3, i);
    assert Shr(x, 3) == Shr(x / 2, 2) == Shr(x / 2 / 2, 1) == Shr(x / 2 / 2 / 2, 0);
  }

  lemma NoBitsFrom32(x: nat)
    requires x < 32
    ensures !Bit(x, 5) && !Bit(x, 6) && !Bit(x, 7)
  {
    assert Pow2(5) == 32;
    NoHighBits(x, 5, 5);
    NoHighBits(x, 5, 6);
    NoHighBits(x, 5, 7);
  }

  // ---- version 3 ----

  function PreambleLongs3(c: CompactSketch): uint8
  {
    if IsEstimationMode(c) then 3 else if c.isEmpty || |c.entries| == 1 then 1 else 2
  }

  /** Plain serialization; `junk` is what the six header bytes that are never written happen to hold. */
  function Serialize3(c: CompactSketch, junk: seq<uint8>): (bytes: seq<uint8>)
    requires |junk| == 6
    ensures |bytes| == 8 * PreambleLongs3(c) + 8 * |c.entries|
  {
    [PreambleLongs3(c), UNCOMPRESSED_SERIAL_VERSION, SKETCH_TYPE, junk[0], junk[1], FlagsByte(c.isEmpty, c.isOrdered)]
    + WriteLE(c.seedHash, 2)
    + (if PreambleLongs3(c) > 1 then WriteLE(|c.entries|, 4) + junk[2..] else [])
    + (if IsEstimationMode(c) then WriteLE(c.theta, 8) else [])
    + WriteEntries(c.entries)
  }

  // ---- the parser ----

  datatype Parsed = Parsed(
    isEmpty: bool, isOrdered: bool, seedHash: nat, numEntries: nat, theta: nat, start: nat, entryBits: nat)

  function WholeBytes(bits: nat): nat
  {
    bits / 8 + if bits % 8 > 0 then 1 else 0
  }

  function Parse3(bytes: seq<uint8>, seedHash: nat): Result<Parsed>
    requires |bytes| >= 8
  {
    var sketchSeedHash := ReadLE(bytes, 6, 2);
    var preambleLongs := bytes[0];
    if Bit(bytes[5], 2) then Ok(Parsed(true, true, sketchSeedHash, 0, MAX_THETA, 0, 64))
    else if sketchSeedHash != seedHash then Err(SeedMismatch)
    else if preambleLongs > 2 && |bytes| < 24 then Err(TooShort)
    else
      var theta := if preambleLongs > 2 then ReadLE(bytes, 16, 8) else MAX_THETA;
      if preambleLongs == 1 then
        if |bytes| < 16 then Err(TooShort) else Ok(Parsed(false, true, sketchSeedHash, 1, theta, 8, 64))
      else if |bytes| < 12 then Err(TooShort)
      else
        var numEntries := ReadLE(bytes, 8, 4);
        var start := if preambleLongs > 2 then 24 else 16;
        if |bytes| < start + 8 * numEntries then Err(TooShort)
        else Ok(Parsed(false, Bit(bytes[5], 4), sketchSeedHash, numEntries, theta, start, 64))
  }

  /** Where the entry count of a version 4 sketch is. */
  function CountStart4(bytes: seq<uint8>): nat
    requires |bytes| >= 8
  {
    if bytes[0] > 1 then 16 else 8
  }

  /** Size the parser demands; the product of width and count is a 32-bit one. */
  function ExpectedSize4(bytes: seq<uint8>): nat
    requires |bytes| >= 8 && CountStart4(bytes) + bytes[4] <= |bytes|
  {
    var start := CountStart4(bytes);
    start + bytes[4] + WholeBytes(bytes[3] * ReadLE(bytes, start, bytes[4]) % TWO_TO_32)
  }

  function Parse4(bytes: seq<uint8>, seedHash: nat): Result<Parsed>
    requires |bytes| >= 8
  {
    var sketchSeedHash := ReadLE(bytes, 6, 2);
    var start := CountStart4(bytes);
    if sketchSeedHash != seedHash then Err(SeedMismatch)
    else if |bytes| < start || |bytes| < start + bytes[4] then Err(TooShort)
    else if bytes[4] > 4 then Err(BadCount)
    else if |bytes| < ExpectedSize4(bytes) then Err(TooShort)
    else
      var theta := if bytes[0] > 1 then ReadLE(bytes, 8, 8) else MAX_THETA;
      Ok(Parsed(false, true, sketchSeedHash, ReadLE(bytes, start, bytes[4]), theta, start + bytes[4], bytes[3]))
  }

  function Parse(bytes: seq<uint8>, seedHash: nat): Result<Parsed>
  {
    if |bytes| < 8 then Err(TooShort)
    else if bytes[2] != SKETCH_TYPE then Err(WrongType)
    else if bytes[1] == 4 then Parse4(bytes, seedHash)
    else if bytes[1] == 3 then Parse3(bytes, seedHash)
    else Err(UnsupportedVersion)
  }

  lemma ParsedCount(bytes: seq<uint8>, seedHash: nat)
    requires Parse(bytes, seedHash).Ok?
    ensures Parse(bytes, seedHash).value.numEntries < TWO_TO_32
    ensures Parse(bytes, seedHash).value.isEmpty ==> Parse(bytes, seedHash).value.theta == MAX_THETA
  {
    hide ReadLE, Pow2;
    Words64();
    if bytes[1] == 4 {
      ReadBound(bytes, CountStart4(bytes), bytes[4]);
      Pow2Monotone(8 * bytes[4], 32);
    } else if !Bit(bytes[5], 2) && bytes[0] != 1 {
      ReadBound(bytes, 8, 4);
    }
  }

  lemma {:induction false} ReadBound(s: seq<uint8>, at: nat, n: nat)
    requires at + n <= |s|
    ensures ReadLE(s, at, n) < Pow2(8 * n)
    decreases n
  {
    hide Pow2;
    if n > 0 {
      ReadBound(s, at + 1, n - 1);
      OneMoreByte(n - 1);
    } else {
      One();
    }
  }

  /** The entries a parsed version 4 sketch claims are all within the bytes, at a width the block routines have. */
  predicate Readable4(bytes: seq<uint8>, p: Parsed)
  {
    0 < p.entryBits < 64 && 8 * p.start + p.numEntries * p.entryBits <= 8 * |bytes|
  }

  /** What deserialization yields. */
  ghost function Decode(bytes: seq<uint8>, seedHash: nat): Result<CompactSketch>
  {
    match Parse(bytes, seedHash)
    case Err(e) => Err(e)
    case Ok(p) =>
      if p.entryBits == 64 then
        if |bytes| < p.start + 8 * p.numEntries then Err(TooShort)
        else Ok(MakeCompact(p.isEmpty, p.isOrdered, p.seedHash, p.theta, ReadEntries(bytes, p.start, p.numEntries)))
      else if !Readable4(bytes, p) then Err(BadWidth)
      else Ok(MakeCompact(p.isEmpty, p.isOrdered, p.seedHash, p.theta,
                          SumsUpTo(DecodedDeltas(bytes, p.start, p.numEntries, p.entryBits), p.numEntries)))
  }

  function SumsUpTo(deltas: seq<nat>, m: nat): (s: seq<nat>)
    requires m <= |deltas|
    ensures |s| == m && forall i: nat :: i < m ==> s[i] == SumAt(deltas, i)
  {
    if m == 0 then [] else SumsUpTo(deltas, m - 1) + [SumAt(deltas, m - 1)]
  }

  method Deserialize(bytes: seq<uint8>, seedHash: nat) returns (r: Result<CompactSketch>)
    ensures r == Decode(bytes, seedHash)
  {
    hide ReadLE, ReadEntries, Parse, DecodedDeltas, SumAt;
    var parsed := Parse(bytes, seedHash);
    match parsed
    case Err(e) => return Err(e);
    case Ok(p) =>
      if p.entryBits == 64 {
        if |bytes| < p.start + 8 * p.numEntries { return Err(TooShort); }
        return Ok(MakeCompact(p.isEmpty, p.isOrdered, p.seedHash, p.theta, ReadEntries(bytes, p.start, p.numEntries)));
      }
      if !Readable4(bytes, p) { return Err(BadWidth); }
      var entries := UnpackEntries(bytes, p.start, p.numEntries, p.entryBits);
      assert entries[..] == SumsUpTo(DecodedDeltas(bytes, p.start, p.numEntries, p.entryBits), p.numEntries);
      return Ok(MakeCompact(p.isEmpty, p.isOrdered, p.seedHash, p.theta, entries[..]));
  }

  // ---- version 3 round trip ----

  /** What the fields of every compact sketch are, valid or not. */
  ghost predicate Constructed(c: CompactSketch)
  {
    FieldWidths(c) && c.theta <= MAX_THETA
  }

  /** The eight bytes that every plain form starts with. */
  lemma Start3(c: CompactSketch, junk: seq<uint8>)
    requires Constructed(c) && |junk| == 6
    ensures var bytes := Serialize3(c, junk);
            && |bytes| >= 8 && bytes[0] == PreambleLongs3(c) && bytes[1] == 3 && bytes[2] == SKETCH_TYPE
            && (Bit(bytes[5], 2) <==> c.isEmpty) && (Bit(bytes[5], 4) <==> c.isOrdered)
            && ReadLE(bytes, 6, 2) == c.seedHash
  {
    hide ReadLE, WriteLE, WriteEntries, Bit, Pow2;
    var bytes := Serialize3(c, junk);
    FlagBits(c.isEmpty, c.isOrdered);
    Small16(c.seedHash);
    assert bytes[6..8] == WriteLE(c.seedHash, 2);
    ReadWritten(bytes, 6, c.seedHash, 2);
  }

  /** The count and theta, where they are written. */
  lemma Numbers3(c: CompactSketch, junk: seq<uint8>)
    requires Constructed(c) && |junk| == 6
    ensures var bytes := Serialize3(c, junk);
            && (PreambleLongs3(c) > 1 ==> |bytes| >= 16 && ReadLE(bytes, 8, 4) == |c.entries|)
            && (PreambleLongs3(c) > 2 <==> IsEstimationMode(c))
            && (IsEstimationMode(c) ==> |bytes| >= 24 && ReadLE(bytes, 16, 8) == c.theta)
  {
    hide ReadLE, WriteLE, WriteEntries, Bit, Pow2;
    var bytes := Serialize3(c, junk);
    Words64();
    if PreambleLongs3(c) > 1 {
      assert bytes[8..12] == WriteLE(|c.entries|, 4);
      ReadWritten(bytes, 8, |c.entries|, 4);
    }
    if IsEstimationMode(c) {
      assert bytes[16..24] == WriteLE(c.theta, 8);
      ReadWritten(bytes, 16, c.theta, 8);
    }
  }

  lemma Entries3(c: CompactSketch, junk: seq<uint8>)
    requires Constructed(c) && |junk| == 6
    ensures ReadEntries(Serialize3(c, junk), 8 * PreambleLongs3(c), |c.entries|) == c.entries
  {
    hide ReadLE, WriteLE, ReadEntries, WriteEntries;
    var bytes, start := Serialize3(c, junk), 8 * PreambleLongs3(c);
    assert bytes[start..start + 8 * |c.entries|] == WriteEntries(c.entries);
    EntriesReadWritten(bytes, start, c.entries);
  }

  /** Whatever the unwritten bytes hold, parsing a plain form gives the sketch's header, or the seed mismatch. */
  lemma ParseOf3(c: CompactSketch, junk: seq<uint8>, seedHash: nat)
    requires Constructed(c) && |junk| == 6
    ensures Parse(Serialize3(c, junk), seedHash) ==
            if c.isEmpty then Ok(Parsed(true, true, c.seedHash, 0, MAX_THETA, 0, 64))
            else if c.seedHash != seedHash then Err(SeedMismatch)
            else Ok(Parsed(false, c.isOrdered || PreambleLongs3(c) == 1, c.seedHash, |c.entries|, c.theta,
                           8 * PreambleLongs3(c), 64))
  {
    hide Serialize3, ReadLE, Bit;
    Start3(c, junk);
    Numbers3(c, junk);
  }

  /**
   Whatever the unwritten bytes hold, plain serialization is undone by deserialization exactly when an empty
   sketch has no entries and the maximal theta, any other has the expected seed hash, and a sketch of at most one
   entry is flagged ordered.
   */
  lemma RoundTrip3(c: CompactSketch, junk: seq<uint8>, seedHash: nat)
    requires Constructed(c) && |junk| == 6
    ensures Decode(Serialize3(c, junk), seedHash) == Ok(c) <==>
            && (if c.isEmpty then c.entries == [] && c.theta == MAX_THETA else c.seedHash == seedHash)
            && (|c.entries| <= 1 ==> c.isOrdered)
  {
    hide Parse, Serialize3, ReadEntries, FieldWidths;
    ParseOf3(c, junk, seedHash);
    Entries3(c, junk);
  }

  // ---- version 4 ----

  /** Compression applies to ordered sketches except empty and single-item exact ones. */
  predicate IsSuitableForCompression(c: CompactSketch)
  {
    c.isOrdered && c.entries != [] && !(|c.entries| == 1 && !IsEstimationMode(c))
  }

  function NumEntriesBytes(n: nat): (bytes: nat)
    requires n < Pow2(32)
    ensures bytes <= 4
  {
    WholeBytes(32 - CountLeadingZeros32(n))
  }

  lemma CountFits(n: nat)
    requires n < Pow2(32)
    ensures n < Pow2(8 * NumEntriesBytes(n))
    ensures forall k: nat :: k < NumEntriesBytes(n) ==> Pow2(8 * k) <= n
  {
    hide Pow2, CountLeadingZeros32;
    CountWidth(n);
    Pow2Monotone(32 - CountLeadingZeros32(n), 8 * NumEntriesBytes(n));
    forall k: nat | k < NumEntriesBytes(n)
      ensures Pow2(8 * k) <= n
    {
      Pow2Monotone(8 * k, 31 - CountLeadingZeros32(n));
    }
  }

  lemma CountWidth(n: nat)
    requires n < Pow2(32)
    ensures CountLeadingZeros32(n) <= 32 && n < Pow2(32 - CountLeadingZeros32(n))
    ensures CountLeadingZeros32(n) < 32 ==> Pow2(31 - CountLeadingZeros32(n)) <= n
  {
    hide Pow2;
    if n == 0 { One(); }
  }

  function Header4(c: CompactSketch, entryBits: uint8): seq<uint8>
    requires |c.entries| < Pow2(32)
  {
    [if IsEstimationMode(c) then 2 else 1, COMPRESSED_SERIAL_VERSION, SKETCH_TYPE, entryBits,
     NumEntriesBytes(|c.entries|), FlagsByte(false, true)]
    + WriteLE(c.seedHash, 2)
    + (if IsEstimationMode(c) then WriteLE(c.theta, 8) else [])
    + WriteLE(|c.entries|, NumEntriesBytes(|c.entries|))
  }

  /** The bytes are a version 4 form of the sketch, at the least width that fits its differences. */
  ghost predicate Encodes4(bytes: seq<uint8>, c: CompactSketch, bits: uint8)
  {
    && Compressible(c) && Hashes(c.entries) && |c.entries| < Pow2(32)
    && var head, n := Header4(c, bits), |c.entries|;
    && 0 < bits < 64 && DeltasFit(c.entries, bits) && !DeltasFit(c.entries, bits - 1)
    && 0 <= n * bits && |bytes| == |head| + WholeBytes(n * bits) && bytes[..|head|] == head
    && FieldsStored(bytes[|head|..], c.entries, bits, n)
  }

  ghost predicate Compressible(c: CompactSketch)
  {
    ValidSketch(c) && FieldWidths(c) && IsSuitableForCompression(c)
  }

  lemma CompressibleHashes(c: CompactSketch)
    requires Compressible(c)
    ensures Hashes(c.entries) && |c.entries| < Pow2(32)
  {
    Words64();
  }

  method SerializeVersion4(c: CompactSketch) returns (bytes: seq<uint8>)
    requires Compressible(c)
    ensures |bytes| >= 8 && Encodes4(bytes, c, bytes[3])
    ensures |c.entries| < Pow2(8 * bytes[4] as nat)
    ensures forall k: nat :: k < bytes[4] ==> Pow2(8 * k) <= |c.entries|
  {
    hide Pow2, Hashes, DeltasFit, FieldsStored, ValidSketch, FieldWidths, WriteLE, NumEntriesBytes,
         FlagsByte;
    CompressibleHashes(c);
    CountFits(|c.entries|);
    var z := ComputeMinLeadingZeros(c.entries);
    var entryBits := 64 - z;
    var packed := new uint8[WholeBytes(entryBits * |c.entries|)](_ => 0);
    assert entryBits * |c.entries| == |c.entries| * entryBits;
    PackEntries(c.entries, entryBits, packed);
    var head := Header4(c, entryBits);
    bytes := head + packed[..];
    assert bytes[..|head|] == head && bytes[|head|..] == packed[..];
  }

  /** The width and the count, where they are written. */
  lemma CountOf4(bytes: seq<uint8>, c: CompactSketch, bits: uint8)
    requires Encodes4(bytes, c, bits)
    ensures |bytes| >= 8 && CountStart4(bytes) + bytes[4] <= |bytes|
    ensures ReadLE(bytes, CountStart4(bytes), bytes[4]) == |c.entries| && bytes[3] == bits
    ensures CountStart4(bytes) + bytes[4] == |Header4(c, bits)|
  {
    hide Pow2, Hashes, DeltasFit, FieldsStored, ReadLE, WriteLE, NumEntriesBytes, WholeBytes;
    var head := Header4(c, bits);
    var n := |c.entries|;
    assert |head| >= 8 && bytes[..8] == head[..8];
    assert bytes[0] == head[0] && bytes[3] == head[3] && bytes[4] == head[4];
    var start := CountStart4(bytes);
    assert bytes[start..start + bytes[4]] == head[start..start + bytes[4]] == WriteLE(n, NumEntriesBytes(n));
    CountFits(n);
    ReadWritten(bytes, start, n, NumEntriesBytes(n));
  }

  /** The parser's size check demands exactly the bytes written, as long as the bit count fits 32 bits. */
  lemma ExpectedSizeOf4(bytes: seq<uint8>, c: CompactSketch, bits: uint8)
    requires Encodes4(bytes, c, bits)
    ensures |bytes| >= 8 && CountStart4(bytes) + bytes[4] <= |bytes|
    ensures ExpectedSize4(bytes) <= |bytes|
    ensures ExpectedSize4(bytes) == |bytes| <==> |c.entries| * bits < TWO_TO_32
  {
    hide Pow2, Hashes, DeltasFit, FieldsStored, ReadLE, Header4, WholeBytes;
    CountOf4(bytes, c, bits);
    Commute(bits, |c.entries|);
    WrappedSize(|c.entries| * bits);
  }

  lemma Commute(a: nat, b: nat)
    ensures a * b == b * a >= 0
  {
  }

  lemma WrappedSize(x: nat)
    ensures WholeBytes(x % TWO_TO_32) <= WholeBytes(x)
    ensures WholeBytes(x % TWO_TO_32) == WholeBytes(x) <==> x < TWO_TO_32
  {
  }

  lemma ParseOf4(bytes: seq<uint8>, c: CompactSketch, bits: uint8, seedHash: nat)
    requires Encodes4(bytes, c, bits)
    ensures Parse(bytes, seedHash) ==
            if c.seedHash != seedHash then Err(SeedMismatch)
            else Ok(Parsed(false, true, c.seedHash, |c.entries|, c.theta, |Header4(c, bits)|, bits))
  {
    hide Pow2, Hashes, DeltasFit, FieldsStored, ReadLE, WriteLE, NumEntriesBytes, ExpectedSize4;
    CountOf4(bytes, c, bits);
    ExpectedSizeOf4(bytes, c, bits);
    var head := Header4(c, bits);
    assert bytes[..8] == head[..8];
    assert bytes[0] == head[0] && bytes[1] == head[1] && bytes[2] == head[2] && bytes[4] == head[4];
    Words64();
    assert bytes[6..8] == bytes[..8][6..8] == WriteLE(c.seedHash, 2);
    Small16(c.seedHash);
    ReadWritten(bytes, 6, c.seedHash, 2);
    if IsEstimationMode(c) {
      assert bytes[8..16] == bytes[..|head|][8..16] == WriteLE(c.theta, 8);
      ReadWritten(bytes, 8, c.theta, 8);
    }
    assert bytes[4] == NumEntriesBytes(|c.entries|) <= 4;
  }

  lemma Small16(x: nat)
    requires x < 0x1_0000
    ensures x < Pow2(8 * 2)
  {
    Words64();
  }

  /**
   The compressed form of a sketch, with the expected seed hash, is undone by deserialization
   exactly when the unrolled routines of its width carry every full block of differences through.
   */
  lemma RoundTrip4(bytes: seq<uint8>, c: CompactSketch, bits: uint8, seedHash: nat)
    requires Encodes4(bytes, c, bits)
    ensures Decode(bytes, seedHash) == Ok(c) <==> c.seedHash == seedHash && BlocksSafe(c.entries, bits)
  {
    hide Pow2, Hashes, DeltasFit, FieldsStored, Parse, Header4, BlocksSafe, DecodedDeltas, SumAt, DeltaSeq;
    CompressibleHashes(c);
    AscendingHashes(c.entries);
    ParseOf4(bytes, c, bits, seedHash);
    if c.seedHash == seedHash {
      var head, n := Header4(c, bits), |c.entries|;
      var packed := bytes[|head|..];
      assert bytes == head + packed;
      var d := DecodedDeltas(bytes, |head|, n, bits);
      DeltasRoundTrip(head, packed, c.entries, bits);
      WordsDecoded(bytes, |head|, n, bits);
      SumsAgree(d, c.entries);
    }
  }

  // ---- sketches that the code does not carry through ----

  lemma OneMoreBit(n: nat)
    ensures Pow2(n + 1) == 2 * Pow2(n)
  {
  }

  lemma Powers31To33()
    ensures Pow2(31) == 0x8000_0000 && Pow2(32) == TWO_TO_32 && Pow2(33) == 0x2_0000_0000
  {
    hide Pow2;
    Words64();
    OneMoreBit(31);
    OneMoreBit(32);
  }

  /** The least width is 33 when the first difference is 2^32 and the others fit. */
  lemma Width33(entries: seq<nat>, bits: nat)
    requires Ascending(entries) && entries != [] && entries[0] == TWO_TO_32 && 0 < bits
    requires forall j: nat :: j < |entries| ==> Delta(entries, j) < 0x2_0000_0000
    requires DeltasFit(entries, bits) && !DeltasFit(entries, bits - 1)
    ensures bits == 33
  {
    hide Pow2;
    Powers31To33();
    assert Delta(entries, 0) < Pow2(bits);
    if bits <= 32 { Pow2Monotone(bits, 32); }
    if bits > 33 { Pow2Monotone(33, bits - 1); }
  }

  /** Eight hashes whose differences take 33 bits, the last of them with bit 31 set. */
  function LostSketch(seedHash: nat): (c: CompactSketch)
    ensures |c.entries| == 8 && Ascending(c.entries) && c.entries[7] == 0x1_8000_0006
    ensures forall i :: 0 <= i < 7 ==> c.entries[i] == 0x1_0000_0000 + i
  {
    CompactSketch(false, true, seedHash, MAX_THETA,
                  Consecutive(0x1_0000_0000, 7, seedHash).entries + [0x1_8000_0006])
  }

  lemma LostBlock(seedHash: nat)
    ensures !BlocksSafe(LostSketch(seedHash).entries, 33)
  {
    hide Pow2;
    Powers31To33();
    PowerBit(31);
    assert !BlockSafe(DeltaBlock(LostSketch(seedHash).entries, 8 * 0), 33);
  }

  /** A valid sketch that its compressed form does not give back. */
  lemma CompressionLosesSketch(bytes: seq<uint8>, bits: uint8, seedHash: nat)
    requires Encodes4(bytes, LostSketch(seedHash), bits)
    ensures Decode(bytes, seedHash) != Ok(LostSketch(seedHash))
  {
    hide Pow2, FieldsStored, Decode, Hashes, Header4, BlocksSafe;
    var c := LostSketch(seedHash);
    Width33(c.entries, bits);
    LostBlock(seedHash);
    RoundTrip4(bytes, c, bits, seedHash);
  }

  /** Serializing it and reading it back loses it. */
  method SerializeLost(seedHash: nat) returns (bytes: seq<uint8>)
    requires seedHash < 0x1_0000
    ensures |bytes| >= 8 && Encodes4(bytes, LostSketch(seedHash), bytes[3])
    ensures Decode(bytes, seedHash) != Ok(LostSketch(seedHash))
  {
    hide Encodes4, Decode;
    bytes := SerializeVersion4(LostSketch(seedHash));
    CompressionLosesSketch(bytes, bytes[3], seedHash);
  }

  /** 2^27 consecutive hashes from 2^62 on. */
  function HugeSketch(seedHash: nat): CompactSketch
  {
    Consecutive(0x4000_0000_0000_0000, 0x800_0000, seedHash)
  }

  lemma HugeWidth(seedHash: nat, bits: nat)
    requires Ascending(HugeSketch(seedHash).entries) && bits < 64 && DeltasFit(HugeSketch(seedHash).entries, bits)
    ensures bits == 63
  {
    hide Pow2;
    var c := HugeSketch(seedHash);
    Words64();
    OneMoreBit(62);
    assert Delta(c.entries, 0) == 0x4000_0000_0000_0000 < Pow2(bits);
    if bits <= 62 { Pow2Monotone(bits, 62); }
  }

  /** A valid sketch for whose compressed form the parser demands fewer bytes than were written. */
  method SerializeHuge(seedHash: nat) returns (bytes: seq<uint8>)
    requires seedHash < 0x1_0000
    ensures |bytes| >= 8 && Encodes4(bytes, HugeSketch(seedHash), bytes[3])
    ensures CountStart4(bytes) + bytes[4] <= |bytes| && ExpectedSize4(bytes) < |bytes|
  {
    hide Pow2, Consecutive, ExpectedSize4, FieldsStored, Hashes;
    ConsecutiveValid(0x4000_0000_0000_0000, 0x800_0000, seedHash);
    bytes := SerializeVersion4(HugeSketch(seedHash));
    HugeWidth(seedHash, bytes[3]);
    ExpectedSizeOf4(bytes, HugeSketch(seedHash), bytes[3]);
  }

  /** An empty sketch with a lowered theta, as sampling unions produce, comes back with the maximal one. */
  lemma EmptyLosesTheta(junk: seq<uint8>, seedHash: nat)
    requires |junk| == 6 && seedHash < 0x1_0000
    ensures Decode(Serialize3(CompactSketch(true, true, seedHash, 5, []), junk), seedHash) !=
            Ok(CompactSketch(true, true, seedHash, 5, []))
  {
    hide Decode, Serialize3;
    RoundTrip3(CompactSketch(true, true, seedHash, 5, []), junk, seedHash);
  }

  /** A sketch with one entry that is not flagged ordered, as bytes of version 3 may hold it. */
  function UnorderedSketch(seedHash: nat): CompactSketch
  {
    CompactSketch(false, false, seedHash, 5, [1])
  }

  /**
   Read lazily it is unordered, copying it keeps it so, and writing and deserializing the copy flags it ordered.
   */
  lemma CopyLosesFlag(junk: seq<uint8>, seedHash: nat)
    requires |junk| == 6 && seedHash < 0x1_0000
    ensures ValidSketch(UnorderedSketch(seedHash))
    ensures var bytes := Serialize3(UnorderedSketch(seedHash), junk);
            Parse(bytes, seedHash) == Ok(Parsed(false, false, seedHash, 1, 5, 24, 64))
    ensures CopyCompact(UnorderedSketch(seedHash), false) == UnorderedSketch(seedHash)
    ensures Decode(Serialize3(UnorderedSketch(seedHash), junk), seedHash) != Ok(UnorderedSketch(seedHash))
  {
    hide Decode, Serialize3, Parse;
    ParseOf3(UnorderedSketch(seedHash), junk, seedHash);
    RoundTrip3(UnorderedSketch(seedHash), junk, seedHash);
  }

  /** Sums of differences are the hashes exactly when the differences are those of the hashes. */
  lemma SumsAgree(deltas: seq<nat>, entries: seq<nat>)
    requires Hashes(entries) && Words(deltas) && |deltas| == |entries|
    ensures SumsUpTo(deltas, |entries|) == entries <==> deltas == DeltaSeq(entries, |entries|)
  {
    hide Pow2, SumAt, DeltaSeq;
    var n := |entries|;
    var e := DeltaSeq(entries, n);
    HashesBelow64(entries);
    forall i: nat | i < n
      ensures SumAt(e, i) == entries[i]
    {
      SumsOfDeltas(entries, i);
    }
    if SumsUpTo(deltas, n) == entries {
      forall i: nat | i < n
        ensures SumAt(deltas, i) == SumAt(e, i)
      {
        assert SumsUpTo(deltas, n)[i] == entries[i];
      }
      SumsDetermineDeltas(deltas, e);
    }
  }

  lemma HashesBelow64(entries: seq<nat>)
    requires Hashes(entries)
    ensures forall i :: 0 <= i < |entries| ==> entries[i] < TWO_TO_64
    ensures Words(DeltaSeq(entries, |entries|))
  {
    Words64();
  }

  lemma WordsDecoded(data: seq<uint8>, start: nat, n: nat, bits: nat)
    requires 0 < bits < 64 && 8 * start + n * bits <= 8 * |data|
    ensures Words(DecodedDeltas(data, start, n, bits))
  {
    hide Pow2, DecodedDeltas;
    forall i: nat | i < n
      ensures DecodedDelta(data, start, n, bits, i) < TWO_TO_64
    {
      Position(i, n, bits);
      DecodedBound(bits, i % 8, Field(data, 8 * start + i * bits, bits));
    }
  }

  lemma DecodedBound(bits: nat, j: nat, f: nat)
    requires bits < 64 && f < Pow2(bits)
    ensures f < TWO_TO_64 && Decoded(bits, j, f) < TWO_TO_64
  {
    hide Pow2, Or, Shl, Shr, Low;
    Words64();
    Pow2Monotone(bits, 64);
    if bits == 33 && j == 7 && Bit(f, 31) {
      SignExtensionBound();
      OrBound(f, SIGN_EXTENSION, 64);
    } else if bits == 35 && j == 2 {
      MaskBound(f);
    }
  }

  lemma SignExtensionBound()
    ensures SIGN_EXTENSION < Pow2(64)
  {
    hide Pow2, Shl;
    Words64();
    ShlIsMul(0xffff_ffff, 32);
  }

  lemma MaskBound(f: nat)
    requires f < Pow2(35)
    ensures Or(Shl(Shr(f, 34), 34), Low(f, 33)) < Pow2(64)
  {
    hide Pow2, Or, Shl, Shr, Low;
    ShrLowSplit(f, 34);
    ShrLowSplit(f, 33);
    ShlIsMul(Shr(f, 34), 34);
    Pow2Monotone(33, 64);
    Pow2Monotone(35, 64);
    OrBound(Shl(Shr(f, 34), 34), Low(f, 33), 64);
  }
}
