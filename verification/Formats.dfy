/** The binary forms byte by byte, and what the parser makes of bytes that are not such a form. */
module Formats {
  import opened Bits
  import opened Sequences
  import opened Sizing
  import opened Sketches
  import opened DeltaCoding
  import opened DeltaStream
  import opened DeltaReading
  import opened Codec

  // ---- little-endian numbers ----

  /** Byte `k` of a written number holds its bits from 8k on. */
  lemma {:induction false} WrittenBits(v: nat, n: nat, k: nat, i: nat)
    requires k < n && i < 8
    ensures Bit(WriteLE(v, n)[k], i) <==> Bit(v, 8 * k + i)
  {
    hide Bit;
    if k == 0 {
      LowByte(v);
      BitLow(v, 8, i);
    } else {
      WrittenBits(v / 256, n - 1, k - 1, i);
      HighBytes(v);
      BitShr(v, 8, 8 * (k - 1) + i);
    }
  }

  lemma LowByte(v: nat)
    ensures Low(v, 8) == v % 256
  {
    ShrLowSplit(v, 8);
    assert Pow2(8) == 256;
    assert v == 256 * Shr(v, 8) + Low(v, 8);
  }

  lemma HighBytes(v: nat)
    ensures Shr(v, 8) == v / 256
  {
    ShrLowSplit(v, 8);
    assert Pow2(8) == 256;
    assert v == 256 * Shr(v, 8) + Low(v, 8);
  }

  /** Reading is the inverse of writing on any bytes. */
  lemma {:induction false} WrittenRead(s: seq<uint8>, at: nat, n: nat)
    requires at + n <= |s|
    ensures WriteLE(ReadLE(s, at, n), n) == s[at..at + n]
    decreases n
  {
    if n > 0 {
      WrittenRead(s, at + 1, n - 1);
      assert ReadLE(s, at, n) % 256 == s[at] && ReadLE(s, at, n) / 256 == ReadLE(s, at + 1, n - 1);
      assert s[at..at + n] == [s[at]] + s[at + 1..at + n];
    }
  }

  lemma {:induction false} EntriesWrittenRead(s: seq<uint8>, at: nat, n: nat)
    requires at + 8 * n <= |s|
    ensures WriteEntries(ReadEntries(s, at, n)) == s[at..at + 8 * n]
    decreases n
  {
    hide ReadLE, WriteLE;
    if n > 0 {
      var entries := ReadEntries(s, at, n);
      WrittenRead(s, at, 8);
      EntriesWrittenRead(s, at + 8, n - 1);
      assert entries[1..] == ReadEntries(s, at + 8, n - 1);
      assert s[at..at + 8 * n] == s[at..at + 8] + s[at + 8..at + 8 * n];
    }
  }

  /** A number is read alike from a prefix. */
  lemma {:induction false} ReadPrefix(s: seq<uint8>, m: nat, at: nat, n: nat)
    requires at + n <= m <= |s|
    ensures ReadLE(s[..m], at, n) == ReadLE(s, at, n)
    decreases n
  {
    if n > 0 {
      ReadPrefix(s, m, at + 1, n - 1);
    }
  }

  lemma {:induction false} EntryBytes(entries: seq<nat>, i: nat)
    requires i < |entries|
    ensures WriteEntries(entries)[8 * i..8 * i + 8] == WriteLE(entries[i], 8)
  {
    hide WriteLE;
    var w := WriteEntries(entries);
    if i == 0 {
      assert w[..8] == WriteLE(entries[0], 8);
    } else {
      EntryBytes(entries[1..], i - 1);
      assert w[8..] == WriteEntries(entries[1..]);
      assert w[8 * i..8 * i + 8] == w[8..][8 * (i - 1)..8 * (i - 1) + 8];
    }
  }

  // ---- version 3 ----

  /** Bytes before the entries: 24 for a sampled sketch, 8 for an empty one or a single exact hash, 16 otherwise. */
  lemma Layout3(c: CompactSketch, junk: seq<uint8>)
    requires |junk| == 6
    ensures var start := if !c.isEmpty && c.theta < MAX_THETA then 24
                         else if c.isEmpty || |c.entries| == 1 then 8 else 16;
            var bytes := Serialize3(c, junk);
            && |bytes| == start + 8 * |c.entries| && bytes[0] == start / 8
            && bytes[1] == 3 && bytes[2] == 3 && bytes[3..5] == junk[..2]
            && bytes[5] == 10 + (if c.isEmpty then 4 else 0) + (if c.isOrdered then 16 else 0)
            && bytes[6..8] == WriteLE(c.seedHash, 2)
            && (start > 8 ==> bytes[8..12] == WriteLE(|c.entries|, 4) && bytes[12..16] == junk[2..])
            && (start == 24 ==> bytes[16..24] == WriteLE(c.theta, 8))
            && forall i: nat :: i < |c.entries| ==> bytes[start + 8 * i..start + 8 * i + 8] == WriteLE(c.entries[i], 8)
  {
    hide WriteLE, WriteEntries;
    var bytes, start := Serialize3(c, junk), 8 * PreambleLongs3(c);
    assert bytes[start..] == WriteEntries(c.entries);
    assert start > 8 ==> bytes[8..16] == WriteLE(|c.entries|, 4) + junk[2..];
    assert start > 8 ==> bytes[12..16] == bytes[8..16][4..];
    forall i: nat | i < |c.entries|
      ensures bytes[start + 8 * i..start + 8 * i + 8] == WriteLE(c.entries[i], 8)
    {
      EntryBytes(c.entries, i);
      assert bytes[start + 8 * i..start + 8 * i + 8] == bytes[start..][8 * i..8 * i + 8];
    }
  }

  /** A proper prefix of the plain form of a non-empty sketch is too short. */
  lemma Truncated3(c: CompactSketch, junk: seq<uint8>, m: nat)
    requires Constructed(c) && |junk| == 6 && !c.isEmpty && m < |Serialize3(c, junk)|
    ensures Parse(Serialize3(c, junk)[..m], c.seedHash) == Err(TooShort)
  {
    hide Serialize3, ReadLE, Bit;
    var bytes := Serialize3(c, junk);
    Start3(c, junk);
    Numbers3(c, junk);
    if m >= 8 { ReadPrefix(bytes, m, 6, 2); }
    if m >= 12 { ReadPrefix(bytes, m, 8, 4); }
  }

  /** The unwritten bytes of a header, and zeros where there are none. */
  function JunkOf(bytes: seq<uint8>): (junk: seq<uint8>)
    requires |bytes| >= 8 && (bytes[0] > 1 ==> |bytes| >= 16)
    ensures |junk| == 6
  {
    bytes[3..5] + if bytes[0] > 1 then bytes[12..16] else [0, 0, 0, 0]
  }

  /**
   Bytes of version 3 that decode to a sketch start with its plain form, if their preamble and flags are those
   that are written for it.
   */
  lemma WrittenBack3(bytes: seq<uint8>, seedHash: nat, c: CompactSketch)
    requires Decode(bytes, seedHash) == Ok(c) && bytes[1] == 3
    requires bytes[0] == PreambleLongs3(c) && bytes[5] == FlagsByte(c.isEmpty, c.isOrdered)
    ensures var n := 8 * PreambleLongs3(c) + 8 * |c.entries|;
            n <= |bytes| && bytes[..n] == Serialize3(c, JunkOf(bytes))
  {
    hide ReadLE, WriteLE, WriteEntries, ReadEntries, Bit, Decode, Serialize3;
    var start, n := 8 * PreambleLongs3(c), |c.entries|;
    Fields3(bytes, seedHash, c);
    WrittenRead(bytes, 6, 2);
    if start > 8 { WrittenRead(bytes, 8, 4); }
    if start > 16 { WrittenRead(bytes, 16, 8); }
    EntriesWrittenRead(bytes, start, n);
    Parts3(c, JunkOf(bytes));
    Slices3(bytes, start, start + 8 * n);
  }

  lemma Slices3(bytes: seq<uint8>, start: nat, end: nat)
    requires (start == 8 || start == 16 || start == 24) && start <= end <= |bytes|
    ensures bytes[..end] ==
            [bytes[0], bytes[1], bytes[2]] + bytes[3..5] + [bytes[5]] + bytes[6..8]
            + (if start > 16 then bytes[8..12] + bytes[12..16] + bytes[16..24]
               else if start > 8 then bytes[8..12] + bytes[12..16] else [])
            + bytes[start..end]
  {
  }

  /** Where the fields of the sketch are read. */
  lemma Fields3(bytes: seq<uint8>, seedHash: nat, c: CompactSketch)
    requires Decode(bytes, seedHash) == Ok(c) && bytes[1] == 3
    requires bytes[0] == PreambleLongs3(c) && bytes[5] == FlagsByte(c.isEmpty, c.isOrdered)
    ensures var start, n := 8 * PreambleLongs3(c), |c.entries|;
            && start + 8 * n <= |bytes| && bytes[2] == 3 && c.seedHash == ReadLE(bytes, 6, 2)
            && c.entries == ReadEntries(bytes, start, n)
            && (start > 8 ==> n == ReadLE(bytes, 8, 4))
            && (start > 16 ==> c.theta == ReadLE(bytes, 16, 8))
  {
    hide ReadLE, ReadEntries, Bit;
    FlagBits(c.isEmpty, c.isOrdered);
    if c.isEmpty { NothingRead(bytes); }
  }

  lemma NothingRead(bytes: seq<uint8>)
    requires |bytes| >= 8
    ensures ReadEntries(bytes, 0, 0) == ReadEntries(bytes, 8, 0) == []
  {
  }

  lemma Parts3(c: CompactSketch, junk: seq<uint8>)
    requires |junk| == 6
    ensures var start := 8 * PreambleLongs3(c);
            Serialize3(c, junk) ==
            [PreambleLongs3(c), 3, 3] + junk[..2] + [FlagsByte(c.isEmpty, c.isOrdered)] + WriteLE(c.seedHash, 2)
            + (if start > 16 then WriteLE(|c.entries|, 4) + junk[2..] + WriteLE(c.theta, 8)
               else if start > 8 then WriteLE(|c.entries|, 4) + junk[2..] else [])
            + WriteEntries(c.entries)
  {
    hide WriteLE, WriteEntries, FlagsByte;
  }

  // ---- version 4 ----

  /** The header of a compressed form, the least count bytes that hold the count, and the size. */
  lemma Layout4(bytes: seq<uint8>, c: CompactSketch, bits: uint8)
    requires Encodes4(bytes, c, bits)
    ensures var start := if c.theta < MAX_THETA then 16 else 8;
            && |bytes| >= 8 && bytes[0] == start / 8 && bytes[1] == 4 && bytes[2] == 3 && bytes[3] == bits
            && bytes[5] == 26 && bytes[6..8] == WriteLE(c.seedHash, 2)
            && start + bytes[4] <= |bytes| && bytes[start..start + bytes[4]] == WriteLE(|c.entries|, bytes[4])
            && |c.entries| < Pow2(8 * bytes[4] as nat) && (forall k: nat :: k < bytes[4] ==> Pow2(8 * k) <= |c.entries|)
            && (start == 16 ==> bytes[8..16] == WriteLE(c.theta, 8))
            && |c.entries| * bits <= 8 * (|bytes| - start - bytes[4]) < |c.entries| * bits + 8
  {
    hide Pow2, Hashes, DeltasFit, FieldsStored, WriteLE, NumEntriesBytes;
    var head, n := Header4(c, bits), |c.entries|;
    var start := if c.theta < MAX_THETA then 16 else 8;
    CountFits(n);
    assert head[6..8] == WriteLE(c.seedHash, 2);
    assert head[start..] == WriteLE(n, NumEntriesBytes(n));
    assert start == 16 ==> head[8..16] == WriteLE(c.theta, 8);
    HeadBytes(bytes, head, start);
  }

  lemma HeadBytes(bytes: seq<uint8>, head: seq<uint8>, start: nat)
    requires 8 <= start <= |head| <= |bytes| && bytes[..|head|] == head
    ensures forall i :: 0 <= i < |head| ==> bytes[i] == head[i]
    ensures bytes[6..8] == head[6..8] && bytes[8..start] == head[8..start] && bytes[start..|head|] == head[start..]
  {
  }

  /** A prefix of a compressed form parses like the whole form exactly from the size on that the parser demands. */
  lemma Truncated4(bytes: seq<uint8>, c: CompactSketch, bits: uint8, m: nat)
    requires Encodes4(bytes, c, bits) && m <= |bytes|
    ensures |bytes| >= 8 && CountStart4(bytes) + bytes[4] <= |bytes|
    ensures Parse(bytes[..m], c.seedHash) ==
            if m < ExpectedSize4(bytes) then Err(TooShort) else Parse(bytes, c.seedHash)
  {
    hide Encodes4, ReadLE, WholeBytes;
    CountOf4(bytes, c, bits);
    Layout4(bytes, c, bits);
    ParseOf4(bytes, c, bits, c.seedHash);
    var start := CountStart4(bytes);
    if m >= 8 { ReadPrefix(bytes, m, 6, 2); }
    if m >= 16 && start == 16 { ReadPrefix(bytes, m, 8, 8); }
    if m >= start + bytes[4] { ReadPrefix(bytes, m, start, bytes[4]); }
  }

  // ---- any bytes ----

  /** Which bytes the parser rejects for another reason than their length. */
  lemma ParseErrors(bytes: seq<uint8>, seedHash: nat)
    ensures Parse(bytes, seedHash) == Err(WrongType) <==> |bytes| >= 8 && bytes[2] != 3
    ensures Parse(bytes, seedHash) == Err(UnsupportedVersion) <==>
            |bytes| >= 8 && bytes[2] == 3 && bytes[1] != 3 && bytes[1] != 4
    ensures Parse(bytes, seedHash) == Err(SeedMismatch) <==>
            && |bytes| >= 8 && bytes[2] == 3 && bytes[6] as nat + 256 * bytes[7] as nat != seedHash
            && (bytes[1] == 4 || (bytes[1] == 3 && bytes[5] / 4 % 2 == 0))
    ensures |bytes| < 8 ==> Parse(bytes, seedHash) == Err(TooShort)
  {
    hide Bit;
    if |bytes| >= 8 {
      LowBits(bytes[5]);
      assert ReadLE(bytes, 7, 1) == bytes[7] + 256 * ReadLE(bytes, 8, 0);
    }
  }

  /** Bytes after a form that parses are not looked at. */
  lemma TrailingBytes(bytes: seq<uint8>, more: seq<uint8>, seedHash: nat)
    requires Parse(bytes, seedHash).Ok?
    ensures Parse(bytes + more, seedHash) == Parse(bytes, seedHash)
  {
    hide ReadLE, Bit, WholeBytes;
    var all, m := bytes + more, |bytes|;
    assert all[..m] == bytes && forall i :: 0 <= i < m ==> all[i] == bytes[i];
    ReadPrefix(all, m, 6, 2);
    if bytes[1] == 4 {
      var start := CountStart4(bytes);
      if start == 16 { ReadPrefix(all, m, 8, 8); }
      ReadPrefix(all, m, start, bytes[4]);
    } else {
      if m >= 12 { ReadPrefix(all, m, 8, 4); }
      if m >= 24 { ReadPrefix(all, m, 16, 8); }
    }
  }

  lemma {:induction false} ReadAfter(s: seq<uint8>, k: nat, x: uint8, at: nat, n: nat)
    requires k < at && at + n <= |s|
    ensures ReadLE(s[k := x], at, n) == ReadLE(s, at, n)
    decreases n
  {
    if n > 0 {
      ReadAfter(s, k, x, at + 1, n - 1);
    }
  }

  /**
   Of the preamble size only this matters: in version 3 whether it is 1 and whether it is above 2, in version 4
   whether it is above 1.
   */
  lemma PreamblesAlike(bytes: seq<uint8>, x: uint8, seedHash: nat)
    requires |bytes| >= 8
    requires bytes[1] == 4 || (x == 1 <==> bytes[0] == 1)
    requires bytes[1] == 4 || (x > 2 <==> bytes[0] > 2)
    requires bytes[1] == 4 ==> (x > 1 <==> bytes[0] > 1)
    ensures Parse(bytes[0 := x], seedHash) == Parse(bytes, seedHash)
  {
    hide ReadLE, Bit, WholeBytes;
    ReadAfter(bytes, 0, x, 6, 2);
    if |bytes| >= 12 { ReadAfter(bytes, 0, x, 8, 4); }
    if |bytes| >= 16 { ReadAfter(bytes, 0, x, 8, 8); }
    if |bytes| >= 24 { ReadAfter(bytes, 0, x, 16, 8); }
    var start := CountStart4(bytes);
    if |bytes| >= start + bytes[4] { ReadAfter(bytes, 0, x, start, bytes[4]); }
  }

  // ---- the choice of form ----

  /** Compressed where that pays: ordered sketches with several hashes, or with one below a lowered theta. */
  method SerializeCompressed(c: CompactSketch, junk: seq<uint8>) returns (bytes: seq<uint8>)
    requires ValidSketch(c) && FieldWidths(c) && |junk| == 6
    ensures |bytes| >= 8 && bytes[1] == if c.isOrdered && (|c.entries| > 1 || (|c.entries| == 1 && c.theta < MAX_THETA))
                                        then 4 else 3
    ensures bytes[1] == 4 ==> (Decode(bytes, c.seedHash) == Ok(c) <==> BlocksSafe(c.entries, bytes[3]))
    ensures bytes[1] == 3 ==> (Decode(bytes, c.seedHash) == Ok(c) <==>
                                 && (c.isEmpty ==> c.theta == MAX_THETA)
                                 && (|c.entries| <= 1 ==> c.isOrdered))
  {
    hide Encodes4, Serialize3, Decode, BlocksSafe;
    if IsSuitableForCompression(c) {
      bytes := SerializeVersion4(c);
      Layout4(bytes, c, bytes[3]);
      RoundTrip4(bytes, c, bytes[3], c.seedHash);
    } else {
      bytes := Serialize3(c, junk);
      Layout3(c, junk);
      RoundTrip3(c, junk, c.seedHash);
    }
  }
}
