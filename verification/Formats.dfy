/**
 * The files byte by byte: records, snapshots and sidx files, with every number written out, and
 * what is accepted when they are read back.
 */
module Formats {
  import opened Bytes
  import Crc32
  import CrcPolynomial
  import opened Record
  import Segment
  import Index
  import Recovery
  import Snapshot
  import Entries
  import Sidx

  // ----- numbers, most significant byte first --------------------------------------------------

  function Big2(v: nat): (b: Bytes)
    ensures |b| == 2
  {
    [v / 0x100 % 256, v % 256]
  }

  function Big4(v: nat): (b: Bytes)
    ensures |b| == 4
  {
    [v / 0x100_0000 % 256, v / 0x1_0000 % 256, v / 0x100 % 256, v % 256]
  }

  function Big8(v: nat): (b: Bytes)
    ensures |b| == 8
  {
    Big4(v / 0x1_0000_0000) + Big4(v)
  }

  lemma PutLow(v: nat, n: nat)
    ensures PutBE(v, n + 1) == PutBE(v / 256, n) + [v % 256]
  {}

  lemma BigTwo(v: nat)
    ensures PutBE(v, 2) == Big2(v)
  {
    PutLow(v, 1);
    PutLow(v / 256, 0);
  }

  lemma Quotients(v: nat)
    ensures v / 256 / 256 == v / 0x1_0000 && v / 0x1_0000 / 256 == v / 0x100_0000
    ensures v / 0x100_0000 / 256 == v / 0x1_0000_0000
  {}

  lemma LowFour(v: nat, n: nat)
    ensures PutBE(v, n + 4) == PutBE(v / 0x1_0000_0000, n) + Big4(v)
  {
    hide PutBE;
    Quotients(v);
    PutLow(v, n + 3);
    PutLow(v / 0x100, n + 2);
    PutLow(v / 0x1_0000, n + 1);
    PutLow(v / 0x100_0000, n);
  }

  lemma BigFour(v: nat)
    ensures PutBE(v, 4) == Big4(v)
  {
    LowFour(v, 0);
  }

  lemma BigEight(v: nat)
    ensures PutBE(v, 8) == Big8(v)
  {
    hide PutBE, Big4;
    LowFour(v, 4);
    BigFour(v / 0x1_0000_0000);
  }

  // ----- the record --------------------------------------------------------------------------------

  /** Timestamp, in two's complement, key length, value length, flags, key, value. */
  function RecordBody(key: Bytes, value: Bytes, tombstone: bool, timestamp: int): Bytes
    requires timestamp >= -0x1_0000_0000_0000_0000
  {
    Big8(if timestamp < 0 then timestamp + 0x1_0000_0000_0000_0000 else timestamp)
    + Big4(|key|) + Big4(|value|) + [if tombstone then 1 else 0] + key + value
  }

  /** An encoded record is its checksum and then these. */
  lemma RecordLayout(r: Record)
    requires Encodable(r)
    ensures var b := RecordBody(r.key, r.value, r.tombstone, r.timestamp); Encode(r) == Crc32.Checksum(b) + b
    ensures |Encode(r)| == 21 + |r.key| + |r.value|
  {
    hide PutBE, Big4, Big8, Crc32.Checksum;
    BigEight(ToUint64(r.timestamp));
    BigFour(|r.key|);
    BigFour(|r.value|);
  }

  function Bits(b: byte): bv32 {
    match b
    case 0 => 0 case 1 => 1 case 97 => 97 case _ => 98
  }

  lemma BitsOf(b: byte)
    requires b == 0 || b == 1 || b == 97 || b == 98
    ensures Crc32.ToBits(b) == Bits(b)
  {
    hide Crc32.ToBits, Crc32.Pack;
    PackedBits();
    CrcPolynomial.ToBitsOf(b);
  }

  lemma PackedBits()
    ensures Crc32.Pack(false, false, false, false, false, false, false, false) == 0
    ensures Crc32.Pack(true, false, false, false, false, false, false, false) == 1
    ensures Crc32.Pack(true, false, false, false, false, true, true, false) == 97
    ensures Crc32.Pack(false, true, false, false, false, true, true, false) == 98
  {}

  lemma StepsToLengths()
    ensures Crc32.EightSteps(CrcPolynomial.Mixed(0xFFFF_FFFF, Bits(0))) == 0x2DFD_1072
    ensures Crc32.EightSteps(CrcPolynomial.Mixed(0x2DFD_1072, Bits(0))) == 0xBE26_ED00
    ensures Crc32.EightSteps(CrcPolynomial.Mixed(0xBE26_ED00, Bits(0))) == 0x00BE_26ED
    ensures Crc32.EightSteps(CrcPolynomial.Mixed(0x00BE_26ED, Bits(0))) == 0xDEBB_20E3
    ensures Crc32.EightSteps(CrcPolynomial.Mixed(0xDEBB_20E3, Bits(0))) == 0x39DD_08E2
    ensures Crc32.EightSteps(CrcPolynomial.Mixed(0x39DD_08E2, Bits(0))) == 0x4E3D_5E5C
    ensures Crc32.EightSteps(CrcPolynomial.Mixed(0x4E3D_5E5C, Bits(0))) == 0x6293_2081
    ensures Crc32.EightSteps(CrcPolynomial.Mixed(0x6293_2081, Bits(0))) == 0x9ADD_2096
  {}

  lemma StepsToFlags()
    ensures Crc32.EightSteps(CrcPolynomial.Mixed(0x9ADD_2096, Bits(0))) == 0x19F6_EB51
    ensures Crc32.EightSteps(CrcPolynomial.Mixed(0x19F6_EB51, Bits(0))) == 0x1C75_9789
    ensures Crc32.EightSteps(CrcPolynomial.Mixed(0x1C75_9789, Bits(0))) == 0x9478_4E13
    ensures Crc32.EightSteps(CrcPolynomial.Mixed(0x9478_4E13, Bits(1))) == 0xF32D_0906
    ensures Crc32.EightSteps(CrcPolynomial.Mixed(0xF32D_0906, Bits(0))) == 0xE990_883C
    ensures Crc32.EightSteps(CrcPolynomial.Mixed(0xE990_883C, Bits(0))) == 0x2F86_EC0F
    ensures Crc32.EightSteps(CrcPolynomial.Mixed(0x2F86_EC0F, Bits(0))) == 0x9090_9B7D
    ensures Crc32.EightSteps(CrcPolynomial.Mixed(0x9090_9B7D, Bits(1))) == 0x5923_AD8C
  {}

  lemma StepsToValue()
    ensures Crc32.EightSteps(CrcPolynomial.Mixed(0x5923_AD8C, Bits(0))) == 0xE457_ECA6
    ensures Crc32.EightSteps(CrcPolynomial.Mixed(0xE457_ECA6, Bits(97))) == 0x05E4_00FF
    ensures Crc32.EightSteps(CrcPolynomial.Mixed(0x05E4_00FF, Bits(98))) == 0x8EBB_0BF9
  {}

  /** One more byte of a body. */
  lemma OneMore(d: Bytes, k: nat, b: byte, x: bv32, y: bv32)
    requires k < |d| && d[k] == b && (b == 0 || b == 1 || b == 97 || b == 98)
    requires Crc32.Register(0xFFFF_FFFF, d[..k]) == x && Crc32.EightSteps(CrcPolynomial.Mixed(x, Bits(b))) == y
    ensures Crc32.Register(0xFFFF_FFFF, d[..k + 1]) == y
  {
    hide Crc32.ToBits, Crc32.EightSteps, Crc32.Register, Bits;
    BitsOf(d[k]);
    CrcPolynomial.NextByte(d, k, Bits(b), x, y);
  }

  /** The body of a put of "b" under "a" at time 0. */
  predicate SmallBody(d: Bytes) {
    |d| == 19 && (forall k :: 0 <= k < 17 ==> d[k] == if k == 11 || k == 15 then 1 else 0) && d[17] == 97 && d[18] == 98
  }

  lemma Bytes17(d: Bytes)
    requires SmallBody(d)
    ensures |d| == 19 && d[17] == 97 && d[18] == 98 && d[11] == 1 && d[15] == 1
    ensures d[0] == 0 && d[1] == 0 && d[2] == 0 && d[3] == 0 && d[4] == 0 && d[5] == 0 && d[6] == 0 && d[7] == 0
    ensures d[8] == 0 && d[9] == 0 && d[10] == 0 && d[12] == 0 && d[13] == 0 && d[14] == 0 && d[16] == 0
  {}

  lemma FourBytesIn(d: Bytes)
    requires SmallBody(d)
    ensures Crc32.Register(0xFFFF_FFFF, d[..4]) == 0xDEBB_20E3
  {
    hide *;
    Bytes17(d);
    CrcPolynomial.NoDigits(d);
    StepsToLengths();
    OneMore(d, 0, 0, 0xFFFF_FFFF, 0x2DFD_1072);
    OneMore(d, 1, 0, 0x2DFD_1072, 0xBE26_ED00);
    OneMore(d, 2, 0, 0xBE26_ED00, 0x00BE_26ED);
    OneMore(d, 3, 0, 0x00BE_26ED, 0xDEBB_20E3);
  }

  lemma TimestampIn(d: Bytes)
    requires SmallBody(d)
    ensures Crc32.Register(0xFFFF_FFFF, d[..8]) == 0x9ADD_2096
  {
    hide *;
    Bytes17(d);
    FourBytesIn(d);
    StepsToLengths();
    OneMore(d, 4, 0, 0xDEBB_20E3, 0x39DD_08E2);
    OneMore(d, 5, 0, 0x39DD_08E2, 0x4E3D_5E5C);
    OneMore(d, 6, 0, 0x4E3D_5E5C, 0x6293_2081);
    OneMore(d, 7, 0, 0x6293_2081, 0x9ADD_2096);
  }

  lemma KeyLengthIn(d: Bytes)
    requires SmallBody(d)
    ensures Crc32.Register(0xFFFF_FFFF, d[..12]) == 0xF32D_0906
  {
    hide *;
    Bytes17(d);
    TimestampIn(d);
    StepsToFlags();
    OneMore(d, 8, 0, 0x9ADD_2096, 0x19F6_EB51);
    OneMore(d, 9, 0, 0x19F6_EB51, 0x1C75_9789);
    OneMore(d, 10, 0, 0x1C75_9789, 0x9478_4E13);
    OneMore(d, 11, 1, 0x9478_4E13, 0xF32D_0906);
  }

  lemma LengthsIn(d: Bytes)
    requires SmallBody(d)
    ensures Crc32.Register(0xFFFF_FFFF, d[..16]) == 0x5923_AD8C
  {
    hide *;
    Bytes17(d);
    KeyLengthIn(d);
    StepsToFlags();
    OneMore(d, 12, 0, 0xF32D_0906, 0xE990_883C);
    OneMore(d, 13, 0, 0xE990_883C, 0x2F86_EC0F);
    OneMore(d, 14, 0, 0x2F86_EC0F, 0x9090_9B7D);
    OneMore(d, 15, 1, 0x9090_9B7D, 0x5923_AD8C);
  }

  lemma AllIn(d: Bytes)
    requires SmallBody(d)
    ensures Crc32.Register(0xFFFF_FFFF, d[..19]) == 0x8EBB_0BF9
  {
    hide *;
    Bytes17(d);
    LengthsIn(d);
    StepsToValue();
    OneMore(d, 16, 0, 0x5923_AD8C, 0xE457_ECA6);
    OneMore(d, 17, 97, 0xE457_ECA6, 0x05E4_00FF);
    OneMore(d, 18, 98, 0x05E4_00FF, 0x8EBB_0BF9);
  }

  lemma SmallWord()
    ensures Crc32.Word(0x8EBB_0BF9 ^ 0xFFFF_FFFF) == [0x71, 0x44, 0xF4, 0x06]
  {}

  lemma SmallChecksum(d: Bytes)
    requires SmallBody(d)
    ensures Crc32.Checksum(d) == [0x71, 0x44, 0xF4, 0x06]
  {
    hide Crc32.Register, Crc32.Word, SmallBody;
    AllIn(d);
    SmallWord();
    SmallLength(d);
    assert d[..19] == d;
  }

  lemma SmallLength(d: Bytes)
    requires SmallBody(d)
    ensures |d| == 19
  {}

  lemma SmallBodyIs()
    ensures RecordBody([97], [98], false, 0) == [0, 0, 0, 0, 0, 0, 0, 0, 0, 0, 0, 1, 0, 0, 0, 1, 0, 97, 98]
  {}

  /** A whole record: "b" put under "a" at time 0. */
  lemma SmallRecord(r: Record)
    requires r == Record([97], [98], false, 0)
    ensures Encode(r) == [0x71, 0x44, 0xF4, 0x06] + [0, 0, 0, 0, 0, 0, 0, 0, 0, 0, 0, 1, 0, 0, 0, 1, 0, 97, 98]
  {
    hide Crc32.Checksum, PutBE, Encode, RecordBody;
    RecordLayout(r);
    SmallBodyIs();
    SmallChecksum(RecordBody(r.key, r.value, r.tombstone, r.timestamp));
  }

  // ----- reading a record back --------------------------------------------------------------------------

  /** A record's bytes with these flags, whatever they are. */
  function FlaggedRecord(key: Bytes, value: Bytes, flags: byte, timestamp: int): Bytes
    requires timestamp >= -0x1_0000_0000_0000_0000
  {
    var b := Big8(if timestamp < 0 then timestamp + 0x1_0000_0000_0000_0000 else timestamp)
             + Big4(|key|) + Big4(|value|) + [flags] + key + value;
    Crc32.Checksum(b) + b
  }

  /** v says what stands at its offset: a whole record, its checksum matching. */
  predicate Stands(data: Bytes, v: Segment.Visit) {
    var h := v.header;
    && -0x8000_0000_0000_0000 <= h.timestamp < 0x8000_0000_0000_0000
    && |v.key| == h.keyLen < 0x1_0000_0000 && |v.value| == h.valLen < 0x1_0000_0000
    && v.off + 21 + h.keyLen + h.valLen <= |data|
    && data[v.off..v.off + 21 + h.keyLen + h.valLen] == FlaggedRecord(v.key, v.value, h.flags, h.timestamp)
    && h.crc == data[v.off..v.off + 4]
  }

  lemma SevenSlices(e: Bytes, k: nat)
    requires |e| >= 21 + k
    ensures e == e[0..4] + e[4..12] + e[12..16] + e[16..20] + [e[20]] + e[21..21 + k] + e[21 + k..]
    ensures e[4..] == e[4..12] + e[12..16] + e[16..20] + [e[20]] + e[21..21 + k] + e[21 + k..]
  {}

  lemma TimestampBack(u: nat)
    requires u < TWO64
    ensures var t := ToInt64(u);
            -0x8000_0000_0000_0000 <= t < 0x8000_0000_0000_0000
            && u == if t < 0 then t + 0x1_0000_0000_0000_0000 else t
  {}

  lemma WasRead(e: Bytes, h: Header, key: Bytes, value: Bytes)
    requires |e| == 21 + h.keyLen + h.valLen && h == DecodeHeader(e[..21]) && VerifyChecksum(e)
    requires key == e[21..21 + h.keyLen] && value == e[21 + h.keyLen..]
    ensures -0x8000_0000_0000_0000 <= h.timestamp < 0x8000_0000_0000_0000 && h.keyLen < TWO32 && h.valLen < TWO32
    ensures e == FlaggedRecord(key, value, h.flags, h.timestamp) && h.crc == e[..4]
  {
    hide Crc32.Checksum, PutBE, GetBE, Big4, Big8, Pow256;
    Widths();
    SevenSlices(e, h.keyLen);
    SliceOfSlice(e, 0, 21, 0, 4);
    SliceOfSlice(e, 0, 21, 4, 12);
    SliceOfSlice(e, 0, 21, 12, 16);
    SliceOfSlice(e, 0, 21, 16, 20);
    PutGetBE(e[4..12]);
    PutGetBE(e[12..16]);
    PutGetBE(e[16..20]);
    TimestampBack(GetBE(e[4..12]));
    BigEight(GetBE(e[4..12]));
    BigFour(GetBE(e[12..16]));
    BigFour(GetBE(e[16..20]));
  }

  lemma WillRead(key: Bytes, value: Bytes, flags: byte, timestamp: int, e: Bytes)
    requires |key| < TWO32 && |value| < TWO32 && -0x8000_0000_0000_0000 <= timestamp < 0x8000_0000_0000_0000
    requires e == FlaggedRecord(key, value, flags, timestamp)
    ensures |e| == 21 + |key| + |value| && VerifyChecksum(e)
    ensures DecodeHeader(e[..21]) == Header(e[..4], timestamp, |key|, |value|, flags)
    ensures e[21..21 + |key|] == key && e[21 + |key|..] == value
  {
    hide Crc32.Checksum, PutBE, GetBE, Big4, Big8, Pow256;
    Widths();
    var u := ToUint64(timestamp);
    BigEight(u);
    BigFour(|key|);
    BigFour(|value|);
    GetPutBE(u, 8);
    GetPutBE(|key|, 4);
    GetPutBE(|value|, 4);
    SevenParts(e[..4], PutBE(u, 8), PutBE(|key|, 4), PutBE(|value|, 4), [flags], key, value, e);
    SliceOfSlice(e, 0, 21, 0, 4);
    SliceOfSlice(e, 0, 21, 4, 12);
    SliceOfSlice(e, 0, 21, 12, 16);
    SliceOfSlice(e, 0, 21, 16, 20);
  }

  /** A scan reads this record at this place if and only if its bytes stand there. */
  lemma ReadsIff(data: Bytes, v: Segment.Visit)
    ensures Segment.ParseRecord(data, v.off) == Some(v) <==> Stands(data, v)
  {
    hide FlaggedRecord, DecodeHeader, VerifyChecksum;
    if Segment.ParseRecord(data, v.off) == Some(v) {
      var e := data[v.off..v.off + 21 + v.header.keyLen + v.header.valLen];
      SliceOfSlice(data, v.off, v.off + |e|, 0, 21);
      SliceOfSlice(data, v.off, v.off + |e|, 0, 4);
      WasRead(e, v.header, v.key, v.value);
    }
    if Stands(data, v) {
      var e := data[v.off..v.off + 21 + v.header.keyLen + v.header.valLen];
      WillRead(v.key, v.value, v.header.flags, v.header.timestamp, e);
      SliceOfSlice(data, v.off, v.off + |e|, 0, 21);
      SliceOfSlice(data, v.off, v.off + |e|, 0, 4);
    }
  }

  /** Replay takes a record with an odd flag byte for a deletion, any other for a value at its place. */
  lemma ReplayedIs(m: Recovery.Map, id: nat, data: Bytes, v: Segment.Visit)
    requires Stands(data, v)
    ensures Recovery.ApplyVisit(m, id, v)
            == if v.header.flags % 2 == 1 then m - {v.key}
               else m[v.key := Index.Location(id, (v.off + 21 + |v.key|) % 0x1_0000_0000, |v.value|)]
  {}

  // ----- the snapshot file ---------------------------------------------------------------------------

  /** Key length, key, segment, offset and length of the value, for each entry. */
  function SnapshotEntries(es: seq<Snapshot.Entry>): Bytes {
    if es == [] then [] else
    var (key, loc) := es[0];
    Big2(|key|) + key + Big4(loc.segID) + Big4(loc.valOffset) + Big4(loc.valLen) + SnapshotEntries(es[1..])
  }

  /** KVS1, version 1, watermark segment and size, count. */
  function SnapshotHeader(s: Snapshot.Snapshot): (b: Bytes)
    ensures |b| == 28
  {
    [75, 86, 83, 49] + Big4(1) + Big4(s.watermarkSegID) + Big8(s.watermarkSize) + Big8(|s.entries|)
  }

  lemma SnapshotEntry(e: Snapshot.Entry)
    ensures Snapshot.EntryBytes(e) == Big2(|e.0|) + e.0 + Big4(e.1.segID) + Big4(e.1.valOffset) + Big4(e.1.valLen)
  {
    hide PutBE, Big2, Big4;
    BigTwo(|e.0|);
    BigFour(e.1.segID);
    BigFour(e.1.valOffset);
    BigFour(e.1.valLen);
  }

  lemma {:induction false} SnapshotEntriesAre(es: seq<Snapshot.Entry>)
    ensures Snapshot.EntriesBytes(es) == SnapshotEntries(es)
  {
    hide Snapshot.EntryBytes, Big2, Big4;
    if es == [] {
      Snapshot.NoEntries();
    } else {
      Snapshot.EntriesBytesFront(es);
      SnapshotEntry(es[0]);
      SnapshotEntriesAre(es[1..]);
    }
  }

  lemma SnapshotHeaderIs(s: Snapshot.Snapshot)
    ensures Snapshot.HeaderBytes(s) == SnapshotHeader(s)
  {
    hide PutBE, Big4, Big8;
    BigFour(1);
    BigFour(s.watermarkSegID);
    BigEight(s.watermarkSize);
    BigEight(|s.entries|);
  }

  /** A snapshot file is header, entries and the checksum of both. */
  lemma SnapshotLayout(s: Snapshot.Snapshot)
    ensures var body := SnapshotHeader(s) + SnapshotEntries(s.entries); Snapshot.Print(s) == body + Crc32.Checksum(body)
  {
    hide Snapshot.HeaderBytes, Snapshot.EntriesBytes, SnapshotEntries, SnapshotHeader, Crc32.Checksum;
    SnapshotHeaderIs(s);
    SnapshotEntriesAre(s.entries);
  }

  /** What a number was read from. */
  lemma ReadFrom(data: Bytes, pos: nat, n: nat)
    ensures match Snapshot.ReadNumber(data, pos, n)
            case None => pos + n > |data|
            case Some(v) => pos + n <= |data| && data[pos..pos + n] == PutBE(v, n) && v < Pow256(n)
  {
    if pos + n <= |data| { PutGetBE(data[pos..pos + n]); }
  }

  lemma FiveParts(data: Bytes, p: nat, k: nat, a: Bytes, b: Bytes, c: Bytes, d: Bytes, e: Bytes)
    requires p + 14 + k <= |data| && |b| == k
    requires data[p..p + 2] == a && data[p + 2..p + 2 + k] == b && data[p + 2 + k..p + 6 + k] == c
    requires data[p + 6 + k..p + 10 + k] == d && data[p + 10 + k..p + 14 + k] == e
    ensures data[p..p + 14 + k] == a + b + c + d + e
  {}

  lemma EntryWasRead(data: Bytes, p: nat)
    requires Snapshot.ReadEntry(data, p).Some?
    ensures var (e, next) := Snapshot.ReadEntry(data, p).value;
            Snapshot.EntryFits(e) && p <= next <= |data| && data[p..next] == Snapshot.EntryBytes(e)
  {
    var (e, next) := Snapshot.ReadEntry(data, p).value;
    var k := |e.0|;
    Widths();
    ReadFrom(data, p, 2);
    ReadFrom(data, p + 2 + k, 4);
    ReadFrom(data, p + 6 + k, 4);
    ReadFrom(data, p + 10 + k, 4);
    hide PutBE, GetBE, Pow256;
    FiveParts(data, p, k, PutBE(k, 2), e.0, PutBE(e.1.segID, 4), PutBE(e.1.valOffset, 4), PutBE(e.1.valLen, 4));
  }

  lemma {:induction false} EntriesWereRead(data: Bytes, p: nat, count: nat)
    requires Snapshot.ReadEntries(data, p, count).Some? && p <= |data|
    ensures var es := Snapshot.ReadEntries(data, p, count).value;
            && |es| == count && (forall i :: 0 <= i < count ==> Snapshot.EntryFits(es[i]))
            && Snapshot.EntriesBytes(es) <= data[p..]
    decreases count
  {
    hide Snapshot.ReadEntry, Snapshot.EntryBytes, Snapshot.EntryFits;
    if count == 0 {
      Snapshot.NoEntries();
    } else {
      var (e, next) := Snapshot.ReadEntry(data, p).value;
      EntryWasRead(data, p);
      EntriesWereRead(data, next, count - 1);
      var es := Snapshot.ReadEntries(data, p, count).value;
      assert es[1..] == Snapshot.ReadEntries(data, next, count - 1).value;
      Snapshot.EntriesBytesFront(es);
      assert data[p..] == data[p..next] + data[next..];
    }
  }

  lemma HeaderWasRead(data: Bytes, entries: seq<Snapshot.Entry>)
    requires Snapshot.ReadHeader(data).Some?
    requires var (segID, size, count) := Snapshot.ReadHeader(data).value; |entries| == count
    ensures var (segID, size, count) := Snapshot.ReadHeader(data).value;
            && segID < TWO32 && size < TWO64 && count < TWO64
            && |data| >= 28 && data[..28] == Snapshot.HeaderBytes(Snapshot.Snapshot(segID, size, entries))
  {
    var (segID, size, count) := Snapshot.ReadHeader(data).value;
    HeaderNumbers(data);
    Widths();
    ReadFrom(data, 4, 4);
    ReadFrom(data, 8, 4);
    ReadFrom(data, 12, 8);
    ReadFrom(data, 20, 8);
    hide PutBE, GetBE, Pow256, Snapshot.ReadHeader, Snapshot.ReadNumber;
    FiveFields(data);
  }

  lemma HeaderNumbers(data: Bytes)
    requires Snapshot.ReadHeader(data).Some?
    ensures |data| >= 28 && data[0..4] == Snapshot.MAGIC && Snapshot.ReadNumber(data, 4, 4) == Some(Snapshot.VERSION)
    ensures Snapshot.ReadNumber(data, 8, 4).Some? && Snapshot.ReadNumber(data, 12, 8).Some? && Snapshot.ReadNumber(data, 20, 8).Some?
    ensures Snapshot.ReadHeader(data).value == (Snapshot.ReadNumber(data, 8, 4).value, Snapshot.ReadNumber(data, 12, 8).value,
                                                Snapshot.ReadNumber(data, 20, 8).value)
  {
    hide GetBE;
  }

  lemma FiveFields(data: Bytes)
    requires |data| >= 28
    ensures data[..28] == data[0..4] + data[4..8] + data[8..12] + data[12..20] + data[20..28]
  {}

  /** These are the snapshot's bytes, whatever stands between the entries and the checksum. */
  ghost predicate IsSnapshot(data: Bytes, s: Snapshot.Snapshot) {
    && |data| >= 4 && Crc32.Checksum(data[..|data| - 4]) == data[|data| - 4..]
    && s.watermarkSegID < 0x1_0000_0000 && s.watermarkSize < 0x1_0000_0000_0000_0000 && |s.entries| < 0x1_0000_0000_0000_0000
    && (forall i :: 0 <= i < |s.entries| ==> Snapshot.EntryFits(s.entries[i]))
    && SnapshotHeader(s) + SnapshotEntries(s.entries) <= data
  }

  /** A file loads as this snapshot if and only if its checksum matches and it begins with the snapshot's header and entries. */
  lemma SnapshotLoadsIff(data: Bytes, s: Snapshot.Snapshot)
    ensures Snapshot.Parse(data) == Some(s) <==> IsSnapshot(data, s)
  {
    hide Snapshot.HeaderBytes, Snapshot.EntriesBytes, Snapshot.ReadHeader, Snapshot.ReadEntries, Crc32.Checksum;
    hide SnapshotEntries, SnapshotHeader, Snapshot.EntryFits;
    SnapshotHeaderIs(s);
    SnapshotEntriesAre(s.entries);
    if Snapshot.Parse(data) == Some(s) {
      HeaderCount(data, s);
      HeaderWasRead(data, s.entries);
      EntriesWereRead(data, 28, |s.entries|);
      var es := Snapshot.EntriesBytes(s.entries);
      assert data == data[..28] + data[28..];
      assert es <= data[28..];
    }
    if IsSnapshot(data, s) {
      var h, es := SnapshotHeader(s), SnapshotEntries(s.entries);
      var z := data[|h + es|..];
      assert data == h + es + z && data == h + (es + z);
      Snapshot.ReadHeaderBack(s, es + z);
      Snapshot.ReadEntriesBack(h, s.entries, z);
    }
  }

  lemma HeaderCount(data: Bytes, s: Snapshot.Snapshot)
    requires Snapshot.Parse(data) == Some(s)
    ensures Snapshot.ReadHeader(data) == Some((s.watermarkSegID, s.watermarkSize, |s.entries|))
    ensures |data| >= 28 && Snapshot.ReadEntries(data, 28, |s.entries|) == Some(s.entries)
  {
    hide Crc32.Checksum, Snapshot.ReadEntries;
    var (segID, size, count) := Snapshot.ReadHeader(data).value;
    HeaderLong(data);
    EntriesWereRead(data, 28, count);
  }

  lemma HeaderLong(data: Bytes)
    requires Snapshot.ReadHeader(data).Some?
    ensures |data| >= 28
  {}

  // ----- the sidx file ---------------------------------------------------------------------------------

  /** Key length, key, file number, offset and length of the line, for each entry. */
  function SidxEntries(es: seq<Entries.Entry>): Bytes {
    if es == [] then [] else
    var e := es[0];
    Big2(|e.key|) + e.key + Big2(e.fileIdx) + Big8(e.srcOff) + Big4(e.length) + SidxEntries(es[1..])
  }

  lemma {:induction false} SidxEntriesAre(es: seq<Entries.Entry>)
    ensures Entries.EncodeAll(es, true) == SidxEntries(es)
  {
    if es == [] {
      Entries.EncodeNothing(true);
    } else {
      Entries.EncodeAllFront(es, true);
      SidxEntry(es[0]);
      hide Big2, Big4, Big8;
      SidxEntriesAre(es[1..]);
    }
  }

  lemma SidxEntry(e: Entries.Entry)
    ensures Entries.Encode(e, true) == Big2(|e.key|) + e.key + Big2(e.fileIdx) + Big8(e.srcOff) + Big4(e.length)
  {
    hide PutBE, Big2, Big4, Big8;
    BigTwo(|e.key|);
    BigTwo(e.fileIdx);
    BigEight(e.srcOff);
    BigFour(e.length);
  }

  /** KVSI, version 1, the count, the entries, and the checksum of the entries. */
  lemma SidxLayout(es: seq<Entries.Entry>)
    ensures var body := SidxEntries(es);
            Sidx.SidxFile(es) == [75, 86, 83, 73] + Big4(1) + Big8(|es|) + body + Crc32.Checksum(body)
  {
    hide PutBE, Big4, Big8, SidxEntries, Entries.EncodeAll, Crc32.Checksum;
    SidxEntriesAre(es);
    BigFour(1);
    BigEight(|es|);
  }

  /** A file opens with this count and body if and only if it is header, body and the body's checksum. */
  lemma SidxOpensIff(file: Bytes, count: nat, body: Bytes)
    ensures Sidx.OpenSidx(file) == Some((count, body)) <==>
              count < 0x1_0000_0000_0000_0000 && file == [75, 86, 83, 73] + Big4(1) + Big8(count) + body + Crc32.Checksum(body)
  {
    hide Crc32.Checksum;
    Widths();
    if Sidx.OpenSidx(file) == Some((count, body)) {
      SidxWasOpened(file, count, body);
    }
    if count < TWO64 && file == [75, 86, 83, 73] + Big4(1) + Big8(count) + body + Crc32.Checksum(body) {
      SidxWillOpen(file, count, body);
    }
  }

  lemma SidxWasOpened(file: Bytes, count: nat, body: Bytes)
    requires Sidx.OpenSidx(file) == Some((count, body))
    ensures count < TWO64 && file == [75, 86, 83, 73] + Big4(1) + Big8(count) + body + Crc32.Checksum(body)
  {
    hide Crc32.Checksum, PutBE, GetBE, Big4, Big8, Pow256;
    Widths();
    PutGetBE(file[4..8]);
    PutGetBE(file[8..16]);
    BigFour(1);
    BigEight(count);
    assert file == file[0..4] + file[4..8] + file[8..16] + file[16..|file| - 4] + file[|file| - 4..];
  }

  lemma SidxWillOpen(file: Bytes, count: nat, body: Bytes)
    requires count < TWO64 && file == [75, 86, 83, 73] + Big4(1) + Big8(count) + body + Crc32.Checksum(body)
    ensures Sidx.OpenSidx(file) == Some((count, body))
  {
    hide Crc32.Checksum, PutBE, GetBE, Big4, Big8;
    BigFour(1);
    BigEight(count);
    Sidx.FileParts(Sidx.Header(count), body, Crc32.Checksum(body));
    Sidx.HeaderParts(count);
  }
}
