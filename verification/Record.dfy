/** The on-disk record: CRC32(4) | Timestamp(8) | KeyLen(4) | ValLen(4) | Flags(1) | Key | Value. */
module Record {
  import opened Bytes
  import Crc32

  const HEADER_SIZE: nat := 21
  const MAX_KEY_LEN: nat := 65535
  const FLAG_TOMBSTONE: byte := 1

  datatype Record = Record(key: Bytes, value: Bytes, tombstone: bool, timestamp: int)

  datatype Header = Header(crc: Bytes, timestamp: int, keyLen: nat, valLen: nat, flags: byte) {
    predicate Tombstone() { flags % 2 == 1 }
  }

  /** Lengths fit the two uint32 fields and the timestamp is an int64. */
  predicate Encodable(r: Record) {
    |r.key| < TWO32 && |r.value| < TWO32 && -0x8000_0000_0000_0000 <= r.timestamp < 0x8000_0000_0000_0000
  }

  function ToUint64(t: int): nat
    requires -0x8000_0000_0000_0000 <= t < 0x8000_0000_0000_0000
  {
    if t < 0 then t + TWO64 else t
  }

  function ToInt64(u: nat): int
  {
    if u < 0x8000_0000_0000_0000 then u else u - TWO64
  }

  function RecordSize(keyLen: nat, valLen: nat): nat {
    HEADER_SIZE + keyLen + valLen
  }

  function Size(r: Record): nat { RecordSize(|r.key|, |r.value|) }

  function Flags(r: Record): byte { if r.tombstone then FLAG_TOMBSTONE else 0 }

  /** Everything after the checksum. */
  function Body(r: Record): (s: Bytes)
    requires Encodable(r)
    ensures |s| == Size(r) - 4
  {
    PutBE(ToUint64(r.timestamp), 8) + PutBE(|r.key|, 4) + PutBE(|r.value|, 4) + [Flags(r)] + r.key + r.value
  }

  function Encode(r: Record): (s: Bytes)
    requires Encodable(r)
    ensures |s| == Size(r)
  {
    Crc32.Checksum(Body(r)) + Body(r)
  }

  function DecodeHeader(buf: Bytes): Header
    requires |buf| == HEADER_SIZE
  {
    Header(buf[0..4], ToInt64(GetBE(buf[4..12])), GetBE(buf[12..16]), GetBE(buf[16..20]), buf[20])
  }

  predicate VerifyChecksum(record: Bytes) {
    |record| >= HEADER_SIZE && Crc32.Checksum(record[4..]) == record[0..4]
  }

  function HeaderOf(r: Record): Header
    requires Encodable(r)
  {
    Header(Crc32.Checksum(Body(r)), r.timestamp, |r.key|, |r.value|, Flags(r))
  }

  // ----- decoding undoes encoding --------------------------------------------

  lemma SevenParts(c: Bytes, t: Bytes, k: Bytes, v: Bytes, f: Bytes, key: Bytes, value: Bytes, e: Bytes)
    requires e == c + (t + k + v + f + key + value)
    requires |c| == 4 && |t| == 8 && |k| == 4 && |v| == 4 && |f| == 1
    ensures e[0..4] == c && e[4..12] == t && e[12..16] == k && e[16..20] == v && e[20] == f[0]
    ensures e[21..21 + |key|] == key && e[21 + |key|..] == value
  {}

  lemma EncodedParts(r: Record)
    requires Encodable(r)
    ensures Encode(r)[0..4] == Crc32.Checksum(Body(r)) && Encode(r)[4..] == Body(r)
    ensures Encode(r)[4..12] == PutBE(ToUint64(r.timestamp), 8)
    ensures Encode(r)[12..16] == PutBE(|r.key|, 4) && Encode(r)[16..20] == PutBE(|r.value|, 4)
    ensures Encode(r)[20] == Flags(r)
    ensures Encode(r)[HEADER_SIZE..HEADER_SIZE + |r.key|] == r.key
    ensures Encode(r)[HEADER_SIZE + |r.key|..] == r.value
  {
    SevenParts(Crc32.Checksum(Body(r)), PutBE(ToUint64(r.timestamp), 8), PutBE(|r.key|, 4), PutBE(|r.value|, 4),
               [Flags(r)], r.key, r.value, Encode(r));
  }

  lemma DecodeEncoded(r: Record)
    requires Encodable(r)
    ensures DecodeHeader(Encode(r)[..HEADER_SIZE]) == HeaderOf(r)
    ensures HeaderOf(r).Tombstone() == r.tombstone
    ensures VerifyChecksum(Encode(r))
  {
    hide Crc32.Checksum, GetBE, PutBE;
    EncodedParts(r);
    Widths();
    GetPutBE(ToUint64(r.timestamp), 8);
    GetPutBE(|r.key|, 4);
    GetPutBE(|r.value|, 4);
    var e := Encode(r);
    SliceOfSlice(e, 0, HEADER_SIZE, 0, 4);
    SliceOfSlice(e, 0, HEADER_SIZE, 4, 12);
    SliceOfSlice(e, 0, HEADER_SIZE, 12, 16);
    SliceOfSlice(e, 0, HEADER_SIZE, 16, 20);
  }

  /** Changing exactly one byte of an encoded record, anywhere in it, is always detected. */
  lemma OneByteCorruptionDetected(r: Record, i: nat, b: byte)
    requires Encodable(r) && i < |Encode(r)| && Encode(r)[i] != b
    ensures !VerifyChecksum(Encode(r)[i := b])
  {
    hide Crc32.Checksum;
    EncodedParts(r);
    var e, f := Encode(r), Encode(r)[i := b];
    if i < 4 {
      assert f[4..] == e[4..];
      assert f[0..4][i] != e[0..4][i];
    } else {
      assert f[0..4] == e[0..4];
      assert f[4..] == Body(r)[i - 4 := b];
      Crc32.OneByteChangesChecksum(Body(r), i - 4, b);
    }
  }

  /** So is any change past the checksum that lies within four bytes in a row. */
  lemma BurstDetected(r: Record, f: Bytes, i: nat)
    requires Encodable(r) && |f| == Size(r) && f != Encode(r) && 4 <= i && i + 4 <= |f|
    requires f[..i] == Encode(r)[..i] && f[i + 4..] == Encode(r)[i + 4..]
    ensures !VerifyChecksum(f)
  {
    hide Crc32.Checksum, Encode;
    EncodedParts(r);
    var e := Encode(r);
    assert e == e[0..4] + e[4..] && f == f[0..4] + f[4..];
    assert f[0..4] == f[..i][0..4] && e[0..4] == e[..i][0..4];
    assert f[4..][..i - 4] == f[..i][4..] && e[4..][..i - 4] == e[..i][4..];
    assert f[4..][i..] == f[i + 4..] && e[4..][i..] == e[i + 4..];
    Crc32.BurstChangesChecksum(f[4..], e[4..], i - 4);
  }

  // ----- encodeRecord, filling its buffer in place --------------------------------

  /** copy(dst[at:], src) for a source that fits. */
  method Copy(dst: array<byte>, at: nat, src: Bytes)
    requires at + |src| <= dst.Length
    modifies dst
    ensures dst[..at] == old(dst[..at])
    ensures dst[at..at + |src|] == src
    ensures dst[at + |src|..] == old(dst[at + |src|..])
  {
    var i := 0;
    while i < |src|
      invariant i <= |src|
      invariant dst[at..at + i] == src[..i]
      invariant dst[..at] == old(dst[..at]) && dst[at + i..] == old(dst[at + i..])
    {
      dst[at + i] := src[i];
      i := i + 1;
    }
  }

  /** A copy that continues the field before it. */
  method Fill(dst: array<byte>, at: nat, src: Bytes, ghost before: Bytes)
    requires 4 <= at && at + |src| <= dst.Length && dst[4..at] == before
    modifies dst
    ensures dst[4..at + |src|] == before + src
  {
    Copy(dst, at, src);
    assert dst[..at][4..] == dst[4..at];
    assert dst[4..at + |src|] == dst[4..at] + dst[at..at + |src|];
  }

  lemma EncodeFrom(r: Record, body: Bytes)
    requires Encodable(r)
    requires body == PutBE(ToUint64(r.timestamp), 8) + PutBE(|r.key|, 4) + PutBE(|r.value|, 4) + [Flags(r)] + r.key + r.value
    ensures Encode(r) == Crc32.Checksum(body) + body
  {
    hide Crc32.Checksum, PutBE;
  }

  method EncodeRecord(key: Bytes, value: Bytes, tombstone: bool, timestamp: int) returns (buf: array<byte>)
    requires Encodable(Record(key, value, tombstone, timestamp))
    ensures fresh(buf)
    ensures buf[..] == Encode(Record(key, value, tombstone, timestamp))
  {
    hide Crc32.Checksum, PutBE, Encode, Body, ToUint64;
    ghost var r := Record(key, value, tombstone, timestamp);
    var t, k, v := PutBE(ToUint64(timestamp), 8), PutBE(|key|, 4), PutBE(|value|, 4);
    buf := new byte[RecordSize(|key|, |value|)](_ => 0);
    var flags: byte := if tombstone then FLAG_TOMBSTONE else 0;
    Fill(buf, 4, t, []);
    assert [] + t == t;
    Fill(buf, 12, k, t);
    Fill(buf, 16, v, t + k);
    Fill(buf, 20, [flags], t + k + v);
    Fill(buf, HEADER_SIZE, key, t + k + v + [flags]);
    Fill(buf, HEADER_SIZE + |key|, value, t + k + v + [flags] + key);
    var body := buf[4..];
    assert body == buf[4..HEADER_SIZE + |key| + |value|];
    Copy(buf, 0, Crc32.Checksum(body));
    assert buf[..] == buf[..4] + buf[4..];
    EncodeFrom(r, body);
  }
}
