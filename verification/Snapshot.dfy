/** The index snapshot file: printer, parser, and the index entries it carries. */
module Snapshot {
  import opened Bytes
  import Crc32
  import opened Index

  type Entry = (Bytes, Location)

  /** The entries of the index, and how much of which segment they cover. */
  datatype Snapshot = Snapshot(watermarkSegID: nat, watermarkSize: nat, entries: seq<Entry>)

  const MAGIC: Bytes := [0x4B, 0x56, 0x53, 0x31]  // KVS1
  const VERSION: nat := 1

  ghost predicate EntryFits(e: Entry) {
    |e.0| <= MAX_INDEX_KEY_LEN && e.1.segID < TWO32 && e.1.valOffset < TWO32 && e.1.valLen < TWO32
  }

  ghost predicate Fits(s: Snapshot) {
    && s.watermarkSegID < TWO32 && s.watermarkSize < TWO64 && |s.entries| < TWO64
    && forall i :: 0 <= i < |s.entries| ==> EntryFits(s.entries[i])
  }

  function EntryBytes(e: Entry): Bytes {
    PutBE(|e.0|, 2) + e.0 + PutBE(e.1.segID, 4) + PutBE(e.1.valOffset, 4) + PutBE(e.1.valLen, 4)
  }

  function EntriesBytes(es: seq<Entry>): Bytes {
    if es == [] then [] else EntriesBytes(es[..|es| - 1]) + EntryBytes(es[|es| - 1])
  }

  function HeaderBytes(s: Snapshot): Bytes {
    MAGIC + PutBE(VERSION, 4) + PutBE(s.watermarkSegID, 4) + PutBE(s.watermarkSize, 8) + PutBE(|s.entries|, 8)
  }

  /** The whole file. */
  function Print(s: Snapshot): Bytes {
    var body := HeaderBytes(s) + EntriesBytes(s.entries);
    body + Crc32.Checksum(body)
  }

  // ----- parsing -----------------------------------------------------------------------

  /** io.ReadFull of n bytes at pos: the bytes, or None when the file ends first. */
  function ReadFull(data: Bytes, pos: nat, n: nat): Option<Bytes> {
    if pos + n <= |data| then Some(data[pos..pos + n]) else None
  }

  function ReadNumber(data: Bytes, pos: nat, n: nat): Option<nat> {
    match ReadFull(data, pos, n)
    case None => None
    case Some(b) => Some(GetBE(b))
  }

  function ReadEntry(data: Bytes, pos: nat): Option<(Entry, nat)> {
    match ReadNumber(data, pos, 2)
    case None => None
    case Some(keyLen) =>
      var key := ReadFull(data, pos + 2, keyLen);
      var segID := ReadNumber(data, pos + 2 + keyLen, 4);
      var valOffset := ReadNumber(data, pos + 6 + keyLen, 4);
      var valLen := ReadNumber(data, pos + 10 + keyLen, 4);
      if key.Some? && segID.Some? && valOffset.Some? && valLen.Some?
      then Some(((key.value, Location(segID.value, valOffset.value, valLen.value)), pos + 14 + keyLen))
      else None
  }

  function ReadEntries(data: Bytes, pos: nat, count: nat): Option<seq<Entry>>
    decreases count
  {
    if count == 0 then Some([]) else
    match ReadEntry(data, pos)
    case None => None
    case Some((e, next)) =>
      match ReadEntries(data, next, count - 1)
      case None => None
      case Some(rest) => Some([e] + rest)
  }

  predicate ChecksumMatches(data: Bytes) {
    |data| >= 4 && Crc32.Checksum(data[..|data| - 4]) == data[|data| - 4..]
  }

  /** The header fields, when magic and version are right. */
  function ReadHeader(data: Bytes): Option<(nat, nat, nat)> {
    if ReadFull(data, 0, 4) != Some(MAGIC) || ReadNumber(data, 4, 4) != Some(VERSION) then None else
    var segID := ReadNumber(data, 8, 4);
    var size := ReadNumber(data, 12, 8);
    var count := ReadNumber(data, 20, 8);
    if segID.Some? && size.Some? && count.Some? then Some((segID.value, size.value, count.value)) else None
  }

  function Parse(data: Bytes): Option<Snapshot> {
    if !ChecksumMatches(data) then None else
    match ReadHeader(data)
    case None => None
    case Some((segID, size, count)) =>
      match ReadEntries(data, 28, count)
      case None => None
      case Some(entries) => Some(Snapshot(segID, size, entries))
  }

  // ----- parsing undoes printing ------------------------------------------------------------

  lemma ReadBack(data: Bytes, pos: nat, n: nat, v: nat)
    requires v < Pow256(n) && pos + n <= |data| && data[pos..pos + n] == PutBE(v, n)
    ensures ReadNumber(data, pos, n) == Some(v)
  {
    GetPutBE(v, n);
  }

  /** The fields of an entry, in place. */
  lemma EntryFields(e: Entry)
    ensures var b, n := EntryBytes(e), |e.0|;
            |b| == 14 + n && b[0..2] == PutBE(n, 2) && b[2..2 + n] == e.0 && b[2 + n..6 + n] == PutBE(e.1.segID, 4)
            && b[6 + n..10 + n] == PutBE(e.1.valOffset, 4) && b[10 + n..14 + n] == PutBE(e.1.valLen, 4)
  {}

  lemma ReadEntryBack(a: Bytes, e: Entry, z: Bytes)
    requires EntryFits(e)
    ensures |EntryBytes(e)| == 14 + |e.0|
    ensures ReadEntry(a + EntryBytes(e) + z, |a|) == Some((e, |a| + |EntryBytes(e)|))
  {
    EntryFields(e);
    Middle(a, EntryBytes(e), z);
    hide EntryBytes, ReadEntry;
    ReadEntryAt(a + EntryBytes(e) + z, |a|, e);
  }

  lemma ReadEntryAt(data: Bytes, p: nat, e: Entry)
    requires EntryFits(e) && p + 14 + |e.0| <= |data|
    requires |EntryBytes(e)| == 14 + |e.0| && data[p..p + 14 + |e.0|] == EntryBytes(e)
    ensures ReadEntry(data, p) == Some((e, p + 14 + |e.0|))
  {
    EntryFields(e);
    Widths();
    hide PutBE, GetBE, Pow256, EntryBytes;
    var n, end := |e.0|, p + 14 + |e.0|;
    SliceOfSlice(data, p, end, 0, 2);
    SliceOfSlice(data, p, end, 2, 2 + n);
    SliceOfSlice(data, p, end, 2 + n, 6 + n);
    SliceOfSlice(data, p, end, 6 + n, 10 + n);
    SliceOfSlice(data, p, end, 10 + n, 14 + n);
    ReadBack(data, p, 2, n);
    ReadBack(data, p + 2 + n, 4, e.1.segID);
    ReadBack(data, p + 6 + n, 4, e.1.valOffset);
    ReadBack(data, p + 10 + n, 4, e.1.valLen);
  }

  lemma EntriesBytesBack(es: seq<Entry>)
    requires es != []
    ensures EntriesBytes(es) == EntriesBytes(es[..|es| - 1]) + EntryBytes(es[|es| - 1])
  {
    hide EntryBytes;
  }

  lemma {:induction false} EntriesBytesFront(es: seq<Entry>)
    requires es != []
    ensures EntriesBytes(es) == EntryBytes(es[0]) + EntriesBytes(es[1..])
  {
    hide EntryBytes, EntriesBytes;
    var n := |es| - 1;
    EntriesBytesBack(es);
    if n == 0 {
      assert es[1..] == [] && es[..0] == [];
      NoEntries();
    } else {
      EntriesBytesFront(es[..n]);
      EntriesBytesBack(es[1..]);
      var middle := es[1..][..n - 1];
      assert es[..n][1..] == middle;
      var a, b, c := EntryBytes(es[0]), EntriesBytes(middle), EntryBytes(es[n]);
      assert a + b + c == a + (b + c);
    }
  }

  lemma NoEntries()
    ensures EntriesBytes([]) == []
  {}

  lemma {:induction false} ReadEntriesBack(a: Bytes, es: seq<Entry>, z: Bytes)
    requires forall i :: 0 <= i < |es| ==> EntryFits(es[i])
    ensures ReadEntries(a + EntriesBytes(es) + z, |a|, |es|) == Some(es)
    decreases |es|
  {
    hide ReadEntry, EntryBytes, EntryFits;
    if es != [] {
      EntriesBytesFront(es);
      var first, rest := EntryBytes(es[0]), EntriesBytes(es[1..]);
      assert a + (first + rest) + z == a + first + (rest + z);
      assert a + (first + rest) + z == (a + first) + rest + z;
      ReadEntryBack(a, es[0], rest + z);
      ReadEntriesBack(a + first, es[1..], z);
      assert [es[0]] + es[1..] == es;
    }
  }

  lemma ReadHeaderBack(s: Snapshot, z: Bytes)
    requires Fits(s)
    ensures |HeaderBytes(s)| == 28
    ensures ReadHeader(HeaderBytes(s) + z) == Some((s.watermarkSegID, s.watermarkSize, |s.entries|))
  {
    var v, w, n, c := PutBE(VERSION, 4), PutBE(s.watermarkSegID, 4), PutBE(s.watermarkSize, 8), PutBE(|s.entries|, 8);
    var data := HeaderBytes(s) + z;
    Widths();
    hide PutBE, GetBE, Pow256;
    assert data[0..4] == MAGIC;
    assert data[4..8] == v by { assert data == MAGIC + v + (w + n + c + z); Middle(MAGIC, v, w + n + c + z); }
    assert data[8..12] == w by { assert data == (MAGIC + v) + w + (n + c + z); Middle(MAGIC + v, w, n + c + z); }
    assert data[12..20] == n by { assert data == (MAGIC + v + w) + n + (c + z); Middle(MAGIC + v + w, n, c + z); }
    assert data[20..28] == c by { assert data == (MAGIC + v + w + n) + c + z; Middle(MAGIC + v + w + n, c, z); }
    ReadBack(data, 4, 4, VERSION);
    ReadBack(data, 8, 4, s.watermarkSegID);
    ReadBack(data, 12, 8, s.watermarkSize);
    ReadBack(data, 20, 8, |s.entries|);
  }

  lemma ChecksumAtEnd(body: Bytes)
    ensures ChecksumMatches(body + Crc32.Checksum(body))
  {}

  /** Loading a saved snapshot gives it back. */
  lemma ParsePrinted(s: Snapshot)
    requires Fits(s)
    ensures Parse(Print(s)) == Some(s)
  {
    hide HeaderBytes, EntriesBytes, ReadHeader, ReadEntries, ChecksumMatches, Crc32.Checksum, Fits;
    var h, es := HeaderBytes(s), EntriesBytes(s.entries);
    var crc := Crc32.Checksum(h + es);
    ChecksumAtEnd(h + es);
    ReadHeaderBack(s, es + crc);
    EntriesFit(s);
    ReadEntriesBack(h, s.entries, crc);
    assert Print(s) == h + (es + crc);
  }

  lemma EntriesFit(s: Snapshot)
    requires Fits(s)
    ensures forall i :: 0 <= i < |s.entries| ==> EntryFits(s.entries[i])
  {}

  /** A snapshot with any one byte of its body changed is refused. */
  lemma CorruptSnapshotRefused(s: Snapshot, i: nat, b: byte)
    requires i < |Print(s)| - 4 && Print(s)[i] != b
    ensures Parse(Print(s)[i := b]).None?
  {
    var data := Print(s);
    var n := |data| - 4;
    var body := HeaderBytes(s) + EntriesBytes(s.entries);
    hide HeaderBytes, EntriesBytes, Crc32.Checksum;
    assert data[..n] == body && data[n..] == Crc32.Checksum(body);
    assert data[i := b][..n] == body[i := b] && data[i := b][n..] == data[n..];
    Crc32.OneByteChangesChecksum(body, i, b);
  }

  // ----- entries and maps ---------------------------------------------------------------------

  /** Applying the entries one after the other. */
  function MapOfEntries(es: seq<Entry>): map<Bytes, Location> {
    if es == [] then map[] else MapOfEntries(es[..|es| - 1])[es[|es| - 1].0 := es[|es| - 1].1]
  }

  /** es lists m, each key once, in any order. */
  ghost predicate Lists(es: seq<Entry>, m: map<Bytes, Location>) {
    && |es| == |m|
    && (forall i :: 0 <= i < |es| ==> es[i].0 in m && m[es[i].0] == es[i].1)
    && (forall i, j :: 0 <= i < j < |es| ==> es[i].0 != es[j].0)
  }

  lemma {:induction false} ListedMap(es: seq<Entry>, m: map<Bytes, Location>)
    requires Lists(es, m)
    ensures MapOfEntries(es) == m
  {
    if es == [] {
      assert m == map[];
    } else {
      var n := |es| - 1;
      var (k, loc) := es[n];
      var rest := m - {k};
      assert m == rest[k := loc];
      assert m.Keys == rest.Keys + {k} && |m.Keys| == |rest.Keys| + 1;
      assert |rest| == |rest.Keys| && |m| == |m.Keys|;
      ListedMap(es[..n], rest);
    }
  }
}
