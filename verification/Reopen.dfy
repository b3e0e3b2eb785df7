/** recover, the snapshot loader and the snapshot writer, filling in and walking the real index. */
module Reopen {
  import opened Bytes
  import opened Record
  import opened Segment
  import opened Index
  import opened Snapshot
  import opened Recovery
  import Crc32

  // ----- key bytes: what the arena must hold --------------------------------------------------

  function KeyBytes(vs: seq<Visit>): nat
    decreases |vs|
  {
    if vs == [] then 0 else |vs[0].key| + KeyBytes(vs[1..])
  }

  /** The keys a scan visits lie one after the other in the file. */
  lemma {:induction false} KeysWithinFile(data: Bytes, off: nat)
    requires off <= |data|
    ensures off + KeyBytes(Scan(data, off).visits) <= Scan(data, off).end <= |data|
    decreases |data| - off
  {
    hide ParseRecord;
    ScanStep(data, off);
    if ParseRecord(data, off).Some? {
      var v := ParseRecord(data, off).value;
      KeyInRecord(data, off);
      KeysWithinFile(data, Next(v));
      assert Scan(data, off).visits[1..] == Scan(data, Next(v)).visits;
    }
  }

  /** A scan from past the end of the file visits nothing. */
  lemma PastTheEnd(data: Bytes, off: nat)
    requires off > |data|
    ensures Scan(data, off) == ScanResult([], off)
  {}

  lemma KeyInRecord(data: Bytes, off: nat)
    requires ParseRecord(data, off).Some?
    ensures var v := ParseRecord(data, off).value; off + |v.key| < Next(v) <= |data|
  {
    hide DecodeHeader, VerifyChecksum;
  }

  ghost predicate ShortKeys(vs: seq<Visit>) {
    forall i :: 0 <= i < |vs| ==> |vs[i].key| <= MAX_INDEX_KEY_LEN
  }

  function SumSizes(files: map<nat, Bytes>, ids: seq<nat>): nat
    requires forall i :: 0 <= i < |ids| ==> ids[i] in files
    decreases |ids|
  {
    if ids == [] then 0 else |files[ids[0]]| + SumSizes(files, ids[1..])
  }

  // ----- replaying one segment ------------------------------------------------------------------

  lemma ApplyFront(m: Map, id: nat, vs: seq<Visit>)
    requires vs != []
    ensures ApplyVisits(m, id, vs) == ApplyVisits(ApplyVisit(m, id, vs[0]), id, vs[1..])
    ensures KeyBytes(vs) == |vs[0].key| + KeyBytes(vs[1..])
  {}

  /** Applies the visits of a scan to the index, in order. */
  method ApplyAll(idx: Index, id: nat, visits: seq<Visit>)
    requires idx.Valid() && ShortKeys(visits) && idx.arena.Filled() + KeyBytes(visits) < ARENA_KEY_BYTES
    modifies idx, idx.slots, idx.arena
    ensures idx.Valid() && (idx.slots == old(idx.slots) || fresh(idx.slots))
    ensures idx.model == ApplyVisits(old(idx.model), id, visits)
    ensures idx.arena.Filled() <= old(idx.arena.Filled()) + KeyBytes(visits)
  {
    hide Index.Valid, ApplyVisits, KeyBytes, Arena.Filled;
    assert visits[0..] == visits;
    for i := 0 to |visits|
      invariant idx.Valid() && (idx.slots == old(idx.slots) || fresh(idx.slots))
      invariant ApplyVisits(idx.model, id, visits[i..]) == ApplyVisits(old(idx.model), id, visits)
      invariant idx.arena.Filled() + KeyBytes(visits[i..]) <= old(idx.arena.Filled()) + KeyBytes(visits)
    {
      ApplyFront(idx.model, id, visits[i..]);
      assert visits[i..][1..] == visits[i + 1..];
      var v := visits[i];
      if v.header.Tombstone() {
        var prev := idx.Delete(v.key);
      } else {
        idx.RoomForKeys();
        var valOffset := v.off + HEADER_SIZE + v.header.keyLen;
        var prev := idx.Put(v.key, Location(id, Uint32(valOffset), v.header.valLen));
      }
    }
    ApplyNothing(idx.model, id);
  }

  lemma ApplyNothing(m: Map, id: nat)
    ensures ApplyVisits(m, id, []) == m && KeyBytes([]) == 0
  {}

  /** replaySegment: applies what the scan visits; returns how much of the segment is valid. */
  method ReplaySegment(idx: Index, id: nat, data: Bytes, fromOffset: nat) returns (end: nat)
    requires idx.Valid() && ShortKeys(Scan(data, fromOffset).visits)
    requires idx.arena.Filled() + |data| < ARENA_KEY_BYTES
    modifies idx, idx.slots, idx.arena
    ensures idx.Valid() && (idx.slots == old(idx.slots) || fresh(idx.slots))
    ensures idx.model == ApplyVisits(old(idx.model), id, Scan(data, fromOffset).visits)
    ensures end == Scan(data, fromOffset).end && (fromOffset <= |data| ==> end <= |data|)
    ensures idx.arena.Filled() <= old(idx.arena.Filled()) + |data|
  {
    hide Index.Valid, ApplyVisits, KeyBytes, Arena.Filled, Scan, ShortKeys;
    if fromOffset <= |data| {
      KeysWithinFile(data, fromOffset);
    } else {
      PastTheEnd(data, fromOffset);
      ApplyNothing(idx.model, id);
    }
    var scan := Scan(data, fromOffset);
    ApplyAll(idx, id, scan.visits);
    end := scan.end;
  }

  // ----- the snapshot loader ------------------------------------------------------------------------

  /** What remains to be read gives the rest of what was to be read. */
  ghost predicate Resumes(data: Bytes, pos: nat, left: nat, read: seq<Entry>, whole: Option<seq<Entry>>) {
    match ReadEntries(data, pos, left)
    case None => whole.None?
    case Some(rest) => whole == Some(read + rest)
  }

  lemma ResumeStep(data: Bytes, pos: nat, left: nat, read: seq<Entry>, whole: Option<seq<Entry>>)
    requires left > 0 && Resumes(data, pos, left, read, whole)
    ensures match ReadEntry(data, pos)
      case None => whole.None?
      case Some((e, next)) => Resumes(data, next, left - 1, read + [e], whole)
                              && |e.0| <= MAX_INDEX_KEY_LEN && pos + |e.0| <= next <= |data|
  {
    hide ReadEntry;
    EntryRead(data, pos);
    match ReadEntry(data, pos)
    case None =>
    case Some((e, next)) =>
      match ReadEntries(data, next, left - 1)
      case None =>
      case Some(rest) => assert read + ([e] + rest) == read + [e] + rest;
  }

  lemma EntryRead(data: Bytes, pos: nat)
    ensures match ReadEntry(data, pos)
      case None => true
      case Some((e, next)) => |e.0| <= MAX_INDEX_KEY_LEN && pos + |e.0| <= next <= |data|
  {
    if ReadNumber(data, pos, 2).Some? {
      PutGetBE(data[pos..pos + 2]);
      Widths();
    }
  }

  lemma ResumeStart(data: Bytes, count: nat)
    ensures Resumes(data, 28, count, [], ReadEntries(data, 28, count))
  {
    if ReadEntries(data, 28, count).Some? {
      assert [] + ReadEntries(data, 28, count).value == ReadEntries(data, 28, count).value;
    }
  }

  lemma EntriesAppend(es: seq<Entry>, e: Entry)
    ensures MapOfEntries(es + [e]) == MapOfEntries(es)[e.0 := e.1]
  {}

  /**
   * loadSnapshotInto an empty index: the watermark, once checksum, header and every entry are
   * good. A failure may leave some entries applied.
   */
  method LoadSnapshotInto(data: Bytes, idx: Index) returns (watermark: Option<(nat, nat)>)
    requires idx.Valid() && idx.model == map[] && idx.arena.Filled() == 0 && |data| < ARENA_KEY_BYTES
    modifies idx, idx.slots, idx.arena
    ensures idx.Valid() && (idx.slots == old(idx.slots) || fresh(idx.slots)) && idx.arena.Filled() <= |data|
    ensures watermark == match Parse(data) { case None => None case Some(s) => Some((s.watermarkSegID, s.watermarkSize)) }
    ensures Parse(data).Some? ==> idx.model == MapOfEntries(Parse(data).value.entries)
  {
    hide Index.Valid, Arena.Filled, ReadHeader, ReadEntries, ReadEntry, Resumes, MapOfEntries, ChecksumMatches;
    if !ChecksumMatches(data) {
      return None;
    }
    var header := ReadHeader(data);
    if header.None? {
      return None;
    }
    var (segID, size, count) := header.value;
    ghost var whole := ReadEntries(data, 28, count);
    ghost var read := [];
    ResumeStart(data, count);
    NoEntriesNoMap();
    HeaderFits(data);
    var pos, left := 28, count;
    while left > 0
      invariant idx.Valid() && (idx.slots == old(idx.slots) || fresh(idx.slots))
      invariant Resumes(data, pos, left, read, whole) && idx.model == MapOfEntries(read)
      invariant idx.arena.Filled() <= pos <= |data|
    {
      ResumeStep(data, pos, left, read, whole);
      var e := ReadEntry(data, pos);
      if e.None? {
        return None;
      }
      var (entry, next) := e.value;
      idx.RoomForKeys();
      EntriesAppend(read, entry);
      var prev := idx.Put(entry.0, entry.1);
      read := read + [entry];
      pos, left := next, left - 1;
    }
    ResumeEnd(data, pos, read, whole);
    return Some((segID, size));
  }

  lemma NoEntriesNoMap()
    ensures MapOfEntries([]) == map[]
  {}

  lemma HeaderFits(data: Bytes)
    ensures ReadHeader(data).Some? ==> 28 <= |data|
  {}

  lemma ResumeEnd(data: Bytes, pos: nat, read: seq<Entry>, whole: Option<seq<Entry>>)
    requires Resumes(data, pos, 0, read, whole)
    ensures whole == Some(read)
  {
    assert read + [] == read;
  }

  // ----- the snapshot writer --------------------------------------------------------------------------

  method WriteEntries(es: seq<Entry>) returns (bytes: Bytes)
    ensures bytes == EntriesBytes(es)
  {
    hide EntryBytes;
    bytes := [];
    for i := 0 to |es|
      invariant bytes == EntriesBytes(es[..i])
    {
      bytes := bytes + EntryBytes(es[i]);
      assert es[..i + 1][..i] == es[..i];
    }
    assert es[..|es|] == es;
  }

  /** saveSnapshot: a file that lists the index, each key once, with the active segment's used size. */
  method SaveSnapshot(idx: Index, activeID: nat, activeSize: nat) returns (data: Bytes)
    requires idx.Valid()
    ensures exists entries :: Lists(entries, idx.model) && data == Print(Snapshot(activeID, activeSize, entries))
  {
    hide Index.Valid, EntriesBytes, PutBE, Crc32.Checksum;
    var visited := idx.ForEach((k, loc) => true);
    idx.LenIsModelSize();
    var header := MAGIC + PutBE(VERSION, 4) + PutBE(activeID, 4) + PutBE(activeSize, 8) + PutBE(idx.Len(), 8);
    var written := WriteEntries(visited);
    var body := header + written;
    data := body + Crc32.Checksum(body);
    assert Lists(visited, idx.model) && data == Print(Snapshot(activeID, activeSize, visited));
  }

  // ----- recover ---------------------------------------------------------------------------------------

  lemma {:induction false} ReplayGap(disk: Disk, snap: Option<Snapshot>, a: nat, b: nat)
    requires a <= b && forall id :: a <= id < b ==> id !in disk.files
    ensures Replay(disk, snap, b) == Replay(disk, snap, a)
  {
    hide ReplayStart, Scan;
    if a < b { ReplayGap(disk, snap, a, b - 1); }
  }

  lemma ReplayOne(disk: Disk, snap: Option<Snapshot>, id: nat)
    requires id in disk.files
    ensures Replay(disk, snap, id + 1)
            == match ReplayStart(snap, id)
               case None => Replay(disk, snap, id)
               case Some(off) => ApplyVisits(Replay(disk, snap, id), id, Scan(disk.files[id], off).visits)
  {
    hide Scan, ApplyVisits;
  }

  /** ids lists the segment files in ascending order. */
  ghost predicate ListsFiles(ids: seq<nat>, files: map<nat, Bytes>) {
    && (forall i, j :: 0 <= i < j < |ids| ==> ids[i] < ids[j])
    && (forall id :: id in files <==> id in ids)
  }

  /** All segments with ids below this are done after i of them. */
  function Reached(ids: seq<nat>, i: nat): nat
    requires i <= |ids|
  {
    if i == 0 then 0 else ids[i - 1] + 1
  }

  lemma NextListed(ids: seq<nat>, files: map<nat, Bytes>, i: nat)
    requires ListsFiles(ids, files) && i < |ids|
    ensures Reached(ids, i) <= ids[i] && forall id :: Reached(ids, i) <= id < ids[i] ==> id !in files
  {}

  lemma NextReplay(disk: Disk, snap: Option<Snapshot>, ids: seq<nat>, i: nat)
    requires ListsFiles(ids, disk.files) && i < |ids|
    ensures Replay(disk, snap, ids[i]) == Replay(disk, snap, Reached(ids, i))
    ensures i < |ids| - 1 ==> ids[i] != ids[|ids| - 1]
  {
    hide Replay;
    NextListed(ids, disk.files, i);
    ReplayGap(disk, snap, Reached(ids, i), ids[i]);
  }

  /** The keys a replay meets are short enough. */
  ghost predicate Replayable(disk: Disk, snap: Option<Snapshot>) {
    forall id :: id in disk.files && ReplayStart(snap, id).Some? ==>
      ShortKeys(Scan(disk.files[id], ReplayStart(snap, id).value).visits)
  }

  /** A segment as recover leaves it: every one but the last is finalized. */
  function Recovered(disk: Disk, snap: Option<Snapshot>, id: nat, last: nat): SegFile
    requires id in disk.files
  {
    var seg := SegFile(disk.files[id], RecoveredSize(disk, snap, id));
    if id == last then seg else seg.Finalize()
  }

  /** The fields recover fills in. */
  class Opener {
    const segSize: nat
    const hash: Bytes -> nat
    const disk: Disk
    var idx: Index
    var segments: map<nat, SegFile>
    var active: nat
    var nextSegID: nat

    constructor (segSize: nat, hash: Bytes -> nat, disk: Disk)
      ensures this.segSize == segSize && this.hash == hash && this.disk == disk && segments == map[] && Blank()
      ensures fresh(idx) && fresh(idx.slots) && fresh(idx.arena)
    {
      this.segSize, this.hash, this.disk := segSize, hash, disk;
      idx := new Index(hash);
      segments, active, nextSegID := map[], 0, 0;
    }

    ghost predicate Blank()
      reads this, idx, idx.slots, idx.arena
    {
      idx.Valid() && idx.model == map[] && idx.arena.Filled() == 0
    }

    /** tryLoadSnapshot: a snapshot that does not load, or whose segment is gone, leaves an empty index. */
    method TryLoadSnapshot() returns (watermark: Option<(nat, nat)>)
      requires Blank() && (disk.snapshot.Some? ==> |disk.snapshot.value| < ARENA_KEY_BYTES)
      modifies this`idx, idx, idx.slots, idx.arena
      ensures idx.Valid() && (idx == old(idx) || fresh(idx)) && (idx.slots == old(idx.slots) || fresh(idx.slots))
      ensures idx == old(idx) || fresh(idx.arena)
      ensures watermark == match TryLoad(disk) { case None => None case Some(s) => Some((s.watermarkSegID, s.watermarkSize)) }
      ensures idx.model == match TryLoad(disk) { case None => map[] case Some(s) => MapOfEntries(s.entries) }
      ensures idx.arena.Filled() <= if disk.snapshot.Some? then |disk.snapshot.value| else 0
    {
      hide Index.Valid, Arena.Filled, Parse, MapOfEntries;
      if disk.snapshot.None? {
        return None;
      }
      watermark := LoadSnapshotInto(disk.snapshot.value, idx);
      if watermark.None? || watermark.value.0 !in disk.files {
        idx := new Index(hash);
        watermark := None;
      }
    }

    /** One segment: skipped, replayed from the watermark, or replayed whole. */
    method RecoverSegment(id: nat, watermark: Option<(nat, nat)>) returns (size: nat)
      requires idx.Valid() && id in disk.files && Replayable(disk, TryLoad(disk))
      requires watermark == match TryLoad(disk) { case None => None case Some(s) => Some((s.watermarkSegID, s.watermarkSize)) }
      requires idx.model == Replay(disk, TryLoad(disk), id)
      requires idx.arena.Filled() + |disk.files[id]| < ARENA_KEY_BYTES
      modifies idx, idx.slots, idx.arena
      ensures idx.Valid() && (idx.slots == old(idx.slots) || fresh(idx.slots))
      ensures idx.model == Replay(disk, TryLoad(disk), id + 1)
      ensures size == RecoveredSize(disk, TryLoad(disk), id)
      ensures idx.arena.Filled() <= old(idx.arena.Filled()) + |disk.files[id]|
    {
      hide Index.Valid, Arena.Filled, TryLoad, Replay, ApplyVisits, Scan, ShortKeys;
      ReplayOne(disk, TryLoad(disk), id);
      if watermark.Some? && id < watermark.value.0 {
        return |disk.files[id]|;
      }
      if watermark.Some? && id == watermark.value.0 {
        size := ReplaySegment(idx, id, disk.files[id], watermark.value.1);
      } else {
        size := ReplaySegment(idx, id, disk.files[id], 0);
      }
    }

    /** One round of recover's loop. */
    method AddSegment(id: nat, isLast: bool, ghost last: nat, watermark: Option<(nat, nat)>)
      requires idx.Valid() && id in disk.files && Replayable(disk, TryLoad(disk))
      requires watermark == match TryLoad(disk) { case None => None case Some(s) => Some((s.watermarkSegID, s.watermarkSize)) }
      requires idx.model == Replay(disk, TryLoad(disk), id) && (isLast <==> id == last) && SegmentsRecovered(last)
      requires idx.arena.Filled() + |disk.files[id]| < ARENA_KEY_BYTES
      modifies this`segments, this`active, idx, idx.slots, idx.arena
      ensures idx.Valid() && (idx.slots == old(idx.slots) || fresh(idx.slots))
      ensures idx.model == Replay(disk, TryLoad(disk), id + 1)
      ensures SegmentsRecovered(last) && segments.Keys == old(segments).Keys + {id}
      ensures active == if isLast then id else old(active)
      ensures idx.arena.Filled() <= old(idx.arena.Filled()) + |disk.files[id]|
    {
      hide Index.Valid, Arena.Filled, TryLoad, Replay, Replayable, RecoveredSize, Recovered;
      var size := RecoverSegment(id, watermark);
      var seg := SegFile(disk.files[id], size);
      if isLast {
        active := id;
      } else {
        seg := seg.Finalize();
      }
      RecoveredIs(disk, TryLoad(disk), id, last, isLast, seg);
      segments := segments[id := seg];
    }

    /** recover, for segment files listed in ascending order. */
    method Recover(ids: seq<nat>)
      requires Blank() && segments == map[] && ListsFiles(ids, disk.files) && Replayable(disk, TryLoad(disk))
      requires (if disk.snapshot.Some? then |disk.snapshot.value| else 0) + SumSizes(disk.files, ids) < ARENA_KEY_BYTES
      modifies this, idx, idx.slots, idx.arena
      ensures idx.Valid() && (idx == old(idx) || (fresh(idx) && fresh(idx.arena)))
      ensures idx.slots == old(idx.slots) || fresh(idx.slots)
      ensures idx.arena.Filled() < ARENA_KEY_BYTES
      ensures ids == [] ==> segments == map[0 := NewSegment(segSize)] && active == 0 && nextSegID == 1 && idx.model == map[]
      ensures ids != [] ==> active == ids[|ids| - 1] && nextSegID == active + 1
      ensures ids != [] ==> idx.model == Replay(disk, TryLoad(disk), nextSegID)
      ensures ids != [] ==> segments.Keys == disk.files.Keys && SegmentsRecovered(active)
    {
      hide Index.Valid, Arena.Filled, TryLoad, Replay, ListsFiles;
      hide Replayable, SumSizes, RecoveredSize, Recovered, MapOfEntries;
      if |ids| == 0 {
        segments := map[0 := NewSegment(segSize)];
        active, nextSegID := 0, 1;
        return;
      }
      AllListed(ids, disk.files);
      var watermark := TryLoadSnapshot();
      ReplayStarts(disk);
      RecoverAll(ids, watermark);
      nextSegID := ids[|ids| - 1] + 1;
    }

    /** recover's loop. */
    method RecoverAll(ids: seq<nat>, watermark: Option<(nat, nat)>)
      requires idx.Valid() && segments == map[] && ids != [] && ListsFiles(ids, disk.files) && Replayable(disk, TryLoad(disk))
      requires watermark == match TryLoad(disk) { case None => None case Some(s) => Some((s.watermarkSegID, s.watermarkSize)) }
      requires idx.model == Replay(disk, TryLoad(disk), 0)
      requires forall k :: 0 <= k < |ids| ==> ids[k] in disk.files
      requires idx.arena.Filled() + SumSizes(disk.files, ids) < ARENA_KEY_BYTES
      modifies this`segments, this`active, idx, idx.slots, idx.arena
      ensures idx.Valid() && idx.model == Replay(disk, TryLoad(disk), ids[|ids| - 1] + 1)
      ensures idx.slots == old(idx.slots) || fresh(idx.slots)
      ensures idx.arena.Filled() < ARENA_KEY_BYTES
      ensures active == ids[|ids| - 1] && segments.Keys == disk.files.Keys && SegmentsRecovered(active)
    {
      hide Index.Valid, Arena.Filled, TryLoad, Replay, ListsFiles, Replayable, SumSizes, RecoveredSize, Recovered;
      assert ids[0..] == ids;
      ghost var last := ids[|ids| - 1];
      for i := 0 to |ids|
        invariant idx.Valid() && (idx.slots == old(idx.slots) || fresh(idx.slots))
        invariant idx.model == Replay(disk, TryLoad(disk), Reached(ids, i))
        invariant forall id :: id in segments <==> id in ids[..i]
        invariant SegmentsRecovered(last) && (i == |ids| ==> active == last)
        invariant idx.arena.Filled() + SumSizes(disk.files, ids[i..]) < ARENA_KEY_BYTES
      {
        NextReplay(disk, TryLoad(disk), ids, i);
        NextSize(disk.files, ids[i..]);
        assert ids[i..][1..] == ids[i + 1..];
        AddSegment(ids[i], i == |ids| - 1, last, watermark);
        assert ids[..i + 1] == ids[..i] + [ids[i]];
      }
      KeysListed(ids, disk.files, segments);
    }

    ghost predicate SegmentsRecovered(last: nat)
      reads this
    {
      forall id :: id in segments ==>
        id in disk.files && segments[id] == Recovered(disk, TryLoad(disk), id, last)
    }
  }

  lemma AllListed(ids: seq<nat>, files: map<nat, Bytes>)
    requires ListsFiles(ids, files)
    ensures forall k :: 0 <= k < |ids| ==> ids[k] in files
    ensures forall k :: 0 <= k < |ids| - 1 ==> ids[k] != ids[|ids| - 1]
  {}

  lemma KeysListed(ids: seq<nat>, files: map<nat, Bytes>, segments: map<nat, SegFile>)
    requires ListsFiles(ids, files) && forall id :: id in segments <==> id in ids[..|ids|]
    ensures segments.Keys == files.Keys
  {}

  lemma NextSize(files: map<nat, Bytes>, ids: seq<nat>)
    requires ids != [] && forall i :: 0 <= i < |ids| ==> ids[i] in files
    ensures SumSizes(files, ids) == |files[ids[0]]| + SumSizes(files, ids[1..])
  {}

  lemma RecoveredIs(disk: Disk, snap: Option<Snapshot>, id: nat, last: nat, isLast: bool, seg: SegFile)
    requires id in disk.files && (isLast <==> id == last)
    requires var whole := SegFile(disk.files[id], RecoveredSize(disk, snap, id)); seg == if isLast then whole else whole.Finalize()
    ensures seg == Recovered(disk, snap, id, last)
  {}

  lemma ReplayStarts(disk: Disk)
    ensures Replay(disk, TryLoad(disk), 0) == match TryLoad(disk) { case None => map[] case Some(s) => MapOfEntries(s.entries) }
  {}

  // ----- recovering a directory that holds logs ----------------------------------------------------------

  ghost predicate ShortLogKeys(logs: map<nat, seq<Record>>) {
    forall id, i :: id in logs && 0 <= i < |logs[id]| ==> |logs[id][i].key| <= MAX_INDEX_KEY_LEN
  }

  lemma {:induction false} ShortVisits(l: seq<Record>, j: nat)
    requires EncodableLog(l) && j <= |l| && forall i :: 0 <= i < |l| ==> |l[i].key| <= MAX_INDEX_KEY_LEN
    ensures ShortKeys(Visits(l, j))
    decreases |l| - j
  {
    if j < |l| { ShortVisits(l, j + 1); }
  }

  lemma HeldIsReplayable(disk: Disk, logs: map<nat, seq<Record>>, active: nat, snap: Option<Snapshot>)
    requires DiskHolds(disk.files, logs, active) && ShortLogKeys(logs) && (snap.Some? ==> Covers(snap.value, logs))
    ensures Replayable(disk, snap)
  {
    hide Scan, Visits, DiskHolds, ShortKeys, Covers, CoversUpTo;
    OnDisk(disk.files, logs, active);
    forall id | id in disk.files && ReplayStart(snap, id).Some?
      ensures ShortKeys(Scan(disk.files[id], ReplayStart(snap, id).value).visits)
    {
      HeldStart(disk, logs, active, snap, id);
    }
  }

  lemma HeldStart(disk: Disk, logs: map<nat, seq<Record>>, active: nat, snap: Option<Snapshot>, id: nat)
    requires DiskHolds(disk.files, logs, active) && ShortLogKeys(logs) && (snap.Some? ==> Covers(snap.value, logs))
    requires id in disk.files && id in logs && ReplayStart(snap, id).Some?
    ensures ShortKeys(Scan(disk.files[id], ReplayStart(snap, id).value).visits)
  {
    hide Scan, Visits, ShortKeys, LogMap, LogsMap, MapOfEntries;
    LogIsEncodable(disk.files, logs, active, id);
    var j: nat := 0;
    if snap.Some? && id == snap.value.watermarkSegID {
      j :| CoversUpTo(snap.value, logs, j);
    }
    OffsetMonotone(logs[id], j, |logs[id]|);
    ScanOnDisk(disk.files, logs, active, id, j);
    ShortVisits(logs[id], j);
  }

  lemma LoadedCovers(disk: Disk, logs: map<nat, seq<Record>>, active: nat)
    requires DiskHolds(disk.files, logs, active) && SnapshotSound(disk.snapshot, logs)
    ensures TryLoad(disk).Some? ==> Covers(TryLoad(disk).value, logs)
  {
    hide DiskHolds, Parse, Covers;
    OnDisk(disk.files, logs, active);
  }

  lemma LastIsActive(disk: Disk, logs: map<nat, seq<Record>>, active: nat, ids: seq<nat>)
    requires DiskHolds(disk.files, logs, active) && ListsFiles(ids, disk.files)
    ensures ids != [] && ids[|ids| - 1] == active
  {
    assert active in ids;
    var k :| 0 <= k < |ids| && ids[k] == active;
    assert ids[|ids| - 1] in disk.files;
  }

  /** A recovered segment is its log's file, cut to its used size unless it is the last. */
  lemma RecoveredHeld(disk: Disk, snap: Option<Snapshot>, logs: map<nat, seq<Record>>, last: nat, id: nat)
    requires DiskHolds(disk.files, logs, last) && id in logs && id in disk.files
    requires RecoveredSize(disk, snap, id) == Used(logs[id])
    ensures Used(logs[id]) <= |disk.files[id]|
    ensures Recovered(disk, snap, id, last)
            == SegFile(if id == last then disk.files[id] else disk.files[id][..Used(logs[id])], Used(logs[id]))
  {
    hide RecoveredSize, Used, Stops, EncodableLog, EncodeAll;
  }

  /**
   * Opening a directory whose files hold these logs, with or without a snapshot of some earlier
   * point: the index is the map of all records, and every segment has its log's size.
   */
  method OpenHeld(segSize: nat, hash: Bytes -> nat, disk: Disk, ids: seq<nat>,
                  ghost logs: map<nat, seq<Record>>, ghost last: nat) returns (db: Opener)
    requires DiskHolds(disk.files, logs, last) && SnapshotSound(disk.snapshot, logs) && ShortLogKeys(logs)
    requires ListsFiles(ids, disk.files)
    requires (if disk.snapshot.Some? then |disk.snapshot.value| else 0) + SumSizes(disk.files, ids) < ARENA_KEY_BYTES
    ensures db.idx.Valid() && db.idx.HasRoom() && db.idx.model == LogsMap(logs, last + 1)
    ensures db.active == last && db.nextSegID == last + 1 && db.segments.Keys == disk.files.Keys == logs.Keys
    ensures forall id :: id in logs ==>
              Used(logs[id]) <= |disk.files[id]|
              && db.segments[id] == SegFile(if id == last then disk.files[id] else disk.files[id][..Used(logs[id])], Used(logs[id]))
    ensures fresh(db) && fresh(db.idx) && fresh(db.idx.slots) && fresh(db.idx.arena)
  {
    hide DiskHolds, SnapshotSound, ListsFiles, SumSizes, TryLoad, Replay;
    hide LogsMap, Covers, Replayable, Index.Valid, RecoveredSize, Used, Recovered;
    LoadedCovers(disk, logs, last);
    HeldIsReplayable(disk, logs, last, TryLoad(disk));
    LastIsActive(disk, logs, last, ids);
    RecoveryAgrees(disk, logs, last);
    OnDisk(disk.files, logs, last);
    db := new Opener(segSize, hash, disk);
    db.Recover(ids);
    db.idx.RoomForKeys();
    forall id | id in logs
      ensures Used(logs[id]) <= |disk.files[id]|
      ensures db.segments[id]
              == SegFile(if id == last then disk.files[id] else disk.files[id][..Used(logs[id])], Used(logs[id]))
    {
      RecoveredHeld(disk, TryLoad(disk), logs, last, id);
    }
  }
}
