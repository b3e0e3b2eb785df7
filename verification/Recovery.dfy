/**
 * Opening a directory again: snapshot plus replay from its watermark, or replay of every
 * segment, and any number of write, close, crash and reopen cycles without compaction.
 */
module Recovery {
  import opened Bytes
  import Crc32
  import opened Record
  import opened Segment
  import opened Index
  import opened Engine
  import opened Snapshot

  type Map = map<Bytes, Location>

  // ----- what recover does with the bytes on disk -------------------------------------

  /** Segment files by id, and the snapshot file. */
  datatype Disk = Disk(files: map<nat, Bytes>, snapshot: Option<Bytes>)

  /** One record of replaySegment. */
  function ApplyVisit(m: Map, id: nat, v: Visit): Map {
    if v.header.Tombstone() then m - {v.key}
    else m[v.key := Location(id, Uint32(v.off + HEADER_SIZE + v.header.keyLen), v.header.valLen)]
  }

  function ApplyVisits(m: Map, id: nat, vs: seq<Visit>): Map
    decreases |vs|
  {
    if vs == [] then m else ApplyVisits(ApplyVisit(m, id, vs[0]), id, vs[1..])
  }

  /** The snapshot recovery trusts: it parses, and its watermark segment still exists. */
  function TryLoad(disk: Disk): Option<Snapshot> {
    if disk.snapshot.None? then None else
    match Parse(disk.snapshot.value)
    case None => None
    case Some(s) => if s.watermarkSegID in disk.files then Some(s) else None
  }

  /** Where the replay of a segment starts; None for a segment the snapshot covers. */
  function ReplayStart(snap: Option<Snapshot>, id: nat): Option<nat> {
    if snap.None? || id > snap.value.watermarkSegID then Some(0)
    else if id == snap.value.watermarkSegID then Some(snap.value.watermarkSize)
    else None
  }

  /** The index once the segments with ids below n are done, in ascending order. */
  function Replay(disk: Disk, snap: Option<Snapshot>, n: nat): Map {
    if n == 0 then
      if snap.Some? then MapOfEntries(snap.value.entries) else map[]
    else
      var m := Replay(disk, snap, n - 1);
      if n - 1 !in disk.files then m else
      match ReplayStart(snap, n - 1)
      case None => m
      case Some(off) => ApplyVisits(m, n - 1, Scan(disk.files[n - 1], off).visits)
  }

  /** The used size recovery gives a segment. */
  function RecoveredSize(disk: Disk, snap: Option<Snapshot>, id: nat): nat
    requires id in disk.files
  {
    match ReplayStart(snap, id)
    case None => |disk.files[id]|
    case Some(off) => Scan(disk.files[id], off).end
  }

  // ----- what the records say -----------------------------------------------------------

  function ApplyRecord(m: Map, id: nat, rs: Log, j: nat): Map
    requires j < |rs|
  {
    if rs[j].tombstone then m - {rs[j].key} else m[rs[j].key := Location(id, ValueOffset(rs, j), |rs[j].value|)]
  }

  /** The first n records of a log, applied in order. */
  function LogMap(m: Map, id: nat, rs: Log, n: nat): Map
    requires n <= |rs|
  {
    if n == 0 then m else ApplyRecord(LogMap(m, id, rs, n - 1), id, rs, n - 1)
  }

  /** All records of the segments with ids below n, the last writer of each key winning. */
  function LogsMap(logs: map<nat, Log>, n: nat): Map {
    if n == 0 then map[] else
    var m := LogsMap(logs, n - 1);
    if n - 1 in logs then LogMap(m, n - 1, logs[n - 1], |logs[n - 1]|) else m
  }

  // ----- replaying bytes is applying records ------------------------------------------------

  lemma {:induction false} VisitsApply(m: Map, id: nat, rs: Log, j: nat)
    requires EncodableLog(rs) && j <= |rs|
    ensures ApplyVisits(LogMap(m, id, rs, j), id, Visits(rs, j)) == LogMap(m, id, rs, |rs|)
    decreases |rs| - j
  {
    hide VisitOf, ApplyVisit, ApplyRecord, EncodableLog;
    if j < |rs| {
      VisitApplies(LogMap(m, id, rs, j), id, rs, j);
      assert Visits(rs, j)[1..] == Visits(rs, j + 1);
      VisitsApply(m, id, rs, j + 1);
    }
  }

  lemma VisitApplies(m: Map, id: nat, rs: Log, j: nat)
    requires EncodableLog(rs) && j < |rs|
    ensures ApplyVisit(m, id, VisitOf(rs, j)) == ApplyRecord(m, id, rs, j)
  {
    hide Encode, Offset, Uint32, Crc32.Checksum, Body;
    DecodeEncoded(rs[j]);
  }

  /** Every file holds its log; only the active one has a tail, and it does not read as a record. */
  ghost predicate DiskHolds(files: map<nat, Bytes>, logs: map<nat, Log>, active: nat) {
    && files.Keys == logs.Keys && active in logs
    && (forall id :: id in logs ==> id <= active && Holds(files[id], logs[id]))
    && (forall id :: id in logs && id != active ==> |files[id]| == Used(logs[id]))
    && Stops(files[active][Used(logs[active])..])
  }

  lemma ScanOnDisk(files: map<nat, Bytes>, logs: map<nat, Log>, active: nat, id: nat, j: nat)
    requires DiskHolds(files, logs, active) && id in logs && j <= |logs[id]|
    ensures Scan(files[id], Offset(logs[id], j)) == ScanResult(Visits(logs[id], j), Used(logs[id]))
    ensures Offset(logs[id], 0) == 0
  {
    hide Holds, Scan, Visits, Used;
    assert logs[id][..0] == [];
    UsedNothing();
    if id != active {
      assert files[id][Used(logs[id])..] == [];
      assert Stops([]);
    }
    ScanHeld(files[id], logs[id], j);
  }

  lemma LogIsEncodable(files: map<nat, Bytes>, logs: map<nat, Log>, active: nat, id: nat)
    requires DiskHolds(files, logs, active) && id in logs
    ensures EncodableLog(logs[id]) && id in files && id <= active
  {}

  lemma UsedNothing()
    ensures Used([]) == 0
  {}

  /** The watermark falls between two records, and the entries are the map of all records up to it. */
  ghost predicate Covers(snap: Snapshot, logs: map<nat, Log>) {
    && snap.watermarkSegID in logs
    && exists j :: CoversUpTo(snap, logs, j)
  }

  ghost predicate CoversUpTo(snap: Snapshot, logs: map<nat, Log>, j: int)
    requires snap.watermarkSegID in logs
  {
    var w := snap.watermarkSegID;
    && 0 <= j <= |logs[w]| && Offset(logs[w], j) == snap.watermarkSize
    && MapOfEntries(snap.entries) == LogMap(LogsMap(logs, w), w, logs[w], j)
  }

  lemma {:induction false} FullReplay(disk: Disk, logs: map<nat, Log>, active: nat, n: nat)
    requires DiskHolds(disk.files, logs, active)
    ensures Replay(disk, None, n) == LogsMap(logs, n)
  {
    hide DiskHolds, Scan, ApplyVisits, LogMap;
    if n > 0 {
      FullReplay(disk, logs, active, n - 1);
      ReplayWhole(disk, logs, active, n - 1, LogsMap(logs, n - 1));
    }
  }

  lemma ReplayWhole(disk: Disk, logs: map<nat, Log>, active: nat, id: nat, m: Map)
    requires DiskHolds(disk.files, logs, active)
    ensures id in disk.files <==> id in logs
    ensures id in logs ==>
              ApplyVisits(m, id, Scan(disk.files[id], 0).visits) == LogMap(m, id, logs[id], |logs[id]|)
  {
    hide Holds, Scan, ApplyVisits, Used, Visits;
    if id in logs {
      ScanOnDisk(disk.files, logs, active, id, 0);
      assert EncodableLog(logs[id]) by { LogIsEncodable(disk.files, logs, active, id); }
      VisitsApply(m, id, logs[id], 0);
    }
  }

  /** Replay from the watermark, once the watermark segment is done, has caught up with the full replay. */
  lemma {:induction false} SnapshotReplay(disk: Disk, logs: map<nat, Log>, active: nat, snap: Snapshot, n: nat)
    requires DiskHolds(disk.files, logs, active) && Covers(snap, logs)
    ensures n <= snap.watermarkSegID ==> Replay(disk, Some(snap), n) == MapOfEntries(snap.entries)
    ensures n > snap.watermarkSegID ==> Replay(disk, Some(snap), n) == LogsMap(logs, n)
  {
    hide DiskHolds, Scan, ApplyVisits, LogMap, MapOfEntries, Offset, CoversUpTo;
    if n > 0 {
      SnapshotReplay(disk, logs, active, snap, n - 1);
      var id := n - 1;
      if id == snap.watermarkSegID {
        ReplayWatermark(disk, logs, active, snap);
      } else {
        ReplayWhole(disk, logs, active, id, LogsMap(logs, id));
      }
    }
  }

  lemma ReplayWatermark(disk: Disk, logs: map<nat, Log>, active: nat, snap: Snapshot)
    requires DiskHolds(disk.files, logs, active) && Covers(snap, logs)
    ensures var w := snap.watermarkSegID;
            w in disk.files && w <= active
            && ApplyVisits(MapOfEntries(snap.entries), w, Scan(disk.files[w], snap.watermarkSize).visits)
               == LogMap(LogsMap(logs, w), w, logs[w], |logs[w]|)
            && Scan(disk.files[w], snap.watermarkSize).end == Used(logs[w])
  {
    hide DiskHolds, Scan, ApplyVisits, LogMap, LogsMap, Offset, Used, Visits;
    var w := snap.watermarkSegID;
    var j :| CoversUpTo(snap, logs, j);
    LogIsEncodable(disk.files, logs, active, w);
    ScanOnDisk(disk.files, logs, active, w, j);
    VisitsApply(LogsMap(logs, w), w, logs[w], j);
  }

  /** The snapshot on disk, if it is accepted at all, covers a prefix of the log. */
  ghost predicate SnapshotSound(snapshot: Option<Bytes>, logs: map<nat, Log>) {
    forall snap :: snapshot.Some? && Parse(snapshot.value) == Some(snap) && snap.watermarkSegID in logs ==> Covers(snap, logs)
  }

  /**
   * Loading the snapshot and replaying from its watermark gives the same index as
   * replaying every segment from zero, and both are what the records say; every segment
   * gets the size of its log.
   */
  lemma RecoveryAgrees(disk: Disk, logs: map<nat, Log>, active: nat)
    requires DiskHolds(disk.files, logs, active) && SnapshotSound(disk.snapshot, logs)
    ensures Replay(disk, TryLoad(disk), active + 1) == Replay(disk, None, active + 1) == LogsMap(logs, active + 1)
    ensures forall id :: id in logs ==> id in disk.files && RecoveredSize(disk, TryLoad(disk), id) == Used(logs[id])
  {
    hide DiskHolds, Scan, ApplyVisits, LogsMap, Replay, Covers, Parse, RecoveredSize;
    FullReplay(disk, logs, active, active + 1);
    OnDisk(disk.files, logs, active);
    var snap := TryLoad(disk);
    if snap.Some? {
      SnapshotReplay(disk, logs, active, snap.value, active + 1);
      ReplayWatermark(disk, logs, active, snap.value);
    }
    forall id | id in logs ensures RecoveredSize(disk, snap, id) == Used(logs[id]) {
      SizeRecovered(disk, logs, active, snap, id);
    }
  }

  lemma OnDisk(files: map<nat, Bytes>, logs: map<nat, Log>, active: nat)
    requires DiskHolds(files, logs, active)
    ensures files.Keys == logs.Keys
  {}

  lemma SizeRecovered(disk: Disk, logs: map<nat, Log>, active: nat, snap: Option<Snapshot>, id: nat)
    requires DiskHolds(disk.files, logs, active) && (snap.Some? ==> Covers(snap.value, logs)) && id in logs
    ensures RecoveredSize(disk, snap, id) == Used(logs[id])
  {
    hide Holds, Scan, Used, Visits, Stops, LogMap, LogsMap, Offset;
    ScanOnDisk(disk.files, logs, active, id, 0);
    if snap.Some? {
      ReplayWatermark(disk, logs, active, snap.value);
    }
  }
}
