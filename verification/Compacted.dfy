/**
 * Opening a directory in which compaction has run. Replay takes segments by id and records by
 * position, and neither is the order of the writes once a pass has copied records forward and
 * dropped tombstones: exactly when the contents come back all the same.
 */
module Compacted {
  import opened Bytes
  import opened Record
  import opened Segment
  import opened Index
  import opened Engine
  import opened Recovery
  import Sessions
  import Snapshot

  // ----- the last record of a key, in replay order -----------------------------------------

  function LastIn(rs: Log, k: Bytes, n: nat): (j: Option<nat>)
    requires n <= |rs|
    ensures j.Some? ==> j.value < n && rs[j.value].key == k
  {
    if n == 0 then None else if rs[n - 1].key == k then Some(n - 1) else LastIn(rs, k, n - 1)
  }

  /** Segment and number of the last record with this key in the segments from lo up to below n. */
  function Last(logs: map<nat, Log>, lo: nat, n: nat, k: Bytes): (at: Option<(nat, nat)>)
    ensures at.Some? ==> at.value.0 in logs && at.value.1 < |logs[at.value.0]| && logs[at.value.0][at.value.1].key == k
  {
    if n <= lo then None
    else if n - 1 in logs && LastIn(logs[n - 1], k, |logs[n - 1]|).Some?
    then Some((n - 1, LastIn(logs[n - 1], k, |logs[n - 1]|).value))
    else Last(logs, lo, n - 1, k)
  }

  /** The segments from lo up to below n, applied on top of m. */
  function MapFrom(m: Map, logs: map<nat, Log>, lo: nat, n: nat): Map {
    if n <= lo then m else
    var before := MapFrom(m, logs, lo, n - 1);
    if n - 1 in logs then LogMap(before, n - 1, logs[n - 1], |logs[n - 1]|) else before
  }

  lemma {:induction false} FromNothing(logs: map<nat, Log>, n: nat)
    ensures MapFrom(map[], logs, 0, n) == LogsMap(logs, n)
  {
    hide LogMap;
    if n > 0 { FromNothing(logs, n - 1); }
  }

  /** What the record at a place makes of its key. */
  function Place(logs: map<nat, Log>, id: nat, j: nat): Option<Location>
    requires id in logs && j < |logs[id]|
  {
    if logs[id][j].tombstone then None else Some(Location(id, ValueOffset(logs[id], j), |logs[id][j].value|))
  }

  function Lookup(m: Map, k: Bytes): Option<Location> { if k in m then Some(m[k]) else None }

  lemma {:induction false} LogMapAt(m: Map, id: nat, rs: Log, n: nat, k: Bytes)
    requires n <= |rs|
    ensures Lookup(LogMap(m, id, rs, n), k)
            == match LastIn(rs, k, n)
               case None => Lookup(m, k)
               case Some(j) => if rs[j].tombstone then None else Some(Location(id, ValueOffset(rs, j), |rs[j].value|))
  {
    hide ValueOffset;
    if n > 0 { LogMapAt(m, id, rs, n - 1, k); }
  }

  /** Replay leaves each key where its last record says. */
  lemma {:induction false} MapFromAt(m: Map, logs: map<nat, Log>, lo: nat, n: nat, k: Bytes)
    ensures Lookup(MapFrom(m, logs, lo, n), k)
            == match Last(logs, lo, n, k) case None => Lookup(m, k) case Some(at) => Place(logs, at.0, at.1)
  {
    hide LogMap, LastIn, ValueOffset;
    if n > lo {
      MapFromAt(m, logs, lo, n - 1, k);
      if n - 1 in logs { LogMapAt(MapFrom(m, logs, lo, n - 1), n - 1, logs[n - 1], |logs[n - 1]|, k); }
    }
  }

  lemma SameLookups(a: Map, b: Map)
    ensures a == b <==> forall k :: Lookup(a, k) == Lookup(b, k)
  {
    if forall k :: Lookup(a, k) == Lookup(b, k) {
      forall k ensures k in a <==> k in b {
        assert Lookup(a, k) == Lookup(b, k);
      }
      forall k | k in a ensures a[k] == b[k] {
        assert Lookup(a, k) == Lookup(b, k);
      }
    }
  }

  // ----- the files -------------------------------------------------------------------------------

  ghost predicate AllLogsOk(s: State) {
    CanStep(s) && forall id :: id in s.logs ==> LogOk(s.logs[id], s.capacity[id])
  }

  /** The segment files of a stop in this state: every log, and what is preallocated behind it. */
  function Files(s: State): map<nat, Bytes>
    requires AllLogsOk(s)
  {
    map id | id in s.logs :: FileBytes(s.logs[id], s.capacity[id])
  }

  lemma FileScan(s: State, id: nat, j: nat)
    requires AllLogsOk(s) && id in s.logs && j <= |s.logs[id]|
    ensures var rs := s.logs[id];
            && EncodableLog(rs) && Scan(Files(s)[id], Offset(rs, j)) == ScanResult(Visits(rs, j), Used(rs))
            && |Files(s)[id]| == s.capacity[id] && Offset(rs, 0) == 0
  {
    var rs, cap := s.logs[id], s.capacity[id];
    assert LogOk(rs, cap);
    hide Scan, Visits, Used, EncodeAll, Zeros, EncodableLog, FileBytes, Stops, Holds;
    FileHoldsLog(rs, cap);
    TailIsZero(rs, cap);
    ZeroTailStops(cap - Used(rs));
    ScanHeld(FileBytes(rs, cap), rs, j);
    assert rs[..0] == [];
    UsedNothing();
  }

  lemma TailIsZero(rs: Log, capacity: nat)
    requires EncodableLog(rs) && Used(rs) <= capacity
    ensures FileBytes(rs, capacity)[Used(rs)..] == Zeros(capacity - Used(rs))
  {
    hide EncodeAll, Used, Zeros;
  }

  lemma {:induction false} ReplayIsMapFrom(s: State, disk: Disk, n: nat)
    requires AllLogsOk(s) && disk.files == Files(s)
    ensures Replay(disk, None, n) == MapFrom(map[], s.logs, 0, n)
  {
    hide Scan, ApplyVisits, LogMap, FileBytes, LogOk, Visits, Used, Offset, EncodableLog;
    if n > 0 {
      ReplayIsMapFrom(s, disk, n - 1);
      if n - 1 in s.logs {
        FileScan(s, n - 1, 0);
        BeforeFirst(MapFrom(map[], s.logs, 0, n - 1), n - 1, s.logs[n - 1]);
        VisitsApply(MapFrom(map[], s.logs, 0, n - 1), n - 1, s.logs[n - 1], 0);
      }
    }
  }

  lemma BeforeFirst(m: Map, id: nat, rs: Log)
    ensures LogMap(m, id, rs, 0) == m
  {}

  // ----- the contents the records hold ---------------------------------------------------------------

  /** The value a location leads to. */
  ghost predicate LeadsTo(logs: map<nat, Log>, loc: Location, k: Bytes, v: Bytes) {
    loc.segID in logs && Placed(logs[loc.segID], 0, k, v, loc)
  }

  /** What the key's last record says of it. */
  function Surviving(logs: map<nat, Log>, n: nat, k: Bytes): Option<Bytes> {
    match Last(logs, 0, n, k)
    case None => None
    case Some(at) =>
      var r := logs[at.0][at.1];
      if r.tombstone then None else Some(r.value)
  }

  function ValueIn(c: Contents, k: Bytes): Option<Bytes> { if k in c then Some(c[k]) else None }

  /** The contents that the records, taken in replay order, leave. */
  function Survivors(logs: map<nat, Log>, n: nat): Contents {
    map k | k in LogsMap(logs, n) && Surviving(logs, n, k).Some? :: Surviving(logs, n, k).value
  }

  lemma SurvivorsAt(logs: map<nat, Log>, n: nat, k: Bytes)
    ensures ValueIn(Survivors(logs, n), k) == Surviving(logs, n, k)
    ensures k in LogsMap(logs, n) <==> Surviving(logs, n, k).Some?
  {
    hide LogsMap, Last, ValueOffset, MapFrom;
    FromNothing(logs, n);
    MapFromAt(map[], logs, 0, n, k);
  }

  lemma SurvivorIsPlaced(logs: map<nat, Log>, n: nat, k: Bytes)
    requires k in LogsMap(logs, n)
    ensures Surviving(logs, n, k).Some? && LeadsTo(logs, LogsMap(logs, n)[k], k, Surviving(logs, n, k).value)
  {
    hide LogsMap, Last, ValueOffset, MapFrom;
    FromNothing(logs, n);
    MapFromAt(map[], logs, 0, n, k);
    var at := Last(logs, 0, n, k).value;
    assert PointsInto(logs[at.0], at.1, k, Surviving(logs, n, k).value, LogsMap(logs, n)[k]);
  }

  // ----- the state recovery ends in --------------------------------------------------------------------

  /** The newest segment is one that is being written to. */
  ghost predicate NewestIsOpen(s: State) {
    s.nextSegID > 0 && s.nextSegID - 1 in Targets(s)
  }

  lemma RotateNewest(s: State, n: nat)
    requires CanStep(s) && NewestIsOpen(s)
    ensures NewestIsOpen(EnsureCapacity(s, n)) && NewestIsOpen(EnsureCompactionCapacity(s, n))
  {
    hide Used;
  }

  lemma StepNewest(s: State, e: Event)
    requires NewestIsOpen(s)
    ensures NewestIsOpen(Step(s, e))
  {
    hide EnsureCapacity, EnsureCompactionCapacity, AddDisplaced, AddDead, LastLocation, ValueOffset, LiveAt, Refused;
    if CanStep(s) {
      if e.Put? { RotateNewest(s, Size(Record(e.key, e.value, false, e.timestamp))); }
      if e.Delete? { RotateNewest(s, Size(Record(e.key, [], true, e.timestamp))); }
      if e.RelocateNext? && MayRelocate(s) { RotateNewest(s, Size(s.logs[s.pass.value.src][s.pass.value.next])); }
    }
  }

  lemma {:induction false} RunNewest(segSize: nat, es: seq<Event>)
    ensures NewestIsOpen(Run(segSize, es))
  {
    hide NewestIsOpen, Step;
    if es == [] {
      assert NewestIsOpen(Open(segSize)) by { OpenNewest(segSize); }
    } else {
      RunNewest(segSize, es[..|es| - 1]);
      StepNewest(Run(segSize, es[..|es| - 1]), es[|es| - 1]);
    }
  }

  lemma OpenNewest(segSize: nat)
    ensures NewestIsOpen(Open(segSize))
  {}

  /** The state that opening the directory ends in, when there is no snapshot. */
  function Recovered(s: State): State
    requires AllLogsOk(s) && s.nextSegID > 0
  {
    Sessions.Opened(s.segSize, s.logs, Disk(Files(s), None), s.nextSegID - 1)
  }

  /** Every segment but the last is cut to its used size. */
  function FinalSizes(logs: map<nat, Log>, capacity: map<nat, nat>, last: nat): map<nat, nat>
    requires logs.Keys == capacity.Keys
  {
    map id | id in logs :: if id == last then capacity[id] else Used(logs[id])
  }

  lemma RecoveredIs(s: State)
    requires AllLogsOk(s) && s.nextSegID > 0
    ensures var last := s.nextSegID - 1;
            Recovered(s) == State(s.segSize, LogsMap(s.logs, s.nextSegID), s.logs,
                                  FinalSizes(s.logs, s.capacity, last),
                                  last, None, s.nextSegID, map[], None)
  {
    hide LogOk, Scan, ApplyVisits, Replay, LogsMap, MapFrom, Used, Visits, FileBytes, Offset;
    var disk, last := Disk(Files(s), None), s.nextSegID - 1;
    ReplayIsMapFrom(s, disk, s.nextSegID);
    FromNothing(s.logs, s.nextSegID);
    forall id | id in s.logs ensures |disk.files[id]| == s.capacity[id] && RecoveredSize(disk, None, id) == Used(s.logs[id]) {
      FileScan(s, id, 0);
    }
  }

  lemma RecoveredSegments(logs: map<nat, Log>, capacity: map<nat, nat>, segSize: nat, next: nat, targets: set<nat>)
    requires SegmentsOk(logs, capacity, segSize, next, targets) && next > 0 && next - 1 in targets
    ensures var last := next - 1;
            SegmentsOk(logs, FinalSizes(logs, capacity, last), segSize, next, {last})
  {
    hide Used, LogOk;
    var last := next - 1;
    var capacity' := FinalSizes(logs, capacity, last);
    assert logs.Keys == capacity'.Keys;
    forall id | id in logs
      ensures id < next && LogOk(logs[id], segSize)
      ensures if id in {last} then Used(logs[id]) <= capacity'[id] <= segSize else capacity'[id] == Used(logs[id])
    {
      assert id in targets || id != last;
    }
  }

  /** A consistent store, whatever its contents have become. */
  lemma RecoveredKeeps(s: State, c: Contents)
    requires Inv(s, c) && NewestIsOpen(s)
    ensures AllLogsOk(s) && s.nextSegID > 0 && Inv(Recovered(s), Survivors(s.logs, s.nextSegID))
  {
    hide Pointers, LogOk, LogsMap, Used, Survivors, Recovered, Surviving;
    LogsAreOk(s, c);
    CanStepAlways(s, c);
    RecoveredIs(s);
    var n := s.nextSegID;
    RecoveredSegments(s.logs, s.capacity, s.segSize, n, Targets(s));
    SurvivorPointers(s.logs, n);
  }

  lemma SurvivorPointers(logs: map<nat, Log>, n: nat)
    ensures Pointers(LogsMap(logs, n), logs, None, Survivors(logs, n))
  {
    hide LogsMap, Survivors, Surviving, Placed;
    forall k ensures k in LogsMap(logs, n) <==> k in Survivors(logs, n) {
      SurvivorsAt(logs, n, k);
    }
    forall k | k in LogsMap(logs, n)
      ensures var loc := LogsMap(logs, n)[k]; loc.segID in logs && Placed(logs[loc.segID], 0, k, Survivors(logs, n)[k], loc)
    {
      SurvivorIsPlaced(logs, n, k);
      SurvivorsAt(logs, n, k);
    }
  }

  // ----- when the contents come back -------------------------------------------------------------------------

  /** The key's last record in replay order is a value record of its value, or a tombstone or none for a key not in the map. */
  ghost predicate Survives(logs: map<nat, Log>, n: nat, c: Contents, k: Bytes) {
    match Last(logs, 0, n, k)
    case None => k !in c
    case Some(at) =>
      var r := logs[at.0][at.1];
      if k in c then !r.tombstone && r.value == c[k] else r.tombstone
  }

  /** The record at this place is the one the index has for the key, or a tombstone of a key it does not have. */
  ghost predicate CurrentAt(s: State, id: nat, j: nat, k: Bytes)
    requires id in s.logs && j < |s.logs[id]|
  {
    if k in s.idx then !s.logs[id][j].tombstone && LiveAt(s.idx, id, s.logs[id], j) else s.logs[id][j].tombstone
  }

  /** The key's last record in replay order is the one the index points at, or a tombstone or none for a key not in it. */
  ghost predicate Current(s: State, k: Bytes) {
    match Last(s.logs, 0, s.nextSegID, k)
    case None => k !in s.idx
    case Some(at) => CurrentAt(s, at.0, at.1, k)
  }

  /** So is its last record in the segments above the active one, if it has any there. */
  ghost predicate CurrentAbove(s: State, k: Bytes) {
    match Last(s.logs, s.active + 1, s.nextSegID, k)
    case None => true
    case Some(at) => CurrentAt(s, at.0, at.1, k)
  }

  lemma SurvivesIs(logs: map<nat, Log>, n: nat, c: Contents, k: Bytes)
    ensures Survives(logs, n, c, k) <==> ValueIn(c, k) == Surviving(logs, n, k)
  {
    hide Last;
  }

  /** The index points at a record by place; at that place there is only one. */
  lemma LiveIsPlace(s: State, c: Contents, id: nat, j: nat)
    requires Inv(s, c) && id in s.logs && j < |s.logs[id]| && s.logs[id][j].key in s.idx && !s.logs[id][j].tombstone
    ensures LiveAt(s.idx, id, s.logs[id], j) <==> Place(s.logs, id, j) == Some(s.idx[s.logs[id][j].key])
  {
    hide Inv, ValueOffset;
    var k := s.logs[id][j].key;
    if LiveAt(s.idx, id, s.logs[id], j) {
      LiveRecordValue(s, c, id, j);
      IndexedLength(s, c, k);
    }
  }

  lemma IndexedLength(s: State, c: Contents, k: Bytes)
    requires Inv(s, c) && k in s.idx
    ensures k in c && s.idx[k].valLen == |c[k]|
  {
    hide Structure, ValueOffset;
  }

  lemma CurrentAtIs(s: State, c: Contents, id: nat, j: nat, k: Bytes)
    requires Inv(s, c) && id in s.logs && j < |s.logs[id]| && s.logs[id][j].key == k
    ensures CurrentAt(s, id, j, k) <==> Place(s.logs, id, j) == Lookup(s.idx, k)
  {
    hide Inv, LiveAt, ValueOffset;
    if k in s.idx && !s.logs[id][j].tombstone {
      LiveIsPlace(s, c, id, j);
    }
  }

  lemma CurrentIs(s: State, c: Contents, k: Bytes)
    requires Inv(s, c)
    ensures Current(s, k) <==> Lookup(LogsMap(s.logs, s.nextSegID), k) == Lookup(s.idx, k)
    ensures CurrentAbove(s, k) <==> Lookup(MapFrom(s.idx, s.logs, s.active + 1, s.nextSegID), k) == Lookup(s.idx, k)
  {
    hide Inv, Last, LogsMap, MapFrom, CurrentAt, Place;
    FromNothing(s.logs, s.nextSegID);
    MapFromAt(map[], s.logs, 0, s.nextSegID, k);
    MapFromAt(s.idx, s.logs, s.active + 1, s.nextSegID, k);
    var at, above := Last(s.logs, 0, s.nextSegID, k), Last(s.logs, s.active + 1, s.nextSegID, k);
    if at.Some? { CurrentAtIs(s, c, at.value.0, at.value.1, k); }
    if above.Some? { CurrentAtIs(s, c, above.value.0, above.value.1, k); }
  }

  ghost predicate Agree(t: State, c: Contents)
    requires AllLogsOk(t)
  {
    forall key :: Get(t, key) == Answer(c, key)
  }

  lemma AgreeIff(t: State, c: Contents, d: Contents)
    requires Inv(t, d) && [] !in c
    ensures AllLogsOk(t) && (Agree(t, c) <==> c == d)
  {
    hide Inv, LogOk, Get;
    CanStepAlways(t, d);
    LogsAreOk(t, d);
    forall key ensures Get(t, key) == Answer(d, key) {
      GetReadsMap(t, d, key);
    }
    NoEmptyKey(t, d);
    if Agree(t, c) {
      forall k ensures ValueIn(c, k) == ValueIn(d, k) {
        assert Get(t, k) == Answer(c, k);
      }
      SameValues(c, d);
    }
  }

  lemma SameValues(c: Contents, d: Contents)
    ensures c == d <==> forall k :: ValueIn(c, k) == ValueIn(d, k)
  {
    if forall k :: ValueIn(c, k) == ValueIn(d, k) {
      forall k ensures k in c <==> k in d {
        assert ValueIn(c, k) == ValueIn(d, k);
      }
      forall k | k in c ensures c[k] == d[k] {
        assert ValueIn(c, k) == ValueIn(d, k);
      }
    }
  }

  lemma ContentsIff(s: State, c: Contents)
    requires Inv(s, c) && NewestIsOpen(s)
    ensures AllLogsOk(s) && s.nextSegID > 0 && AllLogsOk(Recovered(s))
    ensures Agree(Recovered(s), c) <==> forall k :: Survives(s.logs, s.nextSegID, c, k)
  {
    hide Inv, Recovered, Survivors, Survives, Surviving, Agree, AllLogsOk, ValueIn, NewestIsOpen;
    RecoveredKeeps(s, c);
    NoEmptyKey(s, c);
    var n := s.nextSegID;
    AgreeIff(Recovered(s), c, Survivors(s.logs, n));
    SameValues(c, Survivors(s.logs, n));
    forall k ensures Survives(s.logs, n, c, k) <==> ValueIn(c, k) == ValueIn(Survivors(s.logs, n), k) {
      SurvivesIs(s.logs, n, c, k);
      SurvivorsAt(s.logs, n, k);
    }
  }

  /**
   * After any interleaving of writes with passes, finished or not: opening the directory without a
   * snapshot gives a store that reads as the map of all writes if and only if every key's last
   * record in replay order is one of its value, or a tombstone or none for a key not in the map.
   */
  lemma ContentsComeBackIff(segSize: nat, es: seq<Event>)
    requires segSize <= TWO32 && forall i :: 0 <= i < |es| ==> WellTyped(es[i])
    ensures var s := Run(segSize, es); AllLogsOk(s) && s.nextSegID > 0 && AllLogsOk(Recovered(s))
    ensures var s, c := Run(segSize, es), MapRun(segSize, es);
            Agree(Recovered(s), c) <==> forall k :: Survives(s.logs, s.nextSegID, c, k)
  {
    hide *;
    RunKeeps(segSize, es);
    RunNewest(segSize, es);
    ContentsIff(Run(segSize, es), MapRun(segSize, es));
  }

  /** The very index comes back if and only if every key's last record is the one the index points at. */
  lemma IndexComesBackIff(segSize: nat, es: seq<Event>)
    requires segSize <= TWO32 && forall i :: 0 <= i < |es| ==> WellTyped(es[i])
    ensures var s := Run(segSize, es); AllLogsOk(s)
    ensures var s := Run(segSize, es);
            Replay(Disk(Files(s), None), None, s.nextSegID) == s.idx <==> forall k :: Current(s, k)
  {
    hide Run, MapRun, Inv, Replay, LogsMap, MapFrom, Current, Lookup, LogOk, FileBytes, Last, LiveAt;
    RunKeeps(segSize, es);
    var s, c := Run(segSize, es), MapRun(segSize, es);
    CanStepAlways(s, c);
    LogsAreOk(s, c);
    ReplayIsMapFrom(s, Disk(Files(s), None), s.nextSegID);
    FromNothing(s.logs, s.nextSegID);
    SameLookups(LogsMap(s.logs, s.nextSegID), s.idx);
    forall k ensures Current(s, k) <==> Lookup(LogsMap(s.logs, s.nextSegID), k) == Lookup(s.idx, k) {
      CurrentIs(s, c, k);
    }
  }

  // ----- with a snapshot saved after compaction -------------------------------------------------------

  lemma NoVisits(m: Map, id: nat, rs: Log)
    requires EncodableLog(rs)
    ensures ApplyVisits(m, id, Visits(rs, |rs|)) == m && Offset(rs, |rs|) == Used(rs)
  {
    assert rs[..|rs|] == rs;
  }

  lemma {:induction false} ReplayAboveWatermark(s: State, disk: Disk, snap: Snapshot.Snapshot, n: nat)
    requires AllLogsOk(s) && disk.files == Files(s) && Snapshot.MapOfEntries(snap.entries) == s.idx
    requires snap.watermarkSegID == s.active && snap.watermarkSize == Used(s.logs[s.active])
    ensures Replay(disk, Some(snap), n) == MapFrom(s.idx, s.logs, s.active + 1, n)
  {
    hide Scan, ApplyVisits, LogMap, FileBytes, LogOk, Visits, Used, Offset, EncodableLog, Snapshot.MapOfEntries;
    if n > 0 {
      ReplayAboveWatermark(s, disk, snap, n - 1);
      var m, id := MapFrom(s.idx, s.logs, s.active + 1, n - 1), n - 1;
      if id == s.active {
        FileScan(s, id, |s.logs[id]|);
        NoVisits(m, id, s.logs[id]);
      } else if id > s.active && id in s.logs {
        FileScan(s, id, 0);
        BeforeFirst(m, id, s.logs[id]);
        VisitsApply(m, id, s.logs[id], 0);
      }
    }
  }

  /**
   * With the snapshot a close saves, the segments above the active one, which compaction wrote, are
   * replayed on top of it: the index comes back if and only if every key's last record there is the
   * one the index points at.
   */
  lemma SnapshotComesBackIff(segSize: nat, es: seq<Event>, entries: seq<Snapshot.Entry>)
    requires segSize <= TWO32 && forall i :: 0 <= i < |es| ==> WellTyped(es[i])
    requires var s := Run(segSize, es);
             s.active in s.logs && Snapshot.Lists(entries, s.idx) && s.nextSegID <= TWO32 && |s.idx| < TWO64
    ensures var s := Run(segSize, es); AllLogsOk(s)
    ensures var s := Run(segSize, es);
            var disk := Disk(Files(s), Some(Snapshot.Print(Sessions.SnapshotNow(s, entries))));
            && TryLoad(disk) == Some(Sessions.SnapshotNow(s, entries))
            && (Replay(disk, TryLoad(disk), s.nextSegID) == s.idx <==> forall k :: CurrentAbove(s, k))
  {
    hide Run, MapRun, Inv, Replay, LogsMap, MapFrom, CurrentAbove, Lookup, LogOk, FileBytes, Last, LiveAt, Used;
    hide Snapshot.Print, Snapshot.Parse, Snapshot.Lists, Snapshot.Fits, Snapshot.MapOfEntries, Current;
    RunKeeps(segSize, es);
    var s, c := Run(segSize, es), MapRun(segSize, es);
    CanStepAlways(s, c);
    LogsAreOk(s, c);
    Sessions.EntriesFit(s, c, entries);
    var snap := Sessions.SnapshotNow(s, entries);
    Snapshot.ParsePrinted(snap);
    Snapshot.ListedMap(entries, s.idx);
    var disk := Disk(Files(s), Some(Snapshot.Print(snap)));
    ReplayAboveWatermark(s, disk, snap, s.nextSegID);
    SameLookups(MapFrom(s.idx, s.logs, s.active + 1, s.nextSegID), s.idx);
    forall k ensures CurrentAbove(s, k)
                     <==> Lookup(MapFrom(s.idx, s.logs, s.active + 1, s.nextSegID), k) == Lookup(s.idx, k) {
      CurrentIs(s, c, k);
    }
  }
}
