/** Any number of write, close, crash and reopen cycles of one directory, without compaction. */
module Sessions {
  import opened Bytes
  import opened Record
  import opened Segment
  import opened Engine
  import opened Snapshot
  import opened Recovery

  /**
   * Where a process ended. Between: with no rotation under way, the active segment's file ending in
   * some tail, zeroed or torn. Shrunk: inside a rotation, the full file cut to its used size.
   * Created: the next file there too, of some size, with nothing in it.
   */
  datatype Stop = Between(tail: Bytes) | Shrunk | Created(size: nat)

  /**
   * Write is a Put or Delete. Reopen is a clean close that saves a snapshot first, listing the
   * index in any order, or a stop that saves none. No tail reads as a record.
   */
  datatype Op = Write(event: Event) | Reopen(save: bool, entries: seq<Entry>, stop: Stop)

  /** The open store and the snapshot file beside it. */
  datatype System = System(s: State, snapshot: Option<Bytes>)

  ghost predicate LogsEncodable(logs: map<nat, Log>) {
    forall id :: id in logs ==> EncodableLog(logs[id])
  }

  function FilesOnDisk(s: State, tail: Bytes): map<nat, Bytes>
    requires LogsEncodable(s.logs)
  {
    map id | id in s.logs :: EncodeAll(s.logs[id]) + if id == s.active then tail else []
  }

  /** The open store as the files say it is: what a stop inside a rotation has already done. */
  function Stopped(s: State, stop: Stop): State
    requires CanStep(s)
  {
    match stop
    case Between(_) => s
    case Shrunk => s.(capacity := s.capacity[s.active := Used(s.logs[s.active])])
    case Created(n) =>
      var t := Rotate(s, Some(s.active));
      t.(capacity := t.capacity[s.nextSegID := n], active := s.nextSegID)
  }

  /** What lies behind the last record of the last segment. */
  function TailOf(stop: Stop): Bytes {
    match stop
    case Between(tail) => tail
    case Shrunk => []
    case Created(n) => Zeros(n)
  }

  /** What saveSnapshot records. */
  function SnapshotNow(s: State, entries: seq<Entry>): Snapshot
    requires s.active in s.logs
  {
    Snapshot(s.active, Used(s.logs[s.active]), entries)
  }

  /** The state Open ends in, last being the largest segment id on disk. */
  function Opened(segSize: nat, logs: map<nat, Log>, disk: Disk, last: nat): State {
    var snap := TryLoad(disk);
    State(segSize, Replay(disk, snap, last + 1), logs,
          map id | id in disk.files :: if id == last then |disk.files[id]| else RecoveredSize(disk, snap, id),
          last, None, last + 1, map[], None)
  }

  /** The op can happen in this state. */
  ghost predicate Enabled(sys: System, op: Op) {
    match op
    case Write(e) => WellTyped(e) && (e.Put? || e.Delete?)
    case Reopen(save, entries, stop) =>
      var s := sys.s;
      && CanStep(s) && LogsEncodable(s.logs)
      && (match stop
          case Between(tail) => Used(s.logs[s.active]) + |tail| == s.capacity[s.active] && Stops(tail)
          case Shrunk => !save
          case Created(n) => !save && n <= s.segSize)
      && (save ==> Lists(entries, s.idx) && s.nextSegID <= TWO32 && |s.idx| < TWO64)
  }

  function DiskAfter(sys: System, op: Op): Disk
    requires op.Reopen? && CanStep(sys.s) && LogsEncodable(sys.s.logs)
  {
    Disk(FilesOnDisk(Stopped(sys.s, op.stop), TailOf(op.stop)),
         if op.save then Some(Print(SnapshotNow(sys.s, op.entries))) else sys.snapshot)
  }

  /** An op that cannot happen changes nothing. */
  ghost function After(sys: System, op: Op): System {
    if !Enabled(sys, op) then sys else
    match op
    case Write(e) => System(Step(sys.s, e), sys.snapshot)
    case Reopen(save, entries, stop) =>
      var disk := DiskAfter(sys, op);
      var s := Stopped(sys.s, stop);
      System(Opened(s.segSize, s.logs, disk, s.active), disk.snapshot)
  }

  ghost function MapAfter(sys: System, c: Contents, op: Op): Contents {
    if op.Write? && Enabled(sys, op) then MapStep(sys.s.segSize, c, op.event) else c
  }

  ghost predicate Invariant(sys: System, c: Contents) {
    var s := sys.s;
    && Inv(s, c) && s.compactOut.None? && s.pass.None? && s.nextSegID == s.active + 1
    && s.idx == LogsMap(s.logs, s.nextSegID)
    && SnapshotKept(sys.snapshot, s.logs)
  }

  /** A readable snapshot covers a prefix of the log; its watermark segment is never lost. */
  ghost predicate SnapshotKept(snapshot: Option<Bytes>, logs: map<nat, Log>) {
    forall snap :: snapshot.Some? && Parse(snapshot.value) == Some(snap) ==> Covers(snap, logs)
  }

  // ----- writes -----------------------------------------------------------------------

  lemma {:induction false} LogMapPrefix(m: Map, id: nat, rs: Log, r: Record, n: nat)
    requires n <= |rs|
    ensures LogMap(m, id, rs + [r], n) == LogMap(m, id, rs, n)
  {
    if n > 0 {
      LogMapPrefix(m, id, rs, r, n - 1);
      AppendKeepsOffsets(rs, r, n - 1);
    }
  }

  lemma {:induction false} LogsMapBelow(logs: map<nat, Log>, logs': map<nat, Log>, n: nat)
    requires forall id :: 0 <= id < n ==> (id in logs <==> id in logs') && (id in logs ==> logs[id] == logs'[id])
    ensures LogsMap(logs, n) == LogsMap(logs', n)
  {
    if n > 0 { LogsMapBelow(logs, logs', n - 1); }
  }

  /** Appending to the last segment applies one more record. */
  lemma LogsMapAppend(logs: map<nat, Log>, id: nat, r: Record)
    requires id in logs
    ensures LogsMap(logs[id := logs[id] + [r]], id + 1)
            == ApplyRecord(LogsMap(logs, id + 1), id, logs[id] + [r], |logs[id]|)
  {
    hide ApplyRecord;
    LogsMapBelow(logs, logs[id := logs[id] + [r]], id);
    LogMapPrefix(LogsMap(logs, id), id, logs[id], r, |logs[id]|);
  }

  /** A sound snapshot stays sound while the last segment grows and new ones follow. */
  lemma CoversGrows(snap: Snapshot, logs: map<nat, Log>, logs': map<nat, Log>, last: nat)
    requires Covers(snap, logs) && snap.watermarkSegID <= last
    requires last in logs && last in logs' && logs[last] <= logs'[last]
    requires forall id :: 0 <= id < last ==> (id in logs <==> id in logs') && (id in logs ==> logs[id] == logs'[id])
    ensures Covers(snap, logs')
  {
    var w := snap.watermarkSegID;
    var j :| CoversUpTo(snap, logs, j);
    LogsMapBelow(logs, logs', w);
    var m := LogsMap(logs, w);
    LogMapSame(m, w, logs[w], logs'[w], j);
    assert logs'[w][..j] == logs[w][..j];
    assert CoversUpTo(snap, logs', j);
  }

  lemma {:induction false} LogMapSame(m: Map, id: nat, rs: Log, rs': Log, n: nat)
    requires rs <= rs' && n <= |rs|
    ensures LogMap(m, id, rs', n) == LogMap(m, id, rs, n)
  {
    if n > 0 {
      LogMapSame(m, id, rs, rs', n - 1);
      assert rs'[..n - 1] == rs[..n - 1];
    }
  }

  lemma RotatedMap(s: State, n: nat)
    requires CanStep(s) && s.nextSegID == s.active + 1 && s.idx == LogsMap(s.logs, s.nextSegID)
    requires s.nextSegID !in s.logs
    ensures var t := EnsureCapacity(s, n);
            t.idx == LogsMap(t.logs, t.nextSegID) && t.nextSegID == t.active + 1 && t.active in t.logs
    ensures forall id :: 0 <= id <= s.active ==>
              (id in s.logs <==> id in EnsureCapacity(s, n).logs)
              && (id in s.logs ==> s.logs[id] == EnsureCapacity(s, n).logs[id])
  {
    hide LogMap;
    if Remaining(s, s.active) < n {
      var t := EnsureCapacity(s, n);
      LogsMapBelow(s.logs, t.logs, s.nextSegID);
      LogMapNothing(LogsMap(t.logs, s.nextSegID), s.nextSegID);
    }
  }

  lemma LogMapNothing(m: Map, id: nat)
    ensures LogMap(m, id, [], 0) == m
  {}

  /** Writing r leaves the index what the records say, and the old segments as they were. */
  ghost predicate WroteRecord(s: State, t: State) {
    && t.idx == LogsMap(t.logs, t.nextSegID) && t.nextSegID == t.active + 1
    && t.compactOut.None? && t.pass.None?
    && s.active in s.logs && s.active in t.logs && s.logs[s.active] <= t.logs[s.active]
    && (forall id :: 0 <= id < s.active ==> (id in s.logs <==> id in t.logs) && (id in s.logs ==> s.logs[id] == t.logs[id]))
  }

  lemma PutWrites(s: State, c: Contents, r: Record)
    requires Inv(s, c) && CanStep(s) && s.compactOut.None? && s.pass.None? && s.nextSegID == s.active + 1
    requires s.idx == LogsMap(s.logs, s.nextSegID) && !r.tombstone
    ensures WroteRecord(s, PutRecord(s, r))
  {
    hide LogsMap, AddDisplaced;
    NextIsFresh(s, c);
    RotatedMap(s, Size(r));
    var t := EnsureCapacity(s, Size(r));
    LogsMapAppend(t.logs, t.active, r);
  }

  lemma DeleteWrites(s: State, c: Contents, r: Record)
    requires Inv(s, c) && CanStep(s) && s.compactOut.None? && s.pass.None? && s.nextSegID == s.active + 1
    requires s.idx == LogsMap(s.logs, s.nextSegID) && r.tombstone
    ensures WroteRecord(s, DeleteRecord(s, r))
  {
    hide LogsMap, AddDisplaced, AddDead;
    NextIsFresh(s, c);
    RotatedMap(s, Size(r));
    var t := EnsureCapacity(s, Size(r));
    LogsMapAppend(t.logs, t.active, r);
  }

  lemma NextIsFresh(s: State, c: Contents)
    requires Inv(s, c)
    ensures s.nextSegID !in s.logs && forall id :: id in s.logs ==> id < s.nextSegID
  {}

  lemma SnapshotStaysKept(s: State, c: Contents, t: State, snapshot: Option<Bytes>)
    requires Inv(s, c) && s.nextSegID == s.active + 1 && SnapshotKept(snapshot, s.logs) && WroteRecord(s, t)
    ensures SnapshotKept(snapshot, t.logs)
  {
    NextIsFresh(s, c);
    hide Inv, Covers, Parse, LogsMap;
    forall snap | snapshot.Some? && Parse(snapshot.value) == Some(snap) ensures Covers(snap, t.logs) {
      CoversWatermark(snap, s.logs);
      CoversGrows(snap, s.logs, t.logs, s.active);
    }
  }

  lemma CoversWatermark(snap: Snapshot, logs: map<nat, Log>)
    requires Covers(snap, logs)
    ensures snap.watermarkSegID in logs
  {}

  lemma WriteKeeps(sys: System, c: Contents, e: Event)
    requires Invariant(sys, c) && Enabled(sys, Write(e))
    ensures Invariant(After(sys, Write(e)), MapStep(sys.s.segSize, c, e)) && After(sys, Write(e)).s.segSize == sys.s.segSize
  {
    hide Inv, SnapshotKept, PutRecord, DeleteRecord;
    var s := sys.s;
    CanStepAlways(s, c);
    StepKeeps(s, c, e);
    var r := if e.Put? then Record(e.key, e.value, false, e.timestamp) else Record(e.key, [], true, e.timestamp);
    if Refused(s, r).None? {
      if e.Put? { PutWrites(s, c, r); } else { DeleteWrites(s, c, r); }
      SnapshotStaysKept(s, c, Step(s, e), sys.snapshot);
    }
  }

  // ----- reopening ------------------------------------------------------------------------

  lemma FilesHold(s: State, c: Contents, tail: Bytes)
    requires Inv(s, c) && s.nextSegID == s.active + 1 && LogsEncodable(s.logs) && Stops(tail)
    ensures DiskHolds(FilesOnDisk(s, tail), s.logs, s.active)
  {
    NextIsFresh(s, c);
    CanStepAlways(s, c);
    hide Inv, Stops, EncodeAll, Used, Holds, EncodableLog, LogsEncodable, FilesOnDisk;
    var files := FilesOnDisk(s, tail);
    OnDiskKeys(s, tail);
    forall id | id in s.logs
      ensures id <= s.active && Holds(files[id], s.logs[id])
      ensures id != s.active ==> |files[id]| == Used(s.logs[id])
    {
      FileWithTail(s, tail, id);
    }
    FileWithTail(s, tail, s.active);
  }

  lemma OnDiskKeys(s: State, tail: Bytes)
    requires LogsEncodable(s.logs)
    ensures FilesOnDisk(s, tail).Keys == s.logs.Keys
  {
    hide EncodeAll;
  }

  lemma FileWithTail(s: State, tail: Bytes, id: nat)
    requires CanStep(s) && LogsEncodable(s.logs) && id in s.logs
    ensures var file, rest := FilesOnDisk(s, tail)[id], if id == s.active then tail else [];
            Holds(file, s.logs[id]) && |file| == Used(s.logs[id]) + |rest| && file[Used(s.logs[id])..] == rest
  {
    hide EncodeAll, Used;
    var data, rest := EncodeAll(s.logs[id]), if id == s.active then tail else [];
    assert (data + rest)[..|data|] == data && (data + rest)[|data|..] == rest;
  }

  lemma EntriesFit(s: State, c: Contents, entries: seq<Entry>)
    requires Inv(s, c) && Lists(entries, s.idx) && s.nextSegID <= TWO32 && |s.idx| < TWO64
    ensures s.active in s.logs && Fits(SnapshotNow(s, entries))
  {
    CanStepAlways(s, c);
    NextIsFresh(s, c);
    forall i | 0 <= i < |entries| ensures EntryFits(entries[i]) {
      KeyFits(s, c, entries[i].0);
    }
    assert LogOk(s.logs[s.active], s.segSize);
  }

  lemma KeyFits(s: State, c: Contents, k: Bytes)
    requires Inv(s, c) && k in s.idx
    ensures |k| <= MAX_KEY_LEN && s.idx[k].valOffset < TWO32 && s.idx[k].valLen < TWO32
    ensures s.idx[k].segID < s.nextSegID
  {}

  /** A snapshot taken now covers everything. */
  lemma SnapshotNowCovers(s: State, c: Contents, entries: seq<Entry>)
    requires Inv(s, c) && s.nextSegID == s.active + 1 && s.idx == LogsMap(s.logs, s.nextSegID)
    requires Lists(entries, s.idx) && s.nextSegID <= TWO32 && |s.idx| < TWO64
    ensures s.active in s.logs && SnapshotKept(Some(Print(SnapshotNow(s, entries))), s.logs)
  {
    hide Inv, Lists, Print, Parse, Fits, LogMap, LogsMap, MapOfEntries;
    EntriesFit(s, c, entries);
    var snap := SnapshotNow(s, entries);
    ParsePrinted(snap);
    ListedMap(entries, s.idx);
    var rs := s.logs[s.active];
    assert rs[..|rs|] == rs;
    LogsMapStep(s.logs, s.active);
    assert CoversUpTo(snap, s.logs, |rs|);
  }

  lemma LogsMapStep(logs: map<nat, Log>, id: nat)
    requires id in logs
    ensures LogsMap(logs, id + 1) == LogMap(LogsMap(logs, id), id, logs[id], |logs[id]|)
  {
    hide LogMap;
  }

  /** Recovery of a directory that holds these logs, with the active segment last. */
  lemma OpenedHolds(s: State, disk: Disk, c: Contents)
    requires Inv(s, c) && CanStep(s) && s.compactOut.None? && s.pass.None? && s.nextSegID == s.active + 1
    requires s.idx == LogsMap(s.logs, s.nextSegID)
    requires DiskHolds(disk.files, s.logs, s.active) && SnapshotSound(disk.snapshot, s.logs)
    requires |disk.files[s.active]| == s.capacity[s.active]
    requires forall id :: id in s.logs && id != s.active ==> s.capacity[id] == Used(s.logs[id])
    ensures Opened(s.segSize, s.logs, disk, s.active) == s.(dead := map[])
  {
    hide Inv, LogsMap, Replay, RecoveredSize, DiskHolds, SnapshotSound, Used, TryLoad;
    OnDisk(disk.files, s.logs, s.active);
    RecoveryAgrees(disk, s.logs, s.active);
    assert Opened(s.segSize, s.logs, disk, s.active).capacity == s.capacity;
  }

  /** A stop inside a rotation leaves a state like any other. */
  lemma StoppedKeeps(sys: System, c: Contents, stop: Stop)
    requires Invariant(sys, c) && CanStep(sys.s) && (stop.Created? ==> stop.size <= sys.s.segSize)
    ensures var t := Stopped(sys.s, stop);
            && Invariant(System(t, sys.snapshot), c) && CanStep(t) && (LogsEncodable(sys.s.logs) ==> LogsEncodable(t.logs))
            && t.idx == sys.s.idx && t.segSize == sys.s.segSize
            && (stop.Shrunk? ==> Used(t.logs[t.active]) == t.capacity[t.active])
            && (stop.Created? ==> t.logs[t.active] == [] && t.capacity[t.active] == stop.size)
  {
    hide LogsMap, SnapshotKept, Pointers, SegmentsOk, Used;
    var s, t := sys.s, Stopped(sys.s, stop);
    NextIsFresh(s, c);
    match stop
    case Between(_) =>
    case Shrunk =>
      ShrinkSegments(s.logs, s.capacity, s.segSize, s.nextSegID, s.active);
    case Created(n) =>
      UsedNothing();
      CreateSegments(s.logs, s.capacity, s.segSize, s.nextSegID, s.active, n);
      PointersGrow(s.idx, s.logs, t.logs, s.pass, c);
      LogsMapBelow(s.logs, t.logs, s.nextSegID);
      LogsMapEmpty(t.logs, s.nextSegID);
      SnapshotAcross(s, sys.snapshot, t);
  }

  lemma ShrinkSegments(logs: map<nat, Log>, capacity: map<nat, nat>, segSize: nat, next: nat, active: nat)
    requires SegmentsOk(logs, capacity, segSize, next, {active}) && active in logs
    ensures SegmentsOk(logs, capacity[active := Used(logs[active])], segSize, next, {active})
  {
    hide Used, EncodableLog;
  }

  lemma CreateSegments(logs: map<nat, Log>, capacity: map<nat, nat>, segSize: nat, next: nat, active: nat, n: nat)
    requires SegmentsOk(logs, capacity, segSize, next, {active}) && active in logs && n <= segSize
    ensures SegmentsOk(logs[next := []], capacity[active := Used(logs[active])][next := segSize][next := n], segSize, next + 1, {next})
  {
    assert LogOk([], segSize) && Used([]) == 0;
    hide Used, EncodableLog;
  }

  lemma LogsMapEmpty(logs: map<nat, Log>, id: nat)
    requires id in logs && logs[id] == []
    ensures LogsMap(logs, id + 1) == LogsMap(logs, id)
  {
    LogMapNothing(LogsMap(logs, id), id);
  }

  lemma SnapshotAcross(s: State, snapshot: Option<Bytes>, t: State)
    requires s.active in s.logs && s.nextSegID == s.active + 1 && s.nextSegID !in s.logs
    requires forall id :: id in s.logs ==> id < s.nextSegID
    requires SnapshotKept(snapshot, s.logs) && t.logs == s.logs[s.nextSegID := []]
    ensures SnapshotKept(snapshot, t.logs)
  {
    hide Covers, Parse;
    forall snap | snapshot.Some? && Parse(snapshot.value) == Some(snap) ensures Covers(snap, t.logs) {
      CoversWatermark(snap, s.logs);
      CoversGrows(snap, s.logs, t.logs, s.active);
    }
  }

  /**
   * Reopening restores the index, the sizes and the ids exactly as the stop left them; only the
   * dead-byte counters start again from nothing.
   */
  lemma ReopenRestores(sys: System, c: Contents, op: Op)
    requires Invariant(sys, c) && op.Reopen? && Enabled(sys, op)
    ensures var t := Stopped(sys.s, op.stop);
            After(sys, op).s == t.(dead := map[]) && SnapshotKept(After(sys, op).snapshot, t.logs)
  {
    hide Inv, LogsMap, Replay, RecoveredSize, Print, Parse, Covers, SnapshotKept, Zeros;
    hide DiskHolds, Stops, EncodeAll, Used, Opened, FilesOnDisk, Lists;
    var t, disk := Stopped(sys.s, op.stop), DiskAfter(sys, op);
    StoppedKeeps(sys, c, op.stop);
    if op.save { SnapshotNowCovers(sys.s, c, op.entries); }
    UsedNothing();
    TailStops(op.stop);
    FilesHold(t, c, TailOf(op.stop));
    CapacitiesKept(t, c, TailOf(op.stop));
    KeptSound(disk.snapshot, t.logs);
    OpenedHolds(t, disk, c);
  }

  lemma KeptSound(snapshot: Option<Bytes>, logs: map<nat, Log>)
    requires SnapshotKept(snapshot, logs)
    ensures SnapshotSound(snapshot, logs)
  {
    hide Covers, Parse;
  }

  lemma TailStops(stop: Stop)
    requires stop.Between? ==> Stops(stop.tail)
    ensures Stops(TailOf(stop))
  {
    hide Stops;
    match stop
    case Between(_) =>
    case Shrunk => ZeroTailStops(0); assert Zeros(0) == [];
    case Created(n) => ZeroTailStops(n);
  }

  lemma CapacitiesKept(s: State, c: Contents, tail: Bytes)
    requires Inv(s, c) && CanStep(s) && LogsEncodable(s.logs) && s.compactOut.None?
    requires Used(s.logs[s.active]) + |tail| == s.capacity[s.active]
    ensures FilesOnDisk(s, tail).Keys == s.logs.Keys
    ensures |FilesOnDisk(s, tail)[s.active]| == s.capacity[s.active]
    ensures forall id :: id in s.logs && id != s.active ==> s.capacity[id] == Used(s.logs[id])
  {
    hide Pointers, LogOk;
  }

  lemma ForgettingCountersKeeps(s: State, c: Contents)
    requires Inv(s, c)
    ensures Inv(s.(dead := map[]), c)
  {
    hide Pointers, SegmentsOk;
  }

  lemma StopFits(sys: System, op: Op)
    requires op.Reopen? && Enabled(sys, op)
    ensures CanStep(sys.s) && (op.stop.Created? ==> op.stop.size <= sys.s.segSize)
  {}

  lemma OpKeeps(sys: System, c: Contents, op: Op)
    requires Invariant(sys, c)
    ensures Invariant(After(sys, op), MapAfter(sys, c, op)) && After(sys, op).s.segSize == sys.s.segSize
  {
    hide Inv, LogsMap, SnapshotKept, Opened, Step, Enabled;
    if Enabled(sys, op) {
      match op
      case Write(e) => WriteKeeps(sys, c, e);
      case Reopen(_, _, _) =>
        StopFits(sys, op);
        ReopenRestores(sys, c, op);
        StoppedKeeps(sys, c, op.stop);
        ForgettingCountersKeeps(Stopped(sys.s, op.stop), c);
    }
  }

  // ----- the main result ------------------------------------------------------------------

  /** The system after these operations on an empty directory, and the map of their writes. */
  ghost function Cycles(segSize: nat, ops: seq<Op>): (System, Contents) {
    if ops == [] then (System(Open(segSize), None), map[]) else
    var (sys, c) := Cycles(segSize, ops[..|ops| - 1]);
    (After(sys, ops[|ops| - 1]), MapAfter(sys, c, ops[|ops| - 1]))
  }

  lemma {:induction false} CyclesKeep(segSize: nat, ops: seq<Op>)
    requires segSize <= TWO32
    ensures var (sys, c) := Cycles(segSize, ops); Invariant(sys, c) && sys.s.segSize == segSize
  {
    hide Invariant, After, MapAfter;
    if ops == [] {
      EmptyInvariant(segSize);
    } else {
      CyclesKeep(segSize, ops[..|ops| - 1]);
      var (sys, c) := Cycles(segSize, ops[..|ops| - 1]);
      OpKeeps(sys, c, ops[|ops| - 1]);
    }
  }

  lemma EmptyInvariant(segSize: nat)
    requires segSize <= TWO32
    ensures Invariant(System(Open(segSize), None), map[])
  {}

  /**
   * After any number of cycles, a stop at this point, clean or not, leaves a directory from
   * which the snapshot path and the full scan rebuild the very index that was in memory, and
   * the store reads as the map of all writes.
   */
  lemma EveryCycleRecovers(segSize: nat, ops: seq<Op>, op: Op, key: Bytes)
    requires segSize <= TWO32 && op.Reopen? && Enabled(Cycles(segSize, ops).0, op)
    ensures var (sys, c) := Cycles(segSize, ops); var n := Stopped(sys.s, op.stop).active + 1;
            var disk := DiskAfter(sys, op);
            Replay(disk, TryLoad(disk), n) == Replay(disk, None, n) == sys.s.idx
    ensures var (sys, c) := Cycles(segSize, ops); var s := After(sys, op).s;
            CanStep(s) && (forall id :: id in s.logs ==> LogOk(s.logs[id], s.capacity[id]))
            && Get(s, key) == Answer(c, key)
  {
    hide *;
    CyclesKeep(segSize, ops);
    var (sys, c) := Cycles(segSize, ops);
    CycleAgrees(sys, c, op);
    CycleReads(sys, c, op, key);
  }

  lemma CycleReads(sys: System, c: Contents, op: Op, key: Bytes)
    requires Invariant(sys, c) && op.Reopen?
    ensures var s := After(sys, op).s;
            CanStep(s) && (forall id :: id in s.logs ==> LogOk(s.logs[id], s.capacity[id]))
            && Get(s, key) == Answer(c, key)
  {
    hide After, Inv, LogOk, Engine.Get, Answer, Enabled, MapStep;
    OpKeeps(sys, c, op);
    GetReadsMap(After(sys, op).s, MapAfter(sys, c, op), key);
  }

  lemma CycleAgrees(sys: System, c: Contents, op: Op)
    requires Invariant(sys, c) && op.Reopen? && Enabled(sys, op)
    ensures var disk := DiskAfter(sys, op); var n := Stopped(sys.s, op.stop).active + 1;
            Replay(disk, TryLoad(disk), n) == Replay(disk, None, n) == sys.s.idx
  {
    hide Inv, Replay, DiskHolds, LogsMap, Covers, Stops, Print, Parse, Opened, FilesOnDisk, Lists, SnapshotKept, Zeros;
    var t := Stopped(sys.s, op.stop);
    StoppedKeeps(sys, c, op.stop);
    if op.save { SnapshotNowCovers(sys.s, c, op.entries); }
    TailStops(op.stop);
    FilesHold(t, c, TailOf(op.stop));
    KeptSound(DiskAfter(sys, op).snapshot, t.logs);
    RecoveryAgrees(DiskAfter(sys, op), t.logs, t.active);
  }
}
