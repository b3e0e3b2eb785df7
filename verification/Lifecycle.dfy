/** One store across its lives: the DB object closed, and opened again from the bytes it left. */
module Lifecycle {
  import opened Bytes
  import opened Segment
  import opened Index
  import opened Engine
  import Accounting
  import opened Store
  import opened Snapshot
  import opened Recovery
  import Reopen
  import Sessions

  /** The object is a state of the write-and-reopen system: no compaction has happened in this directory. */
  ghost predicate NeverCompacted(db: DB)
    reads db, db.idx
  {
    Sessions.Invariant(Sessions.System(db.Abs(), db.snapshot), db.contents)
  }

  /** A fresh store is one. */
  method Create(segSize: nat, ratio: real, divide: Accounting.Division, hash: Bytes -> nat) returns (db: DB)
    requires segSize <= TWO32 && 0.0 < ratio <= 1.0 && Accounting.Float64(divide)
    ensures fresh(db) && fresh(db.idx) && fresh(db.idx.slots) && fresh(db.idx.arena)
    ensures db.Valid() && NeverCompacted(db) && db.idx.HasRoom() && db.contents == map[]
  {
    hide Sessions.Invariant, DB.Valid;
    Sessions.EmptyInvariant(segSize);
    db := new DB(segSize, ratio, divide, hash);
  }

  /** And so is one after a write. */
  method Write(db: DB, e: Event)
    requires db.Valid() && NeverCompacted(db) && db.idx.HasRoom() && WellTyped(e) && (e.Put? || e.Delete?)
    modifies db, db.idx, db.idx.slots, db.idx.arena
    ensures db.Valid() && NeverCompacted(db) && (db.idx.slots == old(db.idx.slots) || fresh(db.idx.slots))
    ensures db.Abs() == Step(old(db.Abs()), e) && db.contents == MapStep(db.segSize, old(db.contents), e)
  {
    hide Sessions.Invariant, Step, DB.Valid;
    Sessions.WriteKeeps(Sessions.System(db.Abs(), db.snapshot), db.contents, e);
    match e
    case Put(key, value, ts) => var err := db.Put(key, value, ts);
    case Delete(key, ts) => var err := db.Delete(key, ts);
  }

  function DataOf(files: map<nat, SegFile>): map<nat, Bytes> {
    map id | id in files :: files[id].data
  }

  lemma FileOnDisk(f: SegFile, l: Log)
    requires FileOf(f, l)
    ensures Holds(f.data, l) && Used(l) <= |f.data| && f.data[Used(l)..] == Zeros(|f.data| - Used(l))
  {
    hide EncodeAll, Used, Zeros;
    FileHoldsLog(l, |f.data|);
    FileTail(l, |f.data|);
  }

  /** What the object leaves on disk holds its logs. */
  lemma DirectoryHolds(s: State, c: Contents, files: map<nat, SegFile>)
    requires Inv(s, c) && FilesOf(files, s.logs) && s.capacity == Capacities(files) && s.nextSegID == s.active + 1
    requires s.compactOut.None?
    ensures DiskHolds(DataOf(files), s.logs, s.active)
  {
    hide Inv, Accounting.Balanced, FileOf, Holds, Stops, Used;
    CanStepAlways(s, c);
    Sessions.NextIsFresh(s, c);
    var data := DataOf(files);
    forall id | id in s.logs
      ensures Holds(data[id], s.logs[id]) && (id != s.active ==> |data[id]| == Used(s.logs[id]))
      ensures Used(s.logs[id]) <= |data[id]| && (id == s.active ==> Stops(data[id][Used(s.logs[id])..]))
    {
      FileOnDisk(files[id], s.logs[id]);
      OnlyActiveHasRoom(s, c, id);
      ZeroTailStops(|data[id]| - Used(s.logs[id]));
    }
  }

  lemma OnlyActiveHasRoom(s: State, c: Contents, id: nat)
    requires Inv(s, c) && id in s.logs && s.compactOut.None?
    ensures id in s.capacity && Used(s.logs[id]) <= s.capacity[id]
    ensures id != s.active ==> s.capacity[id] == Used(s.logs[id])
  {
    hide Pointers;
    assert LogOk(s.logs[id], s.segSize);
  }

  lemma KeysAreShort(s: State, c: Contents)
    requires Inv(s, c)
    ensures Reopen.ShortLogKeys(s.logs)
  {
    hide Pointers;
    forall id, i | id in s.logs && 0 <= i < |s.logs[id]| ensures |s.logs[id][i].key| <= MAX_INDEX_KEY_LEN {
      assert LogOk(s.logs[id], s.segSize);
    }
  }

  /** Recovered segments are the ones that were closed. */
  lemma SameSegments(s: State, c: Contents, files: map<nat, SegFile>, segments: map<nat, SegFile>)
    requires Inv(s, c) && FilesOf(files, s.logs) && s.compactOut.None? && s.capacity == Capacities(files)
    requires segments.Keys == s.logs.Keys
    requires forall id :: id in s.logs ==>
               Used(s.logs[id]) <= |files[id].data|
               && segments[id] == SegFile(if id == s.active then files[id].data else files[id].data[..Used(s.logs[id])], Used(s.logs[id]))
    ensures segments == files
  {
    hide Inv, Accounting.Balanced, Used;
    forall id | id in s.logs ensures segments[id] == files[id] {
      OnlyActiveHasRoom(s, c, id);
      FilesFacts(files, s.logs, id);
    }
  }

  /** The file lists the index now, at the end of the active segment. */
  ghost predicate ListsNow(db: DB, snapshot: Option<Bytes>)
    reads db, db.idx
  {
    && db.active in db.files
    && exists entries :: Lists(entries, db.idx.model)
                         && snapshot == Some(Print(Snapshot(db.active, db.files[db.active].size, entries)))
  }

  /** The snapshot file after a close or a stop: the one there was, or one that lists the index now. */
  ghost predicate Leaves(db: DB, snapshot: Option<Bytes>)
    reads db, db.idx
  {
    snapshot == db.snapshot || ListsNow(db, snapshot)
  }

  /** DB.Close, for SnapshotOnClose or not. */
  method Close(db: DB, save: bool) returns (snapshot: Option<Bytes>)
    requires db.Valid()
    ensures if save then ListsNow(db, snapshot) else snapshot == db.snapshot
  {
    hide Inv, Accounting.Balanced, Index.Valid, FileOf, Lists, Print;
    if !save {
      return db.snapshot;
    }
    CanStepAlways(db.Abs(), db.contents);
    var data := Reopen.SaveSnapshot(db.idx, db.active, db.files[db.active].size);
    return Some(data);
  }

  lemma LeavesKept(db: DB, snapshot: Option<Bytes>)
    requires db.Valid() && NeverCompacted(db) && Leaves(db, snapshot) && db.nextSegID <= TWO32 && |db.idx.model| < TWO64
    ensures Sessions.SnapshotKept(snapshot, db.logs)
  {
    hide Inv, Accounting.Balanced, Index.Valid, FileOf, Lists, Print, Sessions.SnapshotKept, LogsMap, Used, Capacities;
    if snapshot != db.snapshot {
      var entries :| Lists(entries, db.idx.model)
                     && snapshot == Some(Print(Snapshot(db.active, db.files[db.active].size, entries)));
      CanStepAlways(db.Abs(), db.contents);
      FilesFacts(db.files, db.logs, db.active);
      Sessions.SnapshotNowCovers(db.Abs(), db.contents, entries);
    }
  }

  /** The segment files in ascending order, and few enough bytes of keys for one arena. */
  ghost predicate Listing(files: map<nat, Bytes>, ids: seq<nat>, snapshot: Option<Bytes>) {
    && Reopen.ListsFiles(ids, files)
    && (forall i :: 0 <= i < |ids| ==> ids[i] in files)
    && (if snapshot.Some? then |snapshot.value| else 0) + Reopen.SumSizes(files, ids) < ARENA_KEY_BYTES
  }

  /** What a close leaves is a directory that holds the store's logs. */
  lemma ClosedDirectory(db: DB, snapshot: Option<Bytes>)
    requires db.Valid() && NeverCompacted(db) && Leaves(db, snapshot) && db.nextSegID <= TWO32 && |db.idx.model| < TWO64
    ensures DiskHolds(DataOf(db.files), db.logs, db.active) && SnapshotSound(snapshot, db.logs)
    ensures Reopen.ShortLogKeys(db.logs) && FilesOf(db.files, db.logs) && 0.0 < db.ratio <= 1.0
    ensures Accounting.Float64(db.divide)
  {
    hide Inv, Accounting.Balanced, Index.Valid, FilesOf;
    hide LogsMap, Leaves, DiskHolds, Sessions.SnapshotKept, SnapshotSound;
    LeavesKept(db, snapshot);
    KeptIsSound(snapshot, db.logs);
    CanStepAlways(db.Abs(), db.contents);
    DirectoryHolds(db.Abs(), db.contents, db.files);
    KeysAreShort(db.Abs(), db.contents);
  }

  /** What recovery rebuilds is the state that was closed, its counters forgotten. */
  lemma OpenedState(db: DB, snapshot: Option<Bytes>, segments: map<nat, SegFile>)
    requires db.Valid() && NeverCompacted(db) && Leaves(db, snapshot) && db.nextSegID <= TWO32 && |db.idx.model| < TWO64
    requires segments.Keys == db.files.Keys == db.logs.Keys
    requires forall id :: id in db.logs ==>
               Used(db.logs[id]) <= |db.files[id].data|
               && segments[id] == SegFile(if id == db.active then db.files[id].data else db.files[id].data[..Used(db.logs[id])],
                                          Used(db.logs[id]))
    ensures segments == db.files && db.nextSegID == db.active + 1 && db.compactOut.None? && db.pass.None?
    ensures db.idx.model == LogsMap(db.logs, db.nextSegID)
    ensures Inv(db.Abs().(dead := map[]), db.contents)
    ensures Sessions.Invariant(Sessions.System(db.Abs().(dead := map[]), snapshot), db.contents)
  {
    hide Inv, Accounting.Balanced, Index.Valid, FilesOf, LogsMap, Used, Leaves, Sessions.SnapshotKept;
    LeavesKept(db, snapshot);
    SameSegments(db.Abs(), db.contents, db.files, segments);
    Sessions.ForgettingCountersKeeps(db.Abs(), db.contents);
  }

  /**
   * Opening what a close left: the new object has the same contents, and its state is the old
   * one but for the dead-byte counters.
   */
  method Restart(db: DB, ids: seq<nat>, snapshot: Option<Bytes>) returns (next: DB)
    requires db.Valid() && NeverCompacted(db) && Leaves(db, snapshot)
    requires Listing(DataOf(db.files), ids, snapshot) && db.nextSegID <= TWO32 && |db.idx.model| < TWO64
    ensures fresh(next) && fresh(next.idx) && fresh(next.idx.slots) && fresh(next.idx.arena)
    ensures next.Valid() && NeverCompacted(next) && next.idx.HasRoom()
    ensures next.contents == db.contents && next.Abs() == db.Abs().(dead := map[])
  {
    hide DB.Valid, Index.Valid, Inv, FilesOf, LogsMap, Used, Leaves, DiskHolds, SnapshotSound, Sessions.Invariant;
    hide Reopen.ListsFiles, Reopen.SumSizes, Reopen.ShortLogKeys;
    ClosedDirectory(db, snapshot);
    var disk := Disk(DataOf(db.files), snapshot);
    var opener := Reopen.OpenHeld(db.segSize, db.idx.hash, disk, ids, db.logs, db.active);
    OpenedState(db, snapshot, opener.segments);
    next := new DB.Reopen(db.segSize, db.ratio, db.divide, opener.idx, opener.segments, opener.active, opener.nextSegID,
                          snapshot, db.logs, db.contents);
  }

  lemma KeptIsSound(snapshot: Option<Bytes>, logs: map<nat, Log>)
    requires Sessions.SnapshotKept(snapshot, logs)
    ensures SnapshotSound(snapshot, logs)
  {
    hide Covers, Parse;
  }
}
