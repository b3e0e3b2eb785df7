/**
 * The DB object: bytes in segment files, the real hash index, and counters updated in
 * place. Each critical section is one step of the engine's state machine.
 */
module Store {
  import opened Bytes
  import opened Record
  import opened Segment
  import opened Index
  import opened Engine
  import opened Accounting
  import opened Passes

  // ----- files and logs ------------------------------------------------------------

  /** The file of a log: its bytes, and how many are used. */
  ghost predicate FileOf(f: SegFile, l: Log) {
    EncodableLog(l) && f.size == Used(l) && Used(l) <= |f.data| && f.data == FileBytes(l, |f.data|)
  }

  lemma NewFile(capacity: nat)
    ensures FileOf(NewSegment(capacity), [])
  {}

  lemma FinalizeFile(f: SegFile, l: Log)
    requires FileOf(f, l)
    ensures FileOf(f.Finalize(), l) && |f.Finalize().data| == Used(l)
  {}

  lemma AppendFile(f: SegFile, l: Log, r: Record)
    requires FileOf(f, l) && Encodable(r) && f.size + Size(r) <= |f.data|
    ensures f.Append(Encode(r)).Some? && FileOf(f.Append(Encode(r)).value, l + [r])
    ensures |f.Append(Encode(r)).value.data| == |f.data|
  {
    UsedAppend(l, r);
    assert (l + [r])[..|l|] == l;
    assert EncodeAll(l + [r]) == EncodeAll(l) + Encode(r);
    hide Encode, EncodeAll, Used, Zeros;
    AppendBytes(EncodeAll(l), Encode(r), |f.data| - f.size);
  }

  lemma AppendBytes(a: Bytes, b: Bytes, n: nat)
    requires |b| <= n
    ensures (a + Zeros(n))[..|a|] + b + (a + Zeros(n))[|a| + |b|..] == a + b + Zeros(n - |b|)
  {}

  lemma FileFacts(f: SegFile, l: Log)
    requires FileOf(f, l)
    ensures f.size == Used(l) <= |f.data| && f.Valid() && EncodableLog(l)
  {}

  /** A scan of a segment's file visits exactly its records. */
  lemma ScanFile(f: SegFile, l: Log)
    requires FileOf(f, l)
    ensures Scan(f.data, 0) == ScanResult(Visits(l, 0), Used(l))
  {
    hide EncodeAll, Used, Scan, Visits, Stops, Zeros, FileBytes;
    FileTail(l, |f.data|);
    FileHoldsLog(l, |f.data|);
    ZeroTailStops(|f.data| - Used(l));
    assert l[..0] == [];
    EmptyUsed();
    ScanHeld(f.data, l, 0);
  }

  lemma FileTail(l: Log, capacity: nat)
    requires EncodableLog(l) && Used(l) <= capacity
    ensures |FileBytes(l, capacity)| == capacity
    ensures FileBytes(l, capacity)[Used(l)..] == Zeros(capacity - Used(l))
  {
    hide EncodeAll, Used, Zeros;
  }

  lemma FileIsScanned(files: map<nat, SegFile>, logs: map<nat, Log>, id: nat)
    requires FilesOf(files, logs) && id in logs
    ensures id in files && EncodableLog(logs[id]) && Scan(files[id].data, 0).visits == Visits(logs[id], 0)
    ensures |Visits(logs[id], 0)| == |logs[id]|
  {
    ScanFile(files[id], logs[id]);
    FileFacts(files[id], logs[id]);
    VisitsLength(logs[id], 0);
  }

  lemma EmptyUsed()
    ensures Used([]) == 0
  {}

  lemma {:induction false} VisitsAt(l: Log, i: nat, j: nat)
    requires EncodableLog(l) && i + j < |l|
    ensures |Visits(l, i)| == |l| - i && Visits(l, i)[j] == VisitOf(l, i + j)
    decreases |l| - i
  {
    hide VisitOf, EncodableLog;
    VisitsLength(l, i);
    if j > 0 { VisitsAt(l, i + 1, j - 1); }
  }

  lemma {:induction false} VisitsLength(l: Log, i: nat)
    requires EncodableLog(l) && i <= |l|
    ensures |Visits(l, i)| == |l| - i
    decreases |l| - i
  {
    if i < |l| { VisitsLength(l, i + 1); }
  }

  /** Every segment file holds its log. */
  ghost predicate FilesOf(files: map<nat, SegFile>, logs: map<nat, Log>) {
    files.Keys == logs.Keys && forall id :: id in files ==> FileOf(files[id], logs[id])
  }

  function Capacities(files: map<nat, SegFile>): map<nat, nat> {
    map id | id in files :: |files[id].data|
  }

  lemma FilesFacts(files: map<nat, SegFile>, logs: map<nat, Log>, id: nat)
    requires FilesOf(files, logs) && id in logs
    ensures id in files && files[id].size == Used(logs[id]) <= |files[id].data| && files[id].Valid()
    ensures Capacities(files)[id] == |files[id].data| && EncodableLog(logs[id])
  {}

  lemma AddFile(files: map<nat, SegFile>, logs: map<nat, Log>, id: nat, capacity: nat)
    requires FilesOf(files, logs)
    ensures FilesOf(files[id := NewSegment(capacity)], logs[id := []])
    ensures Capacities(files[id := NewSegment(capacity)]) == Capacities(files)[id := capacity]
  {
    NewFile(capacity);
    hide FileOf;
  }

  lemma ShrinkFile(files: map<nat, SegFile>, logs: map<nat, Log>, id: nat)
    requires FilesOf(files, logs) && id in files
    ensures files[id].Valid() && FilesOf(files[id := files[id].Finalize()], logs)
    ensures id in logs && Capacities(files[id := files[id].Finalize()]) == Capacities(files)[id := Used(logs[id])]
  {
    hide FileOf, Used, SegFile.Valid, SegFile.Finalize;
    FileFacts(files[id], logs[id]);
    FinalizeFile(files[id], logs[id]);
    ReplaceFile(files, logs, id, files[id].Finalize());
  }

  lemma ReplaceFile(files: map<nat, SegFile>, logs: map<nat, Log>, id: nat, f: SegFile)
    requires FilesOf(files, logs) && id in files && FileOf(f, logs[id])
    ensures FilesOf(files[id := f], logs) && Capacities(files[id := f]) == Capacities(files)[id := |f.data|]
  {
    hide FileOf;
  }

  lemma GrowFile(files: map<nat, SegFile>, logs: map<nat, Log>, id: nat, r: Record)
    requires FilesOf(files, logs) && id in files && Encodable(r)
    requires files[id].size + Size(r) <= |files[id].data|
    ensures files[id].Valid() && id in logs && files[id].Append(Encode(r)).Some?
    ensures var files' := files[id := files[id].Append(Encode(r)).value];
            FilesOf(files', logs[id := logs[id] + [r]]) && Capacities(files') == Capacities(files)
  {
    FileFacts(files[id], logs[id]);
    AppendFile(files[id], logs[id], r);
    hide FileOf, Encode;
  }

  lemma DropFile(files: map<nat, SegFile>, logs: map<nat, Log>, id: nat)
    requires FilesOf(files, logs)
    ensures FilesOf(files - {id}, logs - {id}) && Capacities(files - {id}) == Capacities(files) - {id}
  {
    hide FileOf;
  }

  /** A whole pass: its rounds, then its finish, and what it reclaims. */
  lemma PassPlan(s: State, c: Contents, src: nat)
    requires Inv(s, c) && MayStart(s, src)
    ensures var s1 := Rounds(s.(pass := Some(Pass(src, 0))), |s.logs[src]|);
            CanStep(s1) && MayFinish(s1) && s1.pass.value.src == src && FullPass(s, src) == Finish(s1)
    ensures var t := FullPass(s, src); t.pass.None? && t.dead == s.dead - {src} && Total(t) <= Total(s)
    ensures Balanced(s) ==> Total(FullPass(s, src)) == Total(s) - DeadOf(s.dead, src)
  {
    hide Inv, Balanced, Total, Rounds, Finish, Accounting.Pending;
    CanStepAlways(s, c);
    PassEnds(s, c, src);
    if Balanced(s) { PassReclaims(s, c, src); }
    StartKeeps(s, c, src);
    RoundsProgress(s.(pass := Some(Pass(src, 0))), c, |s.logs[src]|);
  }

  lemma EnsureCapacityRoom(s: State, n: nat)
    requires CanStep(s) && n <= s.segSize
    ensures var t := Engine.EnsureCapacity(s, n);
            CanStep(t) && Remaining(t, t.active) >= n && t.idx == s.idx && t.dead == s.dead && t.segSize == s.segSize
  {}

  lemma EnsureCompactionCapacityRoom(s: State, n: nat)
    requires CanStep(s) && n <= s.segSize
    ensures var t := Engine.EnsureCompactionCapacity(s, n);
            && CanStep(t) && t.compactOut.Some? && Remaining(t, t.compactOut.value) >= n
            && t.idx == s.idx && t.dead == s.dead && t.segSize == s.segSize && t.pass == s.pass
  {}

  lemma RelocateFacts(s: State, c: Contents)
    requires Inv(s, c) && MayRelocate(s)
    ensures CanStep(s) && Inv(Relocate(s), c) && (Balanced(s) ==> Balanced(Relocate(s)))
    ensures var r := s.logs[s.pass.value.src][s.pass.value.next];
            Encodable(r) && 1 <= |r.key| <= MAX_KEY_LEN && Size(r) <= s.segSize
  {
    hide Inv, Balanced, Relocate, LogOk;
    CanStepAlways(s, c);
    RelocateKeeps(s, c);
    if Balanced(s) { RelocateBalanced(s, c); }
    SourceFacts(s, c);
    SizeBound(s.logs[s.pass.value.src], s.segSize, s.pass.value.next);
  }

  /** What a visit says of the record it reads. */
  lemma VisitSays(l: Log, j: nat)
    requires EncodableLog(l) && j < |l|
    ensures var v, r := VisitOf(l, j), l[j];
            && v.key == r.key && v.value == r.value && v.header == HeaderOf(r) && v.header.Tombstone() == r.tombstone
            && v.header.keyLen == |r.key| && v.header.valLen == |r.value| && v.header.timestamp == r.timestamp
            && Uint32(v.off + HEADER_SIZE + v.header.keyLen) == ValueOffset(l, j)
  {}

  /** Where the pass stands does not matter to what a relocation writes. */
  lemma CopyForwardPass(s: State, r: Record, pass: Option<Pass>)
    requires CanStep(s)
    ensures CopyForward(s.(pass := pass), r) == CopyForward(s, r).(pass := pass)
  {}

  lemma EmptyDirectory(segSize: nat)
    requires segSize <= TWO32
    ensures Inv(Open(segSize), map[]) && Balanced(Open(segSize))
    ensures FilesOf(map[0 := NewSegment(segSize)], map[0 := []])
    ensures Capacities(map[0 := NewSegment(segSize)]) == map[0 := segSize]
  {
    hide Inv, Balanced;
    RunKeeps(segSize, []);
    RunBalanced(segSize, [], 0);
    NewFile(segSize);
  }

  lemma Dropped(s: State, src: nat)
    requires MayFinish(s) && s.pass.value.src == src
    ensures Finish(s) == s.(dead := s.dead - {src}, logs := s.logs - {src}, capacity := s.capacity - {src}, pass := None)
  {}

  lemma LessDirty(s: State, t: State, src: nat)
    requires t.dead == s.dead - {src} && src in Dirty(s)
    ensures |Dirty(t)| < |Dirty(s)|
  {
    assert Dirty(t) == Dirty(s) - {src};
  }

  // ----- the object -----------------------------------------------------------------

  class DB {
    const segSize: nat
    const ratio: real
    const divide: Division
    const idx: Index
    var files: map<nat, SegFile>
    var active: nat
    var compactOut: Option<nat>
    var nextSegID: nat
    var deadBytes: map<nat, nat>
    var snapshot: Option<Bytes>  // the index snapshot file
    ghost var logs: map<nat, Log>
    ghost var pass: Option<Pass>
    ghost var contents: Contents
    ghost const exact: bool  // the dead-byte counters have been kept since the directory was empty

    ghost function Abs(): State
      reads this, idx
    {
      State(segSize, idx.model, logs, Capacities(files), active, compactOut, nextSegID, deadBytes, pass)
    }

    ghost predicate Linked()
      reads this
    {
      FilesOf(files, logs)
    }

    /** Between critical sections; a compaction pass may be under way. */
    ghost predicate Valid()
      reads this, idx, idx.slots, idx.arena
    {
      && idx.Valid() && Linked()
      && Inv(Abs(), contents) && (exact ==> Balanced(Abs()))
      && 0.0 < ratio <= 1.0 && Float64(divide)
    }

    /** A fresh directory. */
    constructor (segSize: nat, ratio: real, divide: Division, hash: Bytes -> nat)
      requires segSize <= TWO32 && 0.0 < ratio <= 1.0 && Float64(divide)
      ensures Valid() && exact && Abs() == Open(segSize) && contents == map[] && snapshot.None?
      ensures files == map[0 := SegFile(Zeros(segSize), 0)] && active == 0 && compactOut.None? && nextSegID == 1 && deadBytes == map[]
      ensures fresh(idx) && fresh(idx.slots) && fresh(idx.arena) && idx.HasRoom()
    {
      hide Inv, Balanced, FilesOf, Capacities, Index.Valid, Index.HasRoom, Arena.Filled, Float64;
      this.segSize := segSize;
      this.ratio := ratio;
      this.divide := divide;
      idx := new Index(hash);
      files := map[0 := NewSegment(segSize)];
      active := 0;
      compactOut := None;
      nextSegID := 1;
      deadBytes := map[];
      snapshot := None;
      logs := map[0 := []];
      pass := None;
      contents := map[];
      exact := true;
      new;
      EmptyDirectory(segSize);
    }

    /** What recover found: no compaction output yet, and counters that start again from nothing. */
    constructor Reopen(segSize: nat, ratio: real, divide: Division, idx: Index, files: map<nat, SegFile>, active: nat,
                       nextSegID: nat, snapshot: Option<Bytes>, ghost logs: map<nat, Log>, ghost contents: Contents)
      requires 0.0 < ratio <= 1.0 && Float64(divide) && idx.Valid() && FilesOf(files, logs)
      requires Inv(State(segSize, idx.model, logs, Capacities(files), active, None, nextSegID, map[], None), contents)
      ensures Valid() && this.idx == idx && this.contents == contents && this.snapshot == snapshot
      ensures Abs() == State(segSize, idx.model, logs, Capacities(files), active, None, nextSegID, map[], None)
    {
      hide Inv, Balanced, FilesOf, Capacities, Index.Valid;
      this.segSize, this.ratio, this.divide, this.idx, this.files := segSize, ratio, divide, idx, files;
      this.active, this.compactOut, this.nextSegID := active, None, nextSegID;
      this.deadBytes, this.snapshot := map[], snapshot;
      this.logs, this.pass, this.contents, this.exact := logs, None, contents, false;
    }

    /** ensureCapacity: refuses what no segment can hold, else rotates to a fresh active segment if the record would not fit. */
    method EnsureCapacity(recordLen: nat) returns (err: Option<Error>)
      requires Linked() && CanStep(Abs())
      modifies this`files, this`active, this`nextSegID, this`logs
      ensures Linked() && err == if recordLen > segSize then Some(RecordTooLarge) else None
      ensures Abs() == if err.None? then Engine.EnsureCapacity(old(Abs()), recordLen) else old(Abs())
    {
      hide FilesOf, Capacities, Used, NewSegment;
      if recordLen > segSize {
        return Some(RecordTooLarge);
      }
      err := None;
      FilesFacts(files, logs, active);
      if files[active].Remaining() >= recordLen {
        return;
      }
      ShrinkFile(files, logs, active);
      files := files[active := files[active].Finalize()];
      AddFile(files, logs, nextSegID, segSize);
      files := files[nextSegID := NewSegment(segSize)];
      logs := logs[nextSegID := []];
      active := nextSegID;
      nextSegID := nextSegID + 1;
    }

    /** ensureCompactionCapacity: creates the output segment on first use, rotates it once full. */
    method EnsureCompactionCapacity(recordLen: nat)
      requires Linked() && CanStep(Abs())
      modifies this`files, this`compactOut, this`nextSegID, this`logs
      ensures Linked() && Abs() == Engine.EnsureCompactionCapacity(old(Abs()), recordLen)
    {
      hide FilesOf, Capacities, Used, NewSegment;
      if compactOut.Some? {
        FilesFacts(files, logs, compactOut.value);
        if files[compactOut.value].Remaining() >= recordLen {
          return;
        }
        ShrinkFile(files, logs, compactOut.value);
        files := files[compactOut.value := files[compactOut.value].Finalize()];
      }
      AddFile(files, logs, nextSegID, segSize);
      files := files[nextSegID := NewSegment(segSize)];
      logs := logs[nextSegID := []];
      compactOut := Some(nextSegID);
      nextSegID := nextSegID + 1;
    }

    /** Appends an encoded record to a segment it fits in. */
    method AppendTo(id: nat, record: Bytes, ghost r: Record) returns (off: nat)
      requires Linked() && id in logs && Encodable(r) && record == Encode(r)
      requires Remaining(Abs(), id) >= Size(r)
      modifies this`files, this`logs
      ensures Linked() && Abs() == Append(old(Abs()), id, r)
      ensures off == Offset(logs[id], |logs[id]| - 1)
    {
      hide FilesOf, Capacities, Used, Encode;
      FilesFacts(files, logs, id);
      GrowFile(files, logs, id, r);
      off := files[id].size;
      files := files[id := files[id].Append(record).value];
      assert (logs[id] + [r])[..|logs[id]|] == logs[id];
      logs := logs[id := logs[id] + [r]];
    }

    method AddDeadBytes(segID: nat, n: nat)
      modifies this`deadBytes
      ensures deadBytes == AddDead(old(deadBytes), segID, n)
    {
      deadBytes := deadBytes[segID := (if segID in deadBytes then deadBytes[segID] else 0) + n];
    }

    /** Put inserts or overwrites key's value. */
    method Put(key: Bytes, value: Bytes, timestamp: int) returns (err: Option<Error>)
      requires Valid() && idx.HasRoom() && WellTyped(Event.Put(key, value, timestamp))
      modifies this, idx, idx.slots, idx.arena
      ensures Valid() && (idx.slots == old(idx.slots) || fresh(idx.slots))
      ensures Abs() == Step(old(Abs()), Event.Put(key, value, timestamp))
      ensures err == if |key| == 0 then Some(Error.EmptyKey) else if |key| > 65535 then Some(KeyTooLarge)
                     else if 21 + |key| + |value| > segSize then Some(RecordTooLarge) else None
      ensures contents == if err.None? then old(contents)[key := value] else old(contents)
      ensures snapshot == old(snapshot)
    {
      hide Inv, Balanced, FilesOf, PutRecord, Encode, Index.Valid;
      ghost var s, c := Abs(), contents;
      CanStepAlways(s, c);
      if |key| == 0 {
        return Some(Error.EmptyKey);
      }
      if |key| > MAX_KEY_LEN {
        return Some(KeyTooLarge);
      }
      var buf := EncodeRecord(key, value, false, timestamp);
      ghost var r := Record(key, value, false, timestamp);
      if Size(r) <= segSize {
        PutKeeps(s, c, r);
        if exact { PutBalanced(s, c, r); }
      }
      err := WriteValue(key, value, buf[..], r);
      if err.None? {
        contents := contents[key := value];
      }
    }

    /** The critical section of Put, for a record that is acceptable. */
    method WriteValue(key: Bytes, value: Bytes, record: Bytes, ghost r: Record) returns (err: Option<Error>)
      requires Linked() && CanStep(Abs()) && idx.Valid() && idx.HasRoom()
      requires Encodable(r) && !r.tombstone && r.key == key && r.value == value && record == Encode(r)
      requires 1 <= |key| <= MAX_KEY_LEN
      modifies this`files, this`active, this`nextSegID, this`logs, this`deadBytes, idx, idx.slots, idx.arena
      ensures Linked() && idx.Valid() && (idx.slots == old(idx.slots) || fresh(idx.slots))
      ensures err == if Size(r) > segSize then Some(RecordTooLarge) else None
      ensures Abs() == if err.None? then PutRecord(old(Abs()), r) else old(Abs())
    {
      hide FilesOf, Capacities, Encode, Index.Valid, Engine.EnsureCapacity, Offset;
      if Size(r) <= segSize { EnsureCapacityRoom(Abs(), Size(r)); }
      err := EnsureCapacity(|record|);
      if err.Some? {
        return;
      }
      var off := AppendTo(active, record, r);
      var valOffset := off + HEADER_SIZE + |key|;
      var loc := Location(active, Uint32(valOffset), Uint32(|value|));
      assert loc == LastLocation(Abs(), active);
      var prev := idx.Put(key, loc);
      if prev.Some? {
        AddDeadBytes(prev.value.segID, RecordSize(|key|, prev.value.valLen));
      }
    }

    /** Delete removes key; an absent key is not an error, and still logs a tombstone. */
    method Delete(key: Bytes, timestamp: int) returns (err: Option<Error>)
      requires Valid() && WellTyped(Event.Delete(key, timestamp))
      modifies this, idx, idx.slots
      ensures Valid() && idx.slots == old(idx.slots)
      ensures Abs() == Step(old(Abs()), Event.Delete(key, timestamp))
      ensures err == if |key| == 0 then Some(Error.EmptyKey) else if |key| > 65535 then Some(KeyTooLarge)
                     else if 21 + |key| > segSize then Some(RecordTooLarge) else None
      ensures contents == if err.None? then old(contents) - {key} else old(contents)
      ensures snapshot == old(snapshot)
    {
      hide Inv, Balanced, FilesOf, DeleteRecord, Encode, Index.Valid;
      ghost var s, c := Abs(), contents;
      CanStepAlways(s, c);
      if |key| == 0 {
        return Some(Error.EmptyKey);
      }
      if |key| > MAX_KEY_LEN {
        return Some(KeyTooLarge);
      }
      var buf := EncodeRecord(key, [], true, timestamp);
      ghost var r := Record(key, [], true, timestamp);
      if Size(r) <= segSize {
        DeleteKeeps(s, c, r);
        if exact { DeleteBalanced(s, c, r); }
      }
      err := WriteTombstone(key, buf[..], r);
      if err.None? {
        contents := contents - {key};
      }
    }

    /** The critical section of Delete. */
    method WriteTombstone(key: Bytes, record: Bytes, ghost r: Record) returns (err: Option<Error>)
      requires Linked() && CanStep(Abs()) && idx.Valid()
      requires Encodable(r) && r.key == key && record == Encode(r)
      modifies this`files, this`active, this`nextSegID, this`logs, this`deadBytes, idx, idx.slots
      ensures Linked() && idx.Valid() && idx.slots == old(idx.slots)
      ensures err == if Size(r) > segSize then Some(RecordTooLarge) else None
      ensures Abs() == if err.None? then DeleteRecord(old(Abs()), r) else old(Abs())
    {
      hide FilesOf, Capacities, Encode, Index.Valid, Engine.EnsureCapacity, Offset;
      if Size(r) <= segSize { EnsureCapacityRoom(Abs(), Size(r)); }
      err := EnsureCapacity(|record|);
      if err.Some? {
        return;
      }
      var off := AppendTo(active, record, r);
      AddDeadBytes(active, |record|);
      var prev := idx.Delete(key);
      if prev.Some? {
        AddDeadBytes(prev.value.segID, RecordSize(|key|, prev.value.valLen));
      }
    }

    /** Get: a copy of key's current value; the two error results cannot happen. */
    method Get(key: Bytes) returns (result: GetResult)
      requires Valid()
      ensures result == if |key| == 0 then GetResult.EmptyKey else if key in contents then Found(contents[key]) else NotFound
    {
      hide Inv, Balanced, Index.Valid, FileBytes;
      GetReadsMap(Abs(), contents, key);
      if |key| == 0 {
        return GetResult.EmptyKey;
      }
      var loc := idx.Get(key);
      if loc.None? {
        return NotFound;
      }
      if loc.value.segID !in files {
        return SegmentMissing;
      }
      var data := files[loc.value.segID].ReadAt(loc.value.valOffset, loc.value.valLen);
      if data.None? {
        return OutOfRange;
      }
      return Found(data.value);
    }

    // ----- compaction -----------------------------------------------------------------

    /** The first critical section of a pass. */
    method BeginPass(src: nat) returns (ok: bool)
      requires Valid() && pass.None? && compactOut != Some(src)
      modifies this`pass
      ensures Valid() && Abs() == Step(old(Abs()), StartPass(src)) && contents == old(contents)
      ensures ok == MayStart(old(Abs()), src)
      ensures Abs() == if ok then old(Abs()).(pass := Some(Pass(src, 0))) else old(Abs())
      ensures !ok ==> pass.None?
    {
      hide Inv, Balanced, Index.Valid, Capacities, FilesOf, CanStep, PutRecord, DeleteRecord, Relocate, Finish;
      OpenSegments();
      CanStepAlways(Abs(), contents);
      ok := src in files && src != active;
      if ok {
        StartKeeps(Abs(), contents, src);
        if exact { StartBalanced(Abs(), src); }
        pass := Some(Pass(src, 0));
      }
    }

    lemma OpenSegments()
      requires Linked()
      ensures files.Keys == logs.Keys
    {}

    /** Re-encodes a live record into the output segment and repoints the index. */
    method Copy(key: Bytes, value: Bytes, h: Header, ghost r: Record)
      requires Linked() && CanStep(Abs()) && idx.Valid() && idx.HasRoom() && key in idx.model
      requires Encodable(r) && !r.tombstone && r.key == key && r.value == value && h == HeaderOf(r)
      requires 1 <= |key| <= MAX_KEY_LEN && Size(r) <= segSize
      modifies this`files, this`compactOut, this`nextSegID, this`logs, idx, idx.slots, idx.arena
      ensures Linked() && idx.Valid() && (idx.slots == old(idx.slots) || fresh(idx.slots)) && idx.HasRoom()
      ensures Abs() == CopyForward(old(Abs()), r)
    {
      hide FilesOf, Capacities, Encode, Index.Valid, Engine.EnsureCompactionCapacity, Offset;
      EnsureCompactionCapacityRoom(Abs(), Size(r));
      EnsureCompactionCapacity(RecordSize(h.keyLen, h.valLen));
      var buf := EncodeRecord(key, value, false, h.timestamp);
      var newOff := AppendTo(compactOut.value, buf[..], r);
      var newValOffset := newOff + HEADER_SIZE + |key|;
      var loc := Location(compactOut.value, Uint32(newValOffset), h.valLen);
      assert loc == LastLocation(Abs(), compactOut.value);
      var prev := idx.Put(key, loc);
    }

    /** The critical section of one record: relocate it if the index still points at exactly it. */
    method CompactRecord(src: nat, v: Visit)
      requires Valid() && MayRelocate(Abs()) && pass.value.src == src
      requires EncodableLog(logs[src]) && v == VisitOf(logs[src], pass.value.next)
      requires idx.HasRoom()
      modifies this, idx, idx.slots, idx.arena
      ensures Valid() && (idx.slots == old(idx.slots) || fresh(idx.slots)) && idx.HasRoom()
      ensures Abs() == Relocate(old(Abs())) && contents == old(contents)
    {
      hide Inv, Balanced, FilesOf, Index.Valid, Capacities, Encode, Offset, CopyForward, LogOk, EncodableLog;
      ghost var s, c := Abs(), contents;
      ghost var r := logs[src][pass.value.next];
      RelocateFacts(s, c);
      VisitSays(logs[src], pass.value.next);
      pass := Some(Pass(src, pass.value.next + 1));
      if v.header.Tombstone() {
        return;
      }
      var cur := idx.Get(v.key);
      var wantOffset := Uint32(v.off + HEADER_SIZE + v.header.keyLen);
      if cur.None? || cur.value.segID != src || cur.value.valOffset != wantOffset {
        return;
      }
      CopyForwardPass(s, r, pass);
      Copy(v.key, v.value, v.header, r);
    }

    /** The last critical section of a pass: the source is dropped, and with it its counter. */
    method EndPass(src: nat)
      requires Valid() && MayFinish(Abs()) && pass.value.src == src
      modifies this`deadBytes, this`files, this`logs, this`pass
      ensures Valid() && Abs() == Finish(old(Abs())) && contents == old(contents) && src !in files
    {
      hide Inv, Balanced, Index.Valid, FilesOf, Capacities, Finish, MayFinish;
      ghost var s := Abs();
      FinishKeeps(s, contents);
      if exact { FinishBalanced(s); }
      Dropped(s, src);
      DropFile(files, logs, src);
      deadBytes, files, logs, pass := deadBytes - {src}, files - {src}, logs - {src}, None;
    }

    /**
     * One whole pass with no writer in between; a stale snapshot cannot survive it. Nothing happens
     * for a segment that is gone or has become the active one.
     */
    method CompactSegment(src: nat)
      requires Valid() && idx.HasRoom() && pass.None? && compactOut != Some(src)
      modifies this, idx, idx.slots, idx.arena
      ensures Valid() && (idx.slots == old(idx.slots) || fresh(idx.slots)) && idx.HasRoom()
      ensures contents == old(contents) && pass.None?
      ensures src !in old(files) || src == old(active) ==>
                Abs() == old(Abs()) && snapshot == old(snapshot) && files == old(files)
      ensures src in old(files) && src != old(active) ==> src !in files && src in old(logs)
      ensures src in old(files) && src != old(active) ==>
                && Abs() == FullPass(old(Abs()), src) && snapshot.None? && deadBytes == old(deadBytes) - {src}
                && Total(Abs()) <= Total(old(Abs()))
                && (exact ==> Total(Abs()) == Total(old(Abs())) - DeadOf(old(deadBytes), src))
    {
      hide Inv, Balanced, FilesOf, FileOf, Index.Valid, Capacities, Total;
      hide Rounds, Finish, FullPass, CanStep, Scan, Visits, Step;
      OpenSegments();
      if MayStart(Abs(), src) { PassPlan(Abs(), contents, src); }
      var ok := BeginPass(src);
      if !ok {
        return;
      }
      FileIsScanned(files, logs, src);
      CompactRecords(src, Scan(files[src].data, 0).visits);
      EndPass(src);
      OpenSegments();
      snapshot := None;
    }

    method CompactRecords(src: nat, visits: seq<Visit>)
      requires Valid() && idx.HasRoom() && pass == Some(Pass(src, 0))
      requires src in logs && EncodableLog(logs[src]) && visits == Visits(logs[src], 0)
      modifies this, idx, idx.slots, idx.arena
      ensures Valid() && (idx.slots == old(idx.slots) || fresh(idx.slots)) && idx.HasRoom()
      ensures Abs() == Rounds(old(Abs()), |visits|) && contents == old(contents)
    {
      hide Inv, Balanced, FilesOf, FileOf, Index.Valid, Capacities, Pending, Relocate, Visits, VisitOf;
      ghost var s0, c, rs := Abs(), contents, logs[src];
      VisitsLength(rs, 0);
      for i := 0 to |visits|
        invariant Valid() && contents == c && Abs() == Rounds(s0, i) && idx.HasRoom()
        invariant idx.slots == old(idx.slots) || fresh(idx.slots)
      {
        RoundsProgress(s0, c, i);
        VisitsAt(rs, 0, i);
        CompactRecord(src, visits[i]);
      }
    }

    /** pickCompactionCandidate: any candidate there is, in no particular order; one surely above the ratio is never missed. */
    method PickCompactionCandidate() returns (id: Option<nat>)
      requires Valid()
      ensures CanStep(Abs()) && files.Keys == logs.Keys
      ensures id.Some? ==> Candidate(Abs(), divide, ratio, id.value)
      ensures id.Some? ==>
                && id.value in files && id.value != active && compactOut != id && |files[id.value].data| > 0
                && !SurelyBelow(DeadOf(deadBytes, id.value), |files[id.value].data|, ratio)
      ensures id.None? ==> forall other :: other in files && other != active && compactOut != Some(other) ==>
                !SurelyAbove(DeadOf(deadBytes, other), |files[other].data|, ratio)
    {
      hide Inv, Balanced, FileOf, Index.Valid, SurelyAbove, SurelyBelow, Float64;
      CanStepAlways(Abs(), contents);
      var ids := files.Keys;
      while ids != {}
        invariant ids <= files.Keys
        invariant forall other :: other in logs && other !in ids ==> !Candidate(Abs(), divide, ratio, other)
        decreases ids
      {
        var next :| next in ids;
        ids := ids - {next};
        if next == active || compactOut == Some(next) || |files[next].data| == 0 {
          continue;
        }
        var dead := if next in deadBytes then deadBytes[next] else 0;
        if divide(dead, |files[next].data|) >= ratio {
          CandidateIff(Abs(), divide, ratio, next);
          return Some(next);
        }
      }
      forall other | other in files && other != active && compactOut != Some(other)
        ensures !SurelyAbove(DeadOf(deadBytes, other), |files[other].data|, ratio)
      {
        CandidateIff(Abs(), divide, ratio, other);
      }
      return None;
    }

    lemma StaysInFiles(before: State, fs: map<nat, SegFile>)
      requires Linked() && CanStep(Abs()) && FilesOf(fs, before.logs) && before.capacity == Capacities(fs) && CanStep(before)
      requires Between(before, Abs(), ratio) && before.segSize == segSize
      ensures forall id :: Immutable(before, id) && SurelyBelow(DeadOf(before.dead, id), |fs[id].data|, ratio) ==>
                id in files && files[id] == fs[id]
    {
      hide SurelyBelow, FileBytes, Used;
      forall id | Immutable(before, id) && SurelyBelow(DeadOf(before.dead, id), |fs[id].data|, ratio)
        ensures id in files && files[id] == fs[id]
      {
        assert SameSegment(before, Abs(), id);
        assert FileOf(fs[id], before.logs[id]) && FileOf(files[id], logs[id]);
      }
    }

    /**
     * compactNow: passes until no segment is above the ratio. Of the segments nothing was written to
     * any more, every one surely above it is gone, and every one surely below it is as it was. The
     * dirty segments bound how many passes there are.
     */
    method CompactNow()
      requires Valid() && idx.HasRoom() && pass.None?
      modifies this, idx, idx.slots, idx.arena
      ensures Valid() && contents == old(contents) && pass.None? && active == old(active)
      ensures forall id :: id in files && id != active && compactOut != Some(id) ==>
                !SurelyAbove(DeadOf(deadBytes, id), |files[id].data|, ratio)
      ensures forall id :: id in old(files) && id != active && old(compactOut) != Some(id) ==>
                var dead, size := DeadOf(old(deadBytes), id), |old(files)[id].data|;
                && (SurelyAbove(dead, size, ratio) ==> id !in files)
                && (SurelyBelow(dead, size, ratio) ==> id in files && files[id] == old(files)[id])
      ensures Total(Abs()) <= Total(old(Abs())) && deadBytes.Keys <= old(deadBytes).Keys
      ensures snapshot == old(snapshot) || snapshot.None?
      ensures snapshot.Some? ==> Abs() == old(Abs()) && files == old(files)
      ensures (forall id :: id in old(files) && id != active && old(compactOut) != Some(id) ==>
                SurelyBelow(DeadOf(old(deadBytes), id), |old(files)[id].data|, ratio))
              ==> Abs() == old(Abs()) && files == old(files) && snapshot == old(snapshot)
    {
      hide Inv, Balanced, FilesOf, Index.Valid, Total, FullPass, SurelyAbove, SurelyBelow, Between, NoneLeft, Float64, Dirty;
      ghost var before, fs, snap := Abs(), files, snapshot;
      CanStepAlways(before, contents);
      BetweenStart(before, ratio);
      while true
        invariant Valid() && contents == old(contents) && pass.None? && idx.HasRoom() && CanStep(before)
        invariant idx.slots == old(idx.slots) || fresh(idx.slots)
        invariant SoFar(before, fs, snap) && deadBytes.Keys <= old(deadBytes).Keys
        decreases |Dirty(Abs())|
      {
        var id := PickCompactionCandidate();
        if id.None? {
          Compacted(before, fs);
          return;
        }
        CandidateIsDirty(Abs(), divide, ratio, id.value);
        CompactOne(id.value, before, old(contents), fs, snap);
      }
    }

    /** How far a call of compactNow has come from where it began. */
    ghost predicate SoFar(before: State, fs: map<nat, SegFile>, snap: Option<Bytes>)
      requires CanStep(before)
      reads this, idx
    {
      && Between(before, Abs(), ratio) && Total(Abs()) <= Total(before)
      && (snapshot.None? || (Abs() == before && snapshot == snap && files == fs))
      && (AllBelow(before, ratio) ==> Abs() == before && snapshot == snap && files == fs)
    }

    /** One pass of compactNow, on a segment that is not surely below the ratio. */
    method CompactOne(src: nat, ghost before: State, ghost c: Contents, ghost fs: map<nat, SegFile>, ghost snap: Option<Bytes>)
      requires Valid() && idx.HasRoom() && pass.None? && contents == c && CanStep(before) && Inv(before, c)
      requires SoFar(before, fs, snap) && src in Dirty(Abs()) && files.Keys == logs.Keys
      requires src in files && src != active && compactOut != Some(src)
      requires !SurelyBelow(DeadOf(deadBytes, src), |files[src].data|, ratio)
      modifies this, idx, idx.slots, idx.arena
      ensures Valid() && (idx.slots == old(idx.slots) || fresh(idx.slots)) && idx.HasRoom()
      ensures pass.None? && contents == c && SoFar(before, fs, snap)
      ensures |Dirty(Abs())| < old(|Dirty(Abs())|) && deadBytes.Keys <= old(deadBytes).Keys
    {
      hide Inv, Balanced, FilesOf, Index.Valid, Total, FullPass, SurelyAbove, SurelyBelow, Between, Float64, Dirty;
      ghost var now := Abs();
      CanStepAlways(now, c);
      BetweenPass(before, now, c, c, src, ratio);
      CompactSegment(src);
      LessDirty(now, Abs(), src);
    }

    lemma Compacted(before: State, fs: map<nat, SegFile>)
      requires Linked() && CanStep(Abs()) && FilesOf(fs, before.logs) && before.capacity == Capacities(fs) && CanStep(before)
      requires Between(before, Abs(), ratio) && before.segSize == segSize
      requires forall id :: id in files && id != active && compactOut != Some(id) ==>
                 !SurelyAbove(DeadOf(deadBytes, id), |files[id].data|, ratio)
      ensures active == before.active
      ensures forall id :: id in fs && id != active && before.compactOut != Some(id) ==>
                var dead, size := DeadOf(before.dead, id), |fs[id].data|;
                && (SurelyAbove(dead, size, ratio) ==> id !in files)
                && (SurelyBelow(dead, size, ratio) ==> id in files && files[id] == fs[id])
    {
      hide SurelyAbove, SurelyBelow, FileOf, SameSegment;
      StaysInFiles(before, fs);
      assert NoneLeft(Abs(), ratio);
      forall id | Immutable(before, id) && SurelyAbove(DeadOf(before.dead, id), |fs[id].data|, ratio) ensures id !in files {
        AboveIsGone(before, Abs(), ratio, id);
      }
    }
  }
}
