/**
 * The bitcask engine as a state machine over record logs. Every Put, Delete and
 * per-record relocation is one atomic step; a compaction pass is a start, one step per
 * record of its source, and a finish, with any other steps in between.
 */
module Engine {
  import opened Bytes
  import opened Record
  import opened Segment
  import opened Index

  type Log = seq<Record>

  /** The running compaction pass: its source and how many of its records are done. */
  datatype Pass = Pass(src: nat, next: nat)

  datatype State = State(
    segSize: nat,
    idx: map<Bytes, Location>,
    logs: map<nat, Log>,      // the records of each segment
    capacity: map<nat, nat>,  // the mapped size of each segment
    active: nat,
    compactOut: Option<nat>,
    nextSegID: nat,
    dead: map<nat, nat>,
    pass: Option<Pass>)

  type Contents = map<Bytes, Bytes>

  datatype Error = EmptyKey | KeyTooLarge | RecordTooLarge

  // ----- the operations ----------------------------------------------------------

  function Remaining(s: State, id: nat): int
    requires id in s.logs && id in s.capacity
  {
    s.capacity[id] - Used(s.logs[id])
  }

  /** Rotation: the old segment, if any, shrinks to its used size and a fresh one is created. */
  function Rotate(s: State, full: Option<nat>): State
    requires full.Some? ==> full.value in s.logs
  {
    var capacity := if full.Some? then s.capacity[full.value := Used(s.logs[full.value])] else s.capacity;
    s.(logs := s.logs[s.nextSegID := []], capacity := capacity[s.nextSegID := s.segSize], nextSegID := s.nextSegID + 1)
  }

  /** Where the value of record j starts, as the uint32 the index stores. */
  function ValueOffset(rs: seq<Record>, j: nat): nat
    requires j < |rs|
  {
    Uint32(Offset(rs, j) + HEADER_SIZE + |rs[j].key|)
  }

  /** The write targets are open segments. */
  predicate CanStep(s: State) {
    && s.logs.Keys == s.capacity.Keys
    && s.active in s.logs
    && (s.compactOut.Some? ==> s.compactOut.value in s.logs)
  }

  function EnsureCapacity(s: State, recordLen: nat): State
    requires CanStep(s)
  {
    if Remaining(s, s.active) >= recordLen then s
    else Rotate(s, Some(s.active)).(active := s.nextSegID)
  }

  function EnsureCompactionCapacity(s: State, recordLen: nat): State
    requires CanStep(s)
  {
    if s.compactOut.Some? && Remaining(s, s.compactOut.value) >= recordLen then s
    else Rotate(s, s.compactOut).(compactOut := Some(s.nextSegID))
  }

  function Append(s: State, id: nat, r: Record): State
    requires id in s.logs
  {
    s.(logs := s.logs[id := s.logs[id] + [r]])
  }

  function DeadOf(dead: map<nat, nat>, id: nat): nat { if id in dead then dead[id] else 0 }

  function AddDead(dead: map<nat, nat>, id: nat, n: nat): map<nat, nat> {
    dead[id := DeadOf(dead, id) + n]
  }

  /** The record the index has for key, if any, becomes dead. */
  function AddDisplaced(dead: map<nat, nat>, idx: map<Bytes, Location>, key: Bytes): map<nat, nat> {
    if key in idx then AddDead(dead, idx[key].segID, RecordSize(|key|, idx[key].valLen)) else dead
  }

  /** The location of the last record of segment id. */
  function LastLocation(s: State, id: nat): Location
    requires id in s.logs && s.logs[id] != []
  {
    var rs := s.logs[id];
    Location(id, ValueOffset(rs, |rs| - 1), |rs[|rs| - 1].value|)
  }

  function CheckKey(key: Bytes): Option<Error> {
    if |key| == 0 then Some(Error.EmptyKey) else if |key| > MAX_KEY_LEN then Some(KeyTooLarge) else None
  }

  function Refused(s: State, r: Record): Option<Error> {
    if CheckKey(r.key).Some? then CheckKey(r.key) else if Size(r) > s.segSize then Some(RecordTooLarge) else None
  }

  /** Put, for a record that is not refused. */
  function PutRecord(s: State, r: Record): State
    requires CanStep(s)
  {
    var t := EnsureCapacity(s, Size(r));
    var u := Append(t, t.active, r);
    u.(idx := u.idx[r.key := LastLocation(u, u.active)],
       dead := AddDisplaced(u.dead, s.idx, r.key))
  }

  /** Delete, for a tombstone record that is not refused. */
  function DeleteRecord(s: State, r: Record): State
    requires CanStep(s)
  {
    var t := EnsureCapacity(s, Size(r));
    var u := Append(t, t.active, r);
    var dead := AddDead(u.dead, u.active, Size(r));
    u.(idx := u.idx - {r.key},
       dead := AddDisplaced(dead, s.idx, r.key))
  }

  /** A pass may start on an immutable segment, when no other pass runs. */
  predicate MayStart(s: State, src: nat) {
    s.pass.None? && src in s.logs && src != s.active && s.compactOut != Some(src)
  }

  /** The index still points at exactly this record of segment id. */
  predicate LiveAt(idx: map<Bytes, Location>, id: nat, rs: seq<Record>, j: nat)
    requires j < |rs|
  {
    rs[j].key in idx && idx[rs[j].key].segID == id && idx[rs[j].key].valOffset == ValueOffset(rs, j)
  }

  predicate MayRelocate(s: State) {
    s.pass.Some? && s.pass.value.src in s.logs && s.pass.value.next < |s.logs[s.pass.value.src]|
  }

  /** Appends r to the compaction output, rotating it first if full, and repoints the index. */
  function CopyForward(s: State, r: Record): State
    requires CanStep(s)
  {
    var t := EnsureCompactionCapacity(s, Size(r));
    var u := Append(t, t.compactOut.value, r);
    u.(idx := u.idx[r.key := LastLocation(u, u.compactOut.value)])
  }

  /** One critical section of the pass: relocate the next record if it is still live. */
  function Relocate(s: State): State
    requires CanStep(s) && MayRelocate(s)
  {
    var p := s.pass.value;
    var rs := s.logs[p.src];
    var r := rs[p.next];
    var t := if !r.tombstone && LiveAt(s.idx, p.src, rs, p.next) then CopyForward(s, r) else s;
    t.(pass := Some(Pass(p.src, p.next + 1)))
  }

  predicate MayFinish(s: State) {
    s.pass.Some? && s.pass.value.src in s.logs && s.pass.value.next == |s.logs[s.pass.value.src]|
  }

  function Finish(s: State): State
    requires MayFinish(s)
  {
    var src := s.pass.value.src;
    s.(dead := s.dead - {src}, logs := s.logs - {src}, capacity := s.capacity - {src}, pass := None)
  }

  /** The bytes of a segment file: the encoded records, then unwritten space. */
  function FileBytes(l: Log, capacity: nat): Bytes
    requires EncodableLog(l) && Used(l) <= capacity
  {
    EncodeAll(l) + Zeros(capacity - Used(l))
  }

  datatype GetResult = EmptyKey | Found(value: Bytes) | NotFound | SegmentMissing | OutOfRange

  /** What Get is to answer when these are the contents. */
  function Answer(c: Contents, key: Bytes): GetResult {
    if key == [] then GetResult.EmptyKey else if key in c then Found(c[key]) else NotFound
  }

  /** Get: index, segment, then the bytes at the recorded place. */
  function Get(s: State, key: Bytes): GetResult
    requires CanStep(s) && forall id :: id in s.logs ==> LogOk(s.logs[id], s.capacity[id])
  {
    if key == [] then GetResult.EmptyKey else
    if key !in s.idx then NotFound else
    var loc := s.idx[key];
    if loc.segID !in s.logs then SegmentMissing else
    assert LogOk(s.logs[loc.segID], s.capacity[loc.segID]);
    match SegFile(FileBytes(s.logs[loc.segID], s.capacity[loc.segID]), 0).ReadAt(loc.valOffset, loc.valLen)
    case None => OutOfRange
    case Some(data) => Found(data)
  }

  // ----- runs ----------------------------------------------------------------------

  datatype Event =
    | Put(key: Bytes, value: Bytes, timestamp: int)
    | Delete(key: Bytes, timestamp: int)
    | StartPass(src: nat)
    | RelocateNext
    | FinishPass

  function Open(segSize: nat): State {
    State(segSize, map[], map[0 := []], map[0 := segSize], 0, None, 1, map[], None)
  }

  /** A refused or disabled step changes nothing. */
  function Step(s: State, e: Event): State {
    if !CanStep(s) then s else
    match e
    case Put(key, value, ts) =>
      var r := Record(key, value, false, ts);
      if Refused(s, r).Some? then s else PutRecord(s, r)
    case Delete(key, ts) =>
      var r := Record(key, [], true, ts);
      if Refused(s, r).Some? then s else DeleteRecord(s, r)
    case StartPass(src) =>
      if MayStart(s, src) then s.(pass := Some(Pass(src, 0))) else s
    case RelocateNext =>
      if MayRelocate(s) then Relocate(s) else s
    case FinishPass =>
      if MayFinish(s) then Finish(s) else s
  }

  /** What the same step does to the abstract map. */
  function MapStep(segSize: nat, c: Contents, e: Event): Contents {
    match e
    case Put(key, value, ts) =>
      if CheckKey(key).Some? || RecordSize(|key|, |value|) > segSize then c else c[key := value]
    case Delete(key, ts) =>
      if CheckKey(key).Some? || RecordSize(|key|, 0) > segSize then c else c - {key}
    case _ => c
  }

  predicate WellTyped(e: Event) {
    match e
    case Put(key, value, ts) => |value| < TWO32 && -0x8000_0000_0000_0000 <= ts < 0x8000_0000_0000_0000
    case Delete(key, ts) => -0x8000_0000_0000_0000 <= ts < 0x8000_0000_0000_0000
    case _ => true
  }

  /** The state after any interleaving of writers with the steps of compaction passes. */
  function Run(segSize: nat, es: seq<Event>): State {
    if es == [] then Open(segSize) else Step(Run(segSize, es[..|es| - 1]), es[|es| - 1])
  }

  function MapRun(segSize: nat, es: seq<Event>): Contents {
    if es == [] then map[] else MapStep(segSize, MapRun(segSize, es[..|es| - 1]), es[|es| - 1])
  }

  // ----- the invariant -----------------------------------------------------------------

  /** Record j of rs is the value v of key k, at the place loc names. */
  ghost predicate PointsInto(rs: seq<Record>, j: int, k: Bytes, v: Bytes, loc: Location) {
    && 0 <= j < |rs| && rs[j].key == k && !rs[j].tombstone && rs[j].value == v
    && loc.valOffset == ValueOffset(rs, j) && loc.valLen == |v|
  }

  ghost predicate Placed(rs: seq<Record>, lo: nat, k: Bytes, v: Bytes, loc: Location) {
    exists j :: lo <= j && PointsInto(rs, j, k, v, loc)
  }

  ghost predicate LogOk(l: Log, capacity: nat) {
    && EncodableLog(l)
    && Used(l) <= capacity
    && (forall j :: 0 <= j < |l| ==> 1 <= |l[j].key| <= MAX_KEY_LEN)
  }

  /** The segments records are written to. */
  function Targets(s: State): set<nat> {
    if s.compactOut.Some? then {s.active, s.compactOut.value} else {s.active}
  }

  /** Segment ids are below the next one to be given out, and only write targets may have unwritten space. */
  ghost predicate SegmentsOk(logs: map<nat, Log>, capacity: map<nat, nat>, segSize: nat, nextSegID: nat,
        targets: set<nat>) {
    && logs.Keys == capacity.Keys
    && forall id :: id in logs ==>
         && id < nextSegID && LogOk(logs[id], segSize)
         && (if id in targets then Used(logs[id]) <= capacity[id] <= segSize else capacity[id] == Used(logs[id]))
  }

  ghost predicate Structure(s: State) {
    && s.segSize <= TWO32
    && CanStep(s) && s.compactOut != Some(s.active)
    && SegmentsOk(s.logs, s.capacity, s.segSize, s.nextSegID, Targets(s))
    && (s.pass.Some? ==> s.pass.value.src in s.logs && s.pass.value.src !in Targets(s)
                         && s.pass.value.next <= |s.logs[s.pass.value.src]|)
  }

  /** The records of segment id that a running pass has already handled come before this one. */
  function Floor(pass: Option<Pass>, id: nat): nat {
    if pass.Some? && pass.value.src == id then pass.value.next else 0
  }

  /**
   * Every key of the map is indexed at a live record holding its value, at one the
   * running pass has not handled yet, and nothing else is indexed.
   */
  ghost predicate Pointers(idx: map<Bytes, Location>, logs: map<nat, Log>, pass: Option<Pass>, c: Contents) {
    && idx.Keys == c.Keys
    && forall k :: k in idx ==>
         idx[k].segID in logs && Placed(logs[idx[k].segID], Floor(pass, idx[k].segID), k, c[k], idx[k])
  }

  ghost predicate Inv(s: State, c: Contents) {
    Structure(s) && Pointers(s.idx, s.logs, s.pass, c)
  }

  // ----- offsets within a log --------------------------------------------------------------

  /** Value offsets determine the record, even as uint32: the one that can wrap is an empty value at 2^32. */
  lemma ValueOffsetInjective(rs: seq<Record>, i: nat, j: nat)
    requires Used(rs) <= TWO32 && i < |rs| && j < |rs|
    requires ValueOffset(rs, i) == ValueOffset(rs, j)
    ensures i == j
  {
    if i < j {
      ValueOffsetOrder(rs, i, j);
    } else if j < i {
      ValueOffsetOrder(rs, j, i);
    }
  }

  lemma ValueOffsetOrder(rs: seq<Record>, i: nat, j: nat)
    requires Used(rs) <= TWO32 && i < j < |rs|
    ensures ValueOffset(rs, i) != ValueOffset(rs, j)
  {
    OffsetNext(rs, i);
    OffsetMonotone(rs, i + 1, j);
    OffsetNext(rs, j);
    OffsetMonotone(rs, j + 1, |rs|);
    hide Offset, Used, Uint32;
  }

  lemma AppendKeepsOffsets(rs: seq<Record>, r: Record, j: nat)
    requires j < |rs|
    ensures ValueOffset(rs + [r], j) == ValueOffset(rs, j)
  {
    assert (rs + [r])[..j] == rs[..j];
  }

  lemma UsedAppend(rs: seq<Record>, r: Record)
    ensures Used(rs + [r]) == Used(rs) + Size(r)
  {}

  // ----- every step keeps the invariant ---------------------------------------------------

  lemma PointsIntoPrefix(rs: seq<Record>, rs': seq<Record>, j: int, k: Bytes, v: Bytes, loc: Location)
    requires rs <= rs' && PointsInto(rs, j, k, v, loc)
    ensures PointsInto(rs', j, k, v, loc)
  {
    assert rs'[..j] == rs[..j];
  }

  /** Logs that only grow keep every pointer. */
  lemma PointersGrow(idx: map<Bytes, Location>, logs: map<nat, Log>, logs': map<nat, Log>,
        pass: Option<Pass>, c: Contents)
    requires Pointers(idx, logs, pass, c)
    requires forall id :: id in logs ==> id in logs' && logs[id] <= logs'[id]
    ensures Pointers(idx, logs', pass, c)
  {
    forall k | k in idx
      ensures idx[k].segID in logs' && Placed(logs'[idx[k].segID], Floor(pass, idx[k].segID), k, c[k], idx[k])
    {
      var id := idx[k].segID;
      var j :| Floor(pass, id) <= j && PointsInto(logs[id], j, k, c[k], idx[k]);
      PointsIntoPrefix(logs[id], logs'[id], j, k, c[k], idx[k]);
    }
  }

  lemma RotateSegments(logs: map<nat, Log>, capacity: map<nat, nat>, segSize: nat, next: nat,
        targets: set<nat>, full: Option<nat>)
    requires SegmentsOk(logs, capacity, segSize, next, targets)
    requires full.Some? ==> full.value in logs
    ensures next !in logs
    ensures var capacity' := if full.Some? then capacity[full.value := Used(logs[full.value])] else capacity;
            var targets' := if full.Some? then targets - {full.value} else targets;
            SegmentsOk(logs[next := []], capacity'[next := segSize], segSize, next + 1, targets' + {next})
  {
    assert LogOk([], segSize);
    hide LogOk, Used;
  }

  lemma RotatePointers(s: State, c: Contents, full: Option<nat>)
    requires Inv(s, c) && (full.Some? ==> full.value in s.logs)
    ensures Pointers(s.idx, Rotate(s, full).logs, s.pass, c)
  {
    hide PointsInto, LogOk, Used;
    PointersGrow(s.idx, s.logs, Rotate(s, full).logs, s.pass, c);
  }

  lemma UsedNone()
    ensures Used([]) == 0
  {}

  /** Which segments are write targets after a rotation of this one. */
  lemma RotatedTargets(s: State, full: Option<nat>)
    requires CanStep(s) && s.compactOut != Some(s.active) && s.nextSegID !in s.logs
    requires full == Some(s.active) || full == s.compactOut
    ensures var kept := if full.Some? then Targets(s) - {full.value} else Targets(s);
            kept + {s.nextSegID} == if full == Some(s.active) then Targets(s.(active := s.nextSegID))
                                    else Targets(s.(compactOut := Some(s.nextSegID)))
    ensures forall id :: id in Targets(s) ==> id in s.logs
  {}

  lemma EnsureCapacityKeeps(s: State, c: Contents, n: nat)
    requires Inv(s, c) && n <= s.segSize
    ensures var t := EnsureCapacity(s, n);
            Inv(t, c) && Remaining(t, t.active) >= n
  {
    hide SegmentsOk, Pointers, Used, Targets;
    if Remaining(s, s.active) < n {
      RotateSegments(s.logs, s.capacity, s.segSize, s.nextSegID, Targets(s), Some(s.active));
      RotatePointers(s, c, Some(s.active));
      RotatedTargets(s, Some(s.active));
      SameTargets(s.(active := s.nextSegID), EnsureCapacity(s, n));
      SourceApart(s);
      UsedNone();
    }
  }

  lemma SameTargets(s: State, t: State)
    requires s.active == t.active && s.compactOut == t.compactOut
    ensures Targets(s) == Targets(t)
  {}

  /** A pass never writes to its own source, whatever is rotated in. */
  lemma SourceApart(s: State)
    requires Structure(s) && s.nextSegID !in s.logs
    ensures s.pass.Some? ==> s.pass.value.src !in Targets(s.(active := s.nextSegID))
                             && s.pass.value.src !in Targets(s.(compactOut := Some(s.nextSegID)))
  {
    hide SegmentsOk;
  }

  lemma EnsureCompactionCapacityKeeps(s: State, c: Contents, n: nat)
    requires Inv(s, c) && n <= s.segSize
    ensures var t := EnsureCompactionCapacity(s, n);
            Inv(t, c) && t.compactOut.Some? && Remaining(t, t.compactOut.value) >= n
  {
    hide SegmentsOk, Pointers, Used, Targets;
    if s.compactOut.None? || Remaining(s, s.compactOut.value) < n {
      RotateSegments(s.logs, s.capacity, s.segSize, s.nextSegID, Targets(s), s.compactOut);
      RotatePointers(s, c, s.compactOut);
      RotatedTargets(s, s.compactOut);
      SameTargets(s.(compactOut := Some(s.nextSegID)), EnsureCompactionCapacity(s, n));
      SourceApart(s);
      UsedNone();
    }
  }

  lemma LogOkAppend(l: Log, capacity: nat, r: Record)
    requires LogOk(l, capacity) && Used(l) + Size(r) <= capacity
    requires Encodable(r) && 1 <= |r.key| <= MAX_KEY_LEN
    ensures LogOk(l + [r], capacity)
  {}

  lemma AppendSegments(logs: map<nat, Log>, capacity: map<nat, nat>, segSize: nat, next: nat,
        targets: set<nat>, id: nat, r: Record)
    requires SegmentsOk(logs, capacity, segSize, next, targets)
    requires id in logs && id in targets && capacity[id] - Used(logs[id]) >= Size(r)
    requires Encodable(r) && 1 <= |r.key| <= MAX_KEY_LEN
    ensures SegmentsOk(logs[id := logs[id] + [r]], capacity, segSize, next, targets)
  {
    LogOkAppend(logs[id], segSize, r);
    hide LogOk, Used;
  }

  lemma AppendKeeps(s: State, c: Contents, id: nat, r: Record)
    requires Inv(s, c) && id in s.logs && id in Targets(s) && Remaining(s, id) >= Size(r)
    requires Encodable(r) && 1 <= |r.key| <= MAX_KEY_LEN
    ensures Inv(Append(s, id, r), c)
  {
    AppendSegments(s.logs, s.capacity, s.segSize, s.nextSegID, Targets(s), id, r);
    PointersGrow(s.idx, s.logs, Append(s, id, r).logs, s.pass, c);
    hide SegmentsOk, Pointers, Used;
  }

  lemma PointersPut(idx: map<Bytes, Location>, logs: map<nat, Log>, pass: Option<Pass>, c: Contents,
        k: Bytes, v: Bytes, loc: Location)
    requires Pointers(idx, logs, pass, c)
    requires loc.segID in logs && Placed(logs[loc.segID], Floor(pass, loc.segID), k, v, loc)
    ensures Pointers(idx[k := loc], logs, pass, c[k := v])
  {
    hide Placed, Floor;
  }

  /** Indexing the last record of a write target. */
  lemma IndexKeeps(s: State, c: Contents, id: nat, dead: map<nat, nat>)
    requires Inv(s, c) && id in Targets(s) && s.logs[id] != []
    requires var r := s.logs[id][|s.logs[id]| - 1]; !r.tombstone
    ensures var r := s.logs[id][|s.logs[id]| - 1];
            Inv(s.(idx := s.idx[r.key := LastLocation(s, id)], dead := dead), c[r.key := r.value])
  {
    var rs := s.logs[id];
    var r := rs[|rs| - 1];
    assert PointsInto(rs, |rs| - 1, r.key, r.value, LastLocation(s, id));
    PointersPut(s.idx, s.logs, s.pass, c, r.key, r.value, LastLocation(s, id));
    hide Pointers, SegmentsOk;
  }

  lemma PointersRemove(idx: map<Bytes, Location>, logs: map<nat, Log>, pass: Option<Pass>, c: Contents, k: Bytes)
    requires Pointers(idx, logs, pass, c)
    ensures Pointers(idx - {k}, logs, pass, c - {k})
  {
    hide Placed, Floor;
  }

  lemma UnindexKeeps(s: State, c: Contents, key: Bytes, dead: map<nat, nat>)
    requires Inv(s, c)
    ensures Inv(s.(idx := s.idx - {key}, dead := dead), c - {key})
  {
    PointersRemove(s.idx, s.logs, s.pass, c, key);
    hide Pointers, SegmentsOk;
  }

  lemma CanStepAlways(s: State, c: Contents)
    requires Inv(s, c)
    ensures CanStep(s)
  {}

  /** Appending a record to a write target and indexing it. */
  lemma WriteKeeps(s: State, c: Contents, id: nat, r: Record, dead: map<nat, nat>)
    requires Inv(s, c) && id in Targets(s) && id in s.logs && id in s.capacity && Remaining(s, id) >= Size(r)
    requires Encodable(r) && 1 <= |r.key| <= MAX_KEY_LEN && !r.tombstone
    ensures var u := Append(s, id, r);
            Inv(u.(idx := u.idx[r.key := LastLocation(u, id)], dead := dead), c[r.key := r.value])
  {
    hide Inv;
    AppendKeeps(s, c, id, r);
    IndexKeeps(Append(s, id, r), c, id, dead);
  }

  lemma PutKeeps(s: State, c: Contents, r: Record)
    requires Inv(s, c) && Encodable(r) && !r.tombstone && Refused(s, r).None?
    ensures CanStep(s) && Inv(PutRecord(s, r), c[r.key := r.value])
  {
    CanStepAlways(s, c);
    EnsureCapacityKeeps(s, c, Size(r));
    var t := EnsureCapacity(s, Size(r));
    CanStepAlways(t, c);
    hide Inv, EnsureCapacity;
    WriteKeeps(t, c, t.active, r, PutRecord(s, r).dead);
  }

  lemma DeleteKeeps(s: State, c: Contents, r: Record)
    requires Inv(s, c) && Encodable(r) && Refused(s, r).None?
    ensures CanStep(s) && Inv(DeleteRecord(s, r), c - {r.key})
  {
    CanStepAlways(s, c);
    EnsureCapacityKeeps(s, c, Size(r));
    var t := EnsureCapacity(s, Size(r));
    CanStepAlways(t, c);
    hide Inv, EnsureCapacity;
    AppendKeeps(t, c, t.active, r);
    UnindexKeeps(Append(t, t.active, r), c, r.key, DeleteRecord(s, r).dead);
  }

  lemma StartKeeps(s: State, c: Contents, src: nat)
    requires Inv(s, c) && MayStart(s, src)
    ensures Inv(s.(pass := Some(Pass(src, 0))), c)
  {
    hide Placed, SegmentsOk;
  }

  /** A live record holds the value the map has for its key. */
  lemma LiveRecordValue(s: State, c: Contents, id: nat, j: nat)
    requires Inv(s, c) && id in s.logs && j < |s.logs[id]| && LiveAt(s.idx, id, s.logs[id], j)
    ensures var r := s.logs[id][j]; r.key in c && !r.tombstone && c[r.key] == r.value
    ensures Floor(s.pass, id) <= j
  {
    var k, rs := s.logs[id][j].key, s.logs[id];
    assert Placed(rs, Floor(s.pass, id), k, c[k], s.idx[k]);
    var i :| Floor(s.pass, id) <= i && PointsInto(rs, i, k, c[k], s.idx[k]);
    assert LogOk(rs, s.segSize);
    hide Used, Offset, ValueOffset, LogOk;
    ValueOffsetInjective(rs, i, j);
  }

  lemma AdvancePointer(s: State, c: Contents, k: Bytes)
    requires Inv(s, c) && MayRelocate(s) && k in s.idx && s.idx[k].segID == s.pass.value.src
    requires var p := s.pass.value; !LiveAt(s.idx, p.src, s.logs[p.src], p.next) || s.logs[p.src][p.next].tombstone
    ensures k in c && Placed(s.logs[s.pass.value.src], s.pass.value.next + 1, k, c[k], s.idx[k])
  {
    hide Structure, ValueOffset;
    var p := s.pass.value;
    assert Placed(s.logs[p.src], p.next, k, c[k], s.idx[k]);
    var j :| p.next <= j && PointsInto(s.logs[p.src], j, k, c[k], s.idx[k]);
    assert j != p.next;
  }

  lemma AdvancePointers(idx: map<Bytes, Location>, logs: map<nat, Log>, p: Pass, c: Contents)
    requires Pointers(idx, logs, Some(p), c) && p.src in logs
    requires forall k :: k in idx && idx[k].segID == p.src ==> Placed(logs[p.src], p.next + 1, k, c[k], idx[k])
    ensures Pointers(idx, logs, Some(Pass(p.src, p.next + 1)), c)
  {
    hide Placed;
  }

  /** Nothing but the next record's own key can point at the next record. */
  lemma AdvanceKeeps(s: State, c: Contents)
    requires Inv(s, c) && MayRelocate(s)
    requires var p := s.pass.value; !LiveAt(s.idx, p.src, s.logs[p.src], p.next) || s.logs[p.src][p.next].tombstone
    ensures Inv(s.(pass := Some(Pass(s.pass.value.src, s.pass.value.next + 1))), c)
  {
    hide Pointers, Placed, SegmentsOk, LiveAt;
    var p := s.pass.value;
    forall k | k in s.idx && s.idx[k].segID == p.src ensures k in c && Placed(s.logs[p.src], p.next + 1, k, c[k], s.idx[k]) {
      AdvancePointer(s, c, k);
    }
    AdvancePointers(s.idx, s.logs, p, c);
    SameTargets(s, s.(pass := Some(Pass(p.src, p.next + 1))));
  }

  lemma SizeBound(l: Log, capacity: nat, j: nat)
    requires LogOk(l, capacity) && j < |l|
    ensures Encodable(l[j]) && 1 <= |l[j].key| <= MAX_KEY_LEN && Size(l[j]) <= capacity
  {
    OffsetNext(l, j);
    OffsetMonotone(l, j + 1, |l|);
  }

  /** Copying a live record forward changes where its key points, not what it means. */
  lemma CopyForwardKeeps(s: State, c: Contents, r: Record)
    requires Inv(s, c) && CanStep(s) && Encodable(r) && 1 <= |r.key| <= MAX_KEY_LEN && Size(r) <= s.segSize
    requires !r.tombstone && r.key in c && c[r.key] == r.value
    ensures var v := CopyForward(s, r);
            Inv(v, c) && v.pass == s.pass && v.compactOut.Some? && v.idx[r.key].segID == v.compactOut.value
  {
    hide Inv, EnsureCompactionCapacity, LastLocation;
    EnsureCompactionCapacityKeeps(s, c, Size(r));
    var t := EnsureCompactionCapacity(s, Size(r));
    CanStepAlways(t, c);
    OutputIsTarget(s, Size(r));
    var u := Append(t, t.compactOut.value, r);
    WriteKeeps(t, c, t.compactOut.value, r, u.dead);
    assert c[r.key := r.value] == c;
    LastLocationIn(u, u.compactOut.value);
  }

  lemma OutputIsTarget(s: State, n: nat)
    requires CanStep(s)
    ensures var t := EnsureCompactionCapacity(s, n);
            t.pass == s.pass && t.compactOut.Some? && t.compactOut.value in Targets(t)
  {
    hide Used;
  }

  lemma LastLocationIn(s: State, id: nat)
    requires id in s.logs && s.logs[id] != []
    ensures LastLocation(s, id).segID == id
  {}

  lemma RelocateKeeps(s: State, c: Contents)
    requires Inv(s, c) && MayRelocate(s)
    ensures CanStep(s) && Inv(Relocate(s), c)
  {
    hide Inv, CopyForward, ValueOffset;
    CanStepAlways(s, c);
    SourceFacts(s, c);
    var p := s.pass.value;
    var rs := s.logs[p.src];
    var r := rs[p.next];
    if !r.tombstone && LiveAt(s.idx, p.src, rs, p.next) {
      LiveRecordValue(s, c, p.src, p.next);
      SizeBound(rs, s.segSize, p.next);
      CopyForwardKeeps(s, c, r);
      SourceUntouched(s, c, r);
      SourceFacts(CopyForward(s, r), c);
      AdvanceKeeps(CopyForward(s, r), c);
    } else {
      AdvanceKeeps(s, c);
    }
  }

  lemma SourceUntouched(s: State, c: Contents, r: Record)
    requires Inv(s, c) && CanStep(s) && s.pass.Some?
    ensures var src := s.pass.value.src;
            src in s.logs && src in CopyForward(s, r).logs && CopyForward(s, r).logs[src] == s.logs[src]
  {
    hide LogOk, Used, Pointers;
  }

  /** What the invariant says of a running pass. */
  lemma SourceFacts(s: State, c: Contents)
    requires Inv(s, c) && s.pass.Some?
    ensures var src := s.pass.value.src;
            && src in s.logs && src !in Targets(s) && src < s.nextSegID && LogOk(s.logs[src], s.segSize)
            && s.segSize <= TWO32 && s.pass.value.next <= |s.logs[src]|
  {
    hide LogOk, Pointers, Used;
  }

  /** Nothing points into a source that has been handled to its end. */
  lemma SourceUnused(s: State, c: Contents, k: Bytes)
    requires Inv(s, c) && MayFinish(s) && k in s.idx
    ensures s.idx[k].segID != s.pass.value.src
  {}

  lemma DropPointers(idx: map<Bytes, Location>, logs: map<nat, Log>, p: Pass, c: Contents)
    requires Pointers(idx, logs, Some(p), c) && forall k :: k in idx ==> idx[k].segID != p.src
    ensures Pointers(idx, logs - {p.src}, None, c)
  {
    hide Placed;
  }

  lemma DropSegment(logs: map<nat, Log>, capacity: map<nat, nat>, segSize: nat, next: nat, targets: set<nat>, src: nat)
    requires SegmentsOk(logs, capacity, segSize, next, targets) && src !in targets
    ensures SegmentsOk(logs - {src}, capacity - {src}, segSize, next, targets)
  {
    hide LogOk, Used;
  }

  lemma FinishKeeps(s: State, c: Contents)
    requires Inv(s, c) && MayFinish(s)
    ensures Inv(Finish(s), c)
  {
    hide Pointers, SegmentsOk;
    var p := s.pass.value;
    forall k | k in s.idx ensures s.idx[k].segID != p.src {
      SourceUnused(s, c, k);
    }
    DropPointers(s.idx, s.logs, p, c);
    DropSegment(s.logs, s.capacity, s.segSize, s.nextSegID, Targets(s), p.src);
    SameTargets(s, Finish(s));
  }

  lemma StepSegSize(s: State, e: Event)
    requires CanStep(s)
    ensures Step(s, e).segSize == s.segSize
  {
    hide Used, LastLocation, AddDisplaced, AddDead, LiveAt;
  }

  lemma PutStepKeeps(s: State, c: Contents, key: Bytes, value: Bytes, ts: int)
    requires Inv(s, c) && WellTyped(Put(key, value, ts))
    ensures CanStep(s) && Inv(Step(s, Put(key, value, ts)), MapStep(s.segSize, c, Put(key, value, ts)))
  {
    CanStepAlways(s, c);
    hide Inv, CanStep, PutRecord, CheckKey;
    var r := Record(key, value, false, ts);
    if Refused(s, r).None? {
      KeyFitsRecord(s, r);
      PutKeeps(s, c, r);
    }
  }

  lemma DeleteStepKeeps(s: State, c: Contents, key: Bytes, ts: int)
    requires Inv(s, c) && WellTyped(Delete(key, ts))
    ensures CanStep(s) && Inv(Step(s, Delete(key, ts)), MapStep(s.segSize, c, Delete(key, ts)))
  {
    CanStepAlways(s, c);
    hide Inv, CanStep, DeleteRecord, CheckKey;
    var r := Record(key, [], true, ts);
    if Refused(s, r).None? {
      KeyFitsRecord(s, r);
      DeleteKeeps(s, c, r);
    }
  }

  lemma KeyFitsRecord(s: State, r: Record)
    requires Refused(s, r).None?
    ensures 1 <= |r.key| <= MAX_KEY_LEN && CheckKey(r.key).None? && Size(r) <= s.segSize
  {}

  lemma PassStepKeeps(s: State, c: Contents, e: Event)
    requires Inv(s, c) && !e.Put? && !e.Delete?
    ensures CanStep(s) && Inv(Step(s, e), c)
  {
    CanStepAlways(s, c);
    hide Inv, CanStep, PutRecord, DeleteRecord, Relocate, Finish;
    match e
    case StartPass(src) =>
      if MayStart(s, src) { StartKeeps(s, c, src); }
    case RelocateNext =>
      if MayRelocate(s) { RelocateKeeps(s, c); }
    case FinishPass =>
      if MayFinish(s) { FinishKeeps(s, c); }
  }

  lemma StepKeeps(s: State, c: Contents, e: Event)
    requires Inv(s, c) && WellTyped(e)
    ensures CanStep(s) && Inv(Step(s, e), MapStep(s.segSize, c, e)) && Step(s, e).segSize == s.segSize
  {
    hide Inv, CanStep, Step;
    CanStepAlways(s, c);
    StepSegSize(s, e);
    match e
    case Put(key, value, ts) => PutStepKeeps(s, c, key, value, ts);
    case Delete(key, ts) => DeleteStepKeeps(s, c, key, ts);
    case _ => PassStepKeeps(s, c, e);
  }

  // ----- the main results -----------------------------------------------------------------

  lemma LogsAreOk(s: State, c: Contents)
    requires Inv(s, c)
    ensures CanStep(s) && s.segSize <= TWO32
    ensures forall id :: id in s.logs ==> LogOk(s.logs[id], s.capacity[id]) && s.capacity[id] <= TWO32
  {}

  /** Every key of the map is indexed, at a record with its value. */
  lemma IndexedAt(s: State, c: Contents, key: Bytes) returns (j: nat)
    requires Inv(s, c) && key in c
    ensures key in s.idx && s.idx[key].segID in s.logs && PointsInto(s.logs[s.idx[key].segID], j, key, c[key], s.idx[key])
  {
    hide Structure, PointsInto;
    var id := s.idx[key].segID;
    assert Placed(s.logs[id], Floor(s.pass, id), key, c[key], s.idx[key]);
    j :| Floor(s.pass, id) <= j && PointsInto(s.logs[id], j, key, c[key], s.idx[key]);
  }

  lemma NoEmptyKey(s: State, c: Contents)
    requires Inv(s, c)
    ensures [] !in c
  {
    hide Inv;
    forall k | k in c ensures |k| >= 1 { KeysNotEmpty(s, c, k); }
  }

  lemma KeysNotEmpty(s: State, c: Contents, k: Bytes)
    requires Inv(s, c) && k in c
    ensures |k| >= 1
  {
    var j := IndexedAt(s, c, k);
    var rs := s.logs[s.idx[k].segID];
    assert LogOk(rs, s.segSize);
  }

  lemma NotIndexed(s: State, c: Contents, key: Bytes)
    requires Inv(s, c) && key !in c
    ensures key !in s.idx
  {
    hide Structure, Placed;
  }

  /** Get reads exactly the map: in particular a live key's segment is never missing. */
  lemma GetReadsMap(s: State, c: Contents, key: Bytes)
    requires Inv(s, c)
    ensures CanStep(s) && forall id :: id in s.logs ==> LogOk(s.logs[id], s.capacity[id])
    ensures Get(s, key) == Answer(c, key)
  {
    hide Inv, LogOk, FileBytes, ValueOffset;
    LogsAreOk(s, c);
    if key in c {
      var j := IndexedAt(s, c, key);
      var id := s.idx[key].segID;
      ReadValue(s.logs[id], s.capacity[id], j);
    } else {
      NotIndexed(s, c, key);
    }
  }

  lemma ReadRecordValue(data: Bytes, off: nat, r: Record)
    requires Encodable(r) && off + Size(r) <= |data| && data[off..off + Size(r)] == Encode(r)
    ensures data[off + HEADER_SIZE + |r.key|..off + Size(r)] == r.value
  {}

  lemma ReadValueInPlace(data: Bytes, rs: Log, j: nat)
    requires Holds(data, rs) && j < |rs|
    ensures var at := Offset(rs, j) + HEADER_SIZE + |rs[j].key|;
            at + |rs[j].value| <= |data| && data[at..at + |rs[j].value|] == rs[j].value
  {
    assert Encodable(rs[j]);
    RecordInPlace(data, rs, j);
    hide Holds, Offset, Used;
    ReadRecordValue(data, Offset(rs, j), rs[j]);
  }

  lemma FileHoldsLog(rs: Log, capacity: nat)
    requires EncodableLog(rs) && Used(rs) <= capacity
    ensures Holds(FileBytes(rs, capacity), rs) && |FileBytes(rs, capacity)| == capacity
  {
    hide EncodeAll, Used;
  }

  /** The one offset that wraps, 2^32, belongs to an empty value, which reads the same at offset 0. */
  lemma ReadValue(rs: Log, capacity: nat, j: nat)
    requires LogOk(rs, capacity) && capacity <= TWO32 && j < |rs|
    ensures var off := ValueOffset(rs, j); var n := |rs[j].value|;
            off + n <= capacity == |FileBytes(rs, capacity)| && FileBytes(rs, capacity)[off..off + n] == rs[j].value
  {
    FileHoldsLog(rs, capacity);
    hide FileBytes, Offset, Used, Holds, Uint32, EncodableLog;
    ReadValueInPlace(FileBytes(rs, capacity), rs, j);
  }

  lemma {:induction false} RunKeeps(segSize: nat, es: seq<Event>)
    requires segSize <= TWO32 && forall i :: 0 <= i < |es| ==> WellTyped(es[i])
    ensures Inv(Run(segSize, es), MapRun(segSize, es)) && Run(segSize, es).segSize == segSize
  {
    if es != [] {
      RunKeeps(segSize, es[..|es| - 1]);
      StepKeeps(Run(segSize, es[..|es| - 1]), MapRun(segSize, es[..|es| - 1]), es[|es| - 1]);
    }
  }

  /**
   * In every reachable state Get agrees with the map on every key, so the
   * "segment missing for a live key" and out-of-range errors cannot happen.
   */
  lemma EveryRunReadsTheMap(segSize: nat, es: seq<Event>, key: Bytes)
    requires segSize <= TWO32 && forall i :: 0 <= i < |es| ==> WellTyped(es[i])
    ensures var s := Run(segSize, es);
            CanStep(s) && forall id :: id in s.logs ==> LogOk(s.logs[id], s.capacity[id])
    ensures Get(Run(segSize, es), key) == Answer(MapRun(segSize, es), key)
  {
    RunKeeps(segSize, es);
    hide Run, MapRun, Inv, Get, Answer;
    GetReadsMap(Run(segSize, es), MapRun(segSize, es), key);
  }
}
