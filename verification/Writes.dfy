/**
 * What writes come to, in lengths and bytes alone: which are accepted, what Get answers after each
 * step of any run, where the records go, and that every record is one that was written.
 */
module Writes {
  import opened Bytes
  import opened Record
  import opened Segment
  import opened Index
  import opened Engine

  // ----- what is accepted -----------------------------------------------------------------

  /** A store with segments of this size takes the key and value. */
  predicate Accepted(segSize: nat, keyLen: nat, valueLen: nat) {
    1 <= keyLen <= 65535 && 21 + keyLen + valueLen <= segSize
  }

  lemma RefusedIs(s: State, r: Record)
    ensures Refused(s, r) == if |r.key| == 0 then Some(Error.EmptyKey) else if |r.key| > 65535 then Some(KeyTooLarge)
                             else if 21 + |r.key| + |r.value| > s.segSize then Some(RecordTooLarge) else None
    ensures Refused(s, r).None? <==> Accepted(s.segSize, |r.key|, |r.value|)
  {}

  predicate AllTyped(es: seq<Event>) { forall i :: 0 <= i < |es| ==> WellTyped(es[i]) }

  /** Get can be asked in this state. */
  ghost predicate Readable(s: State) {
    CanStep(s) && forall id :: id in s.logs ==> LogOk(s.logs[id], s.capacity[id])
  }

  lemma ReadsMap(s: State, c: Contents)
    requires Inv(s, c)
    ensures Readable(s) && [] !in c
    ensures forall q :: Get(s, q) == if q == [] then GetResult.EmptyKey else if q in c then Found(c[q]) else NotFound
  {
    hide Inv, Get, LogOk;
    LogsAreOk(s, c);
    forall q ensures Get(s, q) == Answer(c, q) {
      GetReadsMap(s, c, q);
    }
    NoEmptyKey(s, c);
  }

  // ----- what Get answers after each step ---------------------------------------------------

  /** Get answers alike in both states, but for one key. */
  ghost predicate SameBut(s: State, t: State, key: Bytes)
    requires Readable(s) && Readable(t)
  {
    forall q :: q != key ==> Get(t, q) == Get(s, q)
  }

  lemma PutStep(s: State, key: Bytes, value: Bytes, ts: int)
    requires CanStep(s)
    ensures var r := Record(key, value, false, ts);
            Step(s, Put(key, value, ts)) == if Accepted(s.segSize, |key|, |value|) then PutRecord(s, r) else s
    ensures forall c: Contents :: MapStep(s.segSize, c, Put(key, value, ts))
              == if Accepted(s.segSize, |key|, |value|) then c[key := value] else c
  {
    hide PutRecord;
    RefusedIs(s, Record(key, value, false, ts));
  }

  lemma DeleteStep(s: State, key: Bytes, ts: int)
    requires CanStep(s)
    ensures var r := Record(key, [], true, ts);
            Step(s, Delete(key, ts)) == if Accepted(s.segSize, |key|, 0) then DeleteRecord(s, r) else s
    ensures forall c: Contents :: MapStep(s.segSize, c, Delete(key, ts))
              == if Accepted(s.segSize, |key|, 0) then c - {key} else c
  {
    hide DeleteRecord;
    RefusedIs(s, Record(key, [], true, ts));
  }

  lemma PutReads(s: State, c: Contents, key: Bytes, value: Bytes, ts: int)
    requires Inv(s, c) && WellTyped(Put(key, value, ts))
    ensures var t := Step(s, Put(key, value, ts)); Readable(s) && Readable(t) && SameBut(s, t, key)
    ensures var t := Step(s, Put(key, value, ts));
            Get(t, key) == if Accepted(s.segSize, |key|, |value|) then Found(value) else Get(s, key)
    ensures !Accepted(s.segSize, |key|, |value|) ==> Step(s, Put(key, value, ts)) == s
  {
    hide Inv, CanStep, Step, MapStep, PutRecord, Get, Readable;
    var t := Step(s, Put(key, value, ts));
    CanStepAlways(s, c);
    PutStep(s, key, value, ts);
    PutStepKeeps(s, c, key, value, ts);
    ReadsMap(s, c);
    ReadsMap(t, MapStep(s.segSize, c, Put(key, value, ts)));
  }

  lemma DeleteReads(s: State, c: Contents, key: Bytes, ts: int)
    requires Inv(s, c) && WellTyped(Delete(key, ts))
    ensures var t := Step(s, Delete(key, ts)); Readable(s) && Readable(t) && SameBut(s, t, key)
    ensures var t := Step(s, Delete(key, ts));
            Get(t, key) == if Accepted(s.segSize, |key|, 0) then NotFound else Get(s, key)
    ensures !Accepted(s.segSize, |key|, 0) ==> Step(s, Delete(key, ts)) == s
  {
    hide Inv, CanStep, Step, MapStep, DeleteRecord, Get, Readable;
    var t := Step(s, Delete(key, ts));
    CanStepAlways(s, c);
    DeleteStep(s, key, ts);
    DeleteStepKeeps(s, c, key, ts);
    ReadsMap(s, c);
    ReadsMap(t, MapStep(s.segSize, c, Delete(key, ts)));
  }

  lemma PassReads(s: State, c: Contents, e: Event, q: Bytes)
    requires Inv(s, c) && !e.Put? && !e.Delete?
    ensures Readable(s) && Readable(Step(s, e)) && Get(Step(s, e), q) == Get(s, q)
  {
    hide Inv, Step, Get, Readable;
    PassStepKeeps(s, c, e);
    ReadsMap(s, c);
    ReadsMap(Step(s, e), c);
  }

  lemma RunMore(segSize: nat, es: seq<Event>, e: Event)
    ensures Run(segSize, es + [e]) == Step(Run(segSize, es), e)
  {
    hide Step;
    assert (es + [e])[..|es|] == es;
  }

  /** In every run a Put is accepted exactly by its lengths; then Get gives the value, and all other answers stay. */
  lemma PutThenGet(segSize: nat, es: seq<Event>, key: Bytes, value: Bytes, ts: int)
    requires segSize <= 0x1_0000_0000 && AllTyped(es) && WellTyped(Put(key, value, ts))
    ensures var s, t := Run(segSize, es), Run(segSize, es + [Put(key, value, ts)]);
            && Readable(s) && Readable(t) && SameBut(s, t, key)
            && if 1 <= |key| <= 65535 && 21 + |key| + |value| <= segSize then Get(t, key) == Found(value) else t == s
  {
    hide Inv, Run, Step, Get, MapRun, Readable, SameBut;
    RunKeeps(segSize, es);
    RunMore(segSize, es, Put(key, value, ts));
    PutReads(Run(segSize, es), MapRun(segSize, es), key, value, ts);
  }

  /** So is a Delete; then the key is not found, and all other answers stay. */
  lemma DeleteThenGet(segSize: nat, es: seq<Event>, key: Bytes, ts: int)
    requires segSize <= 0x1_0000_0000 && AllTyped(es) && WellTyped(Delete(key, ts))
    ensures var s, t := Run(segSize, es), Run(segSize, es + [Delete(key, ts)]);
            && Readable(s) && Readable(t) && SameBut(s, t, key)
            && if 1 <= |key| <= 65535 && 21 + |key| <= segSize then Get(t, key) == NotFound else t == s
  {
    hide Inv, Run, Step, Get, MapRun, Readable, SameBut;
    RunKeeps(segSize, es);
    RunMore(segSize, es, Delete(key, ts));
    DeleteReads(Run(segSize, es), MapRun(segSize, es), key, ts);
  }

  /** No step of a compaction pass changes an answer. */
  lemma PassThenGet(segSize: nat, es: seq<Event>, e: Event, q: Bytes)
    requires segSize <= 0x1_0000_0000 && AllTyped(es) && (e.StartPass? || e.RelocateNext? || e.FinishPass?)
    ensures var s, t := Run(segSize, es), Run(segSize, es + [e]);
            Readable(s) && Readable(t) && Get(t, q) == Get(s, q)
  {
    hide Inv, Run, Step, Get, MapRun, Readable;
    RunKeeps(segSize, es);
    RunMore(segSize, es, e);
    PassReads(Run(segSize, es), MapRun(segSize, es), e, q);
  }

  /** An empty store finds nothing. */
  lemma NothingAtFirst(segSize: nat, q: Bytes)
    requires segSize <= 0x1_0000_0000
    ensures Readable(Run(segSize, [])) && Get(Run(segSize, []), q) == if q == [] then GetResult.EmptyKey else NotFound
  {
    hide Inv, Get, Readable;
    RunKeeps(segSize, []);
    ReadsMap(Run(segSize, []), map[]);
  }

  // ----- where the records go ------------------------------------------------------------------

  /** t is s with r appended to segment id, and otherwise the same segments. */
  ghost predicate AppendedTo(s: State, t: State, id: nat, r: Record)
    requires id in s.logs
  {
    t.logs == s.logs[id := s.logs[id] + [r]] && t.capacity == s.capacity && t.nextSegID == s.nextSegID
  }

  /** t is s with a new segment that holds r alone, and the full one cut to its used size. */
  ghost predicate Rotated(s: State, t: State, full: Option<nat>, r: Record)
    requires full.Some? ==> full.value in s.logs
  {
    && t.logs == s.logs[s.nextSegID := [r]] && t.nextSegID == s.nextSegID + 1
    && t.capacity == (if full.None? then s.capacity else s.capacity[full.value := Used(s.logs[full.value])])[s.nextSegID := s.segSize]
  }

  /** Where r goes when it is written to the active segment. */
  ghost predicate Goes(s: State, t: State, r: Record)
    requires CanStep(s)
  {
    var a := s.active;
    if Used(s.logs[a]) + 21 + |r.key| + |r.value| <= s.capacity[a] then t.active == a && AppendedTo(s, t, a, r)
    else t.active == s.nextSegID && Rotated(s, t, Some(a), r)
  }

  lemma RoomFor(s: State, r: Record)
    requires CanStep(s) && s.nextSegID !in s.logs
    ensures var t := EnsureCapacity(s, Size(r)); var u := Append(t, t.active, r);
            Goes(s, u, r) && u.compactOut == s.compactOut && u.pass == s.pass
  {
    hide Used;
    var none: Log := [];
    var n := s.nextSegID;
    assert none + [r] == [r];
    assert s.logs[n := none][n := [r]] == s.logs[n := [r]];
  }

  /** The segments are as the append left them. */
  ghost predicate SameSegments(u: State, t: State) {
    && t.logs == u.logs && t.capacity == u.capacity && t.nextSegID == u.nextSegID && t.active == u.active
    && t.compactOut == u.compactOut && t.pass == u.pass
  }

  lemma PutSegments(s: State, r: Record)
    requires CanStep(s)
    ensures var t := EnsureCapacity(s, Size(r)); SameSegments(Append(t, t.active, r), PutRecord(s, r))
  {
    hide EnsureCapacity, LastLocation, AddDisplaced;
  }

  lemma DeleteSegments(s: State, r: Record)
    requires CanStep(s)
    ensures var t := EnsureCapacity(s, Size(r)); SameSegments(Append(t, t.active, r), DeleteRecord(s, r))
  {
    hide EnsureCapacity, AddDead, AddDisplaced;
  }

  /** A write goes to the active segment exactly when it fits there, else to a new one. */
  lemma PutGoes(s: State, c: Contents, key: Bytes, value: Bytes, ts: int)
    requires Inv(s, c) && Accepted(s.segSize, |key|, |value|)
    ensures var t := Step(s, Put(key, value, ts));
            CanStep(s) && Goes(s, t, Record(key, value, false, ts)) && t.compactOut == s.compactOut && t.pass == s.pass
  {
    hide Inv, CanStep, EnsureCapacity, PutRecord, Step, Append;
    var r := Record(key, value, false, ts);
    CanStepAlways(s, c);
    NextIsNew(s, c);
    PutStep(s, key, value, ts);
    RoomFor(s, r);
    PutSegments(s, r);
  }

  /** So does a tombstone, whether or not the key is there. */
  lemma DeleteGoes(s: State, c: Contents, key: Bytes, ts: int)
    requires Inv(s, c) && Accepted(s.segSize, |key|, 0)
    ensures var t := Step(s, Delete(key, ts));
            CanStep(s) && Goes(s, t, Record(key, [], true, ts)) && t.compactOut == s.compactOut && t.pass == s.pass
  {
    hide Inv, CanStep, EnsureCapacity, DeleteRecord, Step, Append;
    var r := Record(key, [], true, ts);
    CanStepAlways(s, c);
    NextIsNew(s, c);
    DeleteStep(s, key, ts);
    RoomFor(s, r);
    DeleteSegments(s, r);
  }

  lemma NextIsNew(s: State, c: Contents)
    requires Inv(s, c)
    ensures s.nextSegID !in s.logs && s.nextSegID != s.active
  {
    hide LogOk, Used, Pointers;
  }

  /** Where r goes when it is copied to the compaction output. */
  ghost predicate CopyGoes(s: State, t: State, r: Record)
    requires CanStep(s)
  {
    if s.compactOut.None? then t.compactOut == Some(s.nextSegID) && Rotated(s, t, None, r)
    else
      var o := s.compactOut.value;
      if Used(s.logs[o]) + 21 + |r.key| + |r.value| <= s.capacity[o] then t.compactOut == s.compactOut && AppendedTo(s, t, o, r)
      else t.compactOut == Some(s.nextSegID) && Rotated(s, t, Some(o), r)
  }

  lemma CopySegments(s: State, r: Record)
    requires CanStep(s) && s.nextSegID !in s.logs
    ensures var t := CopyForward(s, r); CopyGoes(s, t, r) && t.active == s.active && t.dead == s.dead && t.pass == s.pass
  {
    hide Used, LastLocation;
    var none: Log := [];
    var n := s.nextSegID;
    assert none + [r] == [r];
    assert s.logs[n := none][n := [r]] == s.logs[n := [r]];
  }

  lemma RelocateStep(s: State)
    requires CanStep(s) && MayRelocate(s)
    ensures var p := s.pass.value; var r, t := s.logs[p.src][p.next], Step(s, RelocateNext);
            && t.pass == Some(Pass(p.src, p.next + 1))
            && if r.tombstone || !LiveAt(s.idx, p.src, s.logs[p.src], p.next) then t == s.(pass := t.pass)
               else t == CopyForward(s, r).(pass := t.pass)
  {
    hide CopyForward, LiveAt;
  }

  /** A relocated record goes as it is, timestamp and all, to the output exactly when it fits there, else to a new one. */
  lemma RelocationGoes(s: State, c: Contents)
    requires Inv(s, c) && MayRelocate(s)
    ensures var p := s.pass.value; var r, t := s.logs[p.src][p.next], Step(s, RelocateNext);
            && CanStep(s) && t.active == s.active && t.pass == Some(Pass(p.src, p.next + 1)) && t.dead == s.dead
            && if r.tombstone || !LiveAt(s.idx, p.src, s.logs[p.src], p.next) then t == s.(pass := t.pass)
               else CopyGoes(s, t, r)
  {
    hide Inv, CanStep, LiveAt, CopyForward, Step, Used;
    CanStepAlways(s, c);
    NextIsNew(s, c);
    RelocateStep(s);
    CopySegments(s, s.logs[s.pass.value.src][s.pass.value.next]);
  }

  // ----- every record was written -----------------------------------------------------------------

  /** The event that writes this record. */
  ghost predicate Writes(e: Event, r: Record) {
    match e
    case Put(key, value, ts) => r == Record(key, value, false, ts)
    case Delete(key, ts) => r == Record(key, [], true, ts)
    case _ => false
  }

  /** Every record of t is one of s, or r. */
  ghost predicate OneMore(s: State, t: State, r: Record) {
    forall id, j :: id in t.logs && 0 <= j < |t.logs[id]| ==>
      t.logs[id][j] == r || (id in s.logs && j < |s.logs[id]| && t.logs[id][j] == s.logs[id][j])
  }

  lemma GoesOneMore(s: State, t: State, r: Record)
    requires CanStep(s) && (Goes(s, t, r) || CopyGoes(s, t, r))
    ensures OneMore(s, t, r)
  {
    hide Used;
  }

  lemma NoMore(s: State, t: State, r: Record)
    requires forall id :: id in t.logs ==> id in s.logs && t.logs[id] == s.logs[id]
    ensures OneMore(s, t, r)
  {}

  lemma PutOneMore(s: State, c: Contents, e: Event)
    requires Inv(s, c) && WellTyped(e) && (e.Put? || e.Delete?)
    ensures exists r :: Writes(e, r) && OneMore(s, Step(s, e), r)
  {
    hide Inv, CanStep, Step, Goes, CopyGoes, OneMore, PutRecord, DeleteRecord;
    CanStepAlways(s, c);
    if e.Put? {
      var r := Record(e.key, e.value, false, e.timestamp);
      assert Writes(e, r);
      PutStep(s, e.key, e.value, e.timestamp);
      if Accepted(s.segSize, |e.key|, |e.value|) {
        PutGoes(s, c, e.key, e.value, e.timestamp);
        GoesOneMore(s, Step(s, e), r);
      } else {
        NoMore(s, Step(s, e), r);
      }
    } else {
      var r := Record(e.key, [], true, e.timestamp);
      assert Writes(e, r);
      DeleteStep(s, e.key, e.timestamp);
      if Accepted(s.segSize, |e.key|, 0) {
        DeleteGoes(s, c, e.key, e.timestamp);
        GoesOneMore(s, Step(s, e), r);
      } else {
        NoMore(s, Step(s, e), r);
      }
    }
  }

  /** A step of a pass adds no record but a copy of one. */
  lemma PassRecords(s: State, c: Contents, e: Event, w: Record)
    requires Inv(s, c) && !e.Put? && !e.Delete? && IsRecord(Step(s, e), w)
    ensures IsRecord(s, w)
  {
    hide Inv, CanStep, Step, CopyGoes, Goes, LiveAt;
    CanStepAlways(s, c);
    if e.RelocateNext? && MayRelocate(s) {
      RelocationGoes(s, c);
      var p := s.pass.value;
      var r := s.logs[p.src][p.next];
      assert IsRecord(s, r);
      if r.tombstone || !LiveAt(s.idx, p.src, s.logs[p.src], p.next) {
        NoMore(s, Step(s, e), r);
      } else {
        GoesOneMore(s, Step(s, e), r);
      }
    } else {
      QuietPassStep(s, e);
    }
  }

  ghost predicate IsRecord(s: State, r: Record) {
    exists id, j :: id in s.logs && 0 <= j < |s.logs[id]| && s.logs[id][j] == r
  }

  lemma QuietPassStep(s: State, e: Event)
    requires !e.Put? && !e.Delete? && !(e.RelocateNext? && MayRelocate(s))
    ensures forall id :: id in Step(s, e).logs ==> id in s.logs && Step(s, e).logs[id] == s.logs[id]
  {}

  /** Every record after a step was there before, or is what the step writes. */
  lemma StepRecords(s: State, c: Contents, e: Event, r: Record)
    requires Inv(s, c) && WellTyped(e) && IsRecord(Step(s, e), r)
    ensures Writes(e, r) || IsRecord(s, r)
  {
    hide Inv, Step;
    var id, j :| id in Step(s, e).logs && 0 <= j < |Step(s, e).logs[id]| && Step(s, e).logs[id][j] == r;
    if e.Put? || e.Delete? {
      PutOneMore(s, c, e);
      var w :| Writes(e, w) && OneMore(s, Step(s, e), w);
    } else {
      PassRecords(s, c, e, r);
    }
  }

  /** In every run, relocated or not, every record is that of a Put or Delete, its timestamp included. */
  lemma {:induction false} EveryRecordWasWritten(segSize: nat, es: seq<Event>, r: Record)
    requires segSize <= 0x1_0000_0000 && AllTyped(es) && IsRecord(Run(segSize, es), r)
    ensures exists i :: 0 <= i < |es| && Writes(es[i], r)
  {
    hide Inv, Step, Writes, MapRun;
    if es == [] {
      NothingOpen(segSize, r);
    } else {
      hide IsRecord;
      var n := |es| - 1;
      RunKeeps(segSize, es[..n]);
      StepRecords(Run(segSize, es[..n]), MapRun(segSize, es[..n]), es[n], r);
      if !Writes(es[n], r) {
        EveryRecordWasWritten(segSize, es[..n], r);
        var i :| 0 <= i < n && Writes(es[..n][i], r);
        assert es[i] == es[..n][i];
      }
    }
  }

  lemma NothingOpen(segSize: nat, r: Record)
    ensures !IsRecord(Open(segSize), r)
  {}
}
