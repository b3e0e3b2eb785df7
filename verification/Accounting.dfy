/** Dead-byte accounting, what a compaction pass reclaims, and why compaction ends. */
module Accounting {
  import opened Bytes
  import opened Record
  import opened Segment
  import opened Index
  import opened Engine

  /** Bytes of the first n records of segment id that no key points at. */
  function DeadBytes(idx: map<Bytes, Location>, id: nat, rs: seq<Record>, n: nat): nat
    requires n <= |rs|
  {
    if n == 0 then 0 else DeadBytes(idx, id, rs, n - 1) + if LiveAt(idx, id, rs, n - 1) then 0 else Size(rs[n - 1])
  }

  function LiveBytes(idx: map<Bytes, Location>, id: nat, rs: seq<Record>, n: nat): nat
    requires n <= |rs|
  {
    if n == 0 then 0 else LiveBytes(idx, id, rs, n - 1) + if LiveAt(idx, id, rs, n - 1) then Size(rs[n - 1]) else 0
  }

  /** The counters are exact for every segment but the source of a running pass. */
  ghost predicate Balanced(s: State) {
    && s.dead.Keys <= s.logs.Keys
    && forall id :: id in s.logs && !IsSource(s, id) ==>
         DeadOf(s.dead, id) == DeadBytes(s.idx, id, s.logs[id], |s.logs[id]|)
  }

  predicate IsSource(s: State, id: nat) { s.pass.Some? && s.pass.value.src == id }

  lemma {:induction false} LivePlusDead(idx: map<Bytes, Location>, id: nat, rs: seq<Record>, n: nat)
    requires n <= |rs|
    ensures LiveBytes(idx, id, rs, n) + DeadBytes(idx, id, rs, n) == Offset(rs, n)
  {
    if n > 0 {
      LivePlusDead(idx, id, rs, n - 1);
      OffsetNext(rs, n - 1);
    }
  }

  lemma {:induction false} AppendKeepsDead(idx: map<Bytes, Location>, id: nat, rs: seq<Record>, r: Record, n: nat)
    requires n <= |rs|
    ensures DeadBytes(idx, id, rs + [r], n) == DeadBytes(idx, id, rs, n)
  {
    if n > 0 {
      AppendKeepsDead(idx, id, rs, r, n - 1);
      AppendKeepsOffsets(rs, r, n - 1);
    }
  }

  // ----- repointing one key ----------------------------------------------------------

  /** Bytes of the live records of segment id that hold key k. */
  function KeyBytes(idx: map<Bytes, Location>, id: nat, rs: seq<Record>, n: nat, k: Bytes): nat
    requires n <= |rs|
  {
    if n == 0 then 0 else
      KeyBytes(idx, id, rs, n - 1, k) + if rs[n - 1].key == k && LiveAt(idx, id, rs, n - 1) then Size(rs[n - 1]) else 0
  }

  /** idx and idx' differ at most at k, and under idx' no record of this segment holds k live. */
  ghost predicate Repointed(idx: map<Bytes, Location>, idx': map<Bytes, Location>, id: nat, rs: seq<Record>, k: Bytes) {
    && (forall q :: q != k ==> (q in idx <==> q in idx') && (q in idx ==> idx[q] == idx'[q]))
    && (forall j :: 0 <= j < |rs| && rs[j].key == k ==> !LiveAt(idx', id, rs, j))
  }

  lemma {:induction false} RepointedDead(idx: map<Bytes, Location>, idx': map<Bytes, Location>, id: nat,
        rs: seq<Record>, n: nat, k: Bytes)
    requires n <= |rs| && Repointed(idx, idx', id, rs, k)
    ensures DeadBytes(idx', id, rs, n) == DeadBytes(idx, id, rs, n) + KeyBytes(idx, id, rs, n, k)
  {
    if n > 0 { RepointedDead(idx, idx', id, rs, n - 1, k); }
  }

  lemma {:induction false} KeyBytesOf(idx: map<Bytes, Location>, id: nat, rs: seq<Record>, n: nat, k: Bytes, j: nat)
    requires n <= |rs| && Used(rs) <= TWO32 && j < |rs| && rs[j].key == k && LiveAt(idx, id, rs, j)
    ensures KeyBytes(idx, id, rs, n, k) == if j < n then Size(rs[j]) else 0
  {
    if n > 0 {
      KeyBytesOf(idx, id, rs, n - 1, k, j);
      if rs[n - 1].key == k && LiveAt(idx, id, rs, n - 1) {
        ValueOffsetInjective(rs, n - 1, j);
      }
    }
  }

  lemma {:induction false} KeyBytesNone(idx: map<Bytes, Location>, id: nat, rs: seq<Record>, n: nat, k: Bytes)
    requires n <= |rs| && (k !in idx || idx[k].segID != id)
    ensures KeyBytes(idx, id, rs, n, k) == 0
  {
    if n > 0 { KeyBytesNone(idx, id, rs, n - 1, k); }
  }

  /** The bytes the previous record of k takes in segment id, computed as the code computes them. */
  function Displaced(idx: map<Bytes, Location>, id: nat, k: Bytes): nat {
    if k in idx && idx[k].segID == id then RecordSize(|k|, idx[k].valLen) else 0
  }

  lemma DisplacedIsDead(s: State, c: Contents, id: nat, idx': map<Bytes, Location>, k: Bytes)
    requires Inv(s, c) && id in s.logs && Repointed(s.idx, idx', id, s.logs[id], k)
    ensures var rs := s.logs[id];
            DeadBytes(idx', id, rs, |rs|) == DeadBytes(s.idx, id, rs, |rs|) + Displaced(s.idx, id, k)
  {
    var rs := s.logs[id];
    RepointedDead(s.idx, idx', id, rs, |rs|, k);
    if k in s.idx && s.idx[k].segID == id {
      assert Placed(rs, Floor(s.pass, id), k, c[k], s.idx[k]);
      var j :| Floor(s.pass, id) <= j && PointsInto(rs, j, k, c[k], s.idx[k]);
      assert LogOk(rs, s.segSize);
      KeyBytesOf(s.idx, id, rs, |rs|, k, j);
    } else {
      KeyBytesNone(s.idx, id, rs, |rs|, k);
    }
  }

  // ----- every step keeps the counters exact ------------------------------------------------

  lemma EnsureCapacityBalanced(s: State, c: Contents, n: nat)
    requires Inv(s, c) && Balanced(s) && CanStep(s)
    ensures Balanced(EnsureCapacity(s, n))
  {
    assert s.nextSegID !in s.logs;
  }

  lemma EnsureCompactionCapacityBalanced(s: State, c: Contents, n: nat)
    requires Inv(s, c) && Balanced(s) && CanStep(s)
    ensures Balanced(EnsureCompactionCapacity(s, n))
  {
    assert s.nextSegID !in s.logs;
  }

  lemma NoLongerLive(s: State, w: nat, r: Record, idx': map<Bytes, Location>, id: nat)
    requires w in s.logs && id in s.logs && Used(s.logs[w]) + Size(r) <= TWO32
    requires var u := Append(s, w, r);
             idx' == s.idx[r.key := LastLocation(u, w)] || idx' == s.idx - {r.key}
    ensures Repointed(s.idx, idx', id, s.logs[id], r.key)
  {
    var rs, ws := s.logs[id], s.logs[w] + [r];
    UsedAppend(s.logs[w], r);
    forall j | 0 <= j < |rs| && rs[j].key == r.key ensures !LiveAt(idx', id, rs, j) {
      if id == w {
        AppendKeepsOffsets(rs, r, j);
        if ValueOffset(ws, j) == ValueOffset(ws, |rs|) { ValueOffsetInjective(ws, j, |rs|); }
      }
    }
  }

  /** Appending r to segment w and repointing its key there, or unindexing it. */
  lemma WriteDead(s: State, c: Contents, w: nat, r: Record, idx': map<Bytes, Location>, id: nat)
    requires Inv(s, c) && w in s.logs && id in s.logs
    requires Used(s.logs[w]) + Size(r) <= TWO32
    requires var u := Append(s, w, r);
             idx' == s.idx[r.key := LastLocation(u, w)] || idx' == s.idx - {r.key}
    ensures var u := Append(s, w, r); var rs := s.logs[id];
            DeadBytes(idx', id, u.logs[id], |u.logs[id]|) ==
            DeadBytes(s.idx, id, rs, |rs|) + Displaced(s.idx, id, r.key) + if id == w && r.key !in idx' then Size(r) else 0
  {
    NoLongerLive(s, w, r, idx', id);
    DisplacedIsDead(s, c, id, idx', r.key);
    if id == w {
      AppendKeepsDead(idx', id, s.logs[id], r, |s.logs[id]|);
    }
    hide Inv, Repointed, ValueOffset;
  }

  /** The new counters are the old ones plus what the write of r to segment w displaces. */
  ghost predicate Counted(dead: map<nat, nat>, dead': map<nat, nat>, idx: map<Bytes, Location>, w: nat,
        r: Record, deleted: bool) {
    forall id :: DeadOf(dead', id) ==
      DeadOf(dead, id) + Displaced(idx, id, r.key) + if id == w && deleted then Size(r) else 0
  }

  lemma AddDisplacedCounts(dead: map<nat, nat>, idx: map<Bytes, Location>, w: nat, r: Record)
    ensures Counted(dead, AddDisplaced(dead, idx, r.key), idx, w, r, false)
    ensures Counted(dead, AddDisplaced(AddDead(dead, w, Size(r)), idx, r.key), idx, w, r, true)
    ensures AddDisplaced(dead, idx, r.key).Keys <= dead.Keys + (if r.key in idx then {idx[r.key].segID} else {})
    ensures AddDisplaced(AddDead(dead, w, Size(r)), idx, r.key).Keys
            <= dead.Keys + {w} + (if r.key in idx then {idx[r.key].segID} else {})
  {}

  /** t is s with r appended to w, its key repointed or unindexed, and the displaced record counted. */
  lemma WriteBalanced(s: State, c: Contents, w: nat, r: Record, t: State)
    requires Inv(s, c) && Balanced(s) && w in s.logs
    requires Used(s.logs[w]) + Size(r) <= TWO32
    requires var u := Append(s, w, r);
             && t.logs == u.logs && t.pass == s.pass
             && (t.idx == s.idx[r.key := LastLocation(u, w)] || t.idx == s.idx - {r.key})
    requires t.dead.Keys <= t.logs.Keys
    requires Counted(s.dead, t.dead, s.idx, w, r, r.key !in t.idx)
             || (t.dead == s.dead && r.key in s.idx && r.key in t.idx && IsSource(s, s.idx[r.key].segID))
    ensures Balanced(t)
  {
    hide Inv, DeadBytes, LastLocation, LiveAt, Counted;
    forall id | id in t.logs && !IsSource(t, id)
      ensures DeadOf(t.dead, id) == DeadBytes(t.idx, id, t.logs[id], |t.logs[id]|)
    {
      WriteDead(s, c, w, r, t.idx, id);
      NewCount(s, w, r, t, id);
    }
  }

  /** The counter of a segment that is not the source of a pass changes by what WriteDead says. */
  lemma NewCount(s: State, w: nat, r: Record, t: State, id: nat)
    requires !IsSource(s, id)
    requires Counted(s.dead, t.dead, s.idx, w, r, r.key !in t.idx)
             || (t.dead == s.dead && r.key in s.idx && r.key in t.idx && IsSource(s, s.idx[r.key].segID))
    ensures DeadOf(t.dead, id)
            == DeadOf(s.dead, id) + Displaced(s.idx, id, r.key) + if id == w && r.key !in t.idx then Size(r) else 0
  {}

  /** Put and Delete: rotate if needed, then write to the active segment. */
  lemma ActiveWriteBalanced(s: State, c: Contents, r: Record, t: State)
    requires Inv(s, c) && Balanced(s) && CanStep(s) && Refused(s, r).None?
    requires var e := EnsureCapacity(s, Size(r));
             e.active in e.logs &&
             var u := Append(e, e.active, r);
             && t.logs == u.logs && t.pass == s.pass
             && ((t.idx == s.idx[r.key := LastLocation(u, u.active)] && t.dead == AddDisplaced(s.dead, s.idx, r.key))
                 || (t.idx == s.idx - {r.key}
                     && t.dead == AddDisplaced(AddDead(s.dead, e.active, Size(r)), s.idx, r.key)))
    ensures Balanced(t)
  {
    hide EnsureCapacity, LastLocation, AddDisplaced, AddDead, Inv, Counted, DeadBytes;
    var e := EnsureCapacity(s, Size(r));
    ActiveOpen(s, c, Size(r));
    EnsureCapacityKeeps(s, c, Size(r));
    EnsureCapacityBalanced(s, c, Size(r));
    PreviousSegmentOpen(e, c, r.key);
    TargetBound(e, c, e.active);
    AddDisplacedCounts(e.dead, e.idx, e.active, r);
    assert e.dead.Keys <= e.logs.Keys;
    hide Balanced;
    WriteBalanced(e, c, e.active, r, t);
  }

  lemma PutBalanced(s: State, c: Contents, r: Record)
    requires Inv(s, c) && Balanced(s) && Refused(s, r).None?
    ensures CanStep(s) && Balanced(PutRecord(s, r))
  {
    CanStepAlways(s, c);
    ActiveOpen(s, c, Size(r));
    hide Inv, Balanced, LastLocation, AddDisplaced;
    ActiveWriteBalanced(s, c, r, PutRecord(s, r));
  }

  lemma DeleteBalanced(s: State, c: Contents, r: Record)
    requires Inv(s, c) && Balanced(s) && Refused(s, r).None?
    ensures CanStep(s) && Balanced(DeleteRecord(s, r))
  {
    CanStepAlways(s, c);
    ActiveOpen(s, c, Size(r));
    hide Inv, Balanced, LastLocation, AddDisplaced, AddDead;
    ActiveWriteBalanced(s, c, r, DeleteRecord(s, r));
  }

  lemma ActiveOpen(s: State, c: Contents, n: nat)
    requires Inv(s, c) && CanStep(s)
    ensures var e := EnsureCapacity(s, n);
            e.active in e.logs && e.dead == s.dead && e.idx == s.idx && e.pass == s.pass
  {
    hide Pointers, SegmentsOk, Used;
  }

  lemma PreviousSegmentOpen(s: State, c: Contents, k: Bytes)
    requires Inv(s, c)
    ensures k in s.idx ==> s.idx[k].segID in s.logs
  {}

  lemma TargetBound(s: State, c: Contents, w: nat)
    requires Inv(s, c) && w in Targets(s)
    ensures w in s.logs && w in s.capacity && s.capacity[w] <= TWO32 && s.active in Targets(s)
    ensures forall id :: s.pass.Some? && s.pass.value.src == id ==> id !in Targets(s)
  {}

  lemma OutputRoom(s: State, c: Contents, n: nat)
    requires Inv(s, c) && CanStep(s) && n <= s.segSize
    ensures var t := EnsureCompactionCapacity(s, n);
            && Inv(t, c) && CanStep(t) && t.compactOut.Some? && t.pass == s.pass && t.idx == s.idx && t.dead == s.dead
            && Used(t.logs[t.compactOut.value]) + n <= TWO32
  {
    hide Pointers, SegmentsOk, Used;
    EnsureCompactionCapacityKeeps(s, c, n);
    var t := EnsureCompactionCapacity(s, n);
    hide Inv, EnsureCompactionCapacity;
    CanStepAlways(t, c);
    OutputIsTarget(s, n);
    TargetBound(t, c, t.compactOut.value);
    SameBut(s, n);
  }

  lemma SameBut(s: State, n: nat)
    requires CanStep(s)
    ensures var t := EnsureCompactionCapacity(s, n); t.pass == s.pass && t.idx == s.idx && t.dead == s.dead
  {
    hide Used;
  }

  lemma CopyForwardBalanced(s: State, c: Contents, r: Record)
    requires Inv(s, c) && Balanced(s) && CanStep(s) && Encodable(r) && Size(r) <= s.segSize && !r.tombstone
    requires s.pass.Some? && r.key in s.idx && s.idx[r.key].segID == s.pass.value.src
    ensures Balanced(CopyForward(s, r))
  {
    hide Inv, Balanced, EnsureCompactionCapacity, DeadBytes, LastLocation, Used, Counted;
    OutputRoom(s, c, Size(r));
    EnsureCompactionCapacityBalanced(s, c, Size(r));
    var t := EnsureCompactionCapacity(s, Size(r));
    KeysKnown(t);
    WriteBalanced(t, c, t.compactOut.value, r, CopyForward(s, r));
  }

  lemma KeysKnown(s: State)
    requires Balanced(s)
    ensures s.dead.Keys <= s.logs.Keys
  {}

  lemma StartBalanced(s: State, src: nat)
    requires Balanced(s) && MayStart(s, src)
    ensures Balanced(s.(pass := Some(Pass(src, 0))))
  {
    hide DeadBytes;
  }

  lemma FinishBalanced(s: State)
    requires Balanced(s) && MayFinish(s)
    ensures Balanced(Finish(s))
  {
    hide DeadBytes;
  }

  lemma StepBalanced(s: State, c: Contents, e: Event)
    requires Inv(s, c) && Balanced(s) && WellTyped(e)
    ensures Balanced(Step(s, e))
  {
    CanStepAlways(s, c);
    hide Inv, Balanced, CanStep, PutRecord, DeleteRecord, Relocate, Finish;
    match e
    case Put(key, value, ts) =>
      var r := Record(key, value, false, ts);
      if Refused(s, r).None? { PutBalanced(s, c, r); }
    case Delete(key, ts) =>
      var r := Record(key, [], true, ts);
      if Refused(s, r).None? { DeleteBalanced(s, c, r); }
    case StartPass(src) =>
      if MayStart(s, src) { StartBalanced(s, src); }
    case RelocateNext =>
      if MayRelocate(s) { RelocateBalanced(s, c); }
    case FinishPass =>
      if MayFinish(s) { FinishBalanced(s); }
  }

  lemma RelocateBalanced(s: State, c: Contents)
    requires Inv(s, c) && Balanced(s) && CanStep(s) && MayRelocate(s)
    ensures Balanced(Relocate(s))
  {
    var p := s.pass.value;
    var rs := s.logs[p.src];
    if !rs[p.next].tombstone && LiveAt(s.idx, p.src, rs, p.next) {
      assert LogOk(rs, s.segSize);
      SizeBound(rs, s.segSize, p.next);
      CopyForwardBalanced(s, c, rs[p.next]);
    }
  }

  /**
   * Conservation, over every run from an empty directory: each segment not being
   * compacted has used size = live record bytes + its dead-byte counter.
   */
  lemma {:induction false} RunBalanced(segSize: nat, es: seq<Event>, id: nat)
    requires segSize <= TWO32 && forall i :: 0 <= i < |es| ==> WellTyped(es[i])
    ensures Balanced(Run(segSize, es))
    ensures var s := Run(segSize, es);
            id in s.logs && !IsSource(s, id) ==>
              Used(s.logs[id]) == LiveBytes(s.idx, id, s.logs[id], |s.logs[id]|) + DeadOf(s.dead, id)
  {
    hide Step, Inv;
    var s := Run(segSize, es);
    if es != [] {
      var p := es[..|es| - 1];
      RunKeeps(segSize, p);
      RunBalanced(segSize, p, id);
      StepBalanced(Run(segSize, p), MapRun(segSize, p), es[|es| - 1]);
    }
    if id in s.logs {
      LivePlusDead(s.idx, id, s.logs[id], |s.logs[id]|);
      assert s.logs[id][..|s.logs[id]|] == s.logs[id];
    }
  }

  // ----- a pass with no writer -----------------------------------------------------------------

  /** Used bytes of all segments with ids below n. */
  function TotalUsed(logs: map<nat, Log>, n: nat): nat {
    if n == 0 then 0 else TotalUsed(logs, n - 1) + if n - 1 in logs then Used(logs[n - 1]) else 0
  }

  function Total(s: State): nat { TotalUsed(s.logs, s.nextSegID) }

  lemma {:induction false} TotalUsedUpdate(logs: map<nat, Log>, n: nat, id: nat, l: Log)
    requires id < n
    ensures TotalUsed(logs[id := l], n) ==
            TotalUsed(logs, n) - (if id in logs then Used(logs[id]) else 0) + Used(l)
    decreases n
  {
    if id == n - 1 {
      TotalUsedBeyond(logs, n - 1, id, l);
    } else {
      TotalUsedUpdate(logs, n - 1, id, l);
    }
  }

  lemma {:induction false} TotalUsedBeyond(logs: map<nat, Log>, n: nat, id: nat, l: Log)
    requires n <= id
    ensures TotalUsed(logs[id := l], n) == TotalUsed(logs, n)
  {
    if n > 0 { TotalUsedBeyond(logs, n - 1, id, l); }
  }

  lemma {:induction false} TotalUsedRemove(logs: map<nat, Log>, n: nat, id: nat)
    requires id in logs
    ensures TotalUsed(logs - {id}, n) == TotalUsed(logs, n) - if id < n then Used(logs[id]) else 0
  {
    if n > 0 { TotalUsedRemove(logs, n - 1, id); }
  }

  lemma RotatedTotal(s: State, c: Contents, n: nat)
    requires Inv(s, c) && CanStep(s)
    ensures var t := EnsureCompactionCapacity(s, n); Total(t) == Total(s)
  {
    SegmentsBelow(s, c);
    hide Inv, TotalUsed, Used;
    TotalUsedUpdate(s.logs, s.nextSegID + 1, s.nextSegID, []);
    TotalUsedNext(s.logs, s.nextSegID);
    UsedNone();
  }

  lemma TotalUsedNext(logs: map<nat, Log>, n: nat)
    requires n !in logs
    ensures TotalUsed(logs, n + 1) == TotalUsed(logs, n)
  {}

  lemma SegmentsBelow(s: State, c: Contents)
    requires Inv(s, c)
    ensures s.nextSegID !in s.logs && forall id :: id in s.logs ==> id < s.nextSegID
  {
    hide Pointers, LogOk, Used;
  }

  lemma CopyForwardTotal(s: State, c: Contents, r: Record)
    requires Inv(s, c) && CanStep(s) && Size(r) <= s.segSize
    ensures Total(CopyForward(s, r)) == Total(s) + Size(r)
  {
    hide Inv, EnsureCompactionCapacity, TotalUsed, Used, LastLocation;
    OutputRoom(s, c, Size(r));
    RotatedTotal(s, c, Size(r));
    var t := EnsureCompactionCapacity(s, Size(r));
    var out := t.compactOut.value;
    SegmentsBelow(t, c);
    TotalUsedUpdate(t.logs, t.nextSegID, out, t.logs[out] + [r]);
    UsedAppend(t.logs[out], r);
  }

  /** The relocation steps of a pass, one after the other. */
  function Rounds(s: State, n: nat): State {
    if n == 0 then s else Step(Rounds(s, n - 1), RelocateNext)
  }

  function FullPass(s: State, src: nat): State
    requires src in s.logs
  {
    Step(Rounds(Step(s, StartPass(src)), |s.logs[src]|), FinishPass)
  }

  /** The source's live bytes still to be copied, plus all used bytes. */
  function Pending(s: State): nat
    requires s.pass.Some? && s.pass.value.src in s.logs
  {
    var src := s.pass.value.src;
    Total(s) + LiveBytes(s.idx, src, s.logs[src], |s.logs[src]|)
  }

  /** What repointing a live record elsewhere leaves live in its segment. */
  lemma RepointedLive(idx: map<Bytes, Location>, idx': map<Bytes, Location>, id: nat, rs: seq<Record>, j: nat)
    requires Used(rs) <= TWO32 && j < |rs| && LiveAt(idx, id, rs, j) && Repointed(idx, idx', id, rs, rs[j].key)
    ensures LiveBytes(idx', id, rs, |rs|) == LiveBytes(idx, id, rs, |rs|) - Size(rs[j])
  {
    RepointedDead(idx, idx', id, rs, |rs|, rs[j].key);
    KeyBytesOf(idx, id, rs, |rs|, rs[j].key, j);
    LivePlusDead(idx, id, rs, |rs|);
    LivePlusDead(idx', id, rs, |rs|);
  }

  lemma EnsureCompactionCapacityFrame(s: State, c: Contents, n: nat)
    requires Inv(s, c) && CanStep(s) && n <= s.segSize
    ensures var t := EnsureCompactionCapacity(s, n);
            && t.idx == s.idx && t.pass == s.pass && t.dead == s.dead && t.compactOut.Some?
            && (s.pass.Some? ==> t.compactOut != Some(s.pass.value.src))
  {
    EnsureCompactionCapacityKeeps(s, c, n);
    TargetBound(EnsureCompactionCapacity(s, n), c, EnsureCompactionCapacity(s, n).active);
    hide Pointers, SegmentsOk, Used;
  }

  lemma CopyForwardFrame(s: State, c: Contents, r: Record)
    requires Inv(s, c) && CanStep(s) && Size(r) <= s.segSize
    ensures var v := CopyForward(s, r);
            && v.dead == s.dead && v.pass == s.pass && r.key in v.idx && v.idx == s.idx[r.key := v.idx[r.key]]
            && (s.pass.Some? ==> v.idx[r.key].segID != s.pass.value.src)
  {
    EnsureCompactionCapacityFrame(s, c, Size(r));
    hide Inv, EnsureCompactionCapacity;
  }

  /** Whatever is copied forward, no record of the source holds its key live afterwards. */
  lemma CopyForwardRepoints(s: State, c: Contents, r: Record, src: nat)
    requires Inv(s, c) && CanStep(s) && Size(r) <= s.segSize && IsSource(s, src)
    ensures src in s.logs && Repointed(s.idx, CopyForward(s, r).idx, src, s.logs[src], r.key)
    ensures src in CopyForward(s, r).logs && CopyForward(s, r).logs[src] == s.logs[src]
  {
    hide CopyForward, ValueOffset, Inv;
    SourceUntouched(s, c, r);
    CopyForwardFrame(s, c, r);
  }

  lemma RelocatePending(s: State, c: Contents)
    requires Inv(s, c) && CanStep(s) && MayRelocate(s)
    ensures var t := Relocate(s); var src := s.pass.value.src;
            src in t.logs && t.logs[src] == s.logs[src] && t.dead == s.dead
    ensures Pending(Relocate(s)) == Pending(s)
  {
    hide Inv, Repointed, CopyForward, LiveBytes, TotalUsed, ValueOffset;
    SourceFacts(s, c);
    var p := s.pass.value;
    var rs := s.logs[p.src];
    var r := rs[p.next];
    if !r.tombstone && LiveAt(s.idx, p.src, rs, p.next) {
      SizeBound(rs, s.segSize, p.next);
      CopyForwardTotal(s, c, r);
      CopyForwardRepoints(s, c, r, p.src);
      RepointedLive(s.idx, CopyForward(s, r).idx, p.src, rs, p.next);
      CopyForwardFrame(s, c, r);
    }
  }

  /** t is the pass s started, n records on. */
  ghost predicate Progressed(s: State, c: Contents, t: State, n: nat) {
    && s.pass.Some? && s.pass.value.src in s.logs && s.pass.value.src in t.logs
    && Inv(t, c) && CanStep(t)
    && t.pass == Some(Pass(s.pass.value.src, s.pass.value.next + n))
    && t.logs[s.pass.value.src] == s.logs[s.pass.value.src]
    && t.dead == s.dead && Pending(t) == Pending(s)
    && (Balanced(s) ==> Balanced(t))
  }

  lemma RelocateProgresses(s: State, c: Contents, t: State, n: nat)
    requires Progressed(s, c, t, n) && s.pass.value.next + n < |s.logs[s.pass.value.src]|
    ensures Progressed(s, c, Relocate(t), n + 1)
  {
    hide Inv, Pending, Balanced;
    RelocateKeeps(t, c);
    RelocatePending(t, c);
    if Balanced(s) { RelocateBalanced(t, c); }
    CanStepAlways(Relocate(t), c);
    hide CopyForward, CanStep;
  }

  lemma {:induction false} RoundsProgress(s: State, c: Contents, n: nat)
    requires Inv(s, c) && s.pass.Some? && s.pass.value.src in s.logs
    requires s.pass.value.next + n <= |s.logs[s.pass.value.src]|
    ensures Progressed(s, c, Rounds(s, n), n)
  {
    hide Inv, Pending, Balanced, Relocate;
    CanStepAlways(s, c);
    if n > 0 {
      RoundsProgress(s, c, n - 1);
      RelocateProgresses(s, c, Rounds(s, n - 1), n - 1);
    }
  }

  /** Once every record is handled none of the source's bytes is live. */
  lemma {:induction false} NothingLiveBelow(s: State, c: Contents, n: nat)
    requires Inv(s, c) && s.pass.Some? && n <= s.pass.value.next
    ensures s.pass.value.src in s.logs && n <= |s.logs[s.pass.value.src]|
    ensures LiveBytes(s.idx, s.pass.value.src, s.logs[s.pass.value.src], n) == 0
  {
    hide Inv, LiveAt;
    var src := s.pass.value.src;
    SourceFacts(s, c);
    if n > 0 {
      NothingLiveBelow(s, c, n - 1);
      HandledIsDead(s, c, n - 1);
    }
  }

  /** A record the pass has handled is not live. */
  lemma HandledIsDead(s: State, c: Contents, j: nat)
    requires Inv(s, c) && s.pass.Some? && s.pass.value.src in s.logs
    requires j < s.pass.value.next && j < |s.logs[s.pass.value.src]|
    ensures !LiveAt(s.idx, s.pass.value.src, s.logs[s.pass.value.src], j)
  {
    hide Inv, LiveAt;
    if LiveAt(s.idx, s.pass.value.src, s.logs[s.pass.value.src], j) {
      LiveRecordValue(s, c, s.pass.value.src, j);
    }
  }

  lemma PassFinishes(s: State, c: Contents)
    requires Inv(s, c) && MayFinish(s)
    ensures var t := Finish(s); var src := s.pass.value.src;
            Inv(t, c) && (Balanced(s) ==> Balanced(t)) && Total(t) == Pending(s) - Used(s.logs[src])
  {
    hide Inv, Balanced, LiveBytes, DeadBytes, TotalUsed, Used;
    FinishKeeps(s, c);
    if Balanced(s) { FinishBalanced(s); }
    SourceFacts(s, c);
    NothingLiveBelow(s, c, s.pass.value.next);
    TotalUsedRemove(s.logs, s.nextSegID, s.pass.value.src);
  }

  /** A completed pass with no writer in between keeps the map and drops the bytes of its source that were not live. */
  lemma PassEnds(s: State, c: Contents, src: nat)
    requires Inv(s, c) && MayStart(s, src)
    ensures var t := FullPass(s, src);
            && Inv(t, c) && (Balanced(s) ==> Balanced(t)) && t.pass.None?
            && src !in t.logs && t.dead == s.dead - {src}
            && Total(t) == Total(s) - DeadBytes(s.idx, src, s.logs[src], |s.logs[src]|)
  {
    hide Inv, Balanced, LiveBytes, DeadBytes, TotalUsed, Used, Relocate, Rounds, Finish, ValueOffset;
    var s0 := s.(pass := Some(Pass(src, 0)));
    var rs := s.logs[src];
    CanStepAlways(s, c);
    StartKeeps(s, c, src);
    if Balanced(s) { StartBalanced(s, src); }
    RoundsProgress(s0, c, |rs|);
    var s1 := Rounds(s0, |rs|);
    PassFinishes(s1, c);
    LivePlusDead(s.idx, src, rs, |rs|);
    assert rs[..|rs|] == rs;
    FinishDrops(s1);
  }

  /** With exact counters, what a pass reclaims is exactly the source's counter. */
  lemma PassReclaims(s: State, c: Contents, src: nat)
    requires Inv(s, c) && Balanced(s) && MayStart(s, src)
    ensures var t := FullPass(s, src);
            && Inv(t, c) && Balanced(t) && t.pass.None?
            && src !in t.logs && t.dead == s.dead - {src}
            && Total(t) == Total(s) - DeadOf(s.dead, src)
  {
    hide Inv, Total, FullPass, DeadBytes;
    PassEnds(s, c, src);
  }

  lemma FinishDrops(s: State)
    requires MayFinish(s)
    ensures var t := Finish(s); var src := s.pass.value.src;
            t.pass.None? && src !in t.logs && t.dead == s.dead - {src}
  {}

  // ----- compaction ends ------------------------------------------------------------------------

  /** Division in float64: the quotient to within one part in 2^53. */
  type Division = (nat, nat) -> real

  ghost predicate Float64(divide: Division) {
    forall d, c: nat :: c > 0 ==> CloseTo(divide(d, c), d as real / c as real)
  }

  predicate CloseTo(r: real, x: real) {
    x - x / 9007199254740992.0 <= r <= x + x / 9007199254740992.0
  }

  /** pickCompactionCandidate: immutable, not the output, and dead enough for the configured ratio. */
  predicate Candidate(s: State, divide: Division, ratio: real, id: nat)
    requires CanStep(s)
  {
    && id in s.logs && id != s.active && s.compactOut != Some(id)
    && s.capacity[id] != 0
    && divide(DeadOf(s.dead, id), s.capacity[id]) >= ratio
  }

  /** Segments with a nonzero counter: the measure that falls on every pass. */
  function Dirty(s: State): set<nat> {
    set id | id in s.dead && s.dead[id] > 0
  }

  lemma CandidateIsDirty(s: State, divide: Division, ratio: real, id: nat)
    requires CanStep(s) && Float64(divide) && ratio > 0.0 && Candidate(s, divide, ratio, id)
    ensures id in Dirty(s)
  {
    assert CloseTo(divide(0, s.capacity[id]), 0 as real / s.capacity[id] as real);
  }

  /** The passes of one compactNow call, each on a segment that was a candidate when it was picked. */
  function Passes(s: State, srcs: seq<nat>): State
    decreases |srcs|
  {
    if srcs == [] || srcs[0] !in s.logs then s else Passes(FullPass(s, srcs[0]), srcs[1..])
  }

  ghost predicate Picked(s: State, divide: Division, ratio: real, srcs: seq<nat>)
    decreases |srcs|
  {
    srcs == [] || (CanStep(s) && Candidate(s, divide, ratio, srcs[0]) && Picked(FullPass(s, srcs[0]), divide, ratio, srcs[1..]))
  }

  /**
   * With no writer interleaved, compactNow makes at most one pass per dirty segment,
   * whichever candidates it picks, although passes create and rotate output segments.
   */
  lemma {:induction false} CompactionEnds(s: State, c: Contents, divide: Division, ratio: real, srcs: seq<nat>)
    requires Inv(s, c) && Balanced(s) && s.pass.None? && Float64(divide) && ratio > 0.0 && Picked(s, divide, ratio, srcs)
    ensures |srcs| <= |Dirty(s)|
    ensures Inv(Passes(s, srcs), c) && Balanced(Passes(s, srcs)) && Total(Passes(s, srcs)) <= Total(s)
    decreases |srcs|
  {
    hide Inv, Balanced, FullPass, Total, Float64;
    if srcs != [] {
      var t := FullPass(s, srcs[0]);
      CandidateIsDirty(s, divide, ratio, srcs[0]);
      PassReclaims(s, c, srcs[0]);
      assert Dirty(t) == Dirty(s) - {srcs[0]};
      CompactionEnds(t, c, divide, ratio, srcs[1..]);
    }
  }
}
