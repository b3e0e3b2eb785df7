/** Which segments compaction takes, in dead bytes and sizes, and that a pass leaves the others as they are. */
module Passes {
  import opened Bytes
  import opened Record
  import opened Segment
  import opened Index
  import opened Engine
  import opened Accounting
  import opened Writes

  // ----- the ratio, up to rounding -----------------------------------------------------------

  /** Dead bytes over size are above the ratio by more than float64 can round away. */
  predicate SurelyAbove(dead: nat, size: nat, ratio: real) {
    size > 0 && dead as real / size as real - dead as real / size as real / 9007199254740992.0 >= ratio
  }

  /** There is nothing in the file, or its ratio is below by more than that. */
  predicate SurelyBelow(dead: nat, size: nat, ratio: real) {
    size > 0 ==> dead as real / size as real + dead as real / size as real / 9007199254740992.0 < ratio
  }

  /** A segment nothing is written to any more. */
  predicate Immutable(s: State, id: nat) {
    id in s.logs && id != s.active && s.compactOut != Some(id)
  }

  /** The search takes every immutable segment that is surely above the ratio, and none that is surely below. */
  lemma CandidateIff(s: State, divide: Division, ratio: real, id: nat)
    requires CanStep(s) && Float64(divide)
    ensures Candidate(s, divide, ratio, id) ==>
              Immutable(s, id) && s.capacity[id] > 0 && !SurelyBelow(DeadOf(s.dead, id), s.capacity[id], ratio)
    ensures Immutable(s, id) && SurelyAbove(DeadOf(s.dead, id), s.capacity[id], ratio) ==> Candidate(s, divide, ratio, id)
  {
    if id in s.logs && s.capacity[id] > 0 {
      assert CloseTo(divide(DeadOf(s.dead, id), s.capacity[id]), DeadOf(s.dead, id) as real / s.capacity[id] as real);
    }
  }

  // ----- what a pass leaves alone ----------------------------------------------------------------

  /** Every immutable segment but one is as it was. */
  ghost predicate LeavesAlone(s: State, t: State, src: nat) {
    && t.active == s.active && t.segSize == s.segSize && NoneReturns(s, t)
    && forall id :: Immutable(s, id) && id != src ==> SameSegment(s, t, id)
  }

  /** New segments have new numbers. */
  ghost predicate NoneReturns(s: State, t: State) {
    s.nextSegID <= t.nextSegID && forall id :: id in t.logs && id < s.nextSegID ==> id in s.logs
  }

  ghost predicate SameSegment(s: State, t: State, id: nat)
    requires id in s.logs
  {
    && Immutable(t, id) && t.logs[id] == s.logs[id]
    && (id in s.capacity <==> id in t.capacity) && (id in s.capacity ==> t.capacity[id] == s.capacity[id])
    && DeadOf(t.dead, id) == DeadOf(s.dead, id)
  }

  lemma NothingMoved(s: State)
    ensures LeavesAlone(s, s, s.active)
    ensures forall src :: LeavesAlone(s, s, src)
  {}

  lemma AloneThen(s: State, t: State, u: State, src: nat)
    requires LeavesAlone(s, t, src) && LeavesAlone(t, u, src)
    ensures LeavesAlone(s, u, src)
  {}

  lemma CopyLeavesAlone(s: State, t: State, r: Record, src: nat)
    requires CanStep(s) && s.nextSegID !in s.logs && CopyGoes(s, t, r)
    requires t.active == s.active && t.dead == s.dead && t.segSize == s.segSize
    ensures LeavesAlone(s, t, src)
  {
    hide Used;
  }

  lemma RelocateLeavesAlone(s: State, c: Contents, src: nat)
    requires Inv(s, c) && MayRelocate(s)
    ensures CanStep(s) && LeavesAlone(s, Step(s, RelocateNext), src)
  {
    hide Inv, CanStep, CopyGoes, LiveAt, Step, LeavesAlone;
    CanStepAlways(s, c);
    NextIsNew(s, c);
    RelocationGoes(s, c);
    StepSegSize(s, RelocateNext);
    var p, t := s.pass.value, Step(s, RelocateNext);
    var r := s.logs[p.src][p.next];
    if r.tombstone || !LiveAt(s.idx, p.src, s.logs[p.src], p.next) {
      SameButPass(s, t.pass, src);
    } else {
      CopyLeavesAlone(s, t, r, src);
    }
  }

  lemma SameButPass(s: State, pass: Option<Pass>, src: nat)
    ensures LeavesAlone(s, s.(pass := pass), src)
  {}

  lemma {:induction false} RoundsLeaveAlone(s: State, c: Contents, n: nat, src: nat)
    requires Inv(s, c) && s.pass.Some? && s.pass.value.src in s.logs
    requires s.pass.value.next + n <= |s.logs[s.pass.value.src]|
    ensures LeavesAlone(s, Rounds(s, n), src)
  {
    hide Inv, Step, LeavesAlone, Pending, Balanced;
    if n == 0 {
      NothingMoved(s);
    } else {
      RoundsLeaveAlone(s, c, n - 1, src);
      RoundsProgress(s, c, n - 1);
      RelocateLeavesAlone(Rounds(s, n - 1), c, src);
      AloneThen(s, Rounds(s, n - 1), Rounds(s, n), src);
    }
  }

  lemma FinishLeavesAlone(s: State)
    requires MayFinish(s)
    ensures LeavesAlone(s, Finish(s), s.pass.value.src)
  {}

  /** A pass with no writer in between changes no immutable segment but its source, which is gone. */
  lemma PassLeavesAlone(s: State, c: Contents, src: nat)
    requires Inv(s, c) && MayStart(s, src)
    ensures LeavesAlone(s, FullPass(s, src), src) && src !in FullPass(s, src).logs
  {
    hide Inv, Step, Rounds, LeavesAlone, Finish, Balanced, Total;
    var s0 := s.(pass := Some(Pass(src, 0)));
    var n := |s.logs[src]|;
    CanStepAlways(s, c);
    StartKeeps(s, c, src);
    RoundsProgress(s0, c, n);
    RoundsLeaveAlone(s0, c, n, src);
    SameButPass(s, s0.pass, src);
    AloneThen(s, s0, Rounds(s0, n), src);
    FinishLeavesAlone(Rounds(s0, n));
    AloneThen(s, Rounds(s0, n), Finish(Rounds(s0, n)), src);
    PassEnds(s, c, src);
    PassIsRounds(s, c, src);
  }

  lemma PassIsRounds(s: State, c: Contents, src: nat)
    requires Inv(s, c) && MayStart(s, src)
    ensures var s1 := Rounds(s.(pass := Some(Pass(src, 0))), |s.logs[src]|);
            CanStep(s1) && MayFinish(s1) && s1.pass.value.src == src && FullPass(s, src) == Finish(s1)
  {
    hide Inv, Balanced, Total, Rounds, Finish, Accounting.Pending;
    CanStepAlways(s, c);
    StartKeeps(s, c, src);
    RoundsProgress(s.(pass := Some(Pass(src, 0))), c, |s.logs[src]|);
  }

  // ----- what a whole call comes to ----------------------------------------------------------------

  /** No immutable segment is surely above the ratio. */
  ghost predicate NoneLeft(s: State, ratio: real)
    requires CanStep(s)
  {
    forall id :: Immutable(s, id) ==> !SurelyAbove(DeadOf(s.dead, id), s.capacity[id], ratio)
  }

  /** Between two states of one call: what was surely below is untouched, and what is left is as it was. */
  ghost predicate Between(s: State, t: State, ratio: real)
    requires CanStep(s)
  {
    && t.active == s.active && t.segSize == s.segSize && NoneReturns(s, t)
    && (forall id :: Immutable(s, id) && id in t.logs ==> SameSegment(s, t, id))
    && (forall id :: Immutable(s, id) && SurelyBelow(DeadOf(s.dead, id), s.capacity[id], ratio) ==> id in t.logs)
    && (AllBelow(s, ratio) ==> t == s)
  }

  ghost predicate AllBelow(s: State, ratio: real)
    requires CanStep(s)
  {
    forall id :: Immutable(s, id) ==> SurelyBelow(DeadOf(s.dead, id), s.capacity[id], ratio)
  }

  lemma BetweenStart(s: State, ratio: real)
    requires CanStep(s)
    ensures Between(s, s, ratio)
  {}

  lemma Numbered(s: State, c: Contents, id: nat)
    requires Inv(s, c) && id in s.logs
    ensures id < s.nextSegID
  {
    hide LogOk, Used, Pointers;
  }

  /** One more pass, on a segment that is not surely below. */
  lemma BetweenPass(s: State, t: State, d: Contents, c: Contents, src: nat, ratio: real)
    requires Inv(s, d) && CanStep(s) && Between(s, t, ratio) && Inv(t, c) && CanStep(t) && t.pass.None? && Immutable(t, src)
    requires !SurelyBelow(DeadOf(t.dead, src), t.capacity[src], ratio)
    ensures Between(s, FullPass(t, src), ratio)
  {
    hide Inv, FullPass, SurelyBelow;
    PassLeavesAlone(t, c, src);
    var u := FullPass(t, src);
    forall id | Immutable(s, id) && id in u.logs ensures id in t.logs && SameSegment(s, u, id) {
      Numbered(s, d, id);
      assert id != src;
      assert SameSegment(s, t, id);
    }
    forall id | Immutable(s, id) && SurelyBelow(DeadOf(s.dead, id), s.capacity[id], ratio) ensures id in u.logs {
      assert SameSegment(s, t, id);
    }
  }

  /** At the end what was surely above is gone. */
  lemma AboveIsGone(s: State, t: State, ratio: real, id: nat)
    requires CanStep(s) && CanStep(t) && Between(s, t, ratio) && NoneLeft(t, ratio)
    requires Immutable(s, id) && SurelyAbove(DeadOf(s.dead, id), s.capacity[id], ratio)
    ensures id !in t.logs
  {
    hide SurelyAbove, SurelyBelow;
  }
}
