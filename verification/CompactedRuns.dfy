/** Two runs after which opening the directory does not give the contents back. */
module CompactedRuns {
  import opened Bytes
  import opened Record
  import opened Segment
  import opened Engine
  import opened Compacted

  const KEY_A: Bytes := [97]
  const KEY_B: Bytes := [98]

  function PutA(value: Bytes): Record { Record(KEY_A, value, false, 0) }
  function PutB(value: Bytes): Record { Record(KEY_B, value, false, 0) }
  function DropA(): Record { Record(KEY_A, [], true, 0) }

  lemma UsedOne(r: Record)
    ensures Used([r]) == Size(r) && Used([]) == 0 && ValueOffset([r], 0) == Uint32(HEADER_SIZE + |r.key|)
  {
    assert [r][..0] == [];
  }

  // ----- a dropped tombstone ---------------------------------------------------------------

  /** Room for one record a segment: a put and deleted, b put, the tombstone's segment compacted. */
  function Dropping(): seq<Event> {
    [Put(KEY_A, [], 0), Delete(KEY_A, 0), Put(KEY_B, [], 0), StartPass(1), RelocateNext, FinishPass]
  }

  lemma RunSteps(segSize: nat, es: seq<Event>, e: Event)
    ensures Run(segSize, es + [e]) == Step(Run(segSize, es), e)
    ensures MapRun(segSize, es + [e]) == MapStep(segSize, MapRun(segSize, es), e)
  {
    hide Step, MapStep;
    assert (es + [e])[..|es|] == es;
  }

  ghost predicate Looks(s: State, logs: map<nat, Log>, active: nat, next: nat) {
    s.segSize == 22 && s.logs == logs && s.active == active && s.nextSegID == next && s.compactOut.None?
    && s.capacity.Keys == logs.Keys && active in logs && s.capacity[active] == 22
  }

  lemma FirstPut(s: State)
    requires s == Open(22)
    ensures var t := Step(s, Put(KEY_A, [], 0)); Looks(t, map[0 := [PutA([])]], 0, 1) && t.pass.None?
  {
    UsedOne(PutA([]));
  }

  lemma ThenDelete(s: State)
    requires Looks(s, map[0 := [PutA([])]], 0, 1) && s.pass.None?
    ensures var t := Step(s, Delete(KEY_A, 0));
            Looks(t, map[0 := [PutA([])], 1 := [DropA()]], 1, 2) && t.pass.None? && KEY_A !in t.idx
  {
    UsedOne(PutA([]));
    UsedOne(DropA());
    hide AddDisplaced, AddDead;
    assert [] + [DropA()] == [DropA()];
    assert Step(s, Delete(KEY_A, 0)) == DeleteRecord(s, DropA());
    assert EnsureCapacity(s, 22).logs == map[0 := [PutA([])], 1 := []];
    assert DeleteRecord(s, DropA()).logs == map[0 := [PutA([])], 1 := [DropA()]];
  }

  lemma ThenPut(s: State)
    requires Looks(s, map[0 := [PutA([])], 1 := [DropA()]], 1, 2) && s.pass.None? && KEY_A !in s.idx
    ensures var t := Step(s, Put(KEY_B, [], 0));
            Looks(t, map[0 := [PutA([])], 1 := [DropA()], 2 := [PutB([])]], 2, 3) && t.pass.None? && KEY_A !in t.idx
  {
    UsedOne(DropA());
    hide AddDisplaced, AddDead;
  }

  lemma ThenPass(s: State)
    requires Looks(s, map[0 := [PutA([])], 1 := [DropA()], 2 := [PutB([])]], 2, 3) && s.pass.None?
    ensures var t := Step(Step(Step(s, StartPass(1)), RelocateNext), FinishPass);
            Looks(t, map[0 := [PutA([])], 2 := [PutB([])]], 2, 3)
  {
    hide LiveAt, Used;
    var t1 := Step(s, StartPass(1));
    var t2 := Step(t1, RelocateNext);
    assert t2 == t1.(pass := Some(Pass(1, 1)));
    assert Step(t2, FinishPass).logs == map[0 := [PutA([])], 2 := [PutB([])]];
  }

  lemma DroppingEnds()
    ensures Looks(Run(22, Dropping()), map[0 := [PutA([])], 2 := [PutB([])]], 2, 3)
    ensures KEY_A !in MapRun(22, Dropping())
  {
    hide Step, Looks;
    var e := Dropping();
    var e0: seq<Event> := [];
    var e1, e2 := e0 + [e[0]], e0 + [e[0]] + [e[1]];
    var e3, e4, e5 := [e[0], e[1], e[2]], [e[0], e[1], e[2], e[3]], [e[0], e[1], e[2], e[3], e[4]];
    assert e3 == e2 + [e[2]] && e4 == e3 + [e[3]] && e5 == e4 + [e[4]] && e == e5 + [e[5]];
    RunSteps(22, e0, e[0]);
    RunSteps(22, e1, e[1]);
    RunSteps(22, e2, e[2]);
    RunSteps(22, e3, e[3]);
    RunSteps(22, e4, e[4]);
    RunSteps(22, e5, e[5]);
    assert Run(22, e0) == Open(22);
    FirstPut(Run(22, e0));
    ThenDelete(Run(22, e1));
    ThenPut(Run(22, e2));
    ThenPass(Run(22, e3));
  }

  /** Compaction drops the tombstone and the deleted key comes back. */
  lemma TombstoneDropped()
    ensures var s := Run(22, Dropping()); AllLogsOk(s) && s.nextSegID > 0 && AllLogsOk(Recovered(s))
    ensures !Agree(Recovered(Run(22, Dropping())), MapRun(22, Dropping()))
  {
    hide Agree, AllLogsOk, Recovered, Run, MapRun, Dropping;
    assert forall i :: 0 <= i < |Dropping()| ==> WellTyped(Dropping()[i]) by { AllWellTyped(); }
    DroppingEnds();
    ContentsComeBackIff(22, Dropping());
    assert Last(Run(22, Dropping()).logs, 0, 3, KEY_A) == Some((0, 0)) by { LastOfA(); }
    assert !Survives(Run(22, Dropping()).logs, 3, MapRun(22, Dropping()), KEY_A);
  }

  lemma AllWellTyped()
    ensures forall i :: 0 <= i < |Dropping()| ==> WellTyped(Dropping()[i])
  {}

  lemma LastOfA()
    ensures Last(map[0 := [PutA([])], 2 := [PutB([])]], 0, 3, KEY_A) == Some((0, 0))
  {
    var logs := map[0 := [PutA([])], 2 := [PutB([])]];
    assert LastIn(logs[2], KEY_A, 1) == None;
    assert LastIn(logs[0], KEY_A, 1) == Some(0);
    assert Last(logs, 0, 1, KEY_A) == Some((0, 0));
    assert Last(logs, 0, 2, KEY_A) == Some((0, 0));
  }

  // ----- an output above the active segment -----------------------------------------------------

  /** a put, b put in the next segment, the first one compacted into a third, a put again in the second. */
  function Overtaking(): seq<Event> {
    [Put(KEY_A, [0], 0), Put(KEY_B, [0], 0), StartPass(0), RelocateNext, FinishPass, Put(KEY_A, [], 0)]
  }

  ghost predicate Stands(s: State, logs: map<nat, Log>, active: nat, compactOut: Option<nat>, next: nat, a: nat) {
    && s.segSize == 45 && s.logs == logs && s.active == active && s.nextSegID == next && s.compactOut == compactOut
    && s.capacity.Keys == logs.Keys && active in logs && s.capacity[active] == 45 && s.pass.None?
    && (compactOut.Some? ==> compactOut.value in logs)
    && KEY_A in s.idx && s.idx[KEY_A].segID == a && s.idx[KEY_A].valOffset == 22
  }

  lemma FirstA(s: State)
    requires s == Open(45)
    ensures Stands(Step(s, Put(KEY_A, [0], 0)), map[0 := [PutA([0])]], 0, None, 1, 0)
  {
    UsedOne(PutA([0]));
    hide AddDisplaced, Used, ValueOffset;
    assert EnsureCapacity(s, 23) == s;
    assert Step(s, Put(KEY_A, [0], 0)) == PutRecord(s, PutA([0]));
    assert [] + [PutA([0])] == [PutA([0])];
    assert PutRecord(s, PutA([0])).logs == map[0 := [PutA([0])]];
  }

  lemma ThenB(s: State)
    requires Stands(s, map[0 := [PutA([0])]], 0, None, 1, 0)
    ensures Stands(Step(s, Put(KEY_B, [0], 0)), map[0 := [PutA([0])], 1 := [PutB([0])]], 1, None, 2, 0)
  {
    UsedOne(PutA([0]));
    UsedOne(PutB([0]));
    hide AddDisplaced;
    assert Step(s, Put(KEY_B, [0], 0)) == PutRecord(s, PutB([0]));
    assert EnsureCapacity(s, 23).logs == map[0 := [PutA([0])], 1 := []];
    assert PutRecord(s, PutB([0])).logs == map[0 := [PutA([0])], 1 := [PutB([0])]];
  }

  lemma CopiesA(s: State)
    requires Stands(s, map[0 := [PutA([0])], 1 := [PutB([0])]], 1, None, 2, 0)
    ensures var t := CopyForward(s.(pass := Some(Pass(0, 0))), PutA([0]));
            && t.logs == map[0 := [PutA([0])], 1 := [PutB([0])], 2 := [PutA([0])]] && t.compactOut == Some(2)
            && t == s.(logs := t.logs, capacity := s.capacity[2 := 45], compactOut := Some(2), nextSegID := 3,
                       idx := t.idx, pass := Some(Pass(0, 0)))
            && KEY_A in t.idx && t.idx[KEY_A].segID == 2 && t.idx[KEY_A].valOffset == 22
  {
    UsedOne(PutA([0]));
    var p := s.(pass := Some(Pass(0, 0)));
    assert EnsureCompactionCapacity(p, 23).logs == map[0 := [PutA([0])], 1 := [PutB([0])], 2 := []];
    assert CopyForward(p, PutA([0])).logs == map[0 := [PutA([0])], 1 := [PutB([0])], 2 := [PutA([0])]];
  }

  /** a copied, its old segment still there. */
  ghost predicate Copied(s: State) {
    && s.segSize == 45 && s.logs == map[0 := [PutA([0])], 1 := [PutB([0])], 2 := [PutA([0])]] && s.active == 1
    && s.nextSegID == 3 && s.compactOut == Some(2) && s.capacity.Keys == s.logs.Keys && s.capacity[1] == 45
    && s.pass == Some(Pass(0, 1)) && KEY_A in s.idx && s.idx[KEY_A].segID == 2 && s.idx[KEY_A].valOffset == 22
  }

  lemma ThenCopied(s: State)
    requires Stands(s, map[0 := [PutA([0])], 1 := [PutB([0])]], 1, None, 2, 0)
    ensures Copied(Step(Step(s, StartPass(0)), RelocateNext))
  {
    CopiesA(s);
    UsedOne(PutA([0]));
    hide Used, CopyForward, ValueOffset;
    var t1 := s.(pass := Some(Pass(0, 0)));
    assert Step(s, StartPass(0)) == t1;
    assert LiveAt(t1.idx, 0, t1.logs[0], 0);
    assert Step(t1, RelocateNext) == CopyForward(t1, PutA([0])).(pass := Some(Pass(0, 1)));
  }

  lemma ThenFinished(s: State)
    requires Copied(s)
    ensures Stands(Step(s, FinishPass), map[1 := [PutB([0])], 2 := [PutA([0])]], 1, Some(2), 3, 2)
  {
    assert MayFinish(s);
    assert Finish(s).logs == map[1 := [PutB([0])], 2 := [PutA([0])]];
  }

  lemma ThenA(s: State)
    requires Stands(s, map[1 := [PutB([0])], 2 := [PutA([0])]], 1, Some(2), 3, 2)
    ensures var t := Step(s, Put(KEY_A, [], 0));
            t.logs == map[1 := [PutB([0]), PutA([])], 2 := [PutA([0])]] && t.nextSegID == 3
  {
    UsedOne(PutB([0]));
    hide AddDisplaced;
    assert Step(s, Put(KEY_A, [], 0)) == PutRecord(s, PutA([]));
    assert [PutB([0])] + [PutA([])] == [PutB([0]), PutA([])];
  }

  lemma OvertakingEnds()
    ensures var s := Run(45, Overtaking());
            s.logs == map[1 := [PutB([0]), PutA([])], 2 := [PutA([0])]] && s.nextSegID == 3
    ensures var c := MapRun(45, Overtaking()); KEY_A in c && c[KEY_A] == []
  {
    hide Step, Stands, Copied;
    var e := Overtaking();
    var e0: seq<Event> := [];
    var e1, e2 := e0 + [e[0]], e0 + [e[0]] + [e[1]];
    var e3, e4, e5 := [e[0], e[1], e[2]], [e[0], e[1], e[2], e[3]], [e[0], e[1], e[2], e[3], e[4]];
    assert e3 == e2 + [e[2]] && e4 == e3 + [e[3]] && e5 == e4 + [e[4]] && e == e5 + [e[5]];
    RunSteps(45, e0, e[0]);
    RunSteps(45, e1, e[1]);
    RunSteps(45, e2, e[2]);
    RunSteps(45, e3, e[3]);
    RunSteps(45, e4, e[4]);
    RunSteps(45, e5, e[5]);
    assert Run(45, e0) == Open(45);
    FirstA(Run(45, e0));
    ThenB(Run(45, e1));
    ThenCopied(Run(45, e2));
    ThenFinished(Run(45, e4));
    ThenA(Run(45, e5));
  }

  /** The copy compaction made, in a segment above the active one, is replayed after the newer value. */
  lemma OldValueOvertakes()
    ensures var s := Run(45, Overtaking()); AllLogsOk(s) && s.nextSegID > 0 && AllLogsOk(Recovered(s))
    ensures !Agree(Recovered(Run(45, Overtaking())), MapRun(45, Overtaking()))
  {
    hide Agree, AllLogsOk, Recovered, Run, MapRun, Overtaking;
    assert forall i :: 0 <= i < |Overtaking()| ==> WellTyped(Overtaking()[i]) by { OvertakingWellTyped(); }
    OvertakingEnds();
    ContentsComeBackIff(45, Overtaking());
    assert Last(Run(45, Overtaking()).logs, 0, 3, KEY_A) == Some((2, 0)) by { LastOfOvertaken(); }
    assert !Survives(Run(45, Overtaking()).logs, 3, MapRun(45, Overtaking()), KEY_A);
  }

  lemma OvertakingWellTyped()
    ensures forall i :: 0 <= i < |Overtaking()| ==> WellTyped(Overtaking()[i])
  {}

  lemma LastOfOvertaken()
    ensures Last(map[1 := [PutB([0]), PutA([])], 2 := [PutA([0])]], 0, 3, KEY_A) == Some((2, 0))
  {
    var logs := map[1 := [PutB([0]), PutA([])], 2 := [PutA([0])]];
    assert LastIn(logs[2], KEY_A, 1) == Some(0);
  }
}
