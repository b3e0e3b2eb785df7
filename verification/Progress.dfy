/** No reachable state of the pool is a deadlock: whatever is under way can run to its end. */
module Progress {
  import opened Bytes
  import opened Pool

  /** The actions that carry on what some thread has begun. */
  predicate Finishing(a: Action) {
    !a.Acquire? && !a.Release? && !a.BeginSweep? && !a.BeginClose? && !a.Tick?
  }

  /** No thread is inside an operation, and no lock is held. */
  ghost predicate Quiescent(s: State) {
    && (forall t :: Pc(s, t).Idle?) && (s.closer.NotClosing? || s.closer.Returned?)
    && (forall n :: n in s.entries ==> s.entries[n].lock.None?)
  }

  // ----- some step is always enabled -------------------------------------------------------

  lemma HolderMoves(s: State, n: Name, t: Thread) returns (a: Action)
    requires Inv(s) && n in s.entries && s.entries[n].lock == Some(t)
    ensures Finishing(a) && Enabled(s, t, a)
  {
    assert InCritical(s, t, n);
    a := if Pc(s, t) == Locked(n) then Recheck else OpenResource(true);
  }

  lemma BusyMoves(s: State, t: Thread) returns (a: Action)
    requires Inv(s) && !Pc(s, t).Idle? && forall n :: n in s.entries ==> s.entries[n].lock.None?
    ensures Finishing(a) && Enabled(s, t, a)
  {
    hide ResourcesOk, HandlesOk, TimesOk, ClosingOk;
    assert PlaceOk(s, t);
    match Pc(s, t)
    case SawOpen(_) => a := GetEntry;
    case HasEntry(_) => a := LockEntry;
    case Locked(_) => a := Recheck;
    case Rechecked(_) => a := OpenResource(true);
    case Lowering(_) => a := Lower;
    case Sweeping(todo, _) =>
      if n :| n in todo {
        a := SweepOne(n);
      } else {
        a := EndSweep;
      }
  }

  lemma CloserMoves(s: State) returns (t: Thread, a: Action)
    requires Inv(s) && (s.closer.Stopping? || s.closer.Closing?) && forall n :: n in s.entries ==> s.entries[n].lock.None?
    ensures Finishing(a) && Enabled(s, t, a)
  {
    hide LocksOk, PlacesOk, RefsOk, LoweringOk, ResourcesOk, HandlesOk, TimesOk;
    t := s.closer.thread;
    if s.closer.Stopping? {
      a := SnapshotForClose;
    } else if n :| n in s.closer.todo {
      a := CloseOne(n);
    } else {
      a := EndClose;
    }
  }

  lemma SomeoneMoves(s: State) returns (t: Thread, a: Action)
    requires Inv(s) && !Quiescent(s)
    ensures Finishing(a) && Enabled(s, t, a)
  {
    hide Inv, Enabled, Finishing;
    if n :| n in s.entries && s.entries[n].lock.Some? {
      t := s.entries[n].lock.value;
      a := HolderMoves(s, n, t);
    } else if u :| !Pc(s, u).Idle? {
      t := u;
      a := BusyMoves(s, t);
    } else {
      t, a := CloserMoves(s);
    }
  }

  // ----- and takes work away -----------------------------------------------------------------

  /** How many steps a thread may still need. GetEntry may add an entry for Close to visit. */
  function Weight(pc: PC): nat {
    match pc
    case Idle => 0
    case SawOpen(_) => 6
    case HasEntry(_) => 3
    case Locked(_) => 2
    case Rechecked(_) => 1
    case Lowering(_) => 1
    case Sweeping(todo, _) => |todo| + 1
  }

  function CloserWeight(s: State): nat {
    match s.closer
    case Stopping(_) => |s.entries| + 2
    case Closing(_, todo) => |todo| + 1
    case _ => 0
  }

  function Threads(s: State, n: nat): nat {
    if n == 0 then 0 else Threads(s, n - 1) + Weight(Pc(s, n - 1))
  }

  function Work(s: State, n: nat): nat { Threads(s, n) + CloserWeight(s) }

  ghost predicate Below(s: State, n: nat) {
    forall t :: t >= n ==> Pc(s, t).Idle?
  }

  lemma {:induction false} OneThread(s: State, s': State, t: Thread, n: nat)
    requires forall u :: u != t ==> Pc(s', u) == Pc(s, u)
    ensures Threads(s', n) - Threads(s, n) == if t < n then Weight(Pc(s', t)) - Weight(Pc(s, t)) else 0
  {
    hide Weight, Pc;
    if n > 0 { OneThread(s, s', t, n - 1); }
  }

  predicate OfClose(a: Action) { a.SnapshotForClose? || a.CloseOne? || a.EndClose? }

  /** Close's own steps do not move its thread. */
  lemma CloseStays(s: State, t: Thread, a: Action)
    requires OfClose(a)
    ensures Pc(Step(s, t, a), t) == Pc(s, t)
  {
    hide Reapable, IsCloser;
  }

  lemma SweepMoves(s: State, t: Thread, a: Action)
    requires a.SweepOne? && Enabled(s, t, a)
    ensures Pc(Step(s, t, a), t) == Sweeping(Pc(s, t).todo - {a.name}, Pc(s, t).now)
  {
    hide Reapable, IsCloser, CloseRes;
  }

  /** Where the other steps lead. */
  lemma ThreadMoves(s: State, t: Thread, a: Action)
    requires Enabled(s, t, a) && Finishing(a) && !OfClose(a) && !a.SweepOne?
    ensures var pc, pc' := Pc(s, t), Pc(Step(s, t, a), t);
            match a
            case GetEntry => pc.SawOpen? && pc'.HasEntry?
            case LockEntry => pc.HasEntry? && pc'.Locked?
            case Recheck => pc.Locked? && (pc'.Rechecked? || pc'.Idle?)
            case _ => !pc.Idle? && pc'.Idle?
  {
    hide Reapable, IsCloser, CloseRes;
  }

  lemma ThreadLighter(s: State, t: Thread, a: Action)
    requires Enabled(s, t, a) && Finishing(a)
    ensures var w, w' := Weight(Pc(s, t)), Weight(Pc(Step(s, t, a), t));
            if a.GetEntry? then w' + 2 < w else if OfClose(a) then w' == w else w' < w
  {
    if OfClose(a) {
      CloseStays(s, t, a);
    } else if a.SweepOne? {
      SweepMoves(s, t, a);
      assert |Pc(s, t).todo - {a.name}| == |Pc(s, t).todo| - 1;
    } else {
      ThreadMoves(s, t, a);
    }
    hide Step, Pc, Enabled;
  }

  lemma EntriesGrow(s: State, t: Thread, a: Action)
    requires Enabled(s, t, a) && !OfClose(a) && Finishing(a)
    ensures var s' := Step(s, t, a); s'.closer == s.closer && |s'.entries| <= |s.entries| + if a.GetEntry? then 1 else 0
  {
    hide Reapable, IsCloser;
    var s' := Step(s, t, a);
    assert |s'.entries| == |s'.entries.Keys| && |s.entries| == |s.entries.Keys|;
    if !a.GetEntry? {
      assert s'.entries.Keys == s.entries.Keys;
    }
  }

  lemma CloserLighter(s: State, t: Thread, a: Action)
    requires Enabled(s, t, a) && OfClose(a)
    ensures CloserWeight(Step(s, t, a)) < CloserWeight(s)
  {
    hide Reapable, IsCloser, Free;
    assert |s.entries.Keys| == |s.entries|;
    if a.CloseOne? {
      assert |s.closer.todo - {a.name}| == |s.closer.todo| - 1;
    }
  }

  /** The acting thread's account and Close's together. */
  lemma StepLighter(s: State, t: Thread, a: Action)
    requires Enabled(s, t, a) && Finishing(a)
    ensures var s' := Step(s, t, a);
            Weight(Pc(s', t)) + CloserWeight(s') < Weight(Pc(s, t)) + CloserWeight(s)
  {
    hide Enabled, Step, Weight, Pc;
    ThreadLighter(s, t, a);
    if OfClose(a) { CloserLighter(s, t, a); } else { EntriesGrow(s, t, a); }
  }

  lemma BoundHolds(s: State, t: Thread, a: Action, n: nat)
    requires Below(s, n) && (t < n || (Finishing(a) && Enabled(s, t, a)))
    ensures Below(Step(s, t, a), n)
  {
    hide Step;
    Frame(s, t, a);
    if t >= n {
      assert Pc(s, t).Idle?;
      CloseStays(s, t, a);
    }
  }

  lemma WorkFalls(s: State, t: Thread, a: Action, n: nat)
    requires Enabled(s, t, a) && Finishing(a) && Below(s, n)
    ensures Work(Step(s, t, a), n) < Work(s, n)
  {
    hide Enabled, Step, Weight, Finishing, Below, Pc;
    Frame(s, t, a);
    StepLighter(s, t, a);
    OneThread(s, Step(s, t, a), t, n);
    IdleWeighs(s, t, a, n);
  }

  lemma IdleWeighs(s: State, t: Thread, a: Action, n: nat)
    requires Enabled(s, t, a) && Finishing(a) && Below(s, n)
    ensures t >= n ==> Weight(Pc(s, t)) == 0 && Weight(Pc(Step(s, t, a), t)) == 0
  {
    hide Enabled, Step, Finishing;
    BoundHolds(s, t, a, n);
  }

  // ----- so everything ends ---------------------------------------------------------------------

  lemma {:induction false} ThreadsBounded(ttl: int, schedule: seq<(Thread, Action)>) returns (n: nat)
    ensures Below(Run(ttl, schedule), n)
  {
    hide Below, Step;
    if schedule == [] {
      n := 0;
      NobodyYet(ttl);
    } else {
      var last := schedule[|schedule| - 1];
      var m := ThreadsBounded(ttl, schedule[..|schedule| - 1]);
      n := if last.0 < m then m else last.0 + 1;
      Higher(Run(ttl, schedule[..|schedule| - 1]), m, n);
      BoundHolds(Run(ttl, schedule[..|schedule| - 1]), last.0, last.1, n);
    }
  }

  lemma NobodyYet(ttl: int)
    ensures Below(Start(ttl), 0)
  {}

  lemma Higher(s: State, m: nat, n: nat)
    requires Below(s, m) && m <= n
    ensures Below(s, n)
  {}

  lemma {:induction false} FinishFrom(ttl: int, schedule: seq<(Thread, Action)>, n: nat) returns (more: seq<(Thread, Action)>)
    requires Below(Run(ttl, schedule), n)
    ensures forall i :: 0 <= i < |more| ==> Finishing(more[i].1)
    ensures Quiescent(Run(ttl, schedule + more))
    decreases Work(Run(ttl, schedule), n)
  {
    hide Below, Step, Work, Quiescent, Enabled, Inv, Finishing;
    var s := Run(ttl, schedule);
    if Quiescent(s) {
      more := [];
      assert schedule + more == schedule;
    } else {
      RunInv(ttl, schedule);
      var t, a := SomeoneMoves(s);
      var next := schedule + [(t, a)];
      assert next[..|next| - 1] == schedule;
      WorkFalls(s, t, a, n);
      BoundHolds(s, t, a, n);
      var rest := FinishFrom(ttl, next, n);
      more := [(t, a)] + rest;
      assert schedule + more == next + rest;
    }
  }

  /**
   * From every reachable state, whatever threads are in the middle of, the actions that only carry
   * on what was begun can lead to a state in which every operation has returned and every lock is
   * free: no lock, and no wait of Close or a sweep, ever blocks for good.
   */
  lemma EveryRunCanFinish(ttl: int, schedule: seq<(Thread, Action)>)
    ensures exists more: seq<(Thread, Action)> ::
              (forall i :: 0 <= i < |more| ==> Finishing(more[i].1)) && Quiescent(Run(ttl, schedule + more))
  {
    hide Quiescent, Run, Finishing;
    var n := ThreadsBounded(ttl, schedule);
    var more := FinishFrom(ttl, schedule, n);
  }

  // ----- however it goes on --------------------------------------------------------------------

  function Then(s: State, more: seq<(Thread, Action)>): State
    decreases |more|
  {
    if more == [] then s else Then(Step(s, more[0].0, more[0].1), more[1..])
  }

  /** Each of these steps carries on what was begun, and can be taken when its turn comes. */
  predicate Carries(s: State, more: seq<(Thread, Action)>)
    decreases |more|
  {
    more == []
    || (Finishing(more[0].1) && Enabled(s, more[0].0, more[0].1) && Carries(Step(s, more[0].0, more[0].1), more[1..]))
  }

  ghost predicate Stuck(s: State) {
    forall t, a :: Finishing(a) ==> !Enabled(s, t, a)
  }

  lemma {:induction false} CarryingEnds(s: State, n: nat, more: seq<(Thread, Action)>)
    requires Inv(s) && Below(s, n) && Carries(s, more)
    ensures |more| <= Work(s, n) && Inv(Then(s, more))
    decreases |more|
  {
    hide Inv, Below, Work, Finishing, Enabled, Step;
    if more != [] {
      var (t, a) := more[0];
      StepInv(s, t, a);
      BoundHolds(s, t, a, n);
      WorkFalls(s, t, a, n);
      CarryingEnds(Step(s, t, a), n, more[1..]);
    }
  }

  lemma StuckIsQuiescent(s: State)
    requires Inv(s) && Stuck(s)
    ensures Quiescent(s)
  {
    hide Inv, Quiescent, Finishing, Enabled;
    if !Quiescent(s) {
      var t, a := SomeoneMoves(s);
    }
  }

  /**
   * However the scheduler picks: from every reachable state the steps that carry on what was begun
   * run out after boundedly many, and where they have, every operation has returned and every lock
   * is free.
   */
  lemma EveryRunWindsDown(ttl: int, schedule: seq<(Thread, Action)>) returns (bound: nat)
    ensures forall more :: Carries(Run(ttl, schedule), more) ==>
              |more| <= bound && (Stuck(Then(Run(ttl, schedule), more)) ==> Quiescent(Then(Run(ttl, schedule), more)))
  {
    hide Inv, Below, Work, Run, Carries, Then, Stuck, Quiescent;
    var s := Run(ttl, schedule);
    var n := ThreadsBounded(ttl, schedule);
    RunInv(ttl, schedule);
    bound := Work(s, n);
    forall more | Carries(s, more) ensures |more| <= bound && (Stuck(Then(s, more)) ==> Quiescent(Then(s, more))) {
      CarryingEnds(s, n, more);
      if Stuck(Then(s, more)) { StuckIsQuiescent(Then(s, more)); }
    }
  }
}
