/**
 * What the pool's operations come to, over whole runs: which resources a sweep closes, what an
 * Acquire and a Release give, and what is closed once Close has returned.
 */
module PoolRuns {
  import opened Bytes
  import opened Pool

  // ----- the idle clock ----------------------------------------------------------------------

  /** The idle clock of a live entry without handles was set by the last of them to be given back. */
  ghost predicate IdleOk(s: State) {
    forall n :: n in s.entries && s.entries[n].live && s.entries[n].refs == 0 ==>
      exists h :: GivenBackAt(s, h, n, s.entries[n].idleSince)
  }

  ghost predicate GivenBackAt(s: State, h: int, n: Name, time: int) {
    0 <= h < |s.handles| && s.handles[h].name == n && s.handles[h].status == Gone && s.handles[h].goneAt == time
  }

  /** Handles once given back stay as they are. */
  ghost predicate GoneStays(s: State, s': State) {
    |s.handles| <= |s'.handles| && forall h :: 0 <= h < |s.handles| && s.handles[h].status == Gone ==> s'.handles[h] == s.handles[h]
  }

  lemma StepGone(s: State, t: Thread, a: Action)
    requires LoweringOk(s)
    ensures GoneStays(s, Step(s, t, a))
  {
    hide ValidName, Reapable;
  }

  /** A live entry without handles was so before, with the same clock, or has just lost its last one. */
  lemma StepIdle(s: State, t: Thread, a: Action, n: Name)
    requires RefsOk(s) && LoweringOk(s)
    requires var s' := Step(s, t, a); n in s'.entries && s'.entries[n].live && s'.entries[n].refs == 0
    ensures var s' := Step(s, t, a);
            || (n in s.entries && s.entries[n].live && s.entries[n].refs == 0 && s'.entries[n].idleSince == s.entries[n].idleSince)
            || (a.Lower? && Pc(s, t).Lowering? && GivenBackAt(s', Pc(s, t).handle, n, s'.entries[n].idleSince))
  {
    hide ValidName, Reapable, Outstanding;
  }

  lemma StepIdleOk(s: State, t: Thread, a: Action)
    requires Inv(s) && IdleOk(s)
    ensures IdleOk(Step(s, t, a))
  {
    hide Step, LocksOk, PlacesOk, RefsOk, LoweringOk, ResourcesOk, HandlesOk, TimesOk, ClosingOk;
    var s' := Step(s, t, a);
    StepGone(s, t, a);
    forall n | n in s'.entries && s'.entries[n].live && s'.entries[n].refs == 0
      ensures exists h :: GivenBackAt(s', h, n, s'.entries[n].idleSince)
    {
      StepIdle(s, t, a, n);
      if n in s.entries && s.entries[n].live && s.entries[n].refs == 0 && s'.entries[n].idleSince == s.entries[n].idleSince {
        var h :| GivenBackAt(s, h, n, s.entries[n].idleSince);
        assert GivenBackAt(s', h, n, s'.entries[n].idleSince);
      }
    }
  }

  lemma {:induction false} RunIdle(ttl: int, schedule: seq<(Thread, Action)>)
    ensures IdleOk(Run(ttl, schedule))
  {
    hide Inv, IdleOk, Step;
    if schedule == [] {
      StartIdle(ttl);
    } else {
      var last := schedule[|schedule| - 1];
      RunIdle(ttl, schedule[..|schedule| - 1]);
      RunInv(ttl, schedule[..|schedule| - 1]);
      StepIdleOk(Run(ttl, schedule[..|schedule| - 1]), last.0, last.1);
    }
  }

  lemma StartIdle(ttl: int)
    ensures IdleOk(Start(ttl))
  {}

  // ----- what a sweep closes -----------------------------------------------------------------------

  /** The resource of n is open, and every handle on it was given back at least the idle time ago. */
  ghost predicate IdleFor(s: State, n: Name, ttl: int, now: int) {
    && n in s.entries && s.entries[n].live
    && forall h :: 0 <= h < |s.handles| && s.handles[h].name == n ==> s.handles[h].status == Gone && now - s.handles[h].goneAt >= ttl
  }

  /** Between the two states the resource of n was closed once, and nothing else was touched. */
  ghost predicate ClosedOne(s: State, s': State, n: Name)
    requires n in s.entries
  {
    var r := s.entries[n].res;
    && s'.entries == s.entries[n := s.entries[n].(live := false)] && s'.handles == s.handles
    && r < |s.resources| && s.resources[r].closes == 0 && |s'.resources| == |s.resources| && s'.resources[r].closes == 1
    && forall i :: 0 <= i < |s.resources| && i != r ==> s'.resources[i] == s.resources[i]
  }

  lemma IdleIsReapable(s: State, n: Name, now: int)
    requires Inv(s) && IdleOk(s) && n in s.entries
    ensures Reapable(s, n, now) <==> IdleFor(s, n, s.ttl, now)
  {
    hide LocksOk, PlacesOk, LoweringOk, ResourcesOk, HandlesOk, ClosingOk;
    if Reapable(s, n, now) {
      forall h | 0 <= h < |s.handles| && s.handles[h].name == n
        ensures s.handles[h].status == Gone && now - s.handles[h].goneAt >= s.ttl
      {
        NotHeld(s, n, h);
      }
    }
    if IdleFor(s, n, s.ttl, now) {
      assert Outstanding(s.handles, n) == {};
      var h :| GivenBackAt(s, h, n, s.entries[n].idleSince);
    }
  }

  lemma SweepStep(s: State, t: Thread, n: Name)
    requires ResourcesOk(s) && Enabled(s, t, SweepOne(n))
    ensures var s' := Step(s, t, SweepOne(n));
            && Pc(s', t) == Sweeping(Pc(s, t).todo - {n}, Pc(s, t).now)
            && if Reapable(s, n, Pc(s, t).now) then ClosedOne(s, s', n)
               else s'.entries == s.entries && s'.handles == s.handles && s'.resources == s.resources
  {}

  /**
   * In every run a sweep closes, of the entries it comes to, exactly those whose handles were all
   * given back at least the idle time before its clock reading.
   */
  lemma EverySweepClosesIdle(ttl: int, schedule: seq<(Thread, Action)>, t: Thread, n: Name)
    requires Enabled(Run(ttl, schedule), t, SweepOne(n))
    ensures var s := Run(ttl, schedule); var s' := Step(s, t, SweepOne(n));
            if IdleFor(s, n, ttl, Pc(s, t).now) then ClosedOne(s, s', n)
            else s'.entries == s.entries && s'.handles == s.handles && s'.resources == s.resources
  {
    hide Run, Step, Inv, IdleOk, Reapable, IdleFor, ClosedOne;
    var s := Run(ttl, schedule);
    RunInv(ttl, schedule);
    RunIdle(ttl, schedule);
    RunTtl(ttl, schedule);
    IdleIsReapable(s, n, Pc(s, t).now);
    ResourcesOfInv(s);
    SweepStep(s, t, n);
  }

  lemma ResourcesOfInv(s: State)
    requires Inv(s)
    ensures ResourcesOk(s)
  {
    hide ResourcesOk;
  }

  // ----- a whole sweep ---------------------------------------------------------------------------------

  /** A sweep starts with every entry there is. */
  lemma SweepTakesAll(s: State, t: Thread, now: int)
    requires Enabled(s, t, BeginSweep(now))
    ensures Pc(Step(s, t, BeginSweep(now)), t) == Sweeping(s.entries.Keys, now)
  {}

  /** Only a sweep's own thread moves it on: an entry leaves its list by being swept, and it ends with none left. */
  lemma SweepMoves(s: State, t: Thread, u: Thread, a: Action)
    requires Pc(s, t).Sweeping?
    ensures var s' := Step(s, u, a); var todo, now := Pc(s, t).todo, Pc(s, t).now;
            || Pc(s', t) == Pc(s, t)
            || (u == t && a.SweepOne? && Enabled(s, t, a) && Pc(s', t) == Sweeping(todo - {a.name}, now))
            || (u == t && a.EndSweep? && Enabled(s, t, a) && todo == {})
  {
    hide Reapable, ValidName;
  }

  /** Step k of the schedule is the sweep of thread t coming to n. */
  ghost predicate Visits(ttl: int, schedule: seq<(Thread, Action)>, k: int, t: Thread, now: int, n: Name) {
    0 <= k < |schedule| && schedule[k] == (t, SweepOne(n))
    && Enabled(Run(ttl, schedule[..k]), t, SweepOne(n)) && Pc(Run(ttl, schedule[..k]), t).now == now
  }

  lemma RunNext(ttl: int, schedule: seq<(Thread, Action)>, p: nat)
    requires p < |schedule|
    ensures Run(ttl, schedule[..p + 1]) == Step(Run(ttl, schedule[..p]), schedule[p].0, schedule[p].1)
  {
    hide Step;
    assert schedule[..p + 1][..p] == schedule[..p];
  }

  /** Up to place p the sweep begun at place i still goes on, and what is not left to do it has come to. */
  lemma {:induction false} SweepSoFar(ttl: int, schedule: seq<(Thread, Action)>, i: nat, p: nat, t: Thread, now: int, n: Name)
    requires i < p <= |schedule| && schedule[i] == (t, BeginSweep(now))
    requires Enabled(Run(ttl, schedule[..i]), t, BeginSweep(now)) && n in Run(ttl, schedule[..i]).entries
    requires forall k :: i < k < p ==> schedule[k] != (t, EndSweep)
    ensures var pc := Pc(Run(ttl, schedule[..p]), t);
            pc.Sweeping? && pc.now == now && (n in pc.todo || exists k :: i < k < p && Visits(ttl, schedule, k, t, now, n))
    decreases p
  {
    hide Run, Step, Enabled;
    RunNext(ttl, schedule, p - 1);
    if p == i + 1 {
      SweepTakesAll(Run(ttl, schedule[..i]), t, now);
    } else {
      SweepSoFar(ttl, schedule, i, p - 1, t, now, n);
      var s := Run(ttl, schedule[..p - 1]);
      SweepMoves(s, t, schedule[p - 1].0, schedule[p - 1].1);
      if n in Pc(s, t).todo && n !in Pc(Run(ttl, schedule[..p]), t).todo {
        assert Visits(ttl, schedule, p - 1, t, now, n);
      }
    }
  }

  /**
   * In every run a sweep, from its beginning to its end, comes to every entry there was when it
   * began, and closes it there exactly if all its handles were given back in time.
   */
  lemma EverySweepVisits(ttl: int, schedule: seq<(Thread, Action)>, i: nat, j: nat, t: Thread, now: int, n: Name)
    requires i < j < |schedule| && schedule[i] == (t, BeginSweep(now)) && schedule[j] == (t, EndSweep)
    requires Enabled(Run(ttl, schedule[..i]), t, BeginSweep(now)) && n in Run(ttl, schedule[..i]).entries
    requires Enabled(Run(ttl, schedule[..j]), t, EndSweep) && forall k :: i < k < j ==> schedule[k] != (t, EndSweep)
    ensures exists k :: i < k < j && Visits(ttl, schedule, k, t, now, n) && SweptRightly(ttl, schedule, k, now, n)
  {
    hide Run, Visits, IdleFor, ClosedOne, Step;
    SweepSoFar(ttl, schedule, i, j, t, now, n);
    SweepIsDone(Run(ttl, schedule[..j]), t);
    var k :| i < k < j && Visits(ttl, schedule, k, t, now, n);
    VisitedRightly(ttl, schedule, k, t, now, n);
  }

  lemma SweepIsDone(s: State, t: Thread)
    requires Enabled(s, t, EndSweep)
    ensures Pc(s, t).Sweeping? && Pc(s, t).todo == {}
  {}

  /** At place k the entry was closed if it had been idle for long enough, and left as it was if not. */
  ghost predicate SweptRightly(ttl: int, schedule: seq<(Thread, Action)>, k: int, now: int, n: Name) {
    && 0 <= k < |schedule|
    && var s, s' := Run(ttl, schedule[..k]), Run(ttl, schedule[..k + 1]);
       && n in s.entries
       && if IdleFor(s, n, ttl, now) then ClosedOne(s, s', n)
          else s'.entries == s.entries && s'.handles == s.handles && s'.resources == s.resources
  }

  lemma VisitedRightly(ttl: int, schedule: seq<(Thread, Action)>, k: nat, t: Thread, now: int, n: Name)
    requires Visits(ttl, schedule, k, t, now, n)
    ensures SweptRightly(ttl, schedule, k, now, n)
  {
    hide Run, IdleFor, ClosedOne, Step;
    RunNext(ttl, schedule, k);
    EverySweepClosesIdle(ttl, schedule[..k], t, n);
  }

  // ----- what an Acquire gives --------------------------------------------------------------------------

  /** Names are one path element: not empty, not a dot or two, no separator and no zero character. */
  lemma ValidNameIff(n: Name)
    ensures ValidName(n) <==>
              && |n| > 0 && n != ['.'] && n != ['.', '.']
              && forall i :: 0 <= i < |n| ==> n[i] != '/' && n[i] != '\\' && n[i] != '\0'
  {}

  /** Nobody is inside Acquire's critical section on n. */
  predicate Unlocked(s: State, n: Name) { n in s.entries ==> s.entries[n].lock.None? }

  function Entered(s: State, t: Thread, n: Name): State {
    Step(Step(Step(s, t, Acquire(n)), t, GetEntry), t, LockEntry)
  }

  /** One thread's Acquire with no other step in between; ok is what opening would return. */
  function Acquired(s: State, t: Thread, n: Name, ok: bool): State {
    Step(Step(Entered(s, t, n), t, Recheck), t, OpenResource(ok))
  }

  predicate WasLive(s: State, n: Name) { n in s.entries && s.entries[n].live }

  function Refs(s: State, n: Name): int { if n in s.entries then s.entries[n].refs else 0 }

  /** t has gone from s to s' with one handle more, on n's resource; an open one is shared, never opened again. */
  ghost predicate GotHandle(s: State, s': State, n: Name) {
    && n in s'.entries && |s'.handles| == |s.handles| + 1 && s'.handles[..|s.handles|] == s.handles
    && var h := s'.handles[|s.handles|];
       && h.name == n && h.status == Held && s'.entries[n].live && s'.entries[n].res == h.res
       && s'.entries[n].refs == Refs(s, n) + 1 && s'.entries[n].lock.None?
       && if WasLive(s, n) then h.res == s.entries[n].res && s'.resources == s.resources
          else h.res == |s.resources| && s'.resources == s.resources + [Resource(n, 0, false)]
  }

  lemma EnteredIs(s: State, t: Thread, n: Name)
    requires Pc(s, t).Idle? && !IsCloser(s, t) && ValidName(n) && !s.closed && Unlocked(s, n)
    ensures var u := Entered(s, t, n); var e := if n in s.entries then s.entries[n] else Entry(false, 0, 0, 0, None);
            && Pc(u, t) == Locked(n) && u.entries == s.entries[n := e.(lock := Some(t))]
            && u.handles == s.handles && u.resources == s.resources && !u.closed
  {
    hide ValidName;
    var a := Step(s, t, Acquire(n));
    assert Pc(a, t) == SawOpen(n);
    var b := Step(a, t, GetEntry);
    assert Pc(b, t) == HasEntry(n) && Free(b, n);
  }

  /** On an open pool an Acquire of a valid name gives a handle, unless opening fails; then nothing is counted. */
  lemma AcquireGives(ttl: int, schedule: seq<(Thread, Action)>, t: Thread, n: Name, ok: bool)
    requires var s := Run(ttl, schedule); Pc(s, t).Idle? && !IsCloser(s, t) && !s.closed && Unlocked(s, n)
    requires ValidName(n)
    ensures var s := Run(ttl, schedule); var s' := Acquired(s, t, n, ok);
            && Pc(s', t).Idle?
            && if WasLive(s, n) || ok then GotHandle(s, s', n)
               else s'.handles == s.handles && s'.resources == s.resources && !WasLive(s', n) && Refs(s', n) == Refs(s, n)
  {
    hide Run, Entered, ValidName;
    var s := Run(ttl, schedule);
    EnteredIs(s, t, n);
    Opens(Entered(s, t, n), t, n, ok);
  }

  lemma Opens(u: State, t: Thread, n: Name, ok: bool)
    requires Pc(u, t) == Locked(n) && n in u.entries && !u.closed
    ensures var v := Step(Step(u, t, Recheck), t, OpenResource(ok)); var e := u.entries[n];
            && Pc(v, t).Idle?
            && if e.live || ok then
                 var res := if e.live then e.res else |u.resources|;
                 && v.entries == u.entries[n := Entry(true, res, e.refs + 1, e.idleSince, None)]
                 && v.handles == u.handles + [Handle(n, res, Held, 0)]
                 && v.resources == if e.live then u.resources else u.resources + [Resource(n, 0, false)]
               else v.entries == u.entries[n := e.(lock := None)] && v.handles == u.handles && v.resources == u.resources
  {
    var w := Step(u, t, Recheck);
    assert Pc(w, t) == Rechecked(n) && w.entries == u.entries;
  }

  /** An invalid name, or a closed pool, is refused and changes nothing. */
  lemma AcquireRefused(s: State, t: Thread, n: Name)
    requires !ValidName(n) || s.closed
    ensures Step(s, t, Acquire(n)) == s
  {}

  /** Close won while this Acquire waited for the lock: it gives up, and nothing is opened or counted. */
  lemma AcquireGivesUp(s: State, t: Thread, n: Name)
    requires Pc(s, t) == Locked(n) && n in s.entries && s.closed
    ensures var s' := Step(s, t, Recheck);
            && Pc(s', t).Idle? && s'.handles == s.handles && s'.resources == s.resources
            && s'.entries == s.entries[n := s.entries[n].(lock := None)]
  {}

  // ----- what a Release gives back -------------------------------------------------------------------------

  /** Releasing a held handle lowers the count by one, and the last one to go starts the idle clock. */
  lemma ReleaseGivesBack(ttl: int, schedule: seq<(Thread, Action)>, t: Thread, h: nat)
    requires var s := Run(ttl, schedule); Pc(s, t).Idle? && !IsCloser(s, t) && h < |s.handles|
    requires var s := Run(ttl, schedule); s.handles[h].status == Held && Unlocked(s, s.handles[h].name)
    ensures var s := Run(ttl, schedule); var s' := Step(Step(s, t, Release(h)), t, Lower); var n := s.handles[h].name;
            && n in s.entries && s'.entries.Keys == s.entries.Keys && Pc(s', t).Idle?
            && s'.handles == s.handles[h := s.handles[h].(status := Gone, goneAt := s.clock)] && s'.resources == s.resources
            && s'.entries[n].refs == s.entries[n].refs - 1 && s'.entries[n].live == s.entries[n].live
            && (s'.entries[n].refs == 0 ==> s'.entries[n].idleSince == s.clock)
            && forall m :: m in s.entries && m != n ==> s'.entries[m] == s.entries[m]
  {
    hide Run;
    RunInv(ttl, schedule);
    NamedOf(Run(ttl, schedule));
    ReleasedIs(Run(ttl, schedule), t, h);
  }

  lemma NamedOf(s: State)
    requires Inv(s)
    ensures forall h :: 0 <= h < |s.handles| ==> s.handles[h].name in s.entries
  {}

  lemma ReleasedIs(s: State, t: Thread, h: nat)
    requires Pc(s, t).Idle? && !IsCloser(s, t) && h < |s.handles| && s.handles[h].status == Held
    requires s.handles[h].name in s.entries && s.entries[s.handles[h].name].lock.None?
    ensures var s' := Step(Step(s, t, Release(h)), t, Lower); var n := s.handles[h].name; var e := s.entries[n];
            && Pc(s', t).Idle? && s'.resources == s.resources
            && s'.handles == s.handles[h := s.handles[h].(status := Gone, goneAt := s.clock)]
            && s'.entries == s.entries[n := e.(refs := e.refs - 1, idleSince := if e.refs == 1 then s.clock else e.idleSince)]
  {
    var w := Step(s, t, Release(h));
    assert Pc(w, t) == Lowering(h) && w.entries == s.entries;
  }

  /** Releasing again does nothing. */
  lemma ReleaseAgain(s: State, t: Thread, h: nat)
    requires h < |s.handles| && s.handles[h].status != Held
    ensures Step(s, t, Release(h)) == s
  {}

  // ----- what Close closes -----------------------------------------------------------------------------------

  /** The first Close of an open pool goes on; from then on the pool is closed. */
  lemma CloseBegins(s: State, t: Thread)
    requires Pc(s, t).Idle? && !IsCloser(s, t)
    ensures var s' := Step(s, t, BeginClose);
            s'.closed && if s.closed then s' == s else s'.closer == Stopping(t) && s'.entries == s.entries
  {}

  /** And it goes through every entry there is once the reaper has stopped. */
  lemma CloseTakesAll(s: State, t: Thread)
    requires Enabled(s, t, SnapshotForClose)
    ensures Step(s, t, SnapshotForClose).closer == Closing(t, s.entries.Keys)
  {}

  /** Once Close has returned, every resource that was ever opened has been closed, exactly once. */
  lemma AfterCloseAllClosed(ttl: int, schedule: seq<(Thread, Action)>, r: nat)
    requires Run(ttl, schedule).closer.Returned? && r < |Run(ttl, schedule).resources|
    ensures Run(ttl, schedule).resources[r].closes == 1
  {
    hide Run;
    RunInv(ttl, schedule);
    ClosedOf(Run(ttl, schedule), r);
  }

  lemma ClosedOf(s: State, r: nat)
    requires Inv(s) && s.closer.Returned? && r < |s.resources|
    ensures s.resources[r].closes == 1
  {
    if s.resources[r].closes == 0 {
      assert MayLive(s, s.resources[r].name);
    }
  }
}
