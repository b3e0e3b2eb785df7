/**
 * The resource pool as a concurrent state machine: any number of threads acquire, release,
 * sweep and close, one lock-protected or atomic action at a time, in any order.
 */
module Pool {
  import opened Bytes

  type Name = string
  type Thread = nat

  /** Per-name state. lock is the thread inside Acquire's critical section on this entry. */
  datatype Entry = Entry(live: bool, res: nat, refs: int, idleSince: int, lock: Option<Thread>)

  /** A resource once opened: how often it was closed, and whether Pool.Close did it. */
  datatype Resource = Resource(name: Name, closes: nat, byClose: bool)

  datatype HandleStatus = Held | Releasing | Gone

  /** What one successful Acquire returned. Releasing: released was set, the count not yet lowered, as it is at goneAt. */
  datatype Handle = Handle(name: Name, res: nat, status: HandleStatus, goneAt: int)

  /** Where a thread is. */
  datatype PC =
    | Idle
    | SawOpen(name: Name)           // Acquire: the unlocked check passed
    | HasEntry(name: Name)          // Acquire: got or created the entry
    | Locked(name: Name)            // Acquire: holds the entry's lock
    | Rechecked(name: Name)         // Acquire: holds the lock, and the pool was not closed
    | Lowering(handle: nat)         // HandleRef.Release: about to lower the count
    | Sweeping(todo: set<Name>, now: int)

  /** Close: its swap won, then its snapshot taken, then returned. */
  datatype Closer = NotClosing | Stopping(thread: Thread) | Closing(thread: Thread, todo: set<Name>) | Returned

  datatype State = State(ttl: int, clock: int, closed: bool, entries: map<Name, Entry>, handles: seq<Handle>,
                         resources: seq<Resource>, pcs: map<Thread, PC>, closer: Closer)

  datatype Action =
    | Acquire(name: Name)     // name check and unlocked closed check
    | GetEntry                // get or create, under the pool's lock
    | LockEntry
    | Recheck
    | OpenResource(ok: bool)  // open if need be, count, unlock; ok is what opening would return
    | Release(handle: nat)    // HandleRef.Release's swap
    | Lower                   // Entry.Release
    | BeginSweep(now: int)    // snapshot of the entries
    | SweepOne(name: Name)
    | EndSweep
    | BeginClose              // the swap
    | SnapshotForClose        // after the reaper has stopped
    | CloseOne(name: Name)
    | EndClose
    | Tick(d: nat)            // time passes

  function Start(ttl: int): State {
    State(ttl, 0, false, map[], [], [], map[], NotClosing)
  }

  function Pc(s: State, t: Thread): PC {
    if t in s.pcs then s.pcs[t] else Idle
  }

  function Goto(s: State, t: Thread, pc: PC): State {
    s.(pcs := s.pcs[t := pc])
  }

  function SetEntry(s: State, n: Name, e: Entry): State {
    s.(entries := s.entries[n := e])
  }

  predicate Free(s: State, n: Name) {
    n in s.entries && s.entries[n].lock.None?
  }

  predicate IsCloser(s: State, t: Thread) {
    match s.closer
    case Stopping(c) => c == t
    case Closing(c, _) => c == t
    case _ => false
  }

  predicate ValidName(n: Name) {
    n != "" && n != "." && n != ".." && '/' !in n && '\\' !in n && '\0' !in n
  }

  /** Whether thread t can take action a now. */
  predicate Enabled(s: State, t: Thread, a: Action) {
    var pc := Pc(s, t);
    match a
    case Acquire(_) => pc.Idle? && !IsCloser(s, t)
    case GetEntry => pc.SawOpen?
    case LockEntry => pc.HasEntry? && Free(s, pc.name)
    case Recheck => pc.Locked? && pc.name in s.entries
    case OpenResource(_) => pc.Rechecked? && pc.name in s.entries
    case Release(h) => pc.Idle? && !IsCloser(s, t) && h < |s.handles|
    case Lower => pc.Lowering? && pc.handle < |s.handles| && Free(s, s.handles[pc.handle].name)
    case BeginSweep(_) => pc.Idle? && !IsCloser(s, t)
    case SweepOne(n) => pc.Sweeping? && n in pc.todo && Free(s, n)
    case EndSweep => pc.Sweeping? && pc.todo == {}
    case BeginClose => pc.Idle? && !IsCloser(s, t)
    case SnapshotForClose => s.closer == Stopping(t)
    case CloseOne(n) => s.closer.Closing? && s.closer.thread == t && n in s.closer.todo && Free(s, n)
    case EndClose => s.closer == Closing(t, {})
    case Tick(_) => true
  }

  /** res.Close() on an entry's live resource. */
  function CloseRes(s: State, n: Name, byClose: bool): State
    requires n in s.entries
  {
    var e := s.entries[n];
    if e.res >= |s.resources| then s else
    var r := s.resources[e.res];
    SetEntry(s, n, e.(live := false)).(resources := s.resources[e.res := r.(closes := r.closes + 1, byClose := byClose)])
  }

  predicate Reapable(s: State, n: Name, now: int)
    requires n in s.entries
  {
    var e := s.entries[n];
    e.live && e.refs == 0 && now - e.idleSince >= s.ttl
  }

  function OpenAndCount(s: State, t: Thread, n: Name, ok: bool): State
    requires n in s.entries
  {
    var e := s.entries[n];
    if !e.live && !ok then
      Goto(SetEntry(s, n, e.(lock := None)), t, Idle)
    else
      var res := if e.live then e.res else |s.resources|;
      var resources' := if e.live then s.resources else s.resources + [Resource(n, 0, false)];
      var e' := e.(live := true, res := res, refs := e.refs + 1, lock := None);
      Goto(SetEntry(s, n, e'), t, Idle).(resources := resources', handles := s.handles + [Handle(n, res, Held, 0)])
  }

  function LowerCount(s: State, t: Thread, h: nat): State
    requires h < |s.handles| && s.handles[h].name in s.entries
  {
    var n := s.handles[h].name;
    var e := s.entries[n];
    var e' := e.(refs := e.refs - 1, idleSince := if e.refs - 1 == 0 then s.clock else e.idleSince);
    Goto(SetEntry(s, n, e'), t, Idle).(handles := s.handles[h := s.handles[h].(status := Gone, goneAt := s.clock)])
  }

  function Step(s: State, t: Thread, a: Action): State {
    if !Enabled(s, t, a) then s else
    var pc := Pc(s, t);
    match a
    case Acquire(n) => if !ValidName(n) || s.closed then s else Goto(s, t, SawOpen(n))
    case GetEntry =>
      var s' := if pc.name in s.entries then s else SetEntry(s, pc.name, Entry(false, 0, 0, 0, None));
      Goto(s', t, HasEntry(pc.name))
    case LockEntry => Goto(SetEntry(s, pc.name, s.entries[pc.name].(lock := Some(t))), t, Locked(pc.name))
    case Recheck =>
      if s.closed then Goto(SetEntry(s, pc.name, s.entries[pc.name].(lock := None)), t, Idle)
      else Goto(s, t, Rechecked(pc.name))
    case OpenResource(ok) => OpenAndCount(s, t, pc.name, ok)
    case Release(h) =>
      if s.handles[h].status != Held then s
      else Goto(s, t, Lowering(h)).(handles := s.handles[h := s.handles[h].(status := Releasing)])
    case Lower => LowerCount(s, t, pc.handle)
    case BeginSweep(now) => Goto(s, t, Sweeping(s.entries.Keys, now))
    case SweepOne(n) =>
      Goto(if Reapable(s, n, pc.now) then CloseRes(s, n, false) else s, t, Sweeping(pc.todo - {n}, pc.now))
    case EndSweep => Goto(s, t, Idle)
    case BeginClose => if s.closed then s else s.(closed := true, closer := Stopping(t))
    case SnapshotForClose => s.(closer := Closing(t, s.entries.Keys))
    case CloseOne(n) =>
      (if s.entries[n].live then CloseRes(s, n, true) else s).(closer := Closing(t, s.closer.todo - {n}))
    case EndClose => s.(closer := Returned)
    case Tick(d) => s.(clock := s.clock + d)
  }

  function Run(ttl: int, schedule: seq<(Thread, Action)>): State {
    if schedule == [] then Start(ttl) else
    var last := schedule[|schedule| - 1];
    Step(Run(ttl, schedule[..|schedule| - 1]), last.0, last.1)
  }

  // ----- the invariant -------------------------------------------------------------------

  /** Handles on n whose count has not been given back. */
  ghost function Outstanding(handles: seq<Handle>, n: Name): set<nat> {
    set h: nat | h < |handles| && handles[h].name == n && handles[h].status != Gone
  }

  predicate InCritical(s: State, t: Thread, n: Name) {
    Pc(s, t) == Locked(n) || Pc(s, t) == Rechecked(n)
  }

  /** A thread holds a lock just while it is inside the critical section. */
  ghost predicate LocksOk(s: State) {
    forall n, t: Thread :: n in s.entries ==> (s.entries[n].lock == Some(t) <==> InCritical(s, t, n))
  }

  /** Threads only ever name known entries. */
  ghost predicate PlacesOk(s: State) {
    forall t :: PlaceOk(s, t)
  }

  ghost predicate PlaceOk(s: State, t: Thread) {
    match Pc(s, t)
    case HasEntry(n) => n in s.entries
    case Locked(n) => n in s.entries
    case Rechecked(n) => n in s.entries
    case Sweeping(todo, _) => todo <= s.entries.Keys
    case _ => true
  }

  /** refs counts exactly the handles not yet given back. */
  ghost predicate RefsOk(s: State) {
    && (forall n :: n in s.entries ==> s.entries[n].refs == |Outstanding(s.handles, n)|)
    && (forall h :: 0 <= h < |s.handles| ==> s.handles[h].name in s.entries)
  }

  /** One thread lowers the count for each handle being released. */
  ghost predicate LoweringOk(s: State) {
    && (forall t :: Pc(s, t).Lowering? ==>
         Pc(s, t).handle < |s.handles| && s.handles[Pc(s, t).handle].status == Releasing)
    && (forall t, u :: Pc(s, t).Lowering? && Pc(s, u) == Pc(s, t) ==> t == u)
  }

  /** A resource is closed at most once, and not closed just while its entry is live on it. */
  ghost predicate ResourcesOk(s: State) {
    && (forall n :: n in s.entries && s.entries[n].live ==>
         s.entries[n].res < |s.resources| && s.resources[s.entries[n].res].name == n && s.resources[s.entries[n].res].closes == 0)
    && (forall r :: 0 <= r < |s.resources| ==> s.resources[r].closes <= 1)
    && (forall r :: 0 <= r < |s.resources| && s.resources[r].closes == 0 ==>
         s.resources[r].name in s.entries && s.entries[s.resources[r].name].live && s.entries[s.resources[r].name].res == r)
  }

  /** The resource of a handle not given back is open, unless Pool.Close closed it. */
  ghost predicate HandlesOk(s: State) {
    forall h :: 0 <= h < |s.handles| && s.handles[h].status != Gone ==>
      var r := s.handles[h].res;
      r < |s.resources| && s.resources[r].name == s.handles[h].name && (s.resources[r].closes == 0 || s.resources[r].byClose)
  }

  /** idleSince of an entry without handles is no earlier than any of its handles was given back. */
  ghost predicate TimesOk(s: State) {
    && (forall h :: 0 <= h < |s.handles| && s.handles[h].status == Gone ==> s.handles[h].goneAt <= s.clock)
    && (forall h :: 0 <= h < |s.handles| && s.handles[h].status == Gone
                    && s.handles[h].name in s.entries && s.entries[s.handles[h].name].refs == 0 ==>
         s.handles[h].goneAt <= s.entries[s.handles[h].name].idleSince)
  }

  /** Live now, or about to be. */
  ghost predicate MayLive(s: State, n: Name) {
    n in s.entries && (s.entries[n].live || exists t :: Pc(s, t) == Rechecked(n))
  }

  /** Once Close has its snapshot, everything live or about to be is still to be closed. */
  ghost predicate ClosingOk(s: State) {
    && (s.closed <==> !s.closer.NotClosing?)
    && (forall r :: 0 <= r < |s.resources| && s.resources[r].byClose ==> s.closed)
    && (s.closer.Closing? ==> s.closer.todo <= s.entries.Keys && forall n :: MayLive(s, n) ==> n in s.closer.todo)
    && (s.closer.Returned? ==> forall n :: !MayLive(s, n))
  }

  ghost predicate Inv(s: State) {
    LocksOk(s) && PlacesOk(s) && RefsOk(s) && LoweringOk(s) && ResourcesOk(s) && HandlesOk(s) && TimesOk(s) && ClosingOk(s)
  }

  lemma StartInv(ttl: int)
    ensures Inv(Start(ttl))
  {}

  // ----- every action keeps it ------------------------------------------------------------

  lemma FramePcs(s: State, t: Thread, a: Action)
    ensures forall u :: u != t ==> Pc(Step(s, t, a), u) == Pc(s, u)
  {}

  lemma FrameSizes(s: State, t: Thread, a: Action)
    ensures var s' := Step(s, t, a);
            s.entries.Keys <= s'.entries.Keys && |s.handles| <= |s'.handles| && |s.resources| <= |s'.resources|
  {}

  lemma FrameLocks(s: State, t: Thread, a: Action)
    ensures var s' := Step(s, t, a);
            && s.entries.Keys <= s'.entries.Keys
            && (forall n :: n in s.entries && !a.LockEntry? && !a.Recheck? && !a.OpenResource? ==>
                 s'.entries[n].lock == s.entries[n].lock)
            && (forall n :: n in s'.entries && n !in s.entries ==> s'.entries[n] == Entry(false, 0, 0, 0, None))
  {}

  /** Only the acting thread moves, entries are only added, and locks change hands only in Acquire. */
  lemma Frame(s: State, t: Thread, a: Action)
    ensures var s' := Step(s, t, a);
            && (forall u :: u != t ==> Pc(s', u) == Pc(s, u))
            && s.entries.Keys <= s'.entries.Keys && |s.handles| <= |s'.handles| && |s.resources| <= |s'.resources|
            && (forall n :: n in s.entries && !a.LockEntry? && !a.Recheck? && !a.OpenResource? ==>
                 s'.entries[n].lock == s.entries[n].lock)
            && (forall n :: n in s'.entries && n !in s.entries ==> s'.entries[n] == Entry(false, 0, 0, 0, None))
  {
    hide Step;
    FramePcs(s, t, a);
    FrameSizes(s, t, a);
    FrameLocks(s, t, a);
  }

  /** Actions outside Acquire's critical section leave locks alone. */
  lemma QuietLocks(s: State, s': State, t: Thread)
    requires LocksOk(s) && (forall u :: u != t ==> Pc(s', u) == Pc(s, u))
    requires forall n :: n in s.entries ==> n in s'.entries && s'.entries[n].lock == s.entries[n].lock
    requires forall n :: n in s'.entries && n !in s.entries ==> s'.entries[n].lock.None?
    requires forall n :: InCritical(s, t, n) <==> InCritical(s', t, n)
    requires forall n, u: Thread :: InCritical(s, u, n) ==> n in s.entries
    ensures LocksOk(s')
  {
    forall n, u: Thread | n in s'.entries ensures s'.entries[n].lock == Some(u) <==> InCritical(s', u, n) {
      assert InCritical(s', u, n) <==> InCritical(s, u, n) by { assert u != t ==> Pc(s', u) == Pc(s, u); }
    }
  }

  lemma CriticalPlaces(s: State)
    requires PlacesOk(s)
    ensures forall n, u: Thread :: InCritical(s, u, n) ==> n in s.entries
  {
    forall n, u: Thread | InCritical(s, u, n) ensures n in s.entries {
      assert PlaceOk(s, u);
    }
  }

  /** One lock changes hands, to or from the acting thread. */
  lemma OneLock(s: State, s': State, t: Thread, n: Name)
    requires LocksOk(s) && (forall u :: u != t ==> Pc(s', u) == Pc(s, u)) && n in s.entries
    requires s'.entries.Keys == s.entries.Keys
    requires forall m :: m in s.entries && m != n ==> s'.entries[m].lock == s.entries[m].lock
    requires s'.entries[n].lock == if InCritical(s', t, n) then Some(t) else None
    requires s.entries[n].lock.None? || s.entries[n].lock == Some(t)
    requires forall m :: m != n ==> !InCritical(s, t, m) && !InCritical(s', t, m)
    ensures LocksOk(s')
  {
    forall m, u: Thread | m in s'.entries ensures s'.entries[m].lock == Some(u) <==> InCritical(s', u, m) {
      assert u != t ==> (InCritical(s', u, m) <==> InCritical(s, u, m)) by { assert u != t ==> Pc(s', u) == Pc(s, u); }
    }
  }

  /** Outside the critical section: locks stay, and the acting thread neither enters nor leaves. */
  lemma QuietStep(s: State, t: Thread, a: Action)
    requires !a.LockEntry? && !a.Recheck? && !a.OpenResource?
    ensures forall n :: InCritical(s, t, n) <==> InCritical(Step(s, t, a), t, n)
  {
    hide Reapable, ValidName, IsCloser;
  }

  /** Inside it: one entry, whose lock the acting thread holds or takes. */
  lemma CriticalStep(s: State, t: Thread, a: Action)
    requires LocksOk(s) && PlacesOk(s) && Enabled(s, t, a) && (a.LockEntry? || a.Recheck? || a.OpenResource?)
    ensures LocksOk(Step(s, t, a))
  {
    hide LocksOk, PlacesOk;
    Frame(s, t, a);
    CriticalPlaces(s);
    var s' := Step(s, t, a);
    Holder(s, t, Pc(s, t).name);
    if a.Recheck? && !s.closed {
      QuietLocks(s, s', t);
    } else {
      OneLock(s, s', t, Pc(s, t).name);
    }
  }

  lemma StepLocks(s: State, t: Thread, a: Action)
    requires LocksOk(s) && PlacesOk(s)
    ensures LocksOk(Step(s, t, a))
  {
    if a.LockEntry? || a.Recheck? || a.OpenResource? {
      if Enabled(s, t, a) { CriticalStep(s, t, a); }
    } else {
      hide LocksOk, PlacesOk, Step, InCritical;
      Frame(s, t, a);
      CriticalPlaces(s);
      QuietStep(s, t, a);
      QuietLocks(s, Step(s, t, a), t);
    }
  }

  lemma Holder(s: State, t: Thread, n: Name)
    requires LocksOk(s) && n in s.entries
    ensures InCritical(s, t, n) ==> s.entries[n].lock == Some(t)
  {}

  lemma StepPlaces(s: State, t: Thread, a: Action)
    requires PlacesOk(s)
    ensures PlacesOk(Step(s, t, a))
  {
    Frame(s, t, a);
    var s' := Step(s, t, a);
    forall u ensures PlaceOk(s', u) {
      assert PlaceOk(s, u);
      if u != t {
        assert Pc(s', u) == Pc(s, u);
      } else {
        assert PlaceOk(s', t);
      }
    }
  }

  // ----- reference counts -----------------------------------------------------------------

  lemma AddHandle(handles: seq<Handle>, h: Handle, n: Name)
    requires h.status != Gone
    ensures |Outstanding(handles + [h], n)| == |Outstanding(handles, n)| + if h.name == n then 1 else 0
  {
    var more := handles + [h];
    assert Outstanding(more, n) == Outstanding(handles, n) + if h.name == n then {|handles|} else {};
  }

  lemma SetStatus(handles: seq<Handle>, i: nat, h: Handle, n: Name)
    requires i < |handles| && handles[i].status != Gone && h.name == handles[i].name
    ensures |Outstanding(handles[i := h], n)|
            == |Outstanding(handles, n)| - if h.status == Gone && h.name == n then 1 else 0
  {
    var after := handles[i := h];
    if h.status == Gone && h.name == n {
      assert i in Outstanding(handles, n);
      assert Outstanding(after, n) == Outstanding(handles, n) - {i};
    } else {
      assert Outstanding(after, n) == Outstanding(handles, n);
    }
  }

  /** Counts that change together with the handles they count. */
  lemma CountsKept(s: State, s': State)
    requires RefsOk(s) && s.entries.Keys <= s'.entries.Keys
    requires forall n :: n in s'.entries ==>
               s'.entries[n].refs - (if n in s.entries then s.entries[n].refs else 0)
               == |Outstanding(s'.handles, n)| - |Outstanding(s.handles, n)|
    requires forall h :: 0 <= h < |s'.handles| ==> s'.handles[h].name in s'.entries
    ensures RefsOk(s')
  {}

  lemma OpenCounts(s: State, t: Thread, n: Name, ok: bool)
    requires RefsOk(s) && n in s.entries
    ensures RefsOk(OpenAndCount(s, t, n, ok))
  {
    var s' := OpenAndCount(s, t, n, ok);
    hide Outstanding;
    if |s'.handles| > |s.handles| {
      forall m ensures |Outstanding(s'.handles, m)| == |Outstanding(s.handles, m)| + if m == n then 1 else 0 {
        AddHandle(s.handles, s'.handles[|s.handles|], m);
      }
    }
    CountsKept(s, s');
  }

  lemma ReleaseCounts(s: State, h: nat, after: Handle, s': State)
    requires RefsOk(s) && h < |s.handles| && s.handles[h].status != Gone && after.name == s.handles[h].name
    requires s'.handles == s.handles[h := after] && s'.entries.Keys == s.entries.Keys
    requires forall n :: n in s.entries ==>
               s'.entries[n].refs == s.entries[n].refs - if after.status == Gone && n == after.name then 1 else 0
    ensures RefsOk(s')
  {
    hide Outstanding;
    forall n ensures |Outstanding(s'.handles, n)|
                     == |Outstanding(s.handles, n)| - if after.status == Gone && n == after.name then 1 else 0
    {
      SetStatus(s.handles, h, after, n);
    }
    CountsKept(s, s');
  }

  lemma SameCounts(s: State, s': State)
    requires RefsOk(s) && s'.handles == s.handles && s.entries.Keys <= s'.entries.Keys
    requires forall n :: n in s'.entries ==> s'.entries[n].refs == if n in s.entries then s.entries[n].refs else 0
    ensures RefsOk(s')
  {}

  lemma BeingReleased(s: State, t: Thread)
    requires LoweringOk(s) && Pc(s, t).Lowering?
    ensures Pc(s, t).handle < |s.handles| && s.handles[Pc(s, t).handle].status == Releasing
  {}

  lemma StepRefs(s: State, t: Thread, a: Action)
    requires RefsOk(s) && LoweringOk(s)
    ensures RefsOk(Step(s, t, a))
  {
    hide RefsOk, LoweringOk;
    if a.OpenResource? || a.Release? || a.Lower? {
      StepHandleRefs(s, t, a);
    } else {
      QuietRefs(s, t, a);
      SameCounts(s, Step(s, t, a));
    }
  }

  lemma QuietRefs(s: State, t: Thread, a: Action)
    requires !a.OpenResource? && !a.Release? && !a.Lower?
    ensures var s' := Step(s, t, a);
            && s'.handles == s.handles && s.entries.Keys <= s'.entries.Keys
            && (forall n :: n in s'.entries ==> s'.entries[n].refs == if n in s.entries then s.entries[n].refs else 0)
            && (forall n :: n in s.entries ==> s'.entries[n].idleSince == s.entries[n].idleSince)
            && s'.clock >= s.clock
  {}

  lemma StepHandleRefs(s: State, t: Thread, a: Action)
    requires RefsOk(s) && LoweringOk(s) && (a.OpenResource? || a.Release? || a.Lower?)
    ensures RefsOk(Step(s, t, a))
  {
    hide OpenAndCount, RefsOk, LoweringOk, CloseRes;
    var s' := Step(s, t, a);
    if Enabled(s, t, a) {
      match a
      case OpenResource(ok) =>
        OpenCounts(s, t, Pc(s, t).name, ok);
      case Release(h) =>
        if s.handles[h].status == Held { ReleaseCounts(s, h, s'.handles[h], s'); }
      case Lower =>
        BeingReleased(s, t);
        ReleaseCounts(s, Pc(s, t).handle, s'.handles[Pc(s, t).handle], s');
    }
  }

  /** Releases and lowerings, and nothing else, change the status of a handle there was. */
  lemma StepStatus(s: State, t: Thread, a: Action)
    ensures var s' := Step(s, t, a);
            && |s.handles| <= |s'.handles|
            && (forall h :: 0 <= h < |s.handles| && s'.handles[h].status != s.handles[h].status ==>
                 || (a == Release(h) && s.handles[h].status == Held && s'.handles[h].status == Releasing)
                 || (a.Lower? && Pc(s, t) == Lowering(h) && Pc(s', t).Idle?))
            && (Pc(s', t).Lowering? && s' != s ==>
                 || (Pc(s', t) == Pc(s, t) && !a.Lower?)
                 || (a.Release? && a.handle < |s.handles| && s.handles[a.handle].status == Held
                     && Pc(s', t) == Lowering(a.handle) && s'.handles[a.handle].status == Releasing))
  {
    hide Reapable, ValidName;
  }

  lemma StepLowering(s: State, t: Thread, a: Action)
    requires LoweringOk(s)
    ensures LoweringOk(Step(s, t, a))
  {
    Frame(s, t, a);
    StepStatus(s, t, a);
    var s' := Step(s, t, a);
    hide Step;
    forall u, v | Pc(s', u).Lowering? && Pc(s', v) == Pc(s', u) ensures u == v {
      assert u != t ==> Pc(s', u) == Pc(s, u);
      assert v != t ==> Pc(s', v) == Pc(s, v);
    }
    forall u | Pc(s', u).Lowering?
      ensures Pc(s', u).handle < |s'.handles| && s'.handles[Pc(s', u).handle].status == Releasing
    {
      assert u != t ==> Pc(s', u) == Pc(s, u);
    }
  }

  // ----- resources ---------------------------------------------------------------------------

  lemma ClosedOnce(s: State, n: Name, byClose: bool)
    requires ResourcesOk(s) && n in s.entries && s.entries[n].live
    ensures ResourcesOk(CloseRes(s, n, byClose))
  {}

  lemma OpenedOnce(s: State, t: Thread, n: Name, ok: bool)
    requires ResourcesOk(s) && n in s.entries
    ensures ResourcesOk(OpenAndCount(s, t, n, ok))
  {}

  lemma SameResources(s: State, s': State)
    requires ResourcesOk(s) && s'.resources == s.resources
    requires forall n :: n in s.entries ==>
               n in s'.entries && s'.entries[n].live == s.entries[n].live && s'.entries[n].res == s.entries[n].res
    requires forall n :: n in s'.entries && n !in s.entries ==> !s'.entries[n].live
    ensures ResourcesOk(s')
  {}

  /** Steps that neither open nor close anything. */
  lemma QuietResources(s: State, t: Thread, a: Action)
    requires ResourcesOk(s) && !a.OpenResource? && !a.SweepOne? && !a.CloseOne?
    ensures ResourcesOk(Step(s, t, a))
  {
    hide ResourcesOk, ValidName;
    SameResources(s, Step(s, t, a));
  }

  lemma ClosingResources(s: State, t: Thread, a: Action)
    requires ResourcesOk(s) && Enabled(s, t, a) && (a.SweepOne? || a.CloseOne?)
    ensures ResourcesOk(Step(s, t, a))
  {
    hide ResourcesOk, CloseRes;
    var s', n := Step(s, t, a), a.name;
    if s.entries[n].live && (a.CloseOne? || Reapable(s, n, Pc(s, t).now)) {
      ClosedOnce(s, n, a.CloseOne?);
      SameResources(CloseRes(s, n, a.CloseOne?), s');
    } else {
      SameResources(s, s');
    }
  }

  lemma StepResources(s: State, t: Thread, a: Action)
    requires ResourcesOk(s)
    ensures ResourcesOk(Step(s, t, a))
  {
    hide ResourcesOk, OpenAndCount, CloseRes, LowerCount, Reapable, ValidName;
    if a.OpenResource? {
      if Enabled(s, t, a) { OpenedOnce(s, t, Pc(s, t).name, a.ok); }
    } else if a.SweepOne? || a.CloseOne? {
      if Enabled(s, t, a) { ClosingResources(s, t, a); }
    } else {
      QuietResources(s, t, a);
    }
  }

  // ----- handles and closing ------------------------------------------------------------------

  lemma NotHeld(s: State, n: Name, h: nat)
    requires RefsOk(s) && n in s.entries && s.entries[n].refs == 0 && h < |s.handles| && s.handles[h].name == n
    ensures s.handles[h].status == Gone
  {
    assert h in Outstanding(s.handles, n) <==> s.handles[h].status != Gone;
  }

  /** The sweeper only closes what no handle holds. */
  lemma SweepClosesUnheld(s: State, n: Name, now: int)
    requires RefsOk(s) && ResourcesOk(s) && HandlesOk(s) && n in s.entries && Reapable(s, n, now)
    ensures HandlesOk(CloseRes(s, n, false))
    ensures forall h :: 0 <= h < |s.handles| && s.handles[h].res == s.entries[n].res ==> s.handles[h].status == Gone
  {
    forall h | 0 <= h < |s.handles| && s.handles[h].status != Gone ensures s.handles[h].name != n {
      if s.handles[h].name == n { NotHeld(s, n, h); }
    }
  }

  lemma CloseClosesMarked(s: State, n: Name)
    requires ResourcesOk(s) && HandlesOk(s) && n in s.entries && s.entries[n].live
    ensures HandlesOk(CloseRes(s, n, true))
  {}

  lemma OpenHandsOut(s: State, t: Thread, n: Name, ok: bool)
    requires ResourcesOk(s) && HandlesOk(s) && n in s.entries
    ensures HandlesOk(OpenAndCount(s, t, n, ok))
  {}

  lemma SameHandles(s: State, s': State)
    requires HandlesOk(s) && s'.resources == s.resources && |s'.handles| == |s.handles|
    requires forall h :: 0 <= h < |s.handles| ==>
               && s'.handles[h].name == s.handles[h].name && s'.handles[h].res == s.handles[h].res
               && (s'.handles[h].status != Gone ==> s.handles[h].status != Gone)
    ensures HandlesOk(s')
  {}

  lemma StepHandles(s: State, t: Thread, a: Action)
    requires ResourcesOk(s) && RefsOk(s) && HandlesOk(s)
    ensures HandlesOk(Step(s, t, a))
  {
    hide ResourcesOk, HandlesOk, RefsOk, OpenAndCount, CloseRes;
    var s' := Step(s, t, a);
    if Enabled(s, t, a) {
      var pc := Pc(s, t);
      match a
      case OpenResource(ok) =>
        OpenHandsOut(s, t, pc.name, ok);
      case SweepOne(n) =>
        if Reapable(s, n, pc.now) {
          SweepClosesUnheld(s, n, pc.now);
          SameHandles(CloseRes(s, n, false), s');
        } else {
          SameHandles(s, s');
        }
      case CloseOne(n) =>
        if s.entries[n].live {
          CloseClosesMarked(s, n);
          SameHandles(CloseRes(s, n, true), s');
        } else {
          SameHandles(s, s');
        }
      case _ =>
        SameHandles(s, s');
    }
  }

  lemma SameTimes(s: State, s': State)
    requires TimesOk(s) && s'.clock >= s.clock && |s'.handles| == |s.handles|
    requires forall h :: 0 <= h < |s.handles| && s'.handles[h].status == Gone ==> s'.handles[h] == s.handles[h]
    requires forall n :: n in s.entries ==>
               n in s'.entries && s'.entries[n].refs == s.entries[n].refs && s'.entries[n].idleSince == s.entries[n].idleSince
    requires forall h :: 0 <= h < |s.handles| ==> s.handles[h].name in s.entries
    ensures TimesOk(s')
  {}

  lemma OpenTimes(s: State, t: Thread, n: Name, ok: bool)
    requires TimesOk(s) && RefsOk(s) && n in s.entries
    ensures TimesOk(OpenAndCount(s, t, n, ok))
  {
    hide Outstanding;
  }

  lemma LowerTimes(s: State, t: Thread, h: nat)
    requires TimesOk(s) && h < |s.handles| && s.handles[h].name in s.entries
    ensures TimesOk(LowerCount(s, t, h))
  {}

  lemma HandlesNamed(s: State)
    requires RefsOk(s)
    ensures forall h :: 0 <= h < |s.handles| ==> s.handles[h].name in s.entries
  {}

  lemma StepTimes(s: State, t: Thread, a: Action)
    requires TimesOk(s) && RefsOk(s)
    ensures TimesOk(Step(s, t, a))
  {
    hide TimesOk, RefsOk;
    HandlesNamed(s);
    if a.OpenResource? || a.Release? || a.Lower? {
      StepHandleTimes(s, t, a);
    } else {
      QuietRefs(s, t, a);
      SameTimes(s, Step(s, t, a));
    }
  }

  lemma StepHandleTimes(s: State, t: Thread, a: Action)
    requires TimesOk(s) && RefsOk(s) && (a.OpenResource? || a.Release? || a.Lower?)
    ensures TimesOk(Step(s, t, a))
  {
    hide TimesOk, RefsOk, OpenAndCount, LowerCount, CloseRes;
    HandlesNamed(s);
    if Enabled(s, t, a) {
      match a
      case OpenResource(ok) => OpenTimes(s, t, Pc(s, t).name, ok);
      case Lower => LowerTimes(s, t, Pc(s, t).handle);
      case Release(_) => SameTimes(s, Step(s, t, a));
    }
  }

  /** Nothing becomes live, or starts to, that was not; what was closed by Close stays so. */
  ghost predicate NoNewLife(s: State, s': State) {
    && (forall n :: MayLive(s', n) ==> MayLive(s, n))
    && s.entries.Keys <= s'.entries.Keys
  }

  lemma StepLife(s: State, t: Thread, a: Action)
    requires PlacesOk(s) && s.closed
    ensures NoNewLife(s, Step(s, t, a))
  {
    Frame(s, t, a);
    var s' := Step(s, t, a);
    forall n | MayLive(s', n) ensures MayLive(s, n) {
      if !s'.entries[n].live {
        var u :| Pc(s', u) == Rechecked(n);
        assert Pc(s, u) == Rechecked(n);
        assert PlaceOk(s, u);
      } else if a.OpenResource? && n in s.entries && !s.entries[n].live {
        assert Pc(s, t) == Rechecked(n);
      }
    }
  }

  lemma ClosedIsDead(s: State, t: Thread, n: Name)
    requires LocksOk(s) && ResourcesOk(s) && Enabled(s, t, CloseOne(n))
    ensures !MayLive(Step(s, t, CloseOne(n)), n)
  {
    var s' := Step(s, t, CloseOne(n));
    forall u ensures Pc(s', u) != Rechecked(n) {
      assert !InCritical(s, u, n);
    }
  }

  /** What Close marked and what is marked closed by it. */
  lemma Marks(s: State, t: Thread, a: Action)
    requires ClosingOk(s)
    ensures var s' := Step(s, t, a);
            && (s'.closed <==> !s'.closer.NotClosing?)
            && (forall r :: 0 <= r < |s'.resources| && s'.resources[r].byClose ==> s'.closed)
            && (s'.closer != s.closer ==> a.BeginClose? || a.SnapshotForClose? || a.CloseOne? || a.EndClose?)
  {}

  lemma StepClosing(s: State, t: Thread, a: Action)
    requires LocksOk(s) && PlacesOk(s) && ResourcesOk(s) && ClosingOk(s)
    ensures ClosingOk(Step(s, t, a))
  {
    var s' := Step(s, t, a);
    Marks(s, t, a);
    if s.closed { StepLife(s, t, a); }
    hide LocksOk, PlacesOk, ResourcesOk, MayLive, CloseRes, OpenAndCount;
    if a.CloseOne? && Enabled(s, t, a) { ClosedIsDead(s, t, a.name); }
    if a.SnapshotForClose? && Enabled(s, t, a) { LiveIsKnown(s'); }
  }

  lemma LiveIsKnown(s: State)
    ensures forall n :: MayLive(s, n) ==> n in s.entries
  {}

  // ----- main results -----------------------------------------------------------------------------

  lemma StepInv(s: State, t: Thread, a: Action)
    requires Inv(s)
    ensures Inv(Step(s, t, a))
  {
    hide LocksOk, PlacesOk, RefsOk, LoweringOk, ResourcesOk, HandlesOk, TimesOk, ClosingOk, Step;
    StepLocks(s, t, a);
    StepPlaces(s, t, a);
    StepRefs(s, t, a);
    StepLowering(s, t, a);
    StepResources(s, t, a);
    StepHandles(s, t, a);
    StepTimes(s, t, a);
    StepClosing(s, t, a);
  }

  lemma {:induction false} RunInv(ttl: int, schedule: seq<(Thread, Action)>)
    ensures Inv(Run(ttl, schedule))
  {
    hide Inv, Step;
    if schedule == [] {
      StartInv(ttl);
    } else {
      var last := schedule[|schedule| - 1];
      RunInv(ttl, schedule[..|schedule| - 1]);
      StepInv(Run(ttl, schedule[..|schedule| - 1]), last.0, last.1);
    }
  }

  /** In every interleaving refs is the number of handles whose release has not lowered it. */
  lemma EveryRunCountsHandles(ttl: int, schedule: seq<(Thread, Action)>, n: Name)
    ensures var s := Run(ttl, schedule); n in s.entries ==> s.entries[n].refs == |Outstanding(s.handles, n)|
  {
    hide *;
    RunInv(ttl, schedule);
    CountsOf(Run(ttl, schedule), n);
  }

  lemma CountsOf(s: State, n: Name)
    requires Inv(s)
    ensures n in s.entries ==> s.entries[n].refs == |Outstanding(s.handles, n)|
  {}

  /** In every interleaving a resource is closed at most once, and a held one is open unless Close closed it. */
  lemma EveryRunClosesRightly(ttl: int, schedule: seq<(Thread, Action)>)
    ensures var s := Run(ttl, schedule); forall r :: 0 <= r < |s.resources| ==> s.resources[r].closes <= 1
    ensures var s := Run(ttl, schedule); forall h :: 0 <= h < |s.handles| && s.handles[h].status == Held ==> Usable(s, h)
  {
    RunInv(ttl, schedule);
    hide LocksOk, PlacesOk, RefsOk, LoweringOk, Step;
  }

  /** The handle's resource is the one its entry has open, or Close has closed it. */
  predicate Usable(s: State, h: nat)
    requires h < |s.handles|
  {
    var n, r := s.handles[h].name, s.handles[h].res;
    r < |s.resources| && s.resources[r].name == n
    && if s.resources[r].closes == 0 then n in s.entries && s.entries[n].live && s.entries[n].res == r
       else s.resources[r].byClose && s.closed
  }

  /** What a sweep closes has had all its handles given back at least the idle time before the sweep's clock reading. */
  lemma EverySweepWaits(ttl: int, schedule: seq<(Thread, Action)>, t: Thread, n: Name, h: nat)
    requires var s := Run(ttl, schedule); Enabled(s, t, SweepOne(n)) && s.entries[n].live && h < |s.handles|
    requires var s := Run(ttl, schedule); !Step(s, t, SweepOne(n)).entries[n].live && s.handles[h].name == n
    ensures var s := Run(ttl, schedule);
            s.handles[h].status == Gone && s.handles[h].goneAt + ttl <= Pc(s, t).now
  {
    hide Run;
    RunInv(ttl, schedule);
    RunTtl(ttl, schedule);
    SweepWaits(Run(ttl, schedule), t, n, h);
  }

  lemma {:induction false} RunTtl(ttl: int, schedule: seq<(Thread, Action)>)
    ensures Run(ttl, schedule).ttl == ttl
  {
    if schedule != [] {
      var last := schedule[|schedule| - 1];
      RunTtl(ttl, schedule[..|schedule| - 1]);
      StepTtl(Run(ttl, schedule[..|schedule| - 1]), last.0, last.1);
    }
  }

  lemma StepTtl(s: State, t: Thread, a: Action)
    ensures Step(s, t, a).ttl == s.ttl
  {}

  lemma SweepWaits(s: State, t: Thread, n: Name, h: nat)
    requires Inv(s) && Enabled(s, t, SweepOne(n)) && s.entries[n].live && h < |s.handles| && s.handles[h].name == n
    requires !Step(s, t, SweepOne(n)).entries[n].live
    ensures s.handles[h].status == Gone && s.handles[h].goneAt + s.ttl <= Pc(s, t).now
  {
    hide LocksOk, PlacesOk, LoweringOk, ResourcesOk, HandlesOk, ClosingOk;
    assert Reapable(s, n, Pc(s, t).now);
    NotHeld(s, n, h);
  }

  /** Once Close has returned, then in every continuation no entry is live and none can become so. */
  lemma AfterCloseNothingLives(ttl: int, before: seq<(Thread, Action)>, after: seq<(Thread, Action)>, n: Name)
    requires Run(ttl, before).closer.Returned?
    ensures Run(ttl, before + after).closer.Returned? && !MayLive(Run(ttl, before + after), n)
  {
    hide MayLive, Step, LocksOk, PlacesOk, RefsOk, LoweringOk, ResourcesOk, HandlesOk, TimesOk;
    StaysReturned(ttl, before, after);
    RunInv(ttl, before + after);
  }

  lemma {:induction false} StaysReturned(ttl: int, before: seq<(Thread, Action)>, after: seq<(Thread, Action)>)
    requires Run(ttl, before).closer.Returned?
    ensures Run(ttl, before + after).closer.Returned?
  {
    if after == [] {
      assert before + after == before;
    } else {
      var k := |after| - 1;
      StaysReturned(ttl, before, after[..k]);
      assert (before + after)[..|before + after| - 1] == before + after[..k];
      RunInv(ttl, before + after[..k]);
      Settled(Run(ttl, before + after[..k]), after[k].0, after[k].1);
    }
  }

  lemma Settled(s: State, t: Thread, a: Action)
    requires Inv(s) && s.closer.Returned?
    ensures Step(s, t, a).closer.Returned?
  {
    hide LocksOk, PlacesOk, RefsOk, LoweringOk, ResourcesOk, HandlesOk;
  }
}
