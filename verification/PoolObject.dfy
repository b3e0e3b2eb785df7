/**
 * The pool's objects, updated in place: each method is what one thread does without letting go,
 * and refines one action of the state machine in Pool.
 */
module PoolObject {
  import opened Bytes
  import opened Pool
  import PoolRuns

  // ----- what one action does to the state ------------------------------------------------

  /** Only entry n changed, to v. */
  ghost predicate OneEntry(s: State, s': State, n: Name, v: Entry) {
    s'.ttl == s.ttl && s'.closed == s.closed && s'.entries == s.entries[n := v]
  }

  lemma LockEffect(s: State, t: Thread, n: Name)
    requires Pc(s, t) == HasEntry(n) && Free(s, n)
    ensures var s' := Step(s, t, LockEntry);
            OneEntry(s, s', n, s.entries[n].(lock := Some(t))) && s'.handles == s.handles && s'.resources == s.resources
            && Pc(s', t) == Locked(n)
  {}

  lemma GetEffect(s: State, t: Thread, n: Name)
    requires Pc(s, t) == SawOpen(n)
    ensures var s' := Step(s, t, GetEntry);
            && s'.ttl == s.ttl && s'.closed == s.closed && s'.handles == s.handles && s'.resources == s.resources
            && s'.entries == (if n in s.entries then s.entries else s.entries[n := Entry(false, 0, 0, 0, None)])
            && Pc(s', t) == HasEntry(n)
  {}

  lemma RecheckEffect(s: State, t: Thread, n: Name)
    requires Pc(s, t) == Locked(n) && n in s.entries
    ensures var s' := Step(s, t, Recheck);
            && OneEntry(s, s', n, if s.closed then s.entries[n].(lock := None) else s.entries[n])
            && s'.handles == s.handles && s'.resources == s.resources && (Pc(s', t) == Rechecked(n) <==> !s.closed)
  {
    assert s.entries[n := s.entries[n]] == s.entries;
  }

  lemma OpenEffect(s: State, t: Thread, n: Name, ok: bool)
    requires Pc(s, t) == Rechecked(n) && n in s.entries
    ensures var s' := Step(s, t, OpenResource(ok)); var e := s.entries[n];
            if !e.live && !ok then OneEntry(s, s', n, e.(lock := None)) && s'.handles == s.handles && s'.resources == s.resources
            else
              var res := if e.live then e.res else |s.resources|;
              && OneEntry(s, s', n, e.(live := true, res := res, refs := e.refs + 1, lock := None))
              && s'.handles == s.handles + [Handle(n, res, Held, 0)]
              && s'.resources == if e.live then s.resources else s.resources + [Resource(n, 0, false)]
  {}

  /** Steps that move threads and no object of the pool. */
  lemma QuietEffect(s: State, t: Thread, a: Action)
    requires a.Acquire? || a.BeginSweep? || a.SnapshotForClose? || a.EndSweep? || a.EndClose? || a.Tick?
    ensures var s' := Step(s, t, a);
            && s'.ttl == s.ttl && s'.closed == s.closed && s'.entries == s.entries && s'.handles == s.handles
            && s'.resources == s.resources
  {}

  lemma AcquireEffect(s: State, t: Thread, n: Name)
    requires Enabled(s, t, Acquire(n))
    ensures Pc(Step(s, t, Acquire(n)), t) == SawOpen(n) <==> ValidName(n) && !s.closed
  {}

  lemma ReleaseEffect(s: State, t: Thread, h: nat)
    requires Enabled(s, t, Action.Release(h))
    ensures var s' := Step(s, t, Action.Release(h)); var held := s.handles[h].status == Held;
            && s'.ttl == s.ttl && s'.closed == s.closed && s'.entries == s.entries && s'.resources == s.resources
            && s'.handles == (if held then s.handles[h := s.handles[h].(status := Releasing)] else s.handles)
            && (Pc(s', t) == Lowering(h) <==> held)
  {}

  lemma EnabledRelease(s: State, t: Thread, h: nat)
    requires Enabled(s, t, Action.Release(h))
    ensures h < |s.handles|
  {}

  lemma CloseSwapEffect(s: State, t: Thread)
    requires Enabled(s, t, BeginClose) && ClosingOk(s)
    ensures var s' := Step(s, t, BeginClose);
            && s'.ttl == s.ttl && s'.closed && s'.entries == s.entries && s'.handles == s.handles
            && s'.resources == s.resources && (s'.closer == Stopping(t) <==> !s.closed)
  {}

  lemma ClosingKept(s: State)
    requires Inv(s)
    ensures ClosingOk(s)
  {
    hide ClosingOk;
  }

  lemma LowerEffect(s: State, t: Thread, h: nat)
    requires Inv(s) && Pc(s, t) == Lowering(h) && Enabled(s, t, Lower)
    ensures var s' := Step(s, t, Lower); var n := s.handles[h].name; var e := s.entries[n];
            && OneEntry(s, s', n, e.(refs := e.refs - 1, idleSince := if e.refs - 1 == 0 then s.clock else e.idleSince))
            && s.handles[h].status == Releasing
            && s'.handles == s.handles[h := s.handles[h].(status := Gone, goneAt := s.clock)] && s'.resources == s.resources
  {
    hide RefsOk, ResourcesOk, HandlesOk, TimesOk, ClosingOk, LocksOk, PlacesOk;
  }

  /** The resource number r is closed once more. */
  ghost predicate ClosesOne(rs: seq<Resource>, rs': seq<Resource>, r: nat) {
    && r < |rs| && |rs'| == |rs| && rs'[r].closes == rs[r].closes + 1
    && forall i :: 0 <= i < |rs| && i != r ==> rs'[i] == rs[i]
  }

  lemma CloseEffect(s: State, n: Name, byClose: bool)
    requires ResourcesOk(s) && n in s.entries && s.entries[n].live
    ensures var s' := CloseRes(s, n, byClose);
            && OneEntry(s, s', n, s.entries[n].(live := false)) && s'.handles == s.handles
            && ClosesOne(s.resources, s'.resources, s.entries[n].res)
  {}

  lemma SweepEffect(s: State, t: Thread, n: Name)
    requires Inv(s) && Enabled(s, t, SweepOne(n))
    ensures var s' := Step(s, t, SweepOne(n));
            && OneEntry(s, s', n, if Reapable(s, n, Pc(s, t).now) then s.entries[n].(live := false) else s.entries[n])
            && s'.handles == s.handles
            && if Reapable(s, n, Pc(s, t).now) then ClosesOne(s.resources, s'.resources, s.entries[n].res)
               else s'.resources == s.resources
  {
    hide RefsOk, ResourcesOk, HandlesOk, TimesOk, ClosingOk, LocksOk, PlacesOk, LoweringOk, CloseRes, ClosesOne;
    assert s.entries[n := s.entries[n]] == s.entries;
    if s.entries[n].live { CloseEffect(s, n, false); }
  }

  lemma CloseOneEffect(s: State, t: Thread, n: Name)
    requires Inv(s) && Enabled(s, t, CloseOne(n))
    ensures var s' := Step(s, t, CloseOne(n));
            && OneEntry(s, s', n, s.entries[n].(live := false)) && s'.handles == s.handles
            && if s.entries[n].live then ClosesOne(s.resources, s'.resources, s.entries[n].res)
               else s'.resources == s.resources
  {
    hide RefsOk, ResourcesOk, HandlesOk, TimesOk, ClosingOk, LocksOk, PlacesOk, LoweringOk, CloseRes, ClosesOne;
    assert !s.entries[n].live ==> s.entries[n := s.entries[n].(live := false)] == s.entries;
    if s.entries[n].live { CloseEffect(s, n, true); }
  }

  // ----- the objects ---------------------------------------------------------------------

  /** What the pool opens, as far as the pool goes: how often it has been closed. */
  class Closable {
    ghost const id: nat
    var closes: nat

    constructor (ghost id: nat)
      ensures this.id == id && closes == 0
    {
      this.id, closes := id, 0;
    }

    method Close()
      modifies this
      ensures closes == old(closes) + 1
    {
      closes := closes + 1;
    }
  }

  /** Pool.Entry: shared by every thread that got it. */
  class PoolEntry {
    const name: Name
    var live: bool
    var res: Closable?
    var refs: int
    var idleSince: int
    ghost var lock: Option<Thread>

    ghost function Value(): Entry
      reads this
    {
      Entry(live, if res == null then 0 else res.id, refs, idleSince, lock)
    }

    constructor (name: Name)
      ensures this.name == name && Value() == Entry(false, 0, 0, 0, None)
    {
      this.name := name;
      live, res, refs, idleSince, lock := false, null, 0, 0, None;
    }
  }

  /** HandleRef: one successful Acquire. */
  class HandleRef {
    const entry: PoolEntry
    ghost const id: nat
    var released: bool

    constructor (entry: PoolEntry, ghost id: nat)
      ensures this.entry == entry && this.id == id && !released
    {
      this.entry, this.id, this.released := entry, id, false;
    }
  }

  class SharedPool {
    const idleTTL: int
    var closed: bool
    var entries: map<Name, PoolEntry>
    ghost var refs: seq<HandleRef>
    ghost var resources: seq<Closable>
    ghost var s: State

    ghost predicate EntriesAre(es: map<Name, Entry>)
      reads this`entries, entries.Values
    {
      && entries.Keys == es.Keys
      && forall n :: n in entries ==> entries[n].name == n && entries[n].Value() == es[n]
    }

    ghost predicate HandlesAre(hs: seq<Handle>)
      reads this`entries, this`refs, refs
    {
      && |refs| == |hs|
      && forall h :: 0 <= h < |refs| ==>
           && refs[h].id == h && (refs[h].released <==> hs[h].status != Held)
           && hs[h].name in entries && refs[h].entry == entries[hs[h].name]
    }

    /** The resources opened so far, and how often each was closed. */
    ghost predicate ResourcesAre(rs: seq<Resource>)
      reads this`resources, resources
    {
      && |resources| == |rs|
      && forall i :: 0 <= i < |resources| ==> resources[i].id == i && resources[i].closes == rs[i].closes
    }

    /** A live entry has the resource of its number. */
    ghost predicate LiveAre()
      reads this`entries, this`resources, entries.Values`live, entries.Values`res
    {
      forall n :: n in entries && entries[n].live ==> entries[n].res != null && entries[n].res in resources
    }

    ghost predicate Valid()
      reads this, entries.Values, refs, resources
    {
      && s.ttl == idleTTL && s.closed == closed && Inv(s)
      && EntriesAre(s.entries) && HandlesAre(s.handles) && ResourcesAre(s.resources) && LiveAre()
    }

    constructor (idleTTL: int)
      ensures Valid() && s == Start(idleTTL)
    {
      this.idleTTL := idleTTL;
      closed, entries, refs, resources, s := false, map[], [], [], Start(idleTTL);
      new;
      StartInv(idleTTL);
    }

    /** Acquire's name check and unlocked closed check. */
    method AcquireCheck(name: Name, ghost t: Thread) returns (ok: bool)
      requires Valid() && Enabled(s, t, Acquire(name))
      modifies this`s
      ensures Valid() && s == Step(old(s), t, Acquire(name))
      ensures ok <==> Pc(s, t) == SawOpen(name)
      ensures ok <==> !closed && |name| > 0 && name != "." && name != ".."
                      && forall i :: 0 <= i < |name| ==> name[i] != '/' && name[i] != '\\' && name[i] != '\0'
    {
      hide Inv, Step, Enabled, Pc, EntriesAre, HandlesAre, ResourcesAre, LiveAre;
      StepInv(s, t, Acquire(name));
      QuietEffect(s, t, Acquire(name));
      AcquireEffect(s, t, name);
      s := Step(s, t, Acquire(name));
      return ValidName(name) && !closed;
    }

    lemma SameNames(es: map<Name, Entry>)
      requires EntriesAre(es)
      ensures entries.Keys == es.Keys
    {}

    method AddEntry(name: Name, ghost es: map<Name, Entry>, ghost hs: seq<Handle>) returns (e: PoolEntry)
      requires EntriesAre(es) && HandlesAre(hs) && LiveAre() && name !in entries
      modifies this`entries
      ensures EntriesAre(es[name := Entry(false, 0, 0, 0, None)]) && HandlesAre(hs) && LiveAre()
      ensures fresh(e) && entries == old(entries)[name := e]
    {
      e := new PoolEntry(name);
      entries := entries[name := e];
    }

    /** Get or create the entry, under the pool's lock. */
    method GetEntry(name: Name, ghost t: Thread) returns (e: PoolEntry)
      requires Valid() && Pc(s, t) == SawOpen(name)
      modifies this`s, this`entries
      ensures Valid() && s == Step(old(s), t, Action.GetEntry)
      ensures name in entries && e == entries[name] && Pc(s, t) == HasEntry(name)
      ensures entries == old(entries) || (fresh(e) && entries == old(entries)[name := e])
    {
      hide Inv, Step, Enabled, Pc, EntriesAre, HandlesAre, ResourcesAre, LiveAre;
      StepInv(s, t, Action.GetEntry);
      GetEffect(s, t, name);
      SameNames(s.entries);
      if name in entries {
        e := entries[name];
      } else {
        e := AddEntry(name, s.entries, s.handles);
      }
      s := Step(s, t, Action.GetEntry);
    }

    /** e is the entry the pool knows under its name. */
    ghost predicate Known(e: PoolEntry)
      reads this
    {
      e.name in entries && entries[e.name] == e
    }

    /** Every entry but one. */
    ghost predicate OthersAre(es: map<Name, Entry>, skip: Name)
      reads this`entries, set e | e in entries.Values && e.name != skip
    {
      && entries.Keys == es.Keys
      && forall n :: n in entries && n != skip ==> entries[n].name == n && entries[n].Value() == es[n]
    }

    lemma Apart(es: map<Name, Entry>, e: PoolEntry)
      requires EntriesAre(es) && Known(e)
      ensures entries.Keys == es.Keys && e.name in es && e.Value() == es[e.name] && OthersAre(es, e.name)
    {}

    /** When only e has changed, the entries are what they were with e's new value. */
    lemma Together(es: map<Name, Entry>, e: PoolEntry)
      requires OthersAre(es, e.name) && Known(e)
      ensures EntriesAre(es[e.name := e.Value()])
    {}

    /** Taking the entry's lock. */
    method LockEntry(e: PoolEntry, ghost t: Thread)
      requires Valid() && Known(e) && Pc(s, t) == HasEntry(e.name) && Free(s, e.name)
      modifies this`s, e`lock
      ensures Valid() && s == Step(old(s), t, Action.LockEntry) && Pc(s, t) == Locked(e.name)
    {
      hide Inv, Step, Enabled, HandlesAre, EntriesAre, OthersAre;
      Apart(s.entries, e);
      StepInv(s, t, Action.LockEntry);
      LockEffect(s, t, e.name);
      e.lock := Some(t);
      Together(s.entries, e);
      s := Step(s, t, Action.LockEntry);
    }

    /** The re-check under the entry's lock; gives up the lock when the pool has been closed. */
    method Recheck(e: PoolEntry, ghost t: Thread) returns (ok: bool)
      requires Valid() && Known(e) && Pc(s, t) == Locked(e.name)
      modifies this`s, e`lock
      ensures Valid() && s == Step(old(s), t, Action.Recheck)
      ensures (ok <==> Pc(s, t) == Rechecked(e.name)) && (ok <==> !closed)
    {
      hide Inv, Step, Enabled, HandlesAre, EntriesAre, OthersAre;
      Apart(s.entries, e);
      StepInv(s, t, Action.Recheck);
      RecheckEffect(s, t, e.name);
      if closed {
        e.lock := None;
      }
      Together(s.entries, e);
      s := Step(s, t, Action.Recheck);
      return !closed;
    }

    /** Opens the resource if it is not live, counts the handle, gives up the lock. opened is what opening returns. */
    method OpenResource(e: PoolEntry, resource: Closable?, ghost t: Thread) returns (h: HandleRef?)
      requires Valid() && Known(e) && Pc(s, t) == Rechecked(e.name)
      requires resource != null ==> resource.id == |s.resources| && resource.closes == 0
      modifies this`s, this`refs, this`resources, e
      ensures Valid() && s == Step(old(s), t, Action.OpenResource(resource != null))
      ensures h == null <==> !old(e.live) && resource == null
      ensures h == null ==> refs == old(refs)
      ensures h != null ==> fresh(h) && refs == old(refs) + [h] && h.entry == e && !h.released
      ensures h != null ==> e.live && e.refs == old(e.refs) + 1 && e.res == if old(e.live) then old(e.res) else resource
    {
      hide Valid, Step, Pc;
      if e.live {
        h := Share(e, resource != null, t);
      } else if resource == null {
        GiveUp(e, t);
        h := null;
      } else {
        h := OpenNew(e, resource, t);
      }
    }

    /** The entry is live: one handle more. */
    method Share(e: PoolEntry, ghost ok: bool, ghost t: Thread) returns (h: HandleRef)
      requires Valid() && Known(e) && Pc(s, t) == Rechecked(e.name) && e.live
      modifies this`s, this`refs, e`refs, e`lock
      ensures Valid() && s == Step(old(s), t, Action.OpenResource(ok))
      ensures fresh(h) && refs == old(refs) + [h] && h.entry == e && !h.released && e.refs == old(e.refs) + 1
    {
      hide Inv, Step, Enabled, Pc, HandlesAre, EntriesAre, OthersAre, ResourcesAre, LiveAre;
      Apart(s.entries, e);
      StepInv(s, t, Action.OpenResource(ok));
      OpenEffect(s, t, e.name, ok);
      h := CountHandle(e, s.handles);
      Together(s.entries, e);
      s := Step(s, t, Action.OpenResource(ok));
    }

    /** Opening failed: nothing is counted. */
    method GiveUp(e: PoolEntry, ghost t: Thread)
      requires Valid() && Known(e) && Pc(s, t) == Rechecked(e.name) && !e.live
      modifies this`s, e`lock
      ensures Valid() && s == Step(old(s), t, Action.OpenResource(false))
    {
      hide Inv, Step, Enabled, Pc, HandlesAre, EntriesAre, OthersAre, ResourcesAre, LiveAre;
      Apart(s.entries, e);
      StepInv(s, t, Action.OpenResource(false));
      OpenEffect(s, t, e.name, false);
      e.lock := None;
      Together(s.entries, e);
      s := Step(s, t, Action.OpenResource(false));
    }

    method OpenNew(e: PoolEntry, resource: Closable, ghost t: Thread) returns (h: HandleRef)
      requires Valid() && Known(e) && Pc(s, t) == Rechecked(e.name) && !e.live
      requires resource.id == |s.resources| && resource.closes == 0
      modifies this`s, this`refs, this`resources, e
      ensures Valid() && s == Step(old(s), t, Action.OpenResource(true))
      ensures fresh(h) && refs == old(refs) + [h] && h.entry == e && !h.released
      ensures e.live && e.res == resource && e.refs == old(e.refs) + 1
    {
      hide Inv, Step, Enabled, Pc, HandlesAre, EntriesAre, OthersAre, ResourcesAre, LiveAre;
      Apart(s.entries, e);
      StepInv(s, t, Action.OpenResource(true));
      OpenEffect(s, t, e.name, true);
      h := AdoptAndCount(e, resource, s.resources, s.handles);
      Together(s.entries, e);
      s := Step(s, t, Action.OpenResource(true));
    }

    /** An opened resource becomes the entry's. */
    method Adopt(e: PoolEntry, resource: Closable, ghost rs: seq<Resource>)
      requires Known(e) && ResourcesAre(rs) && LiveAre() && resource.id == |rs| && resource.closes == 0
      modifies this`resources, e`res, e`live
      ensures ResourcesAre(rs + [Resource(e.name, 0, false)]) && LiveAre() && e.live && e.res == resource
    {
      e.res, e.live := resource, true;
      resources := resources + [resource];
    }

    /** refs++, the lock given up, and the caller's handle. */
    method CountHandle(e: PoolEntry, ghost hs: seq<Handle>) returns (h: HandleRef)
      requires Known(e) && HandlesAre(hs)
      modifies this`refs, e`refs, e`lock
      ensures e.Value() == old(e.Value()).(refs := old(e.refs) + 1, lock := None)
      ensures HandlesAre(hs + [Handle(e.name, e.Value().res, Held, 0)])
      ensures fresh(h) && refs == old(refs) + [h] && h.entry == e && !h.released
    {
      e.refs := e.refs + 1;
      e.lock := None;
      h := new HandleRef(e, |refs|);
      refs := refs + [h];
    }

    method AdoptAndCount(e: PoolEntry, resource: Closable, ghost rs: seq<Resource>, ghost hs: seq<Handle>) returns (h: HandleRef)
      requires Known(e) && ResourcesAre(rs) && LiveAre() && resource.id == |rs| && resource.closes == 0 && HandlesAre(hs)
      modifies this`resources, this`refs, e`res, e`live, e`refs, e`lock
      ensures ResourcesAre(rs + [Resource(e.name, 0, false)]) && LiveAre() && e.live && e.res == resource
      ensures e.Value() == old(e.Value()).(live := true, res := resource.id, refs := old(e.refs) + 1, lock := None)
      ensures HandlesAre(hs + [Handle(e.name, resource.id, Held, 0)])
      ensures fresh(h) && refs == old(refs) + [h] && h.entry == e && !h.released
    {
      hide ResourcesAre, LiveAre, HandlesAre;
      Adopt(e, resource, rs);
      h := CountHandle(e, hs);
    }

    lemma HandleEntry(es: map<Name, Entry>, hs: seq<Handle>, h: nat)
      requires EntriesAre(es) && HandlesAre(hs) && h < |refs|
      ensures |refs| == |hs| && Known(refs[h].entry) && refs[h].entry.name == hs[h].name
    {}

    /** Lowering the count of a handle already released. */
    lemma HandlesLowered(hs: seq<Handle>, h: nat, clock: int)
      requires HandlesAre(hs) && h < |hs| && hs[h].status == Releasing
      ensures HandlesAre(hs[h := hs[h].(status := Gone, goneAt := clock)])
    {}

    /** HandleRef.Release's swap: only the first call goes on to lower the count. */
    method Release(h: HandleRef, ghost t: Thread) returns (first: bool)
      requires Valid() && h.id < |refs| && refs[h.id] == h && Enabled(s, t, Action.Release(h.id))
      modifies this`s, h
      ensures Valid() && s == Step(old(s), t, Action.Release(h.id))
      ensures (first <==> Pc(s, t) == Lowering(h.id)) && (first <==> !old(h.released)) && h.released
    {
      hide Inv, Step, Enabled, Pc, EntriesAre, ResourcesAre, LiveAre;
      StepInv(s, t, Action.Release(h.id));
      EnabledRelease(s, t, h.id);
      ReleaseEffect(s, t, h.id);
      first := !h.released;
      h.released := true;
      s := Step(s, t, Action.Release(h.id));
    }

    /** Entry.Release. */
    method Lower(h: HandleRef, now: int, ghost t: Thread)
      requires Valid() && h.id < |refs| && refs[h.id] == h && Pc(s, t) == Lowering(h.id)
      requires Enabled(s, t, Action.Lower) && now == s.clock
      modifies this`s, h.entry
      ensures Valid() && s == Step(old(s), t, Action.Lower)
      ensures h.entry.refs == old(h.entry.refs) - 1 && h.entry.live == old(h.entry.live)
      ensures h.entry.idleSince == if h.entry.refs == 0 then now else old(h.entry.idleSince)
    {
      hide Inv, Step, Enabled, HandlesAre, EntriesAre, OthersAre;

      StepInv(s, t, Action.Lower);
      LowerEffect(s, t, h.id);
      HandleEntry(s.entries, s.handles, h.id);
      HandlesLowered(s.handles, h.id, s.clock);
      Apart(s.entries, h.entry);
      h.entry.refs := h.entry.refs - 1;
      if h.entry.refs == 0 {
        h.entry.idleSince := now;
      }
      Together(s.entries, h.entry);
      s := Step(s, t, Action.Lower);
    }

    /** Sweep's snapshot of the entries. */
    method SweepSnapshot(now: int, ghost t: Thread) returns (all: map<Name, PoolEntry>)
      requires Valid() && Enabled(s, t, BeginSweep(now))
      modifies this`s
      ensures Valid() && s == Step(old(s), t, BeginSweep(now)) && all == entries && Pc(s, t) == Sweeping(entries.Keys, now)
    {
      hide Inv, Step, Enabled, EntriesAre, HandlesAre, ResourcesAre, LiveAre;
      StepInv(s, t, BeginSweep(now));
      QuietEffect(s, t, BeginSweep(now));
      PoolRuns.SweepTakesAll(s, t, now);
      SameNames(s.entries);
      s := Step(s, t, BeginSweep(now));
      all := entries;
    }

    /** The end of a sweep or of Close, or time passing: no object changes. */
    ghost method Silent(t: Thread, a: Action)
      requires Valid() && (a.EndSweep? || a.EndClose? || a.Tick?)
      modifies this`s
      ensures Valid() && s == Step(old(s), t, a)
    {
      hide Inv, Step, EntriesAre, HandlesAre, ResourcesAre, LiveAre;
      StepInv(s, t, a);
      QuietEffect(s, t, a);
      s := Step(s, t, a);
    }

    /** Closes a live entry's resource. */
    method CloseResource(e: PoolEntry, ghost rs: seq<Resource>, ghost rs': seq<Resource>)
      requires Known(e) && e.live && LiveAre() && ResourcesAre(rs) && e.res != null && ClosesOne(rs, rs', e.res.id)
      modifies e`live, e.res
      ensures ResourcesAre(rs') && !e.live && LiveAre() && e.res.closes == old(e.res.closes) + 1
    {
      e.res.Close();
      e.live := false;
    }

    /** Sweep's body for one entry of its snapshot. */
    method SweepEntry(e: PoolEntry, now: int, ghost t: Thread)
      requires Valid() && Known(e) && Enabled(s, t, SweepOne(e.name)) && now == Pc(s, t).now
      modifies this`s, e, if e.res == null then {} else {e.res}
      ensures Valid() && s == Step(old(s), t, SweepOne(e.name))
      ensures old(e.live && e.refs == 0 && now - e.idleSince >= idleTTL) ==>
                !e.live && e.res != null && e.res.closes == old(if e.res == null then 0 else e.res.closes) + 1
      ensures !old(e.live && e.refs == 0 && now - e.idleSince >= idleTTL) ==>
                e.live == old(e.live) && (e.res != null ==> e.res.closes == old(if e.res == null then 0 else e.res.closes))
      ensures e.refs == old(e.refs) && e.idleSince == old(e.idleSince) && e.res == old(e.res)
    {
      hide Inv, Step, Enabled, HandlesAre, EntriesAre, OthersAre;
      Apart(s.entries, e);
      StepInv(s, t, SweepOne(e.name));
      SweepEffect(s, t, e.name);
      if e.live && e.refs == 0 && now - e.idleSince >= idleTTL {
        CloseResource(e, s.resources, Step(s, t, SweepOne(e.name)).resources);
      }
      Together(s.entries, e);
      s := Step(s, t, SweepOne(e.name));
    }

    /** Close's swap: only the first call goes on. */
    method CloseSwap(ghost t: Thread) returns (first: bool)
      requires Valid() && Enabled(s, t, BeginClose)
      modifies this`s, this`closed
      ensures Valid() && s == Step(old(s), t, BeginClose)
      ensures (first <==> s.closer == Stopping(t)) && (first <==> !old(closed)) && closed
    {
      hide Inv, ClosingOk, Step, Enabled, EntriesAre, HandlesAre, ResourcesAre, LiveAre;
      StepInv(s, t, BeginClose);
      ClosingKept(s);
      CloseSwapEffect(s, t);
      first := !closed;
      closed := true;
      s := Step(s, t, BeginClose);
    }

    /** Close's snapshot of the entries, once the reaper has stopped. */
    method CloseSnapshot(ghost t: Thread) returns (all: map<Name, PoolEntry>)
      requires Valid() && Enabled(s, t, SnapshotForClose)
      modifies this`s
      ensures Valid() && s == Step(old(s), t, SnapshotForClose) && all == entries && s.closer == Closing(t, entries.Keys)
    {
      hide Inv, Step, Enabled, EntriesAre, HandlesAre, ResourcesAre, LiveAre;
      StepInv(s, t, SnapshotForClose);
      QuietEffect(s, t, SnapshotForClose);
      PoolRuns.CloseTakesAll(s, t);
      SameNames(s.entries);
      s := Step(s, t, SnapshotForClose);
      all := entries;
    }

    /** Close's body for one entry of its snapshot. */
    method CloseEntry(e: PoolEntry, ghost t: Thread)
      requires Valid() && Known(e) && Enabled(s, t, CloseOne(e.name))
      modifies this`s, e, if e.res == null then {} else {e.res}
      ensures Valid() && s == Step(old(s), t, CloseOne(e.name)) && !e.live && e.res == old(e.res)
      ensures e.res != null ==>
                e.res.closes == old(if e.res == null then 0 else e.res.closes) + if old(e.live) then 1 else 0
    {
      hide Inv, Step, Enabled, HandlesAre, EntriesAre, OthersAre;
      Apart(s.entries, e);
      StepInv(s, t, CloseOne(e.name));
      CloseOneEffect(s, t, e.name);
      if e.live {
        CloseResource(e, s.resources, Step(s, t, CloseOne(e.name)).resources);
      }
      Together(s.entries, e);
      s := Step(s, t, CloseOne(e.name));
    }
  }
}
