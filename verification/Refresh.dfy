/** EnsureFresh: reuse, refresh or rebuild a sorted index as its list of sources changes. */
module Refresh {
  import opened Bytes
  import opened Lines
  import opened Entries
  import opened Build
  import opened Spill
  import opened Sidx
  import opened Merge
  import opened Lookup
  import opened Stale
  import Bloom

  const MAX_SOURCES: nat := 65535

  /** A source's identity: equal path, size and modification time mean equal content. */
  datatype Stat = Stat(path: string, size: nat, modTime: int)

  function Contents(content: Stat -> Bytes, stats: seq<Stat>): (c: seq<Bytes>)
    ensures |c| == |stats|
  {
    seq(|stats|, i requires 0 <= i < |stats| => content(stats[i]))
  }

  /** sourcesMatch. */
  method SourcesMatch(a: seq<Stat>, b: seq<Stat>) returns (same: bool)
    ensures same <==> a == b
  {
    if |a| != |b| {
      return false;
    }
    for i := 0 to |a|
      invariant a[..i] == b[..i]
    {
      if a[i].path != b[i].path || a[i].size != b[i].size || a[i].modTime != b[i].modTime {
        return false;
      }
    }
    return true;
  }

  /** incrementalEligible: the sources that are new, when current only adds to recorded. */
  method IncrementalEligible(recorded: seq<Stat>, current: seq<Stat>) returns (added: Option<seq<Stat>>)
    ensures added.Some? <==> recorded < current
    ensures added.Some? ==> current == recorded + added.value
  {
    if |current| <= |recorded| {
      return None;
    }
    for i := 0 to |recorded|
      invariant recorded[..i] == current[..i]
    {
      var r, c := recorded[i], current[i];
      if c.path != r.path || c.size != r.size || c.modTime != r.modTime {
        return None;
      }
    }
    return Some(current[|recorded|..]);
  }

  // ----- refreshed is rebuilt ---------------------------------------------------------------

  /** es is the entry list a build over these sources must give. */
  ghost predicate Indexes(es: seq<Entry>, sources: seq<Bytes>, keyFunc: KeyFunc) {
    Canonical(es, ScanSet(sources, 0, keyFunc))
  }

  /** One list, hence one entries region and one sparse directory, byte for byte. */
  lemma IndexIsUnique(a: seq<Entry>, b: seq<Entry>, sources: seq<Bytes>, keyFunc: KeyFunc)
    requires Indexes(a, sources, keyFunc) && Indexes(b, sources, keyFunc)
    ensures a == b
  {
    hide ScanSet, Canonical;
    ScanConsistent(sources, 0, keyFunc);
    CanonicalUnique(a, b, ScanSet(sources, 0, keyFunc));
  }

  /** Merging the new sources' runs with the old list gives the list of all sources. */
  lemma RefreshedIndexes(out: seq<Entry>, es: seq<Entry>, recorded: seq<Bytes>, added: seq<Bytes>, keyFunc: KeyFunc)
    requires Indexes(es, recorded, keyFunc)
    requires Canonical(out, ScanSet(added, |recorded|, keyFunc) + SetOf(es))
    ensures Indexes(out, recorded + added, keyFunc)
  {
    hide Canonical, SetOf, ScanSet;
    var a, b := ScanSet(recorded, 0, keyFunc), ScanSet(added, |recorded|, keyFunc);
    assert b + SetOf(es) == SetOf(es) + b;
    CanonicalThroughList(out, es, a, b);
    ScanSetAppend(recorded, added, 0, keyFunc);
  }

  /** Doing it again, against a list that already has the new sources, changes nothing. */
  lemma RefreshedAgain(out: seq<Entry>, es: seq<Entry>, recorded: seq<Bytes>, added: seq<Bytes>, keyFunc: KeyFunc)
    requires Indexes(es, recorded + added, keyFunc)
    requires Canonical(out, ScanSet(added, |recorded|, keyFunc) + SetOf(es))
    ensures out == es
  {
    hide Canonical, SetOf, ScanSet;
    var all, b := ScanSet(recorded + added, 0, keyFunc), ScanSet(added, |recorded|, keyFunc);
    assert b + SetOf(es) == SetOf(es) + b;
    CanonicalThroughList(out, es, all, b);
    ScanSetAppend(recorded, added, 0, keyFunc);
    assert all + b == all;
    IndexIsUnique(out, es, recorded + added, keyFunc);
  }

  // ----- when a refresh over some other list is right --------------------------------------------

  lemma AddedComesAfter(recorded: seq<Bytes>, added: seq<Bytes>, keyFunc: KeyFunc)
    ensures After(ScanSet(recorded, 0, keyFunc), ScanSet(added, |recorded|, keyFunc))
  {
    hide ScanSet, EntriesFrom;
    forall e, n | e in ScanSet(recorded, 0, keyFunc) && n in ScanSet(added, |recorded|, keyFunc) ensures Better(n, e) {
      ScannedFrom(recorded, 0, keyFunc, e);
      ScannedFrom(added, |recorded|, keyFunc, n);
    }
  }

  /**
   * A refresh from recorded to recorded + added that finds any list es in the sidx: what it
   * writes is right if and only if the differences between es and recorded's index are settled by
   * the added sources. A tie, two lines the merge takes to be at one place, is decided by the
   * heap; then the same condition says when every outcome is right.
   */
  lemma RefreshIsRightIff(out: seq<Entry>, es: seq<Entry>, recorded: seq<Bytes>, added: seq<Bytes>, keyFunc: KeyFunc)
    requires Ascending(es) && Canonical(out, ScanSet(added, |recorded|, keyFunc) + SetOf(es))
    ensures var a, b := ScanSet(recorded, 0, keyFunc), ScanSet(added, |recorded|, keyFunc);
            && (Harmless(es, a, b) ==> Indexes(out, recorded + added, keyFunc))
            && (Indexes(out, recorded + added, keyFunc) && Consistent(b + SetOf(es)) ==> Harmless(es, a, b))
            && (Harmless(es, a, b) <==>
                  forall any :: Canonical(any, b + SetOf(es)) ==> Indexes(any, recorded + added, keyFunc))
  {
    hide ScanSet, Canonical, SetOf, Harmless, Consistent, Ascending, After;
    var a, b := ScanSet(recorded, 0, keyFunc), ScanSet(added, |recorded|, keyFunc);
    AddedComesAfter(recorded, added, keyFunc);
    ScanConsistent(recorded, 0, keyFunc);
    ScanSetAppend(recorded, added, 0, keyFunc);
    MergeIsRightIff(out, es, a, b);
    MergeIsSureIff(out, es, a, b);
  }

  /** After a refresh towards recorded + stopped was cut short, only what came from the stopped sources matters. */
  lemma StoppedRefreshIff(es: seq<Entry>, recorded: seq<Bytes>, stopped: seq<Bytes>, added: seq<Bytes>, keyFunc: KeyFunc)
    requires Indexes(es, recorded + stopped, keyFunc)
    ensures var b := ScanSet(added, |recorded|, keyFunc);
            Harmless(es, ScanSet(recorded, 0, keyFunc), b)
            <==> forall e :: e in es && e.fileIdx >= |recorded| ==> Settled(e, b)
  {
    hide ScanSet, Canonical, Settled, Best;
    var a, b := ScanSet(recorded, 0, keyFunc), ScanSet(added, |recorded|, keyFunc);
    if Harmless(es, a, b) {
      forall e | e in es && e.fileIdx >= |recorded| ensures Settled(e, b) {
        NotRecorded(recorded, keyFunc, e);
      }
    }
    if forall e :: e in es && e.fileIdx >= |recorded| ==> Settled(e, b) {
      forall e ensures (e in es <==> Best(e, a)) || Settled(e, b) {
        if e in es { ListedEarly(es, recorded, stopped, keyFunc, e); }
        if Best(e, a) && e !in es {
          var f := DisplacedBy(es, recorded, stopped, keyFunc, e);
          SettlesEarlier(e, f, recorded, added, keyFunc);
        }
      }
    }
  }

  lemma NotRecorded(recorded: seq<Bytes>, keyFunc: KeyFunc, e: Entry)
    requires e.fileIdx >= |recorded|
    ensures !Best(e, ScanSet(recorded, 0, keyFunc))
  {
    hide ScanSet;
    if e in ScanSet(recorded, 0, keyFunc) { ScannedFrom(recorded, 0, keyFunc, e); }
  }

  /** An entry of the longer list that is from a recorded source is in the recorded list too. */
  lemma ListedEarly(es: seq<Entry>, recorded: seq<Bytes>, stopped: seq<Bytes>, keyFunc: KeyFunc, e: Entry)
    requires Indexes(es, recorded + stopped, keyFunc) && e in es
    ensures e.fileIdx < |recorded| ==> Best(e, ScanSet(recorded, 0, keyFunc))
  {
    hide ScanSet, Canonical, Better;
    ScanSetAppend(recorded, stopped, 0, keyFunc);
    BestOf(es, ScanSet(recorded + stopped, 0, keyFunc), e);
    if e in ScanSet(stopped, |recorded|, keyFunc) { ScannedFrom(stopped, |recorded|, keyFunc, e); }
  }

  /** A recorded winner missing from the longer list gave way to an entry of the stopped sources. */
  lemma DisplacedBy(es: seq<Entry>, recorded: seq<Bytes>, stopped: seq<Bytes>, keyFunc: KeyFunc, e: Entry) returns (f: Entry)
    requires Indexes(es, recorded + stopped, keyFunc) && Best(e, ScanSet(recorded, 0, keyFunc)) && e !in es
    ensures f in es && f.key == e.key && f.fileIdx >= |recorded|
  {
    hide ScanSet, Canonical, Best;
    var a := ScanSet(recorded, 0, keyFunc);
    ScanSetAppend(recorded, stopped, 0, keyFunc);
    assert e in a by { IsMember(e, a); }
    var j := CanonicalEntry(es, ScanSet(recorded + stopped, 0, keyFunc), e);
    f := es[j];
    ListedEarly(es, recorded, stopped, keyFunc, f);
    ScanConsistent(recorded, 0, keyFunc);
    if f.fileIdx < |recorded| { BestUnique(e, f, a); }
  }

  lemma IsMember(e: Entry, all: set<Entry>)
    requires Best(e, all)
    ensures e in all
  {}

  lemma SettlesEarlier(e: Entry, f: Entry, recorded: seq<Bytes>, added: seq<Bytes>, keyFunc: KeyFunc)
    requires Best(e, ScanSet(recorded, 0, keyFunc)) && f.key == e.key && Settled(f, ScanSet(added, |recorded|, keyFunc))
    ensures Settled(e, ScanSet(added, |recorded|, keyFunc))
  {
    hide ScanSet;
    var n := SettledKey(f, ScanSet(added, |recorded|, keyFunc));
    ScannedFrom(added, |recorded|, keyFunc, n);
    ScannedFrom(recorded, 0, keyFunc, e);
  }

  lemma LongerListIsHarmless(es: seq<Entry>, recorded: seq<Bytes>, stopped: seq<Bytes>, more: seq<Bytes>, keyFunc: KeyFunc)
    requires Indexes(es, recorded + stopped, keyFunc)
    ensures Harmless(es, ScanSet(recorded, 0, keyFunc), ScanSet(stopped + more, |recorded|, keyFunc))
  {
    hide ScanSet, Canonical, Best, Harmless;
    var b := ScanSet(stopped + more, |recorded|, keyFunc);
    ScanSetAppend(stopped, more, |recorded|, keyFunc);
    ScanSetAppend(recorded, stopped, 0, keyFunc);
    forall e | e in es && e.fileIdx >= |recorded| ensures Settled(e, b) {
      BestOf(es, ScanSet(recorded + stopped, 0, keyFunc), e);
      if e in ScanSet(recorded, 0, keyFunc) { ScannedFrom(recorded, 0, keyFunc, e); }
    }
    StoppedRefreshIff(es, recorded, stopped, stopped + more, keyFunc);
  }

  /** Going on to recorded + stopped + more, after a refresh towards recorded + stopped was cut short, is right. */
  lemma GoingOnIsRight(out: seq<Entry>, es: seq<Entry>, recorded: seq<Bytes>, stopped: seq<Bytes>, more: seq<Bytes>,
                       keyFunc: KeyFunc)
    requires Indexes(es, recorded + stopped, keyFunc)
    requires Canonical(out, ScanSet(stopped + more, |recorded|, keyFunc) + SetOf(es))
    ensures Indexes(out, recorded + (stopped + more), keyFunc)
  {
    hide ScanSet, Canonical, SetOf, Ascending, Harmless;
    CanonicalAscends(es, ScanSet(recorded + stopped, 0, keyFunc));
    LongerListIsHarmless(es, recorded, stopped, more, keyFunc);
    RefreshIsRightIff(out, es, recorded, stopped + more, keyFunc);
  }

  /**
   * After a refresh stopped before the source record was replaced, going back to the recorded
   * list finds the record unchanged and reuses the sidx file. That is right exactly when the
   * added sources hold no indexable line.
   */
  lemma RevertIsRightIff(es: seq<Entry>, recorded: seq<Bytes>, added: seq<Bytes>, keyFunc: KeyFunc)
    requires Indexes(es, recorded + added, keyFunc)
    ensures Indexes(es, recorded, keyFunc) <==> ScanSet(added, |recorded|, keyFunc) == {}
  {
    hide ScanSet, Canonical;
    var a, b := ScanSet(recorded, 0, keyFunc), ScanSet(added, |recorded|, keyFunc);
    ScanSetAppend(recorded, added, 0, keyFunc);
    if b == {} {
      assert a + b == a;
    } else {
      var e :| e in b;
      NotOfRecorded(es, recorded, added, keyFunc, e);
    }
  }

  lemma NotOfRecorded(es: seq<Entry>, recorded: seq<Bytes>, added: seq<Bytes>, keyFunc: KeyFunc, e: Entry)
    requires Canonical(es, ScanSet(recorded, 0, keyFunc) + ScanSet(added, |recorded|, keyFunc))
    requires e in ScanSet(added, |recorded|, keyFunc)
    ensures !Indexes(es, recorded, keyFunc)
  {
    hide ScanSet, Canonical;
    var a, b := ScanSet(recorded, 0, keyFunc), ScanSet(added, |recorded|, keyFunc);
    ScannedFrom(added, |recorded|, keyFunc, e);
    var j := CanonicalEntry(es, a + b, e);
    assert !Better(e, es[j]);
    if Indexes(es, recorded, keyFunc) {
      BestOfMember(es, a, j);
      ScannedFrom(recorded, 0, keyFunc, es[j]);
    }
  }

  /**
   * After a full rebuild for other sources stopped there, a call for the recorded list reuses
   * their sidx file. That is right exactly when the same lines win in both lists.
   */
  lemma ReuseIsRightIff(es: seq<Entry>, held: seq<Bytes>, recorded: seq<Bytes>, keyFunc: KeyFunc)
    requires Indexes(es, held, keyFunc)
    ensures Indexes(es, recorded, keyFunc) <==> SameWinners(ScanSet(held, 0, keyFunc), ScanSet(recorded, 0, keyFunc))
  {
    hide ScanSet, Canonical, Best;
    var h, a := ScanSet(held, 0, keyFunc), ScanSet(recorded, 0, keyFunc);
    forall e ensures e in es <==> Best(e, h) { ListIsWinners(es, held, keyFunc, e); }
    if Indexes(es, recorded, keyFunc) {
      forall e ensures Best(e, h) <==> Best(e, a) { ListIsWinners(es, recorded, keyFunc, e); }
    }
    if SameWinners(h, a) {
      WinnersAreList(es, h, a);
    }
  }

  ghost predicate SameWinners(a: set<Entry>, b: set<Entry>) {
    forall e :: Best(e, a) <==> Best(e, b)
  }

  lemma ListIsWinners(es: seq<Entry>, sources: seq<Bytes>, keyFunc: KeyFunc, e: Entry)
    requires Indexes(es, sources, keyFunc)
    ensures e in es <==> Best(e, ScanSet(sources, 0, keyFunc))
  {
    hide ScanSet, Canonical, Best;
    var all := ScanSet(sources, 0, keyFunc);
    if e in es { BestOf(es, all, e); }
    if Best(e, all) {
      IsMember(e, all);
      var j := CanonicalEntry(es, all, e);
      ScanConsistent(sources, 0, keyFunc);
      BestUnique(e, es[j], all);
    }
  }

  lemma WinnersAreList(es: seq<Entry>, h: set<Entry>, a: set<Entry>)
    requires Canonical(es, h) && SameWinners(h, a)
    ensures Canonical(es, a)
  {
    hide Ascending, Best;
    forall i | 0 <= i < |es| ensures Best(es[i], a) { BestOfMember(es, h, i); }
    forall f | f in a ensures exists i :: 0 <= i < |es| && es[i].key == f.key {
      var g := BestAbove(a, f);
      IsMember(g, h);
      var i := CanonicalEntry(es, h, g);
    }
  }

  // ----- the files beside one sidx path, and EnsureFresh ------------------------------------------

  const RENAMES: nat := 4

  /**
   * What each call brings: cancellation, settings that must not change the result, and how many
   * of the final renames (sidx, sparse, Bloom filter, sources) happen before the process stops.
   */
  datatype Settings = Settings(ctx: Context, chunkEntries: nat, bloomBits: nat, bloomProbes: nat, renames: nat)

  datatype Outcome = Ok | Failed | Stopped

  type Call = (Option<seq<Stat>>, Settings)

  /** What a run of calls leaves: the source record, and the list work was cut short for, if any. */
  datatype Record = Record(sources: Option<seq<Stat>>, pending: Option<seq<Stat>>)

  class Cache {
    const keyFunc: KeyFunc
    const content: Stat -> Bytes
    const interval: nat
    const hashes: Option<Bloom.Hashes>  // None: built without a Bloom filter
    var sidx: Option<Bytes>
    var sparse: Option<seq<Sample>>
    var bloom: Bloom.BloomFilter?  // null: no Bloom file, or one that fails its checks
    var badBloom: bool  // there is a Bloom file, and it fails its checks
    var sources: Option<seq<Stat>>
    ghost var es: seq<Entry>

    ghost function BloomFrame(): set<object>
      reads this
    {
      if bloom == null then {} else {bloom, bloom.bits}
    }

    /** The sidx file is there and passes its checks. */
    predicate Readable()
      reads this`sidx
    {
      sidx.Some? && OpenSidx(sidx.value).Some?
    }

    /** An sidx file that passes its checks holds some entry list; the other files, if there, hold anything. */
    ghost predicate Usable()
      reads this, BloomFrame()
    {
      && interval > 0 && ShortKeys(keyFunc) && (forall st :: ShortLines(content(st)))
      && (hashes.None? ==> bloom == null && !badBloom) && (bloom != null ==> bloom.Valid() && !badBloom)
      && (Readable() ==> sidx == Some(SidxFile(es)) && Ascending(es) && AllFit(es))
    }

    /** The sidx file is the one for these sources. */
    ghost predicate Describes(stats: seq<Stat>)
      reads this
    {
      Readable() && Indexes(es, Contents(content, stats), keyFunc)
    }

    /** The sparse and Bloom sidecars are the sidx file's own. */
    ghost predicate Complete()
      reads this, BloomFrame()
    {
      && interval > 0 && sparse == Some(SparseOf(es, interval))
      && !badBloom && (bloom != null ==> bloom.added == KeysOf(es))
    }

    ghost predicate Fresh(stats: seq<Stat>)
      reads this, BloomFrame()
    {
      Usable() && sources == Some(stats) && Describes(stats) && Complete()
    }

    ghost predicate Valid()
      reads this, BloomFrame()
    {
      Usable() && (sources.Some? ==> Fresh(sources.value))
    }

    constructor (keyFunc: KeyFunc, content: Stat -> Bytes, interval: nat, hashes: Option<Bloom.Hashes>)
      requires interval > 0 && ShortKeys(keyFunc) && forall st :: ShortLines(content(st))
      ensures Valid() && sources == None && fresh(BloomFrame())
      ensures this.keyFunc == keyFunc && this.content == content && this.interval == interval && this.hashes == hashes
    {
      this.keyFunc, this.content, this.interval, this.hashes := keyFunc, content, interval, hashes;
      sidx, sparse, bloom, badBloom, sources := None, None, null, false, None;
    }

    // ----- one build or refresh --------------------------------------------------------------

    /** The entries a merge of the added sources, with the sidx file when refreshing, is made from. */
    ghost function Merging(kept: nat, added: seq<Stat>, refresh: bool): set<Entry>
      reads this
    {
      ScanSet(Contents(content, added), kept, keyFunc) + if refresh then SetOf(es) else {}
    }

    /** No readable file to refresh, or a check the scan or the merge reaches finds the context cancelled. */
    ghost predicate WorkFails(kept: nat, added: seq<Stat>, refresh: bool, ctx: Context)
      reads this
    {
      || (refresh && !Readable()) || !AllQuiet(Contents(content, added), kept, ctx)
      || !MergeQuiet(ctx, |Keys(Merging(kept, added, refresh))|)
    }

    lemma WrittenFits(kept: nat, added: seq<Stat>, refresh: bool, out: seq<Entry>)
      requires Usable() && kept + |added| <= MAX_SOURCES && (refresh ==> Readable())
      requires Canonical(out, Merging(kept, added, refresh))
      ensures Ascending(out) && AllFit(out)
    {
      hide ScanSet, Canonical, Ascending, Indexable, SidxFile, ShortLines, ShortKeys, Best, Fits, Contents;
      var all, contents := Merging(kept, added, refresh), Contents(content, added);
      WorkIndexable(content, keyFunc, added, kept);
      CanonicalAscends(out, all);
      forall i | 0 <= i < |out| ensures Fits(out[i]) {
        BestOf(out, all, out[i]);
        if out[i] in ScanSet(contents, kept, keyFunc) { ScannedFits(contents, kept, keyFunc, out[i]); }
      }
    }

    lemma ExistingFits(refresh: bool)
      requires Usable() && (refresh ==> sidx.Some?)
      ensures Existing(if refresh then sidx else None, if refresh && Readable() then es else [])
    {
      hide ShortKeys, ShortLines, SidxFile, OpenSidx, EncodeAll, Ascending;
      NothingAscends();
      if refresh && Readable() { OpenWritten(es); }
    }

    /** Spills the added sources, numbered after those kept, and merges, with the existing sidx too when refreshing. */
    method Merged(kept: nat, added: seq<Stat>, refresh: bool, opts: Settings)
      returns (files: Option<(Bytes, seq<Sample>)>, filter: Bloom.BloomFilter?, ghost out: seq<Entry>)
      requires Usable() && kept + |added| <= MAX_SOURCES
      ensures Usable()
      ensures files.None? <==> WorkFails(kept, added, refresh, opts.ctx)
      ensures files.Some? ==>
                && Canonical(out, Merging(kept, added, refresh)) && Ascending(out) && AllFit(out)
                && files == Some((SidxFile(out), SparseOf(out, interval))) && (filter == null <==> hashes.None?)
                && (filter != null ==> filter.Valid() && filter.added == KeysOf(out))
    {
      hide Indexes, Canonical, ScanSet, EncodeAll, SidxFile, OpenSidx, SparseOf, SetOf, UnionOf, RunsHold, Existing;
      hide Indexable, ShortLines, ShortKeys, KeysOf, Keys, Bloom.BloomFilter.Valid, AllQuiet, MergeQuiet, Contents;
      hide Ascending, AllFit;
      out, filter := [], null;
      var contents := Contents(content, added);
      WorkIndexable(content, keyFunc, added, kept);
      var runs, scanned, lists := SpillSortedRuns(contents, keyFunc, opts.chunkEntries, kept, opts.ctx);
      if runs.None? || (refresh && sidx.None?) {
        return None, null, out;
      }
      ghost var list := if refresh && Readable() then es else [];
      ExistingFits(refresh);
      SetOfNothing();
      assert (refresh ==> Readable()) ==> UnionOf(lists) + SetOf(list) == Merging(kept, added, refresh);
      var sizing := if hashes.None? then None else Some(Sizing(hashes.value, opts.bloomBits, opts.bloomProbes));
      var existing := if refresh then sidx else None;
      var m;
      m, filter, out := MergeRuns(opts.ctx, runs.value, existing, interval, sizing, lists, list);
      match m
      case Cancelled => return None, null, out;
      case BadSidx => return None, null, out;
      case Merged(newSidx, newSparse) =>
        WrittenFits(kept, added, refresh, out);
        files := Some((newSidx, newSparse));
    }

    /** Replaces the files one after the other, as far as the process gets. */
    method Replace(newSidx: Bytes, newSparse: seq<Sample>, filter: Bloom.BloomFilter?, stats: seq<Stat>, renames: nat,
                   ghost out: seq<Entry>)
      requires Usable() && Ascending(out) && AllFit(out)
      requires newSidx == SidxFile(out) && newSparse == SparseOf(out, interval) && (filter == null <==> hashes.None?)
      requires filter != null ==> filter.Valid() && filter.added == KeysOf(out)
      modifies this
      ensures Usable() && (renames == 0 ==> unchanged(this))
      ensures if renames >= 1 then sidx == Some(SidxFile(out)) && es == out && Readable() else unchanged(`sidx) && unchanged(`es)
      ensures sparse == if renames >= 2 then Some(SparseOf(out, interval)) else old(sparse)
      ensures if renames >= 3 && hashes.Some? then bloom != null && bloom.added == KeysOf(out) && !badBloom
              else unchanged(`bloom) && unchanged(`badBloom)
      ensures sources == if renames >= RENAMES then Some(stats) else old(sources)
    {
      hide EncodeAll, SidxFile, OpenSidx, SparseOf, ShortLines, ShortKeys, KeysOf, Bloom.BloomFilter.Valid, Ascending, AllFit;
      OpenWritten(out);
      if renames >= 1 { sidx, es := Some(newSidx), out; }
      if renames >= 2 { sparse := Some(newSparse); }
      if renames >= 3 && filter != null { bloom, badBloom := filter, false; }
      if renames >= RENAMES { sources := Some(stats); }
    }

    /** What build and refresh share: the merge, and then the replacing of the files. */
    method Work(recorded: seq<Stat>, added: seq<Stat>, refresh: bool, opts: Settings)
      returns (r: Outcome, ghost out: seq<Entry>)
      requires Usable() && |recorded| + |added| <= MAX_SOURCES
      modifies this
      ensures Usable()
      ensures r.Failed? <==> old(WorkFails(|recorded|, added, refresh, opts.ctx))
      ensures r.Failed? || opts.renames == 0 ==> unchanged(this)
      ensures !r.Failed? ==> (r.Ok? <==> opts.renames >= RENAMES)
      ensures !r.Failed? ==> Canonical(out, old(Merging(|recorded|, added, refresh)))
      ensures !r.Failed? ==> if opts.renames >= 1 then sidx == Some(SidxFile(out)) && es == out && Readable()
                             else unchanged(`sidx) && unchanged(`es)
      ensures !r.Failed? ==> sparse == if opts.renames >= 2 then Some(SparseOf(out, interval)) else old(sparse)
      ensures !r.Failed? ==> if opts.renames >= 3 && hashes.Some? then bloom != null && bloom.added == KeysOf(out) && !badBloom
                             else unchanged(`bloom) && unchanged(`badBloom)
      ensures !r.Failed? ==> sources == if opts.renames >= RENAMES then Some(recorded + added) else old(sources)
    {
      hide Usable, Canonical, Merging, WorkFails, SidxFile, SparseOf, KeysOf;
      hide Bloom.BloomFilter.Valid, Ascending, AllFit, Readable;
      var files, filter;
      files, filter, out := Merged(|recorded|, added, refresh, opts);
      if files.None? {
        return Failed, out;
      }
      Replace(files.value.0, files.value.1, filter, recorded + added, opts.renames, out);
      return if opts.renames < RENAMES then Stopped else Ok, out;
    }

    // ----- opening -----------------------------------------------------------------------------

    /** r reads the files as they are. */
    ghost predicate Shows(r: SortedIndex)
      reads this
    {
      && sources.Some? && sidx == Some(SidxFile(r.es)) && r.es == es && sparse == Some(r.sparse)
      && r.bloom == bloom && !badBloom && r.srcs == Contents(content, sources.value) && r.interval == interval
    }

    /** r reads the index of these sources. */
    ghost predicate Opens(r: SortedIndex, stats: seq<Stat>)
      reads if r.bloom == null then {} else {r.bloom, r.bloom.bits}
    {
      r.Valid() && r.srcs == Contents(content, stats) && Indexes(r.es, r.srcs, keyFunc) && r.interval == interval
    }

    /** OpenSortedIndex: refuses files that are gone or damaged; what it opens is right exactly when the files are fresh. */
    method Open() returns (r: SortedIndex?)
      requires Usable() && sources.Some?
      ensures r == null <==> !Readable() || sparse.None? || badBloom
      ensures r != null ==> Shows(r) && (Opens(r, sources.value) <==> Fresh(sources.value))
    {
      hide Indexes, EncodeAll, SparseOf, Merge.KeysOf, Contents, Ascending, AllFit;
      hide Bloom.BloomFilter.Valid, ShortLines, ShortKeys, OpenSidx, SidxFile;
      if sidx.None? {
        return null;
      }
      FileLongEnough(es);
      var checked := OpenSidx(sidx.value);
      if checked.None? || sparse.None? || badBloom {
        return null;
      }
      r := new SortedIndex(sidx.value[..|sidx.value| - 4], sparse.value, bloom, Contents(content, sources.value), es, interval);
    }

    // ----- EnsureFresh ---------------------------------------------------------------------------

    ghost predicate Extends(stats: seq<Stat>)
      reads this
    {
      sources.Some? && sources.value < stats
    }

    /** How many of these sources a call does not scan again. */
    ghost function Kept(stats: seq<Stat>): (kept: nat)
      reads this
      ensures kept <= |stats|
    {
      if Extends(stats) then |sources.value| else 0
    }

    ghost function Plan(stats: seq<Stat>): set<Entry>
      reads this
    {
      Merging(Kept(stats), stats[Kept(stats)..], Extends(stats))
    }

    /** A call for sources other than the recorded ones gives up before it replaces any file. */
    ghost predicate GivesUp(stats: seq<Stat>, ctx: Context)
      reads this
    {
      ctx.atStart || stats == [] || |stats| > MAX_SOURCES || WorkFails(Kept(stats), stats[Kept(stats)..], Extends(stats), ctx)
    }

    /** The call replaces files, all of them or the first few. */
    ghost predicate Replaces(current: Option<seq<Stat>>, ctx: Context)
      reads this
    {
      current.Some? && sources != current && !GivesUp(current.value, ctx)
    }

    /** This call's scan and merge come to no check that finds the context cancelled; one check every 100000 lines or entries. */
    ghost predicate NotCancelled(stats: seq<Stat>, kept: nat, keys: nat, ctx: Context)
      reads this
    {
      && !ctx.atStart
      && (forall i, n :: kept <= i < |stats| && CheckedAt(Contents(content, stats), i, n) ==> !ctx.atScan(i, n))
      && (forall m: nat :: m < keys && m % 100000 == 0 ==> !ctx.atMerge(m))
    }

    /**
     * A call replaces the files if and only if it asks for one to 65535 sources that are not the
     * recorded ones, is not cancelled, and has an sidx file it can read if it is to refresh it.
     */
    lemma ReplacesIff(stats: seq<Stat>, ctx: Context)
      ensures var grows := sources.Some? && |sources.value| < |stats| && sources.value == stats[..|sources.value|];
              var kept := if grows then |sources.value| else 0;
              Replaces(Some(stats), ctx) <==>
                && sources != Some(stats) && 1 <= |stats| <= 65535 && (grows ==> Readable())
                && NotCancelled(stats, kept, |Keys(Merging(kept, stats[kept..], grows))|, ctx)
    {
      hide Merging, Readable, AllQuiet, NotCancelled;
      var kept := Kept(stats);
      ScansQuietIff(stats, kept, |Keys(Merging(kept, stats[kept..], Extends(stats)))|, ctx);
      assert Extends(stats) <==> sources.Some? && |sources.value| < |stats| && sources.value == stats[..|sources.value|];
    }

    lemma ScansQuietIff(stats: seq<Stat>, kept: nat, keys: nat, ctx: Context)
      requires kept <= |stats|
      ensures NotCancelled(stats, kept, keys, ctx)
              <==> !ctx.atStart && AllQuiet(Contents(content, stats[kept..]), kept, ctx) && MergeQuiet(ctx, keys)
    {
      hide AllQuiet;
      var added := Contents(content, stats[kept..]);
      AllQuietIff(added, kept, ctx);
      var all := Contents(content, stats);
      forall i, n | kept <= i < |stats| ensures CheckedAt(all, i, n) <==> CheckedAt(added, i - kept, n) {}
      forall i, n | CheckedAt(added, i, n) ensures CheckedAt(all, kept + i, n) {}
    }

    /** The list a refresh starts from differs from the recorded sources' index at most where the added sources decide. */
    ghost predicate Right(stats: seq<Stat>)
      reads this
    {
      Extends(stats) ==>
        var n := |sources.value|;
        Harmless(es, ScanSet(Contents(content, sources.value), 0, keyFunc), ScanSet(Contents(content, stats[n..]), n, keyFunc))
    }

    lemma Refreshed(stats: seq<Stat>, ctx: Context, out: seq<Entry>)
      requires Usable() && !GivesUp(stats, ctx) && Canonical(out, Plan(stats))
      ensures Right(stats) ==> Indexes(out, Contents(content, stats), keyFunc)
      ensures Indexes(out, Contents(content, stats), keyFunc) && Consistent(Plan(stats)) ==> Right(stats)
    {
      hide ScanSet, Canonical, SetOf, Harmless, Ascending, AllFit, SidxFile, ShortKeys, ShortLines, Consistent, Contents;
      hide AllQuiet, MergeQuiet;
      if Extends(stats) {
        var n := |sources.value|;
        assert stats == sources.value + stats[n..];
        ContentsAppend(content, sources.value, stats[n..]);
        RefreshIsRightIff(out, es, Contents(content, sources.value), Contents(content, stats[n..]), keyFunc);
      } else {
        assert stats[0..] == stats;
        var all := ScanSet(Contents(content, stats), 0, keyFunc);
        assert all + {} == all;
      }
    }

    /** The files after the first so many of the renames towards these sources; the sidx holds es. */
    ghost predicate Written(stats: seq<Stat>, renames: nat)
      reads this, BloomFrame()
    {
      && interval > 0
      && (renames >= 1 ==> sidx == Some(SidxFile(es)) && Readable())
      && (renames >= 2 ==> sparse == Some(SparseOf(es, interval)))
      && (renames >= 3 && hashes.Some? ==> bloom != null && bloom.added == KeysOf(es) && !badBloom)
      && (renames >= RENAMES ==> sources == Some(stats))
    }

    /** The work EnsureFresh does for sources that are not the recorded ones, by refresh or by rebuild. */
    method Update(stats: seq<Stat>, opts: Settings) returns (r: Outcome)
      requires Usable() && sources != Some(stats)
      modifies this
      ensures Usable()
      ensures r.Failed? <==> old(GivesUp(stats, opts.ctx))
      ensures r.Failed? || opts.renames == 0 ==> unchanged(this)
      ensures !r.Failed? ==> (r.Ok? <==> opts.renames >= RENAMES) && Written(stats, opts.renames)
      ensures r.Ok? ==> Readable() && sparse.Some? && !badBloom
      ensures !r.Failed? && opts.renames >= 1 ==> Canonical(es, old(Plan(stats)))
      ensures opts.renames < 2 ==> unchanged(`sparse)
      ensures opts.renames < 3 || hashes.None? ==> unchanged(`bloom) && unchanged(`badBloom)
      ensures opts.renames < RENAMES ==> unchanged(`sources)
      ensures !r.Failed? && opts.renames >= 1 && old(Right(stats)) ==> Describes(stats)
      ensures !r.Failed? && opts.renames >= 1 && Describes(stats) && Consistent(old(Plan(stats))) ==> old(Right(stats))
    {
      hide Canonical, Merging, Right, ShortKeys, ShortLines, SparseOf, Merge.KeysOf, SidxFile, Complete;
      hide WorkFails, Harmless, Indexes, Consistent, Ascending, AllFit, Bloom.BloomFilter.Valid, Contents, ScanSet, OpenSidx;
      var added := None;
      if sources.Some? {
        added := IncrementalEligible(sources.value, stats);
      }
      if opts.ctx.atStart || |stats| > MAX_SOURCES || (added.None? && |stats| == 0) {
        return Failed;
      }
      if !GivesUp(stats, opts.ctx) {
        forall any | Canonical(any, Plan(stats))
          ensures Right(stats) ==> Indexes(any, Contents(content, stats), keyFunc)
          ensures Indexes(any, Contents(content, stats), keyFunc) && Consistent(Plan(stats)) ==> Right(stats)
        {
          Refreshed(stats, opts.ctx, any);
        }
      }
      ghost var out;
      if added.Some? {
        assert added.value == stats[|sources.value|..];
        r, out := Work(sources.value, added.value, true, opts);
      } else {
        assert [] + stats == stats == stats[0..];
        r, out := Work([], stats, false, opts);
      }
    }

    /**
     * Whatever the files hold. Nothing is returned exactly when the sources are missing, none or
     * too many, a check that is reached finds the call cancelled, the process stops between the
     * renames, or a file to be reused or refreshed is gone or damaged; a call that gives up changes nothing.
     * What is returned shows the files, and is the index a build over the current sources gives
     * exactly when the files are fresh for them. They are after a rebuild; after a refresh if and
     * only if the list it started from was right (but for ties, if all outcomes are); reused
     * files if they were before.
     */
    method EnsureFresh(current: Option<seq<Stat>>, opts: Settings) returns (r: SortedIndex?)
      requires Usable()
      modifies this
      ensures Usable()
      ensures r == null <==> if current.Some? && old(sources) == current
                             then !old(Readable()) || old(sparse).None? || old(badBloom)
                             else !old(Replaces(current, opts.ctx)) || opts.renames < RENAMES
      ensures !old(Replaces(current, opts.ctx)) || opts.renames == 0 ==> unchanged(this)
      ensures r != null ==> sources == current && Shows(r) && (Opens(r, current.value) <==> Fresh(current.value))
      ensures r != null && old(Replaces(current, opts.ctx)) ==>
                && (old(Right(current.value)) ==> Fresh(current.value))
                && (Fresh(current.value) && Consistent(old(Plan(current.value))) ==> old(Right(current.value)))
      ensures old(Replaces(current, opts.ctx)) ==> Written(current.value, opts.renames)
      ensures old(Replaces(current, opts.ctx)) && opts.renames >= 1 ==> Canonical(es, old(Plan(current.value)))
      ensures old(Replaces(current, opts.ctx)) && opts.renames >= 1 && old(Right(current.value)) ==> Describes(current.value)
      ensures opts.renames < 2 ==> unchanged(`sparse)
      ensures opts.renames < 3 || hashes.None? ==> unchanged(`bloom) && unchanged(`badBloom)
      ensures opts.renames < RENAMES ==> unchanged(`sources)
    {
      hide Opens, Shows, Canonical, Plan, Right, ShortKeys, ShortLines, SparseOf, Merge.KeysOf, SidxFile;
      hide GivesUp, Indexes, Consistent, Ascending, AllFit, Bloom.BloomFilter.Valid, OpenSidx;
      if current.None? {
        return null;
      }
      var same := false;
      if sources.Some? {
        same := SourcesMatch(current.value, sources.value);
      }
      if !same {
        var did := Update(current.value, opts);
        if !did.Ok? {
          return null;
        }
      }
      r := Open();
    }

    /** After a refresh from the recorded sources was cut short: right exactly when the stopped sources left nothing unsettled. */
    lemma RightAfterStop(stopped: seq<Stat>, stats: seq<Stat>)
      requires Extends(stats) && Describes(sources.value + stopped)
      ensures var n := |sources.value|;
              Right(stats)
              <==> forall e :: e in es && e.fileIdx >= n ==> Settled(e, ScanSet(Contents(content, stats[n..]), n, keyFunc))
    {
      hide Indexes, Harmless, Settled, ScanSet, Contents;
      ContentsAppend(content, sources.value, stopped);
      StoppedRefreshIff(es, Contents(content, sources.value), Contents(content, stopped),
                        Contents(content, stats[|sources.value|..]), keyFunc);
    }

    /**
     * After work towards some other sources was cut short, with sidecars of either list: a call for
     * the recorded sources reuses the files, and they are fresh exactly when the same lines win.
     */
    lemma ReusedAfterStop(was: seq<Entry>, held: seq<Stat>)
      requires Usable() && sources.Some? && Describes(held) && Indexes(was, Contents(content, sources.value), keyFunc)
      requires sparse == Some(SparseOf(es, interval)) || sparse == Some(SparseOf(was, interval))
      requires !badBloom && (bloom != null ==> bloom.added == KeysOf(es) || bloom.added == KeysOf(was))
      ensures Fresh(sources.value)
              <==> SameWinners(ScanSet(Contents(content, held), 0, keyFunc), ScanSet(Contents(content, sources.value), 0, keyFunc))
    {
      hide Indexes, ScanSet, Contents, SparseOf, KeysOf, SidxFile, SameWinners, Ascending, AllFit, ShortKeys, ShortLines;
      hide Bloom.BloomFilter.Valid;
      ReuseIsRightIff(es, Contents(content, held), Contents(content, sources.value), keyFunc);
      if Indexes(es, Contents(content, sources.value), keyFunc) {
        IndexIsUnique(es, was, Contents(content, sources.value), keyFunc);
      }
    }

    // ----- runs of calls ---------------------------------------------------------------------------

    /** How a call fares against a record, by the sources alone: it gives up before it replaces anything. */
    ghost predicate Declines(recorded: Option<seq<Stat>>, stats: seq<Stat>, ctx: Context) {
      var kept := if recorded.Some? && recorded.value < stats then |recorded.value| else 0;
      || ctx.atStart || stats == [] || |stats| > MAX_SOURCES
      || !AllQuiet(Contents(content, stats[kept..]), kept, ctx)
      || !MergeQuiet(ctx, |Keys(ScanSet(Contents(content, stats), 0, keyFunc))|)
    }

    lemma DeclinesIff(recorded: Option<seq<Stat>>, stats: seq<Stat>, ctx: Context)
      ensures var grows := recorded.Some? && |recorded.value| < |stats| && recorded.value == stats[..|recorded.value|];
              var kept := if grows then |recorded.value| else 0;
              Declines(recorded, stats, ctx) <==>
                !(1 <= |stats| <= 65535)
                || !NotCancelled(stats, kept, |Keys(ScanSet(Contents(content, stats), 0, keyFunc))|, ctx)
    {
      hide ScanSet, Keys, AllQuiet, NotCancelled;
      var kept := if recorded.Some? && recorded.value < stats then |recorded.value| else 0;
      ScansQuietIff(stats, kept, |Keys(ScanSet(Contents(content, stats), 0, keyFunc))|, ctx);
    }

    /** No call is refused that asks for one to 65535 sources and is neither cancelled nor stopped, whatever came before. */
    lemma NeverWithheld(rec: Record, call: Call)
      requires call.0.Some? && 1 <= |call.0.value| <= 65535 && call.1.renames >= 4
      requires !call.1.ctx.atStart && (forall i, n :: !call.1.ctx.atScan(i, n)) && forall m :: !call.1.ctx.atMerge(m)
      ensures !Withheld(rec, call)
    {
      hide ScanSet, Keys, Contents, Declines;
      DeclinesIff(rec.sources, call.0.value, call.1.ctx);
    }

    /** The call returns nothing. */
    ghost predicate Withheld(rec: Record, call: Call) {
      || call.0.None?
      || (rec.sources != call.0 && (Declines(rec.sources, call.0.value, call.1.ctx) || call.1.renames < RENAMES))
    }

    ghost function Next(rec: Record, call: Call): Record {
      if !Withheld(rec, call) then Record(call.0, None)
      else if call.0.Some? && rec.sources != call.0 && !Declines(rec.sources, call.0.value, call.1.ctx) && call.1.renames >= 1
      then Record(rec.sources, call.0)
      else rec
    }

    ghost function RecordAfter(rec: Record, calls: seq<Call>): Record {
      if calls == [] then rec else Next(RecordAfter(rec, calls[..|calls| - 1]), calls[|calls| - 1])
    }

    /** A call that was cut short is made again, as often as it takes, before any other. */
    ghost predicate Persists(rec: Record, calls: seq<Call>) {
      forall i :: 0 <= i < |calls| ==>
        var before := RecordAfter(rec, calls[..i]);
        before.pending.Some? ==> calls[i].0 == before.pending
    }

    /** The files are as a run with this record leaves them. */
    ghost predicate InStep(rec: Record)
      reads this, BloomFrame()
    {
      && Usable() && sources == rec.sources
      && (rec.pending.None? ==> Valid())
      && (rec.pending.Some? ==> rec.pending != rec.sources && Describes(rec.pending.value))
    }

    lemma PlanKeys(stats: seq<Stat>)
      requires Extends(stats) ==> Describes(sources.value) || Describes(stats)
      ensures Keys(Plan(stats)) == Keys(ScanSet(Contents(content, stats), 0, keyFunc))
      ensures Right(stats)
    {
      hide ScanSet, Canonical, SetOf, Harmless, Contents, Keys;
      if Extends(stats) {
        var n := |sources.value|;
        var recorded, added := Contents(content, sources.value), Contents(content, stats[n..]);
        assert stats == sources.value + stats[n..];
        ContentsAppend(content, sources.value, stats[n..]);
        ScanSetAppend(recorded, added, 0, keyFunc);
        if Describes(sources.value) {
          OwnListIsHarmless(es, recorded, added, keyFunc);
          KeysThroughSet(es, ScanSet(recorded, 0, keyFunc), ScanSet(added, n, keyFunc));
        } else {
          assert added + [] == added;
          LongerListIsHarmless(es, recorded, added, [], keyFunc);
          KeysThroughSet(es, ScanSet(recorded + added, 0, keyFunc), ScanSet(added, n, keyFunc));
          assert ScanSet(recorded + added, 0, keyFunc) + ScanSet(added, n, keyFunc) == ScanSet(recorded + added, 0, keyFunc);
        }
      } else {
        assert stats[0..] == stats;
        var all := ScanSet(Contents(content, stats), 0, keyFunc);
        assert all + {} == all;
      }
    }

    lemma CallFares(rec: Record, call: Call)
      requires InStep(rec) && (rec.pending.Some? ==> call.0 == rec.pending) && call.0.Some? && rec.sources != call.0
      ensures GivesUp(call.0.value, call.1.ctx) <==> Declines(rec.sources, call.0.value, call.1.ctx)
      ensures Right(call.0.value)
    {
      hide ScanSet, Contents, Keys, AllQuiet, MergeQuiet, Harmless, Indexes, Complete;
      PlanKeys(call.0.value);
    }

    /** One call of a run. */
    method EnsureNext(ghost rec: Record, call: Call) returns (r: SortedIndex?)
      requires InStep(rec) && (rec.pending.Some? ==> call.0 == rec.pending)
      modifies this
      ensures InStep(Next(rec, call))
      ensures r == null <==> Withheld(rec, call)
      ensures r != null ==> call.0.Some? && Opens(r, call.0.value)
    {
      hide ScanSet, Contents, Keys, AllQuiet, MergeQuiet, Harmless, Indexes, Declines, GivesUp, Right, Plan, Opens, Shows;
      hide ShortKeys, ShortLines, Ascending, AllFit, SidxFile, SparseOf, KeysOf, Bloom.BloomFilter.Valid, Written;
      if call.0.Some? && sources != call.0 {
        CallFares(rec, call);
      }
      r := EnsureFresh(call.0, call.1);
    }

    /**
     * Any sequence of calls with changing lists, cancellations and stops, a stopped call made again
     * until it goes through: exactly which calls return nothing, and every index returned is the one
     * a build from scratch over that call's sources gives.
     */
    method EnsureAll(calls: seq<Call>) returns (views: seq<SortedIndex?>)
      requires Valid() && Persists(Record(sources, None), calls)
      modifies this
      ensures InStep(RecordAfter(Record(old(sources), None), calls)) && |views| == |calls|
      ensures forall i :: 0 <= i < |calls| ==>
                (views[i] == null <==> Withheld(RecordAfter(Record(old(sources), None), calls[..i]), calls[i]))
      ensures forall i :: 0 <= i < |calls| && views[i] != null ==>
                calls[i].0.Some? && Opens(views[i], calls[i].0.value)
    {
      hide Indexes, Declines, InStep, Next, Withheld, RecordAfter, Opens, Valid;
      views := [];
      ghost var start := Record(sources, None);
      StartsInStep(calls);
      for i := 0 to |calls|
        invariant InStep(RecordAfter(start, calls[..i])) && |views| == i
        invariant forall j :: 0 <= j < i ==> (views[j] == null <==> Withheld(RecordAfter(start, calls[..j]), calls[j]))
        invariant forall j :: 0 <= j < i && views[j] != null ==> calls[j].0.Some? && Opens(views[j], calls[j].0.value)
      {
        RecordStep(start, calls, i);
        var r := EnsureNext(RecordAfter(start, calls[..i]), calls[i]);
        views := views + [r];
      }
      assert calls[..|calls|] == calls;
    }

    lemma RecordStep(rec: Record, calls: seq<Call>, i: nat)
      requires i < |calls|
      ensures RecordAfter(rec, calls[..i + 1]) == Next(RecordAfter(rec, calls[..i]), calls[i])
    {
      assert calls[..i + 1][..i] == calls[..i];
    }

    lemma StartsInStep(calls: seq<Call>)
      requires Valid()
      ensures InStep(RecordAfter(Record(sources, None), calls[..0]))
    {}
  }

  /** Two caches fresh for the same sources, one of them built from scratch, hold the same bytes. */
  lemma FreshFilesAgree(a: Cache, b: Cache, stats: seq<Stat>)
    requires a.keyFunc == b.keyFunc && a.content == b.content && a.interval == b.interval
    requires a.Fresh(stats) && b.Fresh(stats)
    ensures a.sidx == b.sidx && a.sparse == b.sparse
  {
    hide Indexes, Bloom.BloomFilter.Valid, SparseOf, SidxFile;
    IndexIsUnique(a.es, b.es, Contents(a.content, stats), a.keyFunc);
  }

  /** The recorded sources' own index differs nowhere. */
  lemma OwnListIsHarmless(es: seq<Entry>, recorded: seq<Bytes>, added: seq<Bytes>, keyFunc: KeyFunc)
    requires Indexes(es, recorded, keyFunc)
    ensures Harmless(es, ScanSet(recorded, 0, keyFunc), ScanSet(added, |recorded|, keyFunc))
  {
    hide ScanSet, Canonical, Best, Settled;
    var a, b := ScanSet(recorded, 0, keyFunc), ScanSet(added, |recorded|, keyFunc);
    forall e ensures (e in es <==> Best(e, a)) || Settled(e, b) { ListIsWinners(es, recorded, keyFunc, e); }
  }

  lemma KeysThroughSet(es: seq<Entry>, a: set<Entry>, b: set<Entry>)
    requires Canonical(es, a)
    ensures Keys(b + SetOf(es)) == Keys(a + b)
  {
    hide Canonical, Best;
    forall k ensures k in Keys(b + SetOf(es)) <==> k in Keys(a + b) {
      if k in Keys(b + SetOf(es)) {
        var e :| e in b + SetOf(es) && e.key == k;
        if e in es { BestOf(es, a, e); }
      }
      if k in Keys(a + b) {
        var f :| f in a + b && f.key == k;
        if f in a { var j := CanonicalEntry(es, a, f); }
      }
    }
  }

  lemma NothingAscends()
    ensures Ascending([]) && AllFit([])
  {}

  lemma FileLongEnough(es: seq<Entry>)
    ensures |SidxFile(es)| >= 4
  {}

  lemma ContentsAppend(content: Stat -> Bytes, a: seq<Stat>, b: seq<Stat>)
    ensures Contents(content, a + b) == Contents(content, a) + Contents(content, b)
  {}

  lemma WorkIndexable(content: Stat -> Bytes, keyFunc: KeyFunc, added: seq<Stat>, baseIdx: nat)
    requires ShortKeys(keyFunc) && (forall st :: ShortLines(content(st))) && baseIdx + |added| <= MAX_SOURCES
    ensures Indexable(Contents(content, added), baseIdx, keyFunc)
  {
    hide ShortLines, ShortKeys;
  }
}
