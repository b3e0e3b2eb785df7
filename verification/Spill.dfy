/** The scan half of a build: bounded chunks, each sorted and written to its own run file. */
module Spill {
  import opened Bytes
  import opened Lex
  import opened Lines
  import opened Entries
  import opened Build

  // ----- sorting a chunk ------------------------------------------------------------------

  function InsertByKey(es: seq<Entry>, e: Entry): seq<Entry> {
    if es == [] then [e]
    else if Less(es[|es| - 1].key, e.key) then es + [e]
    else InsertByKey(es[..|es| - 1], e) + [es[|es| - 1]]
  }

  lemma {:induction false} InsertAdds(es: seq<Entry>, e: Entry)
    ensures multiset(InsertByKey(es, e)) == multiset(es) + multiset{e}
  {
    hide Less;
    if es != [] {
      InsertAdds(es[..|es| - 1], e);
      assert es == es[..|es| - 1] + [es[|es| - 1]];
    }
  }

  lemma SortedAppend(es: seq<Entry>, e: Entry)
    requires Sorted(es) && forall i :: 0 <= i < |es| ==> LessEq(es[i].key, e.key)
    ensures Sorted(es + [e])
  {
    hide LessEq;
  }

  lemma SortedPrefix(es: seq<Entry>)
    requires Sorted(es) && es != []
    ensures Sorted(es[..|es| - 1]) && forall i :: 0 <= i < |es| - 1 ==> LessEq(es[i].key, es[|es| - 1].key)
  {
    hide LessEq;
  }

  lemma {:induction false} InsertSorts(es: seq<Entry>, e: Entry)
    requires Sorted(es)
    ensures Sorted(InsertByKey(es, e))
  {
    hide Sorted, Less;
    if es == [] {
      SortedOne(e);
    } else {
      var n := |es| - 1;
      var last := es[n];
      SortedPrefix(es);
      Total(last.key, e.key);
      if Less(last.key, e.key) {
        forall i | 0 <= i < |es| ensures LessEq(es[i].key, e.key) {
          Chain(es[i].key, last.key, e.key);
        }
        SortedAppend(es, e);
      } else {
        InsertSorts(es[..n], e);
        var r := InsertByKey(es[..n], e);
        forall i | 0 <= i < |r| ensures LessEq(r[i].key, last.key) {
          InsertedMember(es[..n], e, i);
        }
        SortedAppend(r, last);
      }
    }
  }

  lemma SortedOne(e: Entry)
    ensures Sorted([e])
  {}

  lemma InsertedMember(es: seq<Entry>, e: Entry, i: nat)
    requires i < |InsertByKey(es, e)|
    ensures InsertByKey(es, e)[i] == e || InsertByKey(es, e)[i] in es
  {}

  /**
   * sort.Slice by key. It is not stable and promises no order among equal keys; nothing
   * below uses more than this contract.
   */
  method SortChunk(chunk: seq<Entry>) returns (run: seq<Entry>)
    ensures Sorted(run) && multiset(run) == multiset(chunk)
  {
    run := [];
    for i := 0 to |chunk|
      invariant Sorted(run) && multiset(run) == multiset(chunk[..i])
    {
      InsertSorts(run, chunk[i]);
      InsertAdds(run, chunk[i]);
      run := InsertByKey(run, chunk[i]);
      assert chunk[..i + 1] == chunk[..i] + [chunk[i]];
    }
    assert chunk[..|chunk|] == chunk;
  }

  // ----- run files -------------------------------------------------------------------------

  function UnionOf(lists: seq<seq<Entry>>): set<Entry> {
    if lists == [] then {} else UnionOf(lists[..|lists| - 1]) + SetOf(lists[|lists| - 1])
  }

  /** The run files hold these lists, each sorted. */
  ghost predicate RunsHold(runs: seq<Bytes>, lists: seq<seq<Entry>>) {
    |runs| == |lists| && forall i :: 0 <= i < |runs| ==>
      runs[i] == EncodeAll(lists[i], false) && Sorted(lists[i]) && AllFit(lists[i])
  }

  lemma SameMembers(a: seq<Entry>, b: seq<Entry>)
    requires multiset(a) == multiset(b)
    ensures SetOf(a) == SetOf(b) && (AllFit(a) ==> AllFit(b)) && (a == [] <==> b == [])
  {
    forall e ensures e in a <==> e in b {
      assert e in a <==> e in multiset(a);
      assert e in b <==> e in multiset(b);
    }
    if AllFit(a) {
      forall i | 0 <= i < |b| ensures Fits(b[i]) {
        assert b[i] in a;
      }
    }
    assert |a| == |multiset(a)| == |multiset(b)| == |b|;
  }

  lemma NothingFits()
    ensures AllFit([])
  {}

  /** How many entries the runs hold together. */
  function Lengths(lists: seq<seq<Entry>>): nat {
    if lists == [] then 0 else Lengths(lists[..|lists| - 1]) + |lists[|lists| - 1]|
  }

  /** Every run has bound entries, but for the last, which may have fewer. */
  ghost predicate Chunked(lists: seq<seq<Entry>>, bound: nat) {
    forall i :: 0 <= i < |lists| ==> 0 < |lists[i]| <= bound && (i < |lists| - 1 ==> |lists[i]| == bound)
  }

  method WriteRun(entries: seq<Entry>) returns (file: Bytes)
    ensures file == EncodeAll(entries, false)
  {
    file := [];
    for i := 0 to |entries|
      invariant file == EncodeAll(entries[..i], false)
    {
      file := file + RunEntryBytes(entries[i]);
      assert entries[..i + 1][..i] == entries[..i];
    }
    assert entries[..|entries|] == entries;
  }

  /** How many lines a scan from off reads, the empty one at the end of a terminated file included. */
  function ScanRounds(content: Bytes, off: nat): nat
    requires off <= |content|
    decreases |content| - off
  {
    var end := ChunkEnd(content, off);
    if off == end || content[end - 1] != NEWLINE then 1 else 1 + ScanRounds(content, end)
  }

  /** The context is not cancelled at any check up to this many lines. */
  ghost predicate ScanQuiet(ctx: Context, fileIdx: nat, lines: nat) {
    forall n: nat :: 0 < n <= lines && n % CTX_CHECK_INTERVAL == 0 ==> !ctx.atScan(fileIdx, n)
  }

  /** How many lines a scan of the sources accepts. */
  function Accepted(sources: seq<Bytes>, baseIdx: nat, keyFunc: KeyFunc): nat {
    if sources == [] then 0 else
    Accepted(sources[..|sources| - 1], baseIdx, keyFunc)
      + |EntriesFrom(sources[|sources| - 1], baseIdx + |sources| - 1, keyFunc, 0)|
  }

  lemma LengthsMore(lists: seq<seq<Entry>>, run: seq<Entry>)
    ensures Lengths(lists + [run]) == Lengths(lists) + |run|
  {
    assert (lists + [run])[..|lists|] == lists;
  }

  /** The state of spillSortedRuns: the chunk being filled and the runs written so far. */
  class Spiller {
    const chunkEntries: nat
    var chunk: seq<Entry>
    var runs: seq<Bytes>
    var scanned: nat
    ghost var lists: seq<seq<Entry>>
    ghost var seen: set<Entry>

    ghost predicate Valid()
      reads this
    {
      && RunsHold(runs, lists) && AllFit(chunk)
      && seen == UnionOf(lists) + SetOf(chunk) && scanned == Lengths(lists) + |chunk|
    }

    /** The most entries ever held in memory. */
    function Bound(): nat { if chunkEntries < 1 then 1 else chunkEntries }

    /** Between two lines: the chunk is not full, and every run was written when it was. */
    ghost predicate Filling()
      reads this
    {
      |chunk| < Bound() && forall i :: 0 <= i < |lists| ==> |lists[i]| == Bound()
    }

    constructor (chunkEntries: nat)
      ensures Valid() && Filling() && seen == {} && scanned == 0 && chunk == [] && this.chunkEntries == chunkEntries
    {
      this.chunkEntries := chunkEntries;
      chunk, runs, scanned, lists, seen := [], [], 0, [], {};
    }

    /** Writes the chunk, if there is anything in it, as one more run. */
    method Flush()
      requires Valid()
      modifies this
      ensures Valid() && seen == old(seen) && chunk == [] && scanned == old(scanned)
      ensures old(chunk) == [] ==> runs == old(runs) && lists == old(lists)
      ensures old(chunk) != [] ==>
                && |runs| == |lists| == |old(lists)| + 1 && old(runs) <= runs && old(lists) <= lists
                && multiset(lists[|lists| - 1]) == multiset(old(chunk)) && |lists[|lists| - 1]| == |old(chunk)|
    {
      hide AllFit, Sorted, SetOf, EncodeAll, Lengths;
      SetOfNothing();
      if |chunk| == 0 {
        return;
      }
      var run := SortChunk(chunk);
      SameMembers(chunk, run);
      var file := WriteRun(run);
      assert (lists + [run])[..|lists|] == lists;
      LengthsMore(lists, run);
      assert |run| == |multiset(run)| == |multiset(chunk)| == |chunk|;
      NothingFits();
      runs := runs + [file];
      lists := lists + [run];
      chunk := [];
    }

    method Add(e: Entry)
      requires Valid() && Filling() && Fits(e)
      modifies this
      ensures Valid() && Filling() && seen == old(seen) + {e} && scanned == old(scanned) + 1
    {
      hide RunsHold, UnionOf, Lengths, Fits;
      assert SetOf(chunk + [e]) == SetOf(chunk) + {e};
      chunk := chunk + [e];
      seen := seen + {e};
      scanned := scanned + 1;
      if |chunk| >= chunkEntries {
        Flush();
      }
    }

    /** scanOneSource: false when cancelled part way. */
    method ScanOneSource(content: Bytes, fileIdx: nat, keyFunc: KeyFunc, ctx: Context) returns (ok: bool)
      requires Valid() && Filling() && forall e :: e in EntriesFrom(content, fileIdx, keyFunc, 0) ==> Fits(e)
      modifies this
      ensures Valid() && Filling()
      ensures ok <==> ScanQuiet(ctx, fileIdx, ScanRounds(content, 0))
      ensures ok ==> seen == old(seen) + SetOf(EntriesFrom(content, fileIdx, keyFunc, 0))
      ensures ok ==> scanned == old(scanned) + |EntriesFrom(content, fileIdx, keyFunc, 0)|
    {
      hide EntriesFrom, Payload, ChunkEnd, KeyOf, RunsHold, AllFit, Fits, SetOf, ScanRounds, Lengths, Filling, UnionOf;
      var off, lines: nat := 0, 0;
      ghost var rest := EntriesFrom(content, fileIdx, keyFunc, 0);
      ghost var all := rest;
      while true
        invariant Valid() && Filling() && off <= |content| && rest == EntriesFrom(content, fileIdx, keyFunc, off)
        invariant seen + SetOf(rest) == old(seen) + SetOf(all) && scanned + |rest| == old(scanned) + |all|
        invariant forall e :: e in rest ==> Fits(e)
        invariant lines + ScanRounds(content, off) == ScanRounds(content, 0) && ScanQuiet(ctx, fileIdx, lines)
        decreases |content| - off, off == |content|
      {
        var chunk := content[off..ChunkEnd(content, off)];
        var payload := Payload(chunk);
        var eof := chunk == [] || chunk[|chunk| - 1] != NEWLINE;
        ScanStep(content, fileIdx, keyFunc, off);
        RoundsStep(content, off);
        var key := KeyOf(keyFunc, payload);
        if key.Some? {
          var e := Entry(key.value, fileIdx, off, |payload|);
          SetOfFront(e, rest);
          assert e in rest;
          Add(e);
          rest := rest[1..];
        }
        off := off + |chunk|;
        lines := lines + 1;
        if lines % CTX_CHECK_INTERVAL == 0 && ctx.atScan(fileIdx, lines) {
          return false;
        }
        if eof {
          SetOfNothing();
          return true;
        }
      }
    }
  }

  lemma SetOfFront(e: Entry, rest: seq<Entry>)
    requires rest != [] && rest[0] == e
    ensures SetOf(rest) == {e} + SetOf(rest[1..])
  {}

  lemma SetOfNothing()
    ensures SetOf([]) == {}
  {}

  lemma RoundsStep(content: Bytes, off: nat)
    requires off <= |content|
    ensures var end := ChunkEnd(content, off); var chunk := content[off..end];
            ScanRounds(content, off)
            == if chunk == [] || chunk[|chunk| - 1] != NEWLINE then 1 else 1 + ScanRounds(content, end)
    ensures ScanRounds(content, off) >= 1
  {}

  /** One round of the scan: the next chunk's entry, if any, then the rest; the last chunk is the one without a newline. */
  lemma ScanStep(content: Bytes, fileIdx: nat, keyFunc: KeyFunc, off: nat)
    requires off <= |content|
    ensures var end := ChunkEnd(content, off);
            var chunk := content[off..end];
            var payload := Payload(chunk);
            var rest := EntriesFrom(content, fileIdx, keyFunc, off);
            && (off < end || off == |content|)
            && (match KeyOf(keyFunc, payload)
                case None => rest == EntriesFrom(content, fileIdx, keyFunc, end)
                case Some(key) => rest != [] && rest[0] == Entry(key, fileIdx, off, |payload|)
                                  && rest[1..] == EntriesFrom(content, fileIdx, keyFunc, end))
            && (chunk == [] || chunk[|chunk| - 1] != NEWLINE ==>
                  EntriesFrom(content, fileIdx, keyFunc, end) == [] && end == |content|)
  {
    hide ChunkEnd;
    LastChunk(content, off);
    if off < |content| {
      hide Payload, KeyOf;
      var rest := EntriesFrom(content, fileIdx, keyFunc, ChunkEnd(content, off));
      var payload := LineAt(content, off).payload;
      if KeyOf(keyFunc, payload).Some? {
        var e := Entry(KeyOf(keyFunc, payload).value, fileIdx, off, |payload|);
        assert ([e] + rest)[1..] == rest;
      }
    }
  }

  lemma AllScannedFit(sources: seq<Bytes>, baseIdx: nat, keyFunc: KeyFunc, i: nat)
    requires Indexable(sources, baseIdx, keyFunc) && i < |sources|
    ensures forall e :: e in EntriesFrom(sources[i], baseIdx + i, keyFunc, 0) ==> Fits(e)
  {
    hide EntriesFrom, Fits, Indexable;
    forall e | e in EntriesFrom(sources[i], baseIdx + i, keyFunc, 0) ensures Fits(e) {
      ScannedInto(sources, baseIdx, keyFunc, i, e);
      ScannedFits(sources, baseIdx, keyFunc, e);
    }
  }

  ghost predicate AllQuiet(sources: seq<Bytes>, baseIdx: nat, ctx: Context) {
    forall i :: 0 <= i < |sources| ==> ScanQuiet(ctx, baseIdx + i, ScanRounds(sources[i], 0))
  }

  // ----- the cancellation checks, counted --------------------------------------------------

  function Newlines(b: Bytes): nat { multiset(b)[10] }

  lemma NewlinesAdd(a: Bytes, b: Bytes)
    ensures Newlines(a + b) == Newlines(a) + Newlines(b)
  {}

  lemma NoNewlines(a: Bytes)
    requires 10 !in a
    ensures Newlines(a) == 0
  {}

  lemma OneNewline()
    ensures Newlines([10]) == 1
  {}

  /** A line's chunk has the one newline byte it ends in, the last line's may have none. */
  lemma ChunkNewlines(content: Bytes, off: nat)
    requires off <= |content|
    ensures var end := ChunkEnd(content, off);
            Newlines(content[off..]) == Newlines(content[end..]) + if off < end && content[end - 1] == NEWLINE then 1 else 0
    ensures var end := ChunkEnd(content, off); off == end || content[end - 1] != NEWLINE ==> Newlines(content[off..]) == 0
  {
    hide Newlines, ChunkEnd;
    ChunkEndIs(content, off);
    var end := ChunkEnd(content, off);
    assert content[off..] == content[off..end] + content[end..];
    NewlinesAdd(content[off..end], content[end..]);
    OneNewline();
    if off < end && content[end - 1] == NEWLINE {
      assert content[off..end] == content[off..end - 1] + [10];
      NewlinesAdd(content[off..end - 1], [10]);
      NoNewlines(content[off..end - 1]);
    } else {
      NoNewlines(content[off..end]);
      assert content[end..] == [];
      NoNewlines(content[end..]);
    }
  }

  /** A scan reads one line for every newline byte, and once more to find the end. */
  lemma {:induction false} RoundsCountNewlines(content: Bytes, off: nat)
    requires off <= |content|
    ensures ScanRounds(content, off) == Newlines(content[off..]) + 1
    decreases |content| - off
  {
    hide Newlines, ChunkEnd;
    ChunkNewlines(content, off);
    var end := ChunkEnd(content, off);
    if off < end && content[end - 1] == NEWLINE { RoundsCountNewlines(content, end); }
  }

  /** The scan of source i is checked after n lines: every 100000, and not past its last read. */
  predicate CheckedAt(sources: seq<Bytes>, i: int, n: nat) {
    0 <= i < |sources| && 0 < n <= multiset(sources[i])[10] + 1 && n % 100000 == 0
  }

  /** A scan is not cancelled if and only if no check finds it so. */
  lemma AllQuietIff(sources: seq<Bytes>, baseIdx: nat, ctx: Context)
    ensures AllQuiet(sources, baseIdx, ctx) <==> forall i, n :: CheckedAt(sources, i, n) ==> !ctx.atScan(baseIdx + i, n)
  {
    forall i | 0 <= i < |sources| ensures ScanRounds(sources[i], 0) == multiset(sources[i])[10] + 1 {
      RoundsCountNewlines(sources[i], 0);
      assert sources[i][0..] == sources[i];
    }
    hide ScanRounds;
    if AllQuiet(sources, baseIdx, ctx) {
      forall i, n | CheckedAt(sources, i, n) ensures !ctx.atScan(baseIdx + i, n) {
        assert ScanQuiet(ctx, baseIdx + i, ScanRounds(sources[i], 0));
      }
    } else {
      var i :| 0 <= i < |sources| && !ScanQuiet(ctx, baseIdx + i, ScanRounds(sources[i], 0));
      var n: nat :| 0 < n <= ScanRounds(sources[i], 0) && n % CTX_CHECK_INTERVAL == 0 && ctx.atScan(baseIdx + i, n);
      assert CheckedAt(sources, i, n);
    }
  }

  /** spillSortedRuns, for sources numbered from baseIdx. None exactly when cancelled at some check. */
  method SpillSortedRuns(sources: seq<Bytes>, keyFunc: KeyFunc, chunkEntries: nat, baseIdx: nat, ctx: Context)
    returns (runs: Option<seq<Bytes>>, scanned: nat, ghost lists: seq<seq<Entry>>)
    requires Indexable(sources, baseIdx, keyFunc)
    ensures runs.Some? <==> AllQuiet(sources, baseIdx, ctx)
    ensures runs.Some? ==> RunsHold(runs.value, lists) && UnionOf(lists) == ScanSet(sources, baseIdx, keyFunc)
    ensures runs.Some? ==> scanned == Lengths(lists) == Accepted(sources, baseIdx, keyFunc)
    ensures runs.Some? ==> Chunked(lists, if chunkEntries < 1 then 1 else chunkEntries)
  {
    hide EntriesFrom, Fits, Indexable, SetOf, ScanQuiet, ScanRounds, Lengths, RunsHold, UnionOf, AllFit;
    var spiller := new Spiller(chunkEntries);
    for i := 0 to |sources|
      invariant fresh(spiller) && spiller.Valid() && spiller.Filling() && spiller.chunkEntries == chunkEntries
      invariant spiller.seen == ScanSet(sources[..i], baseIdx, keyFunc)
      invariant spiller.scanned == Accepted(sources[..i], baseIdx, keyFunc)
      invariant forall j :: 0 <= j < i ==> ScanQuiet(ctx, baseIdx + j, ScanRounds(sources[j], 0))
    {
      AllScannedFit(sources, baseIdx, keyFunc, i);
      assert sources[..i + 1][..i] == sources[..i];
      var ok := spiller.ScanOneSource(sources[i], baseIdx + i, keyFunc, ctx);
      if !ok {
        return None, spiller.scanned, [];
      }
    }
    assert sources[..|sources|] == sources;
    spiller.Flush();
    SetOfNothing();
    return Some(spiller.runs), spiller.scanned, spiller.lists;
  }
}
