/** Building a sorted index: scan sources into sorted runs, then merge the runs with a heap. */
module Build {
  import opened Bytes
  import opened Lines
  import opened Entries

  const CTX_CHECK_INTERVAL: nat := 100000

  /** Whether the context is cancelled at a given check: before work, after n lines of a file, after n merged entries. */
  datatype Context = Context(atStart: bool, atScan: (nat, nat) -> bool, atMerge: nat -> bool)

  // ----- what a scan accepts ----------------------------------------------------------

  /** The entries of one source from offset off on. */
  function EntriesFrom(content: Bytes, fileIdx: nat, keyFunc: KeyFunc, off: nat): seq<Entry>
    requires off <= |content|
    decreases |content| - off
  {
    if off == |content| then [] else
    var line := LineAt(content, off);
    var rest := EntriesFrom(content, fileIdx, keyFunc, ChunkEnd(content, off));
    match KeyOf(keyFunc, line.payload)
    case None => rest
    case Some(key) => [Entry(key, fileIdx, off, |line.payload|)] + rest
  }

  function SetOf(es: seq<Entry>): set<Entry> { set e | e in es }

  /** The entries of all sources, the first numbered baseIdx. */
  function ScanSet(sources: seq<Bytes>, baseIdx: nat, keyFunc: KeyFunc): set<Entry> {
    if sources == [] then {} else
    ScanSet(sources[..|sources| - 1], baseIdx, keyFunc)
      + SetOf(EntriesFrom(sources[|sources| - 1], baseIdx + |sources| - 1, keyFunc, 0))
  }

  /** Lines shorter than 2^31, in a file whose offsets fit an int64. */
  ghost predicate ShortLines(content: Bytes) {
    |content| < 0x8000_0000_0000_0000
    && forall off :: 0 <= off <= |content| ==> |LineAt(content, off).payload| < 0x8000_0000
  }

  ghost predicate ShortKeys(keyFunc: KeyFunc) {
    forall p :: keyFunc(p).Some? ==> |keyFunc(p).value| < 0x1_0000
  }

  /** Keys are at most 65535 bytes, file numbers fit 16 bits, and lines are shorter than 2^31. */
  ghost predicate Indexable(sources: seq<Bytes>, baseIdx: nat, keyFunc: KeyFunc) {
    baseIdx + |sources| <= 0x1_0000 && ShortKeys(keyFunc) && forall i :: 0 <= i < |sources| ==> ShortLines(sources[i])
  }

  lemma {:induction false} EntryInPlace(content: Bytes, fileIdx: nat, keyFunc: KeyFunc, off: nat, e: Entry)
    requires off <= |content| && e in EntriesFrom(content, fileIdx, keyFunc, off)
    ensures e.fileIdx == fileIdx && off <= e.srcOff < |content|
    ensures var l := LineAt(content, e.srcOff);
            l.payload != [] && KeyOf(keyFunc, l.payload) == Some(e.key) && e.length == |l.payload|
    ensures e.srcOff + e.length <= |content| && content[e.srcOff..e.srcOff + e.length] == LineAt(content, e.srcOff).payload
    decreases |content| - off
  {
    var line, end := LineAt(content, off), ChunkEnd(content, off);
    var chunk := content[off..end];
    assert content[off..off + |line.payload|] == line.payload;
    if e in EntriesFrom(content, fileIdx, keyFunc, end) {
      EntryInPlace(content, fileIdx, keyFunc, end, e);
    }
  }

  lemma {:induction false} ScannedFrom(sources: seq<Bytes>, baseIdx: nat, keyFunc: KeyFunc, e: Entry)
    requires e in ScanSet(sources, baseIdx, keyFunc)
    ensures baseIdx <= e.fileIdx < baseIdx + |sources|
    ensures e in EntriesFrom(sources[e.fileIdx - baseIdx], e.fileIdx, keyFunc, 0)
  {
    var n := |sources| - 1;
    if e in EntriesFrom(sources[n], baseIdx + n, keyFunc, 0) {
      EntryInPlace(sources[n], baseIdx + n, keyFunc, 0, e);
    } else {
      ScannedFrom(sources[..n], baseIdx, keyFunc, e);
    }
  }

  lemma {:induction false} ScannedInto(sources: seq<Bytes>, baseIdx: nat, keyFunc: KeyFunc, i: nat, e: Entry)
    requires i < |sources| && e in EntriesFrom(sources[i], baseIdx + i, keyFunc, 0)
    ensures e in ScanSet(sources, baseIdx, keyFunc)
  {
    var n := |sources| - 1;
    if i < n { ScannedInto(sources[..n], baseIdx, keyFunc, i, e); }
  }

  lemma SamePlaceSameEntry(sources: seq<Bytes>, baseIdx: nat, keyFunc: KeyFunc, e: Entry, f: Entry)
    requires e in ScanSet(sources, baseIdx, keyFunc) && f in ScanSet(sources, baseIdx, keyFunc)
    requires e.fileIdx == f.fileIdx && e.srcOff == f.srcOff
    ensures e == f
  {
    hide ScanSet, EntriesFrom, LineAt, KeyOf;
    ScannedFrom(sources, baseIdx, keyFunc, e);
    ScannedFrom(sources, baseIdx, keyFunc, f);
    EntryInPlace(sources[e.fileIdx - baseIdx], e.fileIdx, keyFunc, 0, e);
    EntryInPlace(sources[e.fileIdx - baseIdx], e.fileIdx, keyFunc, 0, f);
  }

  /** A place names one entry: the scan never yields two for the same file and offset. */
  lemma ScanConsistent(sources: seq<Bytes>, baseIdx: nat, keyFunc: KeyFunc)
    ensures Consistent(ScanSet(sources, baseIdx, keyFunc))
  {
    hide ScanSet;
    var all := ScanSet(sources, baseIdx, keyFunc);
    forall e, f | e in all && f in all && e.fileIdx == f.fileIdx && e.srcOff == f.srcOff ensures e == f {
      SamePlaceSameEntry(sources, baseIdx, keyFunc, e, f);
    }
  }

  lemma ScannedFits(sources: seq<Bytes>, baseIdx: nat, keyFunc: KeyFunc, e: Entry)
    requires Indexable(sources, baseIdx, keyFunc) && e in ScanSet(sources, baseIdx, keyFunc)
    ensures Fits(e)
  {
    ScannedFrom(sources, baseIdx, keyFunc, e);
    EntryInPlace(sources[e.fileIdx - baseIdx], e.fileIdx, keyFunc, 0, e);
  }

  lemma {:induction false} ScanSetAppend(a: seq<Bytes>, b: seq<Bytes>, baseIdx: nat, keyFunc: KeyFunc)
    ensures ScanSet(a + b, baseIdx, keyFunc) == ScanSet(a, baseIdx, keyFunc) + ScanSet(b, baseIdx + |a|, keyFunc)
  {
    hide EntriesFrom, SetOf;
    if b == [] {
      assert a + b == a;
    } else {
      var n := |b| - 1;
      assert (a + b)[..|a + b| - 1] == a + b[..n];
      ScanSetAppend(a, b[..n], baseIdx, keyFunc);
    }
  }

  // ----- canonical lists of unions ------------------------------------------------------

  /** For every f of a the list has an entry with f's key that f does not beat. */
  lemma Representative(list: seq<Entry>, a: set<Entry>, f: Entry) returns (g: Entry)
    requires Canonical(list, a) && f in a
    ensures g in SetOf(list) && g.key == f.key && !Better(f, g)
  {
    hide Ascending;
    var j := CanonicalEntry(list, a, f);
    g := list[j];
  }

  lemma BestThroughList(e: Entry, list: seq<Entry>, a: set<Entry>, b: set<Entry>)
    requires Canonical(list, a) && Best(e, SetOf(list) + b)
    ensures Best(e, a + b)
  {
    hide Canonical, SetOf;
    if e in SetOf(list) { ListedIn(list, a, e); }
    forall f | f in a + b && f.key == e.key ensures !Better(f, e) {
      if f in a {
        var g := Representative(list, a, f);
        assert g in SetOf(list) + b;
      } else {
        assert f in SetOf(list) + b;
      }
    }
  }

  lemma ListedIn(list: seq<Entry>, a: set<Entry>, e: Entry)
    requires Canonical(list, a) && e in SetOf(list)
    ensures e in a
  {
    hide Canonical;
    BestOf(list, a, e);
  }

  lemma KeysThroughList(out: seq<Entry>, list: seq<Entry>, a: set<Entry>, b: set<Entry>, f: Entry)
    requires Canonical(list, a) && Canonical(out, SetOf(list) + b) && f in a + b
    ensures exists i :: 0 <= i < |out| && out[i].key == f.key
  {
    hide Canonical, Best, SetOf;
    var g := f;
    if f in a {
      g := Representative(list, a, f);
    }
    assert g in SetOf(list) + b;
    var i := CanonicalEntry(out, SetOf(list) + b, g);
  }

  lemma BestOfMember(out: seq<Entry>, all: set<Entry>, i: nat)
    requires Canonical(out, all) && i < |out|
    ensures Best(out[i], all)
  {
    hide Ascending, Best;
  }

  lemma CanonicalAscends(out: seq<Entry>, all: set<Entry>)
    requires Canonical(out, all)
    ensures Ascending(out)
  {
    hide Ascending, Best;
  }

  /** Replacing a set by its canonical list changes nothing about what a merge must produce. */
  lemma CanonicalThroughList(out: seq<Entry>, list: seq<Entry>, a: set<Entry>, b: set<Entry>)
    requires Canonical(list, a) && Canonical(out, SetOf(list) + b)
    ensures Canonical(out, a + b)
  {
    hide Ascending, Best, SetOf;
    CanonicalAscends(out, SetOf(list) + b);
    forall i | 0 <= i < |out| ensures Best(out[i], a + b) {
      BestOfMember(out, SetOf(list) + b, i);
      BestThroughList(out[i], list, a, b);
    }
    forall f | f in a + b ensures exists i :: 0 <= i < |out| && out[i].key == f.key {
      KeysThroughList(out, list, a, b, f);
    }
  }
}
