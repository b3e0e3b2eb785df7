/** Two runs in which a stop between the renames makes a later call return a wrong index. */
module Stops {
  import opened Bytes
  import Lex
  import opened Lines
  import opened Entries
  import opened Build
  import opened Spill
  import opened Sidx
  import opened Lookup
  import opened Refresh
  import Merge
  import Winner

  const LINE_X: Bytes := [120]
  const LINE_Y: Bytes := [121]

  function FirstByte(p: Bytes): Option<Bytes> { if p == [] then None else Some(p[..1]) }

  function Quiet(): Context { Context(false, (_, _) => false, _ => false) }

  function Upto(renames: nat): Settings { Settings(Quiet(), 1, 0, 0, renames) }

  lemma NeverCancelled(sources: seq<Bytes>, baseIdx: nat, n: nat)
    ensures AllQuiet(sources, baseIdx, Quiet()) && Merge.MergeQuiet(Quiet(), n)
  {}

  lemma ShortFirstBytes()
    ensures ShortKeys(FirstByte)
  {}

  lemma OneLine(b: byte, fileIdx: nat)
    requires b != NEWLINE
    ensures EntriesFrom([b], fileIdx, FirstByte, 0) == [Entry([b], fileIdx, 0, 1)]
  {
    assert ChunkEnd([b], 1) == 1;
    assert [b][0..1] == [b] && [b][..1] == [b];
    assert EntriesFrom([b], fileIdx, FirstByte, 1) == [];
  }

  lemma ScanOne(b: byte, fileIdx: nat)
    requires b != NEWLINE
    ensures ScanSet([[b]], fileIdx, FirstByte) == {Entry([b], fileIdx, 0, 1)}
  {
    hide EntriesFrom;
    OneLine(b, fileIdx);
    assert [[b]][..0] == [];
  }

  lemma NoLines()
    ensures EntriesFrom([], 0, FirstByte, 0) == []
  {}

  lemma ScanEmpty()
    ensures ScanSet([[]], 0, FirstByte) == {}
  {
    hide EntriesFrom;
    NoLines();
    var none: Bytes := [];
    assert [none][..0] == [];
  }

  lemma ListOfNone(es: seq<Entry>)
    requires Canonical(es, {})
    ensures es == [] && SetOf(es) == {}
  {
    if es != [] { BestOfMember(es, {}, 0); }
  }

  lemma ListOfOne(es: seq<Entry>, e: Entry)
    requires Canonical(es, {e})
    ensures es == [e]
  {
    var j := CanonicalEntry(es, {e}, e);
    forall i | 0 <= i < |es| ensures es[i] == e { BestOfMember(es, {e}, i); }
    Lex.Irreflexive(e.key);
    assert |es| > 1 ==> Lex.Less(es[0].key, es[1].key);
  }

  /** The merge of a stale entry for x with the entry of y: x is found, at what is now y's line. */
  lemma StaleEntryAnswers(out: seq<Entry>)
    requires Canonical(out, {Entry(LINE_Y, 1, 0, 1)} + SetOf([Entry(LINE_X, 1, 0, 1)]))
    ensures Answer(Find(out, LINE_X), [[], LINE_Y]) == Found(LINE_Y)
  {
    hide Canonical, Ascending;
    var stale := Entry(LINE_X, 1, 0, 1);
    var all := {Entry(LINE_Y, 1, 0, 1)} + SetOf([stale]);
    assert stale in [stale];
    var j := CanonicalEntry(out, all, stale);
    assert out[j] == stale;
    CanonicalAscends(out, all);
    FindHit(out, j);
    assert LINE_Y[0..1] == LINE_Y;
  }

  lemma PlanOfFirst(cache: Cache, a: Stat)
    requires cache.keyFunc == FirstByte && cache.sources == None
    ensures !cache.Extends([a]) && cache.Plan([a]) == ScanSet([cache.content(a)], 0, FirstByte)
  {
    hide ScanSet;
    assert [a][0..] == [a];
    assert Contents(cache.content, [a]) == [cache.content(a)];
  }

  lemma PlanOfSecond(cache: Cache, a: Stat, st: Stat, line: byte)
    requires cache.keyFunc == FirstByte && cache.sources == Some([a]) && cache.content(st) == [line] && line != NEWLINE
    ensures cache.Extends([a, st]) && cache.Plan([a, st]) == {Entry([line], 1, 0, 1)} + SetOf(cache.es)
  {
    hide ScanSet;
    assert [a, st][1..] == [st];
    assert Contents(cache.content, [st]) == [[line]];
    ScanOne(line, 1);
  }

  /** A call that nothing cancels, for sources that are not the recorded ones. */
  method Ensure(cache: Cache, stats: seq<Stat>, renames: nat) returns (r: SortedIndex?)
    requires cache.Usable() && cache.sources != Some(stats) && 0 < |stats| <= MAX_SOURCES && 1 <= renames <= RENAMES
    requires cache.Extends(stats) ==> cache.Readable()
    modifies cache
    ensures cache.Usable() && cache.Readable() && Canonical(cache.es, old(cache.Plan(stats)))
    ensures cache.sources == if renames == RENAMES then Some(stats) else old(cache.sources)
    ensures renames == RENAMES ==> r != null && cache.Shows(r)
    ensures renames == 1 ==> cache.sparse == old(cache.sparse) && cache.badBloom == old(cache.badBloom)
  {
    hide AllQuiet, Merge.MergeQuiet, Merge.Keys, Contents, ScanSet, SetOf, Cache.Usable, Cache.Right, Cache.Fresh, Canonical;
    hide Cache.Plan, Cache.Opens;
    var kept := cache.Kept(stats);
    NeverCancelled(Contents(cache.content, stats[kept..]), kept,
                   |Merge.Keys(cache.Merging(kept, stats[kept..], cache.Extends(stats)))|);
    r := cache.EnsureFresh(Some(stats), Upto(renames));
  }

  /**
   * An empty file a is indexed; a refresh that adds b, which has key x, stops after its first
   * rename; then c, which has key y, is added instead. The index returned finds key x, which no
   * source has, and gives y's line for it.
   */
  method StoppedThenOther(content: Stat -> Bytes, a: Stat, b: Stat, c: Stat) returns (r: SortedIndex?)
    requires content(a) == [] && content(b) == LINE_X && content(c) == LINE_Y && forall st :: ShortLines(content(st))
    ensures r != null && r.srcs == [[], LINE_Y] && Answer(Find(r.es, LINE_X), r.srcs) == Found(LINE_Y)
    ensures Winner.WinningLine(r.srcs, FirstByte, LINE_X) == None
  {
    hide Winner.WinningLine, ShortLines, EntriesFrom, ScanSet, Find, Answer, Canonical, Contents;
    hide Cache.Usable, Cache.Plan, Cache.Extends, Cache.Fresh;
    hide Merge.KeysOf, SidxFile, OpenSidx, Cache.Readable, SparseOf, Ascending, AllFit, Cache.Opens, SetOf, Cache.GivesUp, Cache.Right;
    ShortFirstBytes();
    var cache := new Cache(FirstByte, content, 1, None);
    PlanOfFirst(cache, a);
    ScanEmpty();
    r := Ensure(cache, [a], RENAMES);
    ListOfNone(cache.es);
    PlanOfSecond(cache, a, b, LINE_X[0]);
    assert LINE_X == [LINE_X[0]] && LINE_Y == [LINE_Y[0]];
    r := Ensure(cache, [a, b], 1);
    assert {Entry(LINE_X, 1, 0, 1)} + {} == {Entry(LINE_X, 1, 0, 1)};
    ListOfOne(cache.es, Entry(LINE_X, 1, 0, 1));
    PlanOfSecond(cache, a, c, LINE_Y[0]);
    r := Ensure(cache, [a, c], RENAMES);
    StaleEntryAnswers(r.es);
    NoSuchKeys();
    assert Contents(content, [a, c]) == [[], LINE_Y] by { ContentsOfTwo(content, a, c); }
  }

  lemma ContentsOfTwo(content: Stat -> Bytes, a: Stat, c: Stat)
    ensures Contents(content, [a, c]) == [content(a), content(c)]
  {}

  /**
   * A file a with key x is indexed; a rebuild for b, which has key y, stops after its first rename;
   * then a is asked for again and its record found unchanged. The index returned finds key y, which a
   * does not have, and gives x's line for it.
   */
  method StoppedThenBack(content: Stat -> Bytes, a: Stat, b: Stat) returns (r: SortedIndex?)
    requires content(a) == LINE_X && content(b) == LINE_Y && forall st :: ShortLines(content(st))
    ensures r != null && r.srcs == [LINE_X] && Answer(Find(r.es, LINE_Y), r.srcs) == Found(LINE_X)
    ensures Winner.WinningLine(r.srcs, FirstByte, LINE_Y) == None
  {
    hide Winner.WinningLine, ShortLines, EntriesFrom, ScanSet, Find, Answer, Canonical, Contents;
    hide Cache.Usable, Cache.Plan, Cache.Extends, Cache.Fresh;
    hide Merge.KeysOf, SidxFile, OpenSidx, Cache.Readable, SparseOf, Ascending, AllFit, Cache.Opens, SetOf, Cache.GivesUp, Cache.Right;
    ShortFirstBytes();
    var cache := new Cache(FirstByte, content, 1, None);
    PlanOfFirst(cache, a);
    r := Ensure(cache, [a], RENAMES);
    PlanOfOther(cache, a, b, LINE_Y[0]);
    assert LINE_X == [LINE_X[0]] && LINE_Y == [LINE_Y[0]];
    r := Ensure(cache, [b], 1);
    ListOfOne(cache.es, Entry(LINE_Y, 0, 0, 1));
    r := cache.EnsureFresh(Some([a]), Upto(RENAMES));
    OneEntryAnswers();
    NoSuchKeys();
    assert Contents(content, [a]) == [LINE_X] by { ContentsOfOne(content, a); }
  }

  lemma PlanOfOther(cache: Cache, a: Stat, b: Stat, line: byte)
    requires cache.keyFunc == FirstByte && cache.sources == Some([a]) && a != b && cache.content(b) == [line] && line != NEWLINE
    ensures !cache.Extends([b]) && cache.Plan([b]) == {Entry([line], 0, 0, 1)}
  {
    hide ScanSet;
    assert !([a] < [b]);
    assert [b][0..] == [b];
    assert Contents(cache.content, [b]) == [[line]];
    ScanOne(line, 0);
  }

  /** No source of the first run's last call has key x, and a has no key y. */
  lemma NoSuchKeys()
    ensures Winner.WinningLine([[], LINE_Y], FirstByte, LINE_X) == None
    ensures Winner.WinningLine([LINE_X], FirstByte, LINE_Y) == None
  {
    hide EntriesFrom;
    Winner.OneSourceWins(LINE_X, FirstByte, LINE_Y);
    Winner.OneSourceWins([], FirstByte, LINE_X);
    var none: Bytes := [];
    assert [none, LINE_Y][..1] == [none];
    OtherKey(LINE_X[0], LINE_Y);
    OtherKey(LINE_Y[0], LINE_X);
  }

  lemma OtherKey(b: byte, key: Bytes)
    requires b != NEWLINE && key != [b]
    ensures LastLine([b], FirstByte, key, 0) == None
  {
    assert ChunkEnd([b], 1) == 1;
    assert [b][0..1] == [b] && [b][..1] == [b];
  }

  lemma OneEntryAnswers()
    ensures Answer(Find([Entry(LINE_Y, 0, 0, 1)], LINE_Y), [LINE_X]) == Found(LINE_X)
  {
    assert LINE_X[0..1] == LINE_X;
  }

  lemma ContentsOfOne(content: Stat -> Bytes, a: Stat)
    ensures Contents(content, [a]) == [content(a)]
  {}
}
