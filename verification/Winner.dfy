/** Last line wins: what a sorted index answers, said in terms of the sources alone. */
module Winner {
  import opened Bytes
  import opened Lex
  import opened Lines
  import opened Entries
  import opened Build
  import opened Lookup
  import FileIndex
  import Refresh

  /** The line of the latest source that has the key. */
  function WinningLine(sources: seq<Bytes>, keyFunc: KeyFunc, key: Bytes): Option<Bytes> {
    if sources == [] then None else
    var last := LastLine(sources[|sources| - 1], keyFunc, key, 0);
    if last.Some? then last else WinningLine(sources[..|sources| - 1], keyFunc, key)
  }

  /** e is the last of these entries with its key, by offset. */
  ghost predicate LastOf(es: seq<Entry>, e: Entry) {
    e in es && forall f :: f in es && f.key == e.key ==> f.srcOff <= e.srcOff
  }

  lemma {:induction false} LastLineEntry(content: Bytes, fileIdx: nat, keyFunc: KeyFunc, key: Bytes, off: nat)
    returns (e: Entry)
    requires off <= |content| && LastLine(content, keyFunc, key, off).Some?
    ensures var es := EntriesFrom(content, fileIdx, keyFunc, off);
            LastOf(es, e) && e.key == key && e.srcOff + e.length <= |content|
            && content[e.srcOff..e.srcOff + e.length] == LastLine(content, keyFunc, key, off).value
    decreases |content| - off
  {
    var end := ChunkEnd(content, off);
    var line, rest := LineAt(content, off), EntriesFrom(content, fileIdx, keyFunc, end);
    if LastLine(content, keyFunc, key, end).Some? {
      e := LastLineEntry(content, fileIdx, keyFunc, key, end);
      EntryInPlace(content, fileIdx, keyFunc, end, e);
    } else {
      e := Entry(key, fileIdx, off, |line.payload|);
      assert EntriesFrom(content, fileIdx, keyFunc, off) == [e] + rest;
      OnlyEntry(content, fileIdx, keyFunc, key, end, e);
      EntryInPlace(content, fileIdx, keyFunc, off, e);
    }
  }

  /** No later line has the key, so e in front is the last entry with it. */
  lemma OnlyEntry(content: Bytes, fileIdx: nat, keyFunc: KeyFunc, key: Bytes, off: nat, e: Entry)
    requires off <= |content| && LastLine(content, keyFunc, key, off).None? && e.key == key
    ensures LastOf([e] + EntriesFrom(content, fileIdx, keyFunc, off), e)
  {
    hide LastLine, EntriesFrom;
    var rest := EntriesFrom(content, fileIdx, keyFunc, off);
    assert ([e] + rest)[0] == e;
    forall f | f in [e] + rest && f.key == key ensures f == e {
      if f in rest { NoLastLineNoEntry(content, fileIdx, keyFunc, key, off, f); }
    }
  }

  lemma {:induction false} NoLastLineNoEntry(content: Bytes, fileIdx: nat, keyFunc: KeyFunc, key: Bytes,
        off: nat, e: Entry)
    requires off <= |content| && LastLine(content, keyFunc, key, off).None?
    requires e in EntriesFrom(content, fileIdx, keyFunc, off)
    ensures e.key != key
    decreases |content| - off
  {
    var end := ChunkEnd(content, off);
    if e in EntriesFrom(content, fileIdx, keyFunc, end) {
      NoLastLineNoEntry(content, fileIdx, keyFunc, key, end, e);
    }
  }

  lemma {:induction false} WinnerEntry(sources: seq<Bytes>, keyFunc: KeyFunc, key: Bytes) returns (e: Entry)
    requires WinningLine(sources, keyFunc, key).Some?
    ensures Best(e, ScanSet(sources, 0, keyFunc)) && e.key == key
    ensures LineOf(sources, e) == WinningLine(sources, keyFunc, key)
  {
    hide LastLine, EntriesFrom;
    var n := |sources| - 1;
    var all := ScanSet(sources, 0, keyFunc);
    if LastLine(sources[n], keyFunc, key, 0).Some? {
      e := LastLineEntry(sources[n], n, keyFunc, key, 0);
      EntryInPlace(sources[n], n, keyFunc, 0, e);
      forall f | f in all && f.key == key ensures !Better(f, e) {
        ScannedFrom(sources, 0, keyFunc, f);
      }
    } else {
      e := WinnerEntry(sources[..n], keyFunc, key);
      forall f | f in all && f.key == key ensures !Better(f, e) {
        if f in EntriesFrom(sources[n], n, keyFunc, 0) {
          NoLastLineNoEntry(sources[n], n, keyFunc, key, 0, f);
        }
      }
    }
  }

  lemma {:induction false} NoWinnerNoEntry(sources: seq<Bytes>, keyFunc: KeyFunc, key: Bytes, e: Entry)
    requires WinningLine(sources, keyFunc, key).None? && e in ScanSet(sources, 0, keyFunc)
    ensures e.key != key
  {
    var n := |sources| - 1;
    if e in EntriesFrom(sources[n], n, keyFunc, 0) {
      NoLastLineNoEntry(sources[n], n, keyFunc, key, 0, e);
    } else {
      NoWinnerNoEntry(sources[..n], keyFunc, key, e);
    }
  }

  /** Get on an index of these sources returns the key's last line in the latest source that has it. */
  lemma GetReturnsWinner(es: seq<Entry>, sources: seq<Bytes>, keyFunc: KeyFunc, key: Bytes)
    requires Canonical(es, ScanSet(sources, 0, keyFunc))
    ensures Answer(Find(es, key), sources)
            == match WinningLine(sources, keyFunc, key) { case None => NotFound case Some(line) => Found(line) }
  {
    hide ScanSet, WinningLine, Find, LineOf, Best;
    var all := ScanSet(sources, 0, keyFunc);
    if WinningLine(sources, keyFunc, key).Some? {
      var e := WinnerEntry(sources, keyFunc, key);
      assert e in all by { BestIn(e, all); }
      var j := CanonicalEntry(es, all, e);
      ScanConsistent(sources, 0, keyFunc);
      BestUnique(es[j], e, all);
      FindHit(es, j);
    } else {
      forall i | 0 <= i < |es| ensures es[i].key != key {
        BestIn(es[i], all);
        NoWinnerNoEntry(sources, keyFunc, key, es[i]);
      }
      FindMiss(es, key);
    }
  }

  // ----- the winning line, by sources and lines alone ----------------------------------------

  /** No line of this file has the key. */
  ghost predicate NoLine(content: Bytes, keyFunc: KeyFunc, key: Bytes) {
    forall i :: 0 <= i < |Payloads(content, 0)| ==> !Keyed(keyFunc, Payloads(content, 0)[i], key)
  }

  /** This is the last line of its file with the key. */
  ghost predicate LastOfFile(content: Bytes, keyFunc: KeyFunc, key: Bytes, line: Bytes) {
    exists i :: LastKeyed(Payloads(content, 0), i, keyFunc, key) && Payloads(content, 0)[i] == line
  }

  /** Source s has the key, last at this line, and no later source has it. */
  ghost predicate WinsIn(sources: seq<Bytes>, s: int, keyFunc: KeyFunc, key: Bytes, line: Bytes) {
    && 0 <= s < |sources| && LastOfFile(sources[s], keyFunc, key, line)
    && forall later :: s < later < |sources| ==> NoLine(sources[later], keyFunc, key)
  }

  lemma LastLineSays(content: Bytes, keyFunc: KeyFunc, key: Bytes, line: Bytes)
    ensures LastLine(content, keyFunc, key, 0) == Some(line) <==> LastOfFile(content, keyFunc, key, line)
    ensures LastLine(content, keyFunc, key, 0).None? <==> NoLine(content, keyFunc, key)
  {
    hide LastLine, Payloads, Keyed, LastKeyed;
    LastLineIff(content, keyFunc, key, line, Payloads(content, 0));
  }

  lemma {:induction false} WinnerWins(sources: seq<Bytes>, keyFunc: KeyFunc, key: Bytes) returns (s: int)
    requires WinningLine(sources, keyFunc, key).Some?
    ensures WinsIn(sources, s, keyFunc, key, WinningLine(sources, keyFunc, key).value)
  {
    hide LastLine, LastOfFile, NoLine;
    var n := |sources| - 1;
    LastLineSays(sources[n], keyFunc, key, WinningLine(sources, keyFunc, key).value);
    if LastLine(sources[n], keyFunc, key, 0).Some? {
      s := n;
    } else {
      s := WinnerWins(sources[..n], keyFunc, key);
      forall later | s < later < |sources| ensures NoLine(sources[later], keyFunc, key) {
        assert later < n ==> sources[later] == sources[..n][later];
      }
    }
  }

  lemma {:induction false} WinsIsWinner(sources: seq<Bytes>, s: int, keyFunc: KeyFunc, key: Bytes, line: Bytes)
    requires WinsIn(sources, s, keyFunc, key, line)
    ensures WinningLine(sources, keyFunc, key) == Some(line)
    decreases |sources|
  {
    hide LastLine, LastOfFile, NoLine;
    var n := |sources| - 1;
    LastLineSays(sources[n], keyFunc, key, line);
    if s < n {
      assert WinsIn(sources[..n], s, keyFunc, key, line);
      WinsIsWinner(sources[..n], s, keyFunc, key, line);
    }
  }

  /** A line wins if and only if it is the last with its key in some source and no later source has the key. */
  lemma WinningLineIff(sources: seq<Bytes>, keyFunc: KeyFunc, key: Bytes, line: Bytes)
    ensures WinningLine(sources, keyFunc, key) == Some(line) <==> exists s :: WinsIn(sources, s, keyFunc, key, line)
  {
    hide WinsIn;
    if WinningLine(sources, keyFunc, key) == Some(line) {
      var s := WinnerWins(sources, keyFunc, key);
      assert WinsIn(sources, s, keyFunc, key, line);
    }
    if s :| WinsIn(sources, s, keyFunc, key, line) {
      WinsIsWinner(sources, s, keyFunc, key, line);
    }
  }

  /** So Get finds a line if and only if it is that one. */
  lemma GetFindsIff(es: seq<Entry>, sources: seq<Bytes>, keyFunc: KeyFunc, key: Bytes, line: Bytes)
    requires Canonical(es, ScanSet(sources, 0, keyFunc))
    ensures Answer(Find(es, key), sources) == Found(line) <==> exists s :: WinsIn(sources, s, keyFunc, key, line)
  {
    hide Canonical, ScanSet, WinningLine, WinsIn, Answer, Find;
    GetReturnsWinner(es, sources, keyFunc, key);
    WinningLineIff(sources, keyFunc, key, line);
  }

  lemma BestIn(e: Entry, all: set<Entry>)
    requires Best(e, all)
    ensures e in all
  {}

  /** Every entry's line can be read, and its key is the line's: iterations never stop early. */
  lemma LinesAreReadable(sources: seq<Bytes>, keyFunc: KeyFunc, e: Entry)
    requires e in ScanSet(sources, 0, keyFunc)
    ensures LineOf(sources, e).Some? && KeyOf(keyFunc, LineOf(sources, e).value) == Some(e.key)
  {
    hide ScanSet, EntriesFrom, KeyOf, LineAt;
    ScannedFrom(sources, 0, keyFunc, e);
    EntryInPlace(sources[e.fileIdx], e.fileIdx, keyFunc, 0, e);
  }

  // ----- iterations lose nothing --------------------------------------------------------------

  /** The pairs an iteration over these entries should give, every line found. */
  ghost predicate GivesAll(pairs: seq<(Bytes, Bytes)>, es: seq<Entry>, sources: seq<Bytes>) {
    |pairs| == |es| && forall i :: 0 <= i < |es| ==>
      LineOf(sources, es[i]).Some? && pairs[i] == (es[i].key, LineOf(sources, es[i]).value)
  }

  lemma {:induction false} YieldsAll(es: seq<Entry>, sources: seq<Bytes>)
    requires forall i :: 0 <= i < |es| ==> LineOf(sources, es[i]).Some?
    ensures GivesAll(Yields(es, sources), es, sources)
  {
    hide LineOf;
    if es != [] {
      var rest := es[1..];
      YieldsAll(rest, sources);
      forall i | 0 < i < |es| ensures Yields(es, sources)[i] == Yields(rest, sources)[i - 1] && es[i] == rest[i - 1] {}
    }
  }

  /** The winner of every key with the prefix is given, with its line, and nothing else is. */
  ghost predicate IteratesWinners(pairs: seq<(Bytes, Bytes)>, sources: seq<Bytes>, keyFunc: KeyFunc, prefix: Bytes) {
    && InKeyOrder(pairs)
    && (forall p :: p in pairs <==> prefix <= p.0 && WinningLine(sources, keyFunc, p.0) == Some(p.1))
  }

  lemma PrefixYieldsAll(es: seq<Entry>, sources: seq<Bytes>, keyFunc: KeyFunc, prefix: Bytes)
    requires Canonical(es, ScanSet(sources, 0, keyFunc))
    ensures GivesAll(Yields(WithPrefix(es, prefix), sources), WithPrefix(es, prefix), sources)
  {
    hide Canonical, ScanSet, LineOf, Yields, WithPrefix, GivesAll;
    var found := WithPrefix(es, prefix);
    forall i | 0 <= i < |found| ensures LineOf(sources, found[i]).Some? {
      PrefixMember(es, prefix, found[i]);
      BestOf(es, ScanSet(sources, 0, keyFunc), found[i]);
      LinesAreReadable(sources, keyFunc, found[i]);
    }
    YieldsAll(found, sources);
  }

  lemma {:induction false} FoundIn(es: seq<Entry>, key: Bytes)
    ensures Find(es, key).Some? ==> Find(es, key).value in es && Find(es, key).value.key == key
  {
    if es != [] && es[0].key != key { FoundIn(es[1..], key); }
  }

  lemma EntryWins(es: seq<Entry>, sources: seq<Bytes>, keyFunc: KeyFunc, e: Entry)
    requires Canonical(es, ScanSet(sources, 0, keyFunc)) && e in es
    ensures LineOf(sources, e).Some? && WinningLine(sources, keyFunc, e.key) == LineOf(sources, e)
  {
    hide Canonical, ScanSet, LineOf, WinningLine, Find;
    var all := ScanSet(sources, 0, keyFunc);
    BestOf(es, all, e);
    LinesAreReadable(sources, keyFunc, e);
    CanonicalAscends(es, all);
    var j :| 0 <= j < |es| && es[j] == e;
    FindHit(es, j);
    GetReturnsWinner(es, sources, keyFunc, e.key);
  }

  lemma WinnerHasEntry(es: seq<Entry>, sources: seq<Bytes>, keyFunc: KeyFunc, key: Bytes) returns (e: Entry)
    requires Canonical(es, ScanSet(sources, 0, keyFunc)) && WinningLine(sources, keyFunc, key).Some?
    ensures e in es && e.key == key
  {
    hide Canonical, ScanSet, LineOf, WinningLine, Find;
    GetReturnsWinner(es, sources, keyFunc, key);
    FoundIn(es, key);
    e := Find(es, key).value;
  }

  /**
   * Prefix on an index of these sources gives every key with the prefix that some line has, in
   * order and each with its winning line, and nothing else; with the empty prefix, every key.
   */
  lemma PrefixGivesWinners(es: seq<Entry>, sources: seq<Bytes>, keyFunc: KeyFunc, prefix: Bytes)
    requires Canonical(es, ScanSet(sources, 0, keyFunc))
    ensures IteratesWinners(Yields(WithPrefix(es, prefix), sources), sources, keyFunc, prefix)
    ensures |Yields(WithPrefix(es, prefix), sources)| == |WithPrefix(es, prefix)|
    ensures prefix == [] ==> |Yields(WithPrefix(es, prefix), sources)| == |es|
  {
    hide Canonical, ScanSet, LineOf, WinningLine, Yields, WithPrefix, Less, ComesBefore;
    var all, found := ScanSet(sources, 0, keyFunc), WithPrefix(es, prefix);
    var pairs := Yields(found, sources);
    PrefixYieldsAll(es, sources, keyFunc, prefix);
    if prefix == [] { EmptyPrefixIsAll(es); }
    CanonicalAscends(es, all);
    PrefixAscends(es, prefix);
    forall i, j | 0 <= i < j < |pairs| ensures ComesBefore(pairs[i].0, pairs[j].0) {
      LessIff(found[i].key, found[j].key);
    }
    forall p ensures p in pairs <==> prefix <= p.0 && WinningLine(sources, keyFunc, p.0) == Some(p.1) {
      if p in pairs {
        var i :| 0 <= i < |pairs| && pairs[i] == p;
        PrefixMember(es, prefix, found[i]);
        EntryWins(es, sources, keyFunc, found[i]);
      }
      if prefix <= p.0 && WinningLine(sources, keyFunc, p.0) == Some(p.1) {
        var e := WinnerHasEntry(es, sources, keyFunc, p.0);
        EntryWins(es, sources, keyFunc, e);
        PrefixMember(es, prefix, e);
        var i :| 0 <= i < |found| && found[i] == e;
        assert pairs[i] == p;
      }
    }
  }

  /** So too on the index EnsureFresh returns. */
  lemma FreshIndexIteratesWinners(cache: Refresh.Cache, r: SortedIndex, stats: seq<Refresh.Stat>, prefix: Bytes)
    requires cache.Opens(r, stats)
    ensures var sources := Refresh.Contents(cache.content, stats);
            IteratesWinners(Yields(WithPrefix(r.es, prefix), r.srcs), sources, cache.keyFunc, prefix)
  {
    hide SortedIndex.Valid, Canonical, IteratesWinners;
    PrefixGivesWinners(r.es, r.srcs, cache.keyFunc, prefix);
  }

  /** What a returned index answers, in terms of the sources it was asked for. */
  lemma FreshIndexReadsWinner(cache: Refresh.Cache, r: SortedIndex, stats: seq<Refresh.Stat>, key: Bytes)
    requires cache.Opens(r, stats)
    ensures Answer(Find(r.es, key), r.srcs)
            == match WinningLine(Refresh.Contents(cache.content, stats), cache.keyFunc, key)
               case None => NotFound
               case Some(line) => Found(line)
  {
    hide SortedIndex.Valid, Canonical;
    GetReturnsWinner(r.es, r.srcs, cache.keyFunc, key);
  }

  /** Over one source the sorted index answers as a file index rebuilt from that file. */
  lemma OneSourceIsFileIndex(es: seq<Entry>, content: Bytes, keyFunc: KeyFunc, key: Bytes)
    requires Canonical(es, ScanSet([content], 0, keyFunc))
    ensures var idx := FileIndex.Rebuilt(content, keyFunc);
            if key in idx then
              idx[key].off + idx[key].len <= |content|
              && Answer(Find(es, key), [content]) == Found(content[idx[key].off..idx[key].off + idx[key].len])
            else Answer(Find(es, key), [content]) == NotFound
  {
    hide Canonical, Answer, Find, ScanSet, LastLine, FileIndex.RebuiltFrom;
    GetReturnsWinner(es, [content], keyFunc, key);
    FileIndex.RebuiltIsLastLine(map[], content, keyFunc, key, 0);
    OneSourceWins(content, keyFunc, key);
  }

  lemma OneSourceWins(content: Bytes, keyFunc: KeyFunc, key: Bytes)
    ensures WinningLine([content], keyFunc, key) == LastLine(content, keyFunc, key, 0)
  {
    hide LastLine;
    assert [content][..0] == [];
  }
}
