/** Reading a sorted index: Bloom gate, binary search of the sparse directory, bounded scan, prefix ranges. */
module Lookup {
  import opened Bytes
  import opened Lex
  import opened Entries
  import opened Sidx
  import Merge
  import Bloom

  // ----- the simple thing it must agree with ----------------------------------------------

  /** Linear lookup in the full entry list. */
  function Find(es: seq<Entry>, key: Bytes): Option<Entry> {
    if es == [] then None
    else if es[0].key == key then Some(es[0])
    else Find(es[1..], key)
  }

  /** The entries whose key has the prefix, in order. */
  function WithPrefix(es: seq<Entry>, prefix: Bytes): seq<Entry> {
    if es == [] then []
    else (if prefix <= es[0].key then [es[0]] else []) + WithPrefix(es[1..], prefix)
  }

  lemma {:induction false} EmptyPrefixIsAll(es: seq<Entry>)
    ensures WithPrefix(es, []) == es
  {
    if es != [] {
      EmptyPrefixIsAll(es[1..]);
      assert es == [es[0]] + es[1..];
    }
  }

  lemma {:induction false} FindHit(es: seq<Entry>, j: nat)
    requires Ascending(es) && j < |es|
    ensures Find(es, es[j].key) == Some(es[j])
    decreases |es|
  {
    if j > 0 {
      Irreflexive(es[j].key);
      FindHit(es[1..], j - 1);
    }
  }

  lemma {:induction false} FindMiss(es: seq<Entry>, key: Bytes)
    requires forall i :: 0 <= i < |es| ==> es[i].key != key
    ensures Find(es, key) == None
    decreases |es|
  {
    if es != [] { FindMiss(es[1..], key); }
  }

  lemma {:induction false} NoneWithPrefix(es: seq<Entry>, prefix: Bytes)
    requires forall i :: 0 <= i < |es| ==> !(prefix <= es[i].key)
    ensures WithPrefix(es, prefix) == []
    decreases |es|
  {
    if es != [] { NoneWithPrefix(es[1..], prefix); }
  }

  lemma {:induction false} SkipBelow(es: seq<Entry>, prefix: Bytes, j: nat)
    requires j <= |es| && forall i :: 0 <= i < j ==> !(prefix <= es[i].key)
    ensures WithPrefix(es, prefix) == WithPrefix(es[j..], prefix)
    decreases |es|
  {
    if j > 0 {
      SkipBelow(es[1..], prefix, j - 1);
      assert es[1..][j - 1..] == es[j..];
    }
  }

  // ----- the floor of the sparse directory -----------------------------------------------------

  /** From entry j on a scan for target misses nothing, and target is at most s entries away. */
  ghost predicate FloorAt(es: seq<Entry>, s: nat, target: Bytes, j: nat) {
    && j <= |es|
    && (forall k :: 0 <= k < j ==> Less(es[k].key, target))
    && (forall k :: j + s <= k < |es| ==> Less(target, es[k].key))
  }

  /** Where a scan for key starts: the last sampled entry, counting from j, that is not past it. */
  function FloorIndex(es: seq<Entry>, s: nat, key: Bytes, j: nat): nat
    requires s > 0
    decreases |es| - j
  {
    if j + s < |es| && LessEq(es[j + s].key, key) then FloorIndex(es, s, key, j + s) else j
  }

  /** How many entries a scan for key decodes from j on: up to one not before it, or the end. */
  function Reads(es: seq<Entry>, j: nat, key: Bytes): nat
    decreases |es| - j
  {
    if j >= |es| then 0
    else if Less(es[j].key, key) then 1 + Reads(es, j + 1, key)
    else 1
  }

  lemma {:induction false} FloorIs(es: seq<Entry>, s: nat, key: Bytes, i: nat, j: nat)
    requires s > 0 && Ascending(es) && i * s < |es| && (i == 0 || LessEq(es[i * s].key, key))
    requires (i + 1) * s < |es| ==> Less(key, es[(i + 1) * s].key)
    requires j <= i
    ensures FloorIndex(es, s, key, j * s) == i * s
    decreases i - j
  {
    hide Less;
    assert (i + 1) * s == i * s + s && (j + 1) * s == j * s + s;
    if j < i {
      Scaled(j + 1, i, s);
      if j + 1 < i {
        Scaled(j + 2, i, s);
        Chain(es[(j + 1) * s].key, es[i * s].key, key);
        Total(es[(j + 1) * s].key, key);
      }
      FloorIs(es, s, key, i, j + 1);
    }
  }

  lemma {:induction false} Scaled(a: nat, b: nat, s: nat)
    requires a <= b
    ensures a * s <= b * s && (a < b && s > 0 ==> a * s < b * s)
    decreases b - a
  {
    if a < b { Scaled(a + 1, b, s); }
  }

  /** The floor is a sampled entry a scan may start from. */
  lemma {:induction false} FloorIndexAt(es: seq<Entry>, s: nat, key: Bytes, i: nat) returns (q: nat)
    requires s > 0 && Ascending(es) && (i == 0 || (i * s < |es| && LessEq(es[i * s].key, key)))
    ensures FloorIndex(es, s, key, i * s) == q * s && FloorAt(es, s, key, q * s)
    decreases |es| - i * s
  {
    hide Less;
    var j := i * s;
    assert (i + 1) * s == j + s;
    if j + s < |es| && LessEq(es[j + s].key, key) {
      q := FloorIndexAt(es, s, key, i + 1);
    } else {
      q := i;
      forall k | 0 <= k < j ensures Less(es[k].key, key) {
        Chain(es[k].key, es[j].key, key);
      }
      forall k | j + s <= k < |es| ensures Less(key, es[k].key) {
        Transitive(key, es[j + s].key, es[k].key);
      }
    }
  }

  lemma FloorBeforeAll(es: seq<Entry>, s: nat, r: seq<Sample>, target: Bytes)
    requires s > 0 && Ascending(es) && Enough(|r|, |es|, s) && (r != [] ==> SampleAt(es, s, r, 0))
    requires r != [] ==> Less(target, r[0].key)
    ensures FloorIndex(es, s, target, 0) == 0
  {
    if s < |es| {
      Transitive(target, es[0].key, es[s].key);
      Total(target, es[s].key);
    }
  }

  lemma FloorAtSample(es: seq<Entry>, s: nat, r: seq<Sample>, target: Bytes, i: nat)
    requires s > 0 && Ascending(es) && Enough(|r|, |es|, s) && 0 < i <= |r|
    requires SampleAt(es, s, r, i - 1) && LessEq(r[i - 1].key, target)
    requires i < |r| ==> SampleAt(es, s, r, i) && Less(target, r[i].key)
    ensures (i - 1) * s < |es| && FloorIndex(es, s, target, 0) == (i - 1) * s
  {
    hide Less;
    assert 0 * s == 0;
    FloorIs(es, s, target, i - 1, 0);
  }

  // ----- how much a scan decodes ---------------------------------------------------------------

  lemma {:induction false} ReadsPast(es: seq<Entry>, j: nat, key: Bytes, k: nat)
    requires j <= k <= |es| && forall m :: j <= m < k ==> Less(es[m].key, key)
    ensures Reads(es, j, key) == k - j + Reads(es, k, key)
    decreases k - j
  {
    hide Less;
    if j < k { ReadsPast(es, j + 1, key, k); }
  }

  /** The target lies strictly between the last entry of an interval and the first of the next. */
  ghost predicate Straddles(es: seq<Entry>, s: nat, key: Bytes, m: nat) {
    1 <= m && 1 <= m * s < |es| && Less(es[m * s - 1].key, key) && Less(key, es[m * s].key)
  }

  lemma ReadsAtMost(es: seq<Entry>, s: nat, key: Bytes, i: nat, k: nat)
    requires s > 0 && Ascending(es) && FloorAt(es, s, key, i * s) && i * s <= k <= |es|
    requires AllBelow(es, k, key) && (k < |es| ==> !Less(es[k].key, key))
    ensures var r := Reads(es, i * s, key);
            && r == k - i * s + (if k < |es| then 1 else 0) && r <= s + 1
            && (key in Merge.KeysOf(es) ==> r <= s)
            && (r == s + 1 ==> Straddles(es, s, key, i + 1))
  {
    hide Less;
    var j := i * s;
    assert (i + 1) * s == j + s;
    ReadsPast(es, j, key, k);
    Irreflexive(key);
    if j + s < k { Total(es[j + s].key, key); }
  }

  /** Where a scan from the floor stops. */
  lemma {:induction false} FirstNotBelow(es: seq<Entry>, key: Bytes, j: nat) returns (k: nat)
    requires j <= |es| && AllBelow(es, j, key)
    ensures j <= k <= |es| && AllBelow(es, k, key) && (k < |es| ==> !Less(es[k].key, key))
    decreases |es| - j
  {
    if j < |es| && Less(es[j].key, key) {
      k := FirstNotBelow(es, key, j + 1);
    } else {
      k := j;
    }
  }

  /**
   * A scan for a key that is there decodes at most s entries, for one that is not at most one
   * more; exactly one more if and only if the key falls between two intervals.
   */
  lemma ScanIsBounded(es: seq<Entry>, s: nat, key: Bytes)
    requires s > 0 && Ascending(es)
    ensures var r := Reads(es, FloorIndex(es, s, key, 0), key);
            && r <= s + 1 && (key in Merge.KeysOf(es) ==> r <= s)
            && (r == s + 1 <==> exists m: nat :: Straddles(es, s, key, m))
  {
    hide Less, Reads, AllBelow, FloorAt;
    assert 0 * s == 0;
    var q := FloorIndexAt(es, s, key, 0);
    FloorBelow(es, s, key, q * s);
    var k := FirstNotBelow(es, key, q * s);
    ReadsAtMost(es, s, key, q, k);
    if m: nat :| Straddles(es, s, key, m) {
      StraddledScan(es, s, key, m);
    }
  }

  lemma StraddledScan(es: seq<Entry>, s: nat, key: Bytes, m: nat)
    requires s > 0 && Ascending(es) && Straddles(es, s, key, m)
    ensures Reads(es, FloorIndex(es, s, key, 0), key) == s + 1
  {
    hide Less;
    var j := (m - 1) * s;
    assert 0 * s == 0 && m * s == j + s;
    forall n | 0 <= n < m * s ensures Less(es[n].key, key) {
      Transitive(es[n].key, es[m * s - 1].key, key);
    }
    Total(es[j].key, key);
    Total(es[m * s].key, key);
    FloorIs(es, s, key, m - 1, 0);
    ReadsPast(es, j, key, m * s);
  }

  /** One entry an interval, keys a and c: a scan for b decodes both. */
  lemma MissDecodesOneMore()
    ensures var es := [Entry([97], 0, 0, 1), Entry([99], 0, 2, 1)];
            Ascending(es) && [98] !in Merge.KeysOf(es) && Reads(es, FloorIndex(es, 1, [98], 0), [98]) == 2
  {
    var es := [Entry([97], 0, 0, 1), Entry([99], 0, 2, 1)];
    assert Less(es[0].key, [98]) && Less([98], es[1].key) && Less(es[0].key, es[1].key);
    assert Straddles(es, 1, [98], 1);
    StraddledScan(es, 1, [98], 1);
  }

  datatype GetResult = EmptyKey | NotFound | ReadError | Found(line: Bytes)

  /** The line an entry points at. */
  function LineOf(srcs: seq<Bytes>, e: Entry): Option<Bytes> {
    if e.fileIdx < |srcs| && e.srcOff + e.length <= |srcs[e.fileIdx]|
    then Some(srcs[e.fileIdx][e.srcOff..e.srcOff + e.length])
    else None
  }

  /** What Get answers for the entry it finds. */
  function Answer(e: Option<Entry>, srcs: seq<Bytes>): GetResult {
    match e
    case None => NotFound
    case Some(entry) =>
      match LineOf(srcs, entry)
      case None => ReadError
      case Some(line) => Found(line)
  }

  ghost predicate AllBelow(es: seq<Entry>, k: nat, key: Bytes)
    requires k <= |es|
  {
    forall m :: 0 <= m < k ==> Less(es[m].key, key)
  }

  lemma FloorBelow(es: seq<Entry>, s: nat, key: Bytes, j: nat)
    requires FloorAt(es, s, key, j)
    ensures j <= |es| && AllBelow(es, j, key)
  {}

  lemma BelowMore(es: seq<Entry>, k: nat, key: Bytes)
    requires k < |es| && AllBelow(es, k, key) && es[k].key != key && !Less(key, es[k].key)
    ensures AllBelow(es, k + 1, key)
  {
    Total(es[k].key, key);
  }

  lemma DecodeNext(data: Bytes, pos: nat, es: seq<Entry>, k: nat)
    requires k <= |es| && Decodes(data, pos, es[k..], true)
    ensures var r := ReadSidxEntry(data, pos);
            if k == |es| then r == Eof else r.Got? && r.entry == es[k] && Decodes(data, r.next, es[k + 1..], true)
  {}

  lemma NoSuchKey(es: seq<Entry>, key: Bytes)
    requires key !in Merge.KeysOf(es)
    ensures Find(es, key) == None
  {}

  lemma MissAtEnd(es: seq<Entry>, key: Bytes)
    requires AllBelow(es, |es|, key)
    ensures Find(es, key) == None
  {
    Irreflexive(key);
    FindMiss(es, key);
  }

  lemma Miss(es: seq<Entry>, key: Bytes, k: nat)
    requires Ascending(es) && k < |es| && AllBelow(es, k, key) && Less(key, es[k].key)
    ensures Find(es, key) == None
  {
    Irreflexive(key);
    forall i | 0 <= i < |es| ensures es[i].key != key {
      if i > k { Transitive(key, es[k].key, es[i].key); }
    }
    FindMiss(es, key);
  }

  /** What one read adds to the count, and whether the scan goes on. */
  lemma ReadsStep(es: seq<Entry>, k: nat, key: Bytes)
    requires k <= |es|
    ensures Reads(es, k, key)
            == if k == |es| then 0
               else if es[k].key == key || Less(key, es[k].key) then 1
               else 1 + Reads(es, k + 1, key)
  {
    if k < |es| { Total(es[k].key, key); }
    Irreflexive(key);
  }

  /** What an iteration over these entries gives: keys and lines, up to the first line that cannot be read. */
  function Yields(es: seq<Entry>, srcs: seq<Bytes>): seq<(Bytes, Bytes)> {
    if es == [] || LineOf(srcs, es[0]).None? then []
    else [(es[0].key, LineOf(srcs, es[0]).value)] + Yields(es[1..], srcs)
  }

  lemma SkipsToFloor(es: seq<Entry>, prefix: Bytes, j: nat)
    requires j <= |es| && AllBelow(es, j, prefix)
    ensures WithPrefix(es, prefix) == WithPrefix(es[j..], prefix)
  {
    forall i | 0 <= i < j ensures !(prefix <= es[i].key) {
      if prefix <= es[i].key { PrefixNotLess(prefix, es[i].key); }
    }
    SkipBelow(es, prefix, j);
  }

  /** The next entry before the range is skipped, one in it comes next, one past it ends it. */
  lemma NextMatches(es: seq<Entry>, k: nat, prefix: Bytes)
    requires Ascending(es) && k <= |es|
    ensures var m := WithPrefix(es[k..], prefix);
            if k == |es| then m == []
            else if Less(es[k].key, prefix) then m == WithPrefix(es[k + 1..], prefix)
            else if prefix <= es[k].key then m == [es[k]] + WithPrefix(es[k + 1..], prefix)
            else m == []
  {
    if k < |es| {
      assert es[k..][1..] == es[k + 1..];
      if Less(es[k].key, prefix) {
        if prefix <= es[k].key { PrefixNotLess(prefix, es[k].key); }
      } else if !(prefix <= es[k].key) {
        forall i | 0 <= i < |es[k..]| ensures !(prefix <= es[k..][i].key) {
          if i > 0 { PrefixRangeEnds(prefix, es[k].key, es[k + i].key); }
        }
        NoneWithPrefix(es[k..], prefix);
      }
    }
  }

  lemma {:induction false} PrefixMember(es: seq<Entry>, prefix: Bytes, e: Entry)
    ensures e in WithPrefix(es, prefix) <==> e in es && prefix <= e.key
  {
    if es != [] {
      PrefixMember(es[1..], prefix, e);
      assert es == [es[0]] + es[1..];
    }
  }

  lemma {:induction false} PrefixAscends(es: seq<Entry>, prefix: Bytes)
    requires Ascending(es)
    ensures Ascending(WithPrefix(es, prefix))
  {
    hide Less;
    if es != [] {
      PrefixAscends(es[1..], prefix);
      var rest := WithPrefix(es[1..], prefix);
      forall j | 0 <= j < |rest| ensures Less(es[0].key, rest[j].key) {
        PrefixMember(es[1..], prefix, rest[j]);
      }
    }
  }

  /** Pairs in order of their keys' bytes, the first difference deciding. */
  ghost predicate InKeyOrder(pairs: seq<(Bytes, Bytes)>) {
    forall i, j :: 0 <= i < j < |pairs| ==> ComesBefore(pairs[i].0, pairs[j].0)
  }

  lemma {:induction false} YieldsKeys(es: seq<Entry>, srcs: seq<Bytes>)
    ensures var found := Yields(es, srcs); |found| <= |es| && forall i :: 0 <= i < |found| ==> found[i].0 == es[i].key
  {
    hide LineOf;
    if es != [] && LineOf(srcs, es[0]).Some? {
      YieldsKeys(es[1..], srcs);
      var found := Yields(es, srcs);
      forall i | 0 < i < |found| ensures found[i].0 == es[i].key {
        assert found[i] == Yields(es[1..], srcs)[i - 1];
      }
    }
  }

  /** An open index over a sidx file and its sources; es is what the file holds. */
  class SortedIndex {
    const data: Bytes  // the sidx file without its checksum
    const sparse: seq<Sample>
    const bloom: Bloom.BloomFilter?
    const srcs: seq<Bytes>
    ghost const es: seq<Entry>
    ghost const interval: nat

    ghost predicate Valid()
      reads if bloom == null then {} else {bloom, bloom.bits}
    {
      && interval > 0 && Ascending(es) && AllFit(es)
      && |SidxFile(es)| >= 4 && data == SidxFile(es)[..|SidxFile(es)| - 4] && sparse == SparseOf(es, interval)
      && (bloom != null ==> bloom.Valid() && bloom.added == Merge.KeysOf(es))
    }

    constructor (data: Bytes, sparse: seq<Sample>, bloom: Bloom.BloomFilter?, srcs: seq<Bytes>,
                 ghost es: seq<Entry>, ghost interval: nat)
      ensures this.data == data && this.sparse == sparse && this.bloom == bloom && this.srcs == srcs
      ensures this.es == es && this.interval == interval
    {
      this.data, this.sparse, this.bloom, this.srcs := data, sparse, bloom, srcs;
      this.es, this.interval := es, interval;
    }

    /** Where a scan for target may start: at the last sample not past it. */
    method FloorOffset(target: Bytes) returns (off: nat)
      requires Valid()
      ensures FloorAt(es, interval, target, FloorIndex(es, interval, target, 0))
      ensures off == EntryOffset(es, FloorIndex(es, interval, target, 0))
    {
      hide SidxFile, SparseOf, Merge.KeysOf, Less, AllFit, FloorAt, EncodeAll, Ascending, SampleAt, Enough, FloorIndex;
      assert 0 * interval == 0;
      ghost var q := FloorIndexAt(es, interval, target, 0);
      SamplesAre(es, interval);
      var lo, hi: nat := 0, |sparse|;
      while lo < hi
        invariant lo <= hi <= |sparse|
        invariant lo > 0 ==> LessEq(sparse[lo - 1].key, target)
        invariant hi < |sparse| ==> Less(target, sparse[hi].key)
      {
        var mid := (lo + hi) / 2;
        if Less(target, sparse[mid].key) {
          hi := mid;
        } else {
          lo := mid + 1;
        }
      }
      if lo == 0 {
        FloorBeforeAll(es, interval, sparse, target);
        NothingBefore(es);
        return HEADER_LEN;
      }
      FloorAtSample(es, interval, sparse, target, lo);
      SampleOffset(es, interval, sparse, lo - 1);
      return sparse[lo - 1].offset;
    }

    /** The filter says the key is not there. */
    ghost predicate Filtered(key: Bytes)
      requires Valid()
      reads if bloom == null then {} else {bloom, bloom.bits}
    {
      bloom != null && !bloom.Holds(key, bloom.k)
    }

    /** Get agrees with linear lookup; decoded counts the entries it decodes. */
    method Get(key: Bytes) returns (r: GetResult, ghost decoded: nat)
      requires Valid()
      ensures key == [] ==> r == EmptyKey
      ensures key != [] ==> r == Answer(Find(es, key), srcs)
      ensures decoded == if key == [] || Filtered(key) then 0 else Reads(es, FloorIndex(es, interval, key, 0), key)
    {
      hide SidxFile, SparseOf, Less, AllFit, FloorAt, Ascending, Bloom.BloomFilter.Valid, Decodes, Find, Answer;
      hide Reads, FloorIndex;
      decoded := 0;
      if key == [] {
        return EmptyKey, 0;
      }
      if bloom != null {
        var may := bloom.MayContain(key);
        if !may {
          NoSuchKey(es, key);
          return Answer(None, srcs), 0;
        }
      }
      var pos := FloorOffset(key);
      ghost var j := FloorIndex(es, interval, key, 0);
      ghost var k := j;
      FloorBelow(es, interval, key, j);
      DecodesFrom(es, j);
      while true
        invariant j <= k <= |es| && Decodes(data, pos, es[k..], true) && AllBelow(es, k, key)
        invariant decoded + Reads(es, k, key) == Reads(es, j, key)
        decreases |es| - k
      {
        hide AllBelow;
        DecodeNext(data, pos, es, k);
        ReadsStep(es, k, key);
        var e := ReadSidxEntry(data, pos);
        if e.Got? { decoded := decoded + 1; }
        match e
        case Eof =>
          MissAtEnd(es, key);
          return Answer(None, srcs), decoded;
        case Truncated =>
          assert false;
        case Got(entry, next) =>
          if entry.key == key {
            FindHit(es, k);
            return Answer(Some(entry), srcs), decoded;
          }
          if Less(key, entry.key) {
            Miss(es, key, k);
            return Answer(None, srcs), decoded;
          }
          BelowMore(es, k, key);
          pos := next;
          k := k + 1;
      }
    }

    /** Reads on from entry k to the next match; a match whose line cannot be read ends the iteration. */
    method NextPrefixMatch(prefix: Bytes, pos: nat, ghost k: nat)
      returns (r: Option<(Bytes, Bytes)>, pos': nat, ghost k': nat)
      requires Valid() && k <= |es| && Decodes(data, pos, es[k..], true)
      ensures var found := Yields(WithPrefix(es[k..], prefix), srcs);
              r == if found == [] then None else Some(found[0])
      ensures k <= k' <= |es| && Decodes(data, pos', es[k'..], true)
      ensures r.Some? ==> k < k'
      ensures var found := Yields(WithPrefix(es[k..], prefix), srcs);
              if r.None? then found == [] else found == [r.value] + Yields(WithPrefix(es[k'..], prefix), srcs)
    {
      hide SidxFile, SparseOf, Less, AllFit, Ascending, Bloom.BloomFilter.Valid, Decodes, WithPrefix, LineOf;
      pos', k' := pos, k;
      while true
        invariant k <= k' <= |es| && Decodes(data, pos', es[k'..], true)
        invariant WithPrefix(es[k..], prefix) == WithPrefix(es[k'..], prefix)
        decreases |es| - k'
      {
        DecodeNext(data, pos', es, k');
        NextMatches(es, k', prefix);
        var e := ReadSidxEntry(data, pos');
        match e
        case Eof =>
          return None, pos', k';
        case Truncated =>
          assert false;
        case Got(entry, next) =>
          if Less(entry.key, prefix) {
            pos', k' := next, k' + 1;
            continue;
          }
          if !(prefix <= entry.key) {
            return None, pos', k';
          }
          var line := LineOf(srcs, entry);
          if line.None? {
            return None, pos', k';
          }
          return Some((entry.key, line.value)), next, k' + 1;
      }
    }

    /** What an iteration gives comes in order of its keys' bytes. */
    lemma PrefixInOrder(prefix: Bytes)
      requires Valid()
      ensures forall n: nat :: n <= |Yields(WithPrefix(es, prefix), srcs)| ==>
                InKeyOrder(Yields(WithPrefix(es, prefix), srcs)[..n])
    {
      hide Less, ComesBefore, SidxFile, SparseOf, AllFit, LineOf, Bloom.BloomFilter.Valid;
      var with := WithPrefix(es, prefix);
      var found := Yields(with, srcs);
      hide WithPrefix, Yields;
      PrefixAscends(es, prefix);
      YieldsKeys(with, srcs);
      forall i, j | 0 <= i < j < |found| ensures ComesBefore(found[i].0, found[j].0) {
        LessIff(with[i].key, with[j].key);
      }
    }

    /** The first n of what an iteration gives. */
    lemma FirstInOrder(prefix: Bytes, out: seq<(Bytes, Bytes)>, more: seq<(Bytes, Bytes)>)
      requires Valid() && out + more == Yields(WithPrefix(es, prefix), srcs)
      ensures InKeyOrder(out)
    {
      hide InKeyOrder, Valid, Yields, WithPrefix;
      PrefixInOrder(prefix);
      assert Yields(WithPrefix(es, prefix), srcs)[..|out|] == out;
    }

    /** Exactly the entries with the prefix, in order, until the consumer has had enough. */
    method Prefix(prefix: Bytes, enough: nat) returns (out: seq<(Bytes, Bytes)>)
      requires Valid() && enough > 0
      ensures var found := Yields(WithPrefix(es, prefix), srcs);
              out == if enough < |found| then found[..enough] else found
      ensures InKeyOrder(out)
    {
      hide InKeyOrder, SidxFile, SparseOf, Less, AllFit, Ascending, Bloom.BloomFilter.Valid, Decodes, WithPrefix, Yields, FloorAt;
      out := [];
      var pos := FloorOffset(prefix);
      ghost var j := FloorIndex(es, interval, prefix, 0);
      ghost var k := j;
      FloorBelow(es, interval, prefix, j);
      DecodesFrom(es, j);
      SkipsToFloor(es, prefix, j);
      while true
        invariant k <= |es| && Decodes(data, pos, es[k..], true) && |out| < enough
        invariant out + Yields(WithPrefix(es[k..], prefix), srcs) == Yields(WithPrefix(es, prefix), srcs)
        decreases |es| - k
      {
        var r, pos', k' := NextPrefixMatch(prefix, pos, k);
        if r.None? {
          FirstInOrder(prefix, out, Yields(WithPrefix(es[k..], prefix), srcs));
          return;
        }
        out := out + [r.value];
        pos, k := pos', k';
        if |out| >= enough {
          FirstInOrder(prefix, out, Yields(WithPrefix(es[k..], prefix), srcs));
          return;
        }
      }
    }
  }

  lemma NothingBefore(es: seq<Entry>)
    ensures EntryOffset(es, 0) == HEADER_LEN
  {}

  lemma SampleOffset(es: seq<Entry>, s: nat, r: seq<Sample>, i: nat)
    requires i < |r| && SampleAt(es, s, r, i)
    ensures 0 <= i * s < |es| && r[i].offset == EntryOffset(es, i * s)
  {}
}
