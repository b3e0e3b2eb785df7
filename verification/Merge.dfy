/** The merge half of a build: a heap of run heads, duplicates resolved, the directory sampled. */
module Merge {
  import opened Bytes
  import opened Lex
  import opened Entries
  import opened MergeHeap
  import opened Build
  import opened Spill
  import opened Sidx
  import Crc32
  import Bloom

  /** One already-sorted input: a run file, or the entries region of an existing sidx. */
  datatype Input = Input(data: Bytes, sidx: bool)

  type Heads = multiset<HeapItem>

  // ----- streams and the heap of their heads -------------------------------------------------

  /** From pos[i] on, input i gives exactly rest[i], in key order. */
  ghost predicate Streams(inputs: seq<Input>, pos: seq<nat>, rest: seq<seq<Entry>>) {
    && |inputs| == |pos| == |rest|
    && forall i :: 0 <= i < |inputs| ==> Decodes(inputs[i].data, pos[i], rest[i], inputs[i].sidx) && Sorted(rest[i])
  }

  /** The heap holds something of input i that is no later than all input i still has to give. */
  ghost predicate Covered(heads: Heads, rest: seq<seq<Entry>>, i: nat)
    requires i < |rest|
  {
    rest[i] == [] || exists x :: x in heads && x.runIdx == i && LessEq(x.entry.key, rest[i][0].key)
  }

  /** Every input but possibly those in skip is covered. */
  ghost predicate CoveredBut(heads: Heads, rest: seq<seq<Entry>>, skip: set<nat>) {
    && (forall x :: x in heads ==> x.runIdx < |rest|)
    && (forall i: nat :: i < |rest| && i !in skip ==> Covered(heads, rest, i))
  }

  ghost function HeadSet(heads: Heads): set<Entry> { set x | x in heads :: x.entry }

  /** Everything still to come out of the heap. */
  ghost function Pending(heads: Heads, rest: seq<seq<Entry>>): set<Entry> {
    HeadSet(heads) + UnionOf(rest)
  }

  function Left(rest: seq<seq<Entry>>): nat {
    if rest == [] then 0 else Left(rest[..|rest| - 1]) + |rest[|rest| - 1]|
  }

  lemma {:induction false} UnionMember(rest: seq<seq<Entry>>, e: Entry)
    ensures e in UnionOf(rest) <==> exists i :: 0 <= i < |rest| && e in rest[i]
  {
    if rest != [] {
      var n := |rest| - 1;
      UnionMember(rest[..n], e);
      if e in UnionOf(rest[..n]) {
        var i :| 0 <= i < n && e in rest[..n][i];
        assert e in rest[i];
      }
      if i :| 0 <= i < |rest| && e in rest[i] {
        assert i < n ==> e in rest[..n][i];
      }
    }
  }

  lemma {:induction false} TakeOne(rest: seq<seq<Entry>>, i: nat)
    requires i < |rest| && rest[i] != []
    ensures UnionOf(rest) == {rest[i][0]} + UnionOf(rest[i := rest[i][1..]])
    ensures Left(rest[i := rest[i][1..]]) == Left(rest) - 1
  {
    var n := |rest| - 1;
    if i == n {
      assert rest[i := rest[i][1..]][..n] == rest[..n];
      SetOfFront(rest[i][0], rest[i]);
    } else {
      assert rest[i := rest[i][1..]][..n] == rest[..n][i := rest[i][1..]];
      TakeOne(rest[..n], i);
    }
  }

  /** A least head is least of all that is pending. */
  lemma LeastPending(heads: Heads, rest: seq<seq<Entry>>, k: Bytes)
    requires CoveredBut(heads, rest, {}) && forall i :: 0 <= i < |rest| ==> Sorted(rest[i])
    requires forall x :: x in heads ==> LessEq(k, x.entry.key)
    ensures forall e :: e in Pending(heads, rest) ==> LessEq(k, e.key)
  {
    forall e | e in UnionOf(rest) ensures LessEq(k, e.key) {
      UnionMember(rest, e);
      var i :| 0 <= i < |rest| && e in rest[i];
      var j :| 0 <= j < |rest[i]| && rest[i][j] == e;
      assert Covered(heads, rest, i);
      var x :| x in heads && x.runIdx == i && LessEq(x.entry.key, rest[i][0].key);
      Irreflexive(e.key);
      Chain(k, x.entry.key, rest[i][0].key);
      Chain(k, rest[i][0].key, e.key);
    }
  }

  lemma NoHeadsNothingPending(heads: Heads, rest: seq<seq<Entry>>)
    requires CoveredBut(heads, rest, {}) && heads == multiset{}
    ensures Pending(heads, rest) == {}
  {
    forall e ensures e !in UnionOf(rest) {
      UnionMember(rest, e);
      forall i | 0 <= i < |rest| ensures e !in rest[i] {
        assert Covered(heads, rest, i);
      }
    }
  }

  lemma PopCovers(heads: Heads, rest: seq<seq<Entry>>, x: HeapItem)
    requires x in heads && CoveredBut(heads, rest, {})
    ensures x.runIdx < |rest| && CoveredBut(heads - multiset{x}, rest, {x.runIdx})
    ensures HeadSet(heads) == {x.entry} + HeadSet(heads - multiset{x})
  {}

  lemma PushCovers(heads: Heads, rest: seq<seq<Entry>>, i: nat, skip: set<nat>)
    requires i < |rest| && rest[i] != [] && Sorted(rest[i]) && CoveredBut(heads, rest, skip)
    ensures var heads' := heads + multiset{HeapItem(rest[i][0], i)}; var rest' := rest[i := rest[i][1..]];
            CoveredBut(heads', rest', skip - {i}) && Pending(heads', rest') == Pending(heads, rest)
  {
    var x := HeapItem(rest[i][0], i);
    var heads', rest' := heads + multiset{x}, rest[i := rest[i][1..]];
    TakeOne(rest, i);
    forall j: nat | j < |rest'| && j !in skip - {i} ensures Covered(heads', rest', j) {
      if j == i {
        assert x in heads';
        assert rest'[i] != [] ==> rest'[i][0] == rest[i][1];
      } else {
        assert Covered(heads, rest, j);
        if rest[j] != [] {
          var y :| y in heads && y.runIdx == j && LessEq(y.entry.key, rest[j][0].key);
          assert y in heads';
        }
      }
    }
    forall e ensures e in HeadSet(heads') <==> e in HeadSet(heads) || e == x.entry {
      if e in HeadSet(heads') {
        var y :| y in heads' && y.entry == e;
        assert y == x || y in heads;
      }
      if e in HeadSet(heads) {
        var y :| y in heads && y.entry == e;
        assert y in heads';
      }
      assert x in heads';
    }
  }

  // ----- one more canonical entry --------------------------------------------------------------

  /** w's key lies past every key of out, hence past everything out was made from. */
  lemma DoneBelow(out: seq<Entry>, done: set<Entry>, w: Entry, f: Entry)
    requires Canonical(out, done) && f in done && (out != [] ==> Less(out[|out| - 1].key, w.key))
    ensures Less(f.key, w.key)
  {
    hide Best, Ascending, Canonical, Less;
    CanonicalAscends(out, done);
    var i := CanonicalEntry(out, done, f);
    KeysBelow(out, i, w.key);
  }

  lemma KeysBelow(out: seq<Entry>, i: nat, k: Bytes)
    requires Ascending(out) && i < |out| && Less(out[|out| - 1].key, k)
    ensures Less(out[i].key, k)
  {
    Transitive(out[i].key, out[|out| - 1].key, k);
  }

  lemma ExtendAscends(out: seq<Entry>, w: Entry)
    requires Ascending(out) && (out != [] ==> Less(out[|out| - 1].key, w.key))
    ensures Ascending(out + [w])
  {
    forall i | 0 <= i < |out| ensures Less(out[i].key, w.key) {
      KeysBelow(out, i, w.key);
    }
  }

  lemma BestStays(e: Entry, done: set<Entry>, group: set<Entry>)
    requires Best(e, done) && forall g :: g in group ==> g.key != e.key
    ensures Best(e, done + group)
  {
    hide Better;
  }

  lemma BestOfGroup(done: set<Entry>, group: set<Entry>, w: Entry)
    requires w in group && forall g :: g in group ==> g.key == w.key && !Better(g, w)
    requires forall f :: f in done ==> f.key != w.key
    ensures Best(w, done + group)
  {
    hide Better;
  }

  /** group: everything with the next key; w: its best. Later keys are all greater. */
  lemma CanonicalExtends(out: seq<Entry>, done: set<Entry>, group: set<Entry>, w: Entry)
    requires Canonical(out, done) && w in group
    requires forall g :: g in group ==> g.key == w.key && !Better(g, w)
    requires out != [] ==> Less(out[|out| - 1].key, w.key)
    ensures Canonical(out + [w], done + group)
  {
    hide Ascending, Best, Better, Less;
    var all, out' := done + group, out + [w];
    Irreflexive(w.key);
    forall f | f in done ensures Less(f.key, w.key) && f.key != w.key {
      DoneBelow(out, done, w, f);
    }
    CanonicalAscends(out, done);
    ExtendAscends(out, w);
    BestOfGroup(done, group, w);
    forall i | 0 <= i < |out'| ensures Best(out'[i], all) {
      if i < |out| {
        BestOf(out, done, out[i]);
        BestStays(out[i], done, group);
      }
    }
    forall f | f in all ensures exists i :: 0 <= i < |out'| && out'[i].key == f.key {
      if f in done {
        var i := CanonicalEntry(out, done, f);
        assert out'[i].key == f.key;
      } else {
        assert out'[|out|].key == f.key;
      }
    }
  }

  // ----- the merge loop ----------------------------------------------------------------------------

  lemma AdvanceStep(inputs: seq<Input>, pos: seq<nat>, rest: seq<seq<Entry>>, i: nat)
    requires Streams(inputs, pos, rest) && i < |inputs|
    ensures var r := Read(inputs[i].data, pos[i], inputs[i].sidx);
            if rest[i] == [] then r == Eof
            else r.Got? && r.entry == rest[i][0] && Sorted(rest[i])
                 && Streams(inputs, pos[i := r.next], rest[i := rest[i][1..]])
  {}

  lemma NothingToCover(heads: Heads, rest: seq<seq<Entry>>, i: nat, skip: set<nat>)
    requires i < |rest| && rest[i] == [] && CoveredBut(heads, rest, skip)
    ensures CoveredBut(heads, rest, skip - {i})
  {}

  function Starts(n: nat): (s: seq<nat>)
    ensures |s| == n
  {
    seq(n, _ => 0)
  }

  ghost function UpTo(n: nat): (s: set<nat>)
    ensures forall j: nat :: j in s <==> j < n
  {
    if n == 0 then {} else UpTo(n - 1) + {n - 1}
  }

  lemma NothingPrimed(lists: seq<seq<Entry>>)
    ensures CoveredBut(multiset{}, lists, UpTo(|lists|)) && Pending(multiset{}, lists) == UnionOf(lists)
  {}

  /** The readers mergeRuns consumes and the heap of their heads. */
  class Merger {
    const inputs: seq<Input>
    const heap: MergeHeap
    var pos: seq<nat>
    ghost var rest: seq<seq<Entry>>

    ghost predicate Sound(skip: set<nat>)
      reads this, heap
    {
      |inputs| == |pos| == |rest| && heap.Valid() && Streams(inputs, pos, rest) && CoveredBut(multiset(heap.items), rest, skip)
    }

    ghost function Todo(): set<Entry>
      reads this, heap
    {
      Pending(multiset(heap.items), rest)
    }

    ghost function Size(): nat
      reads this, heap
    {
      2 * Left(rest) + |heap.items|
    }

    constructor (inputs: seq<Input>, ghost lists: seq<seq<Entry>>)
      requires Streams(inputs, Starts(|inputs|), lists)
      ensures this.inputs == inputs && fresh(heap) && Sound(UpTo(|inputs|)) && Todo() == UnionOf(lists)
    {
      this.inputs := inputs;
      heap := new MergeHeap();
      pos := Starts(|inputs|);
      rest := lists;
      new;
      NothingPrimed(lists);
      assert multiset(heap.items) == multiset{};
    }

    /** Pushes the first entry of every input. */
    method Prime()
      requires Sound(UpTo(|inputs|))
      modifies this, heap
      ensures Sound({}) && Todo() == old(Todo())
    {
      hide Streams, CoveredBut, Pending, Heap;
      ghost var skip := UpTo(|inputs|);
      for i := 0 to |inputs|
        invariant Sound(skip) && Todo() == old(Todo())
        invariant forall j: nat :: j in skip <==> i <= j < |inputs|
      {
        Advance(i, skip);
        skip := skip - {i};
      }
      assert skip == {};
    }

    /** Pushes the next entry of input i, if it has one. */
    method Advance(i: nat, ghost skip: set<nat>)
      requires Sound(skip) && i < |inputs|
      modifies this, heap
      ensures Sound(skip - {i}) && Todo() == old(Todo()) && Size() <= old(Size())
    {
      hide Streams, CoveredBut, Pending, Read, Heap;
      AdvanceStep(inputs, pos, rest, i);
      var r := Read(inputs[i].data, pos[i], inputs[i].sidx);
      match r
      case Got(e, next) =>
        PushCovers(multiset(heap.items), rest, i, skip);
        TakeOne(rest, i);
        heap.Push(HeapItem(e, i));
        pos := pos[i := next];
        rest := rest[i := rest[i][1..]];
      case Eof =>
        NothingToCover(multiset(heap.items), rest, i, skip);
      case Truncated =>
        assert false;
    }

    /** Takes a least head off the heap and refills it from its input. */
    method Take() returns (x: HeapItem)
      requires Sound({}) && heap.items != []
      modifies this, heap
      ensures Sound({}) && old(Todo()) == {x.entry} + Todo() && Size() < old(Size())
      ensures forall e :: e in Todo() ==> LessEq(x.entry.key, e.key)
      ensures x.entry.key == old(heap.items[0]).entry.key
    {
      hide Streams, CoveredBut, Pending, Covered, Heap, LessEq;
      ghost var heads := multiset(heap.items);
      ghost var before := rest;
      AllSorted(inputs, pos, rest);
      x := heap.Pop();
      TakeLeast(heads, multiset(heap.items), rest, x);
      Advance(x.runIdx, {x.runIdx});
      assert {x.runIdx} - {x.runIdx} == {};
    }

    lemma NothingTodo()
      requires Sound({}) && heap.items == []
      ensures Todo() == {}
    {
      hide CoveredBut;
      assert multiset(heap.items) == multiset{};
      NoHeadsNothingPending(multiset(heap.items), rest);
    }

    lemma SomethingTodo()
      requires Sound({}) && heap.items != []
      ensures Todo() != {}
    {
      hide CoveredBut;
      assert heap.items[0] in multiset(heap.items);
      assert heap.items[0].entry in Todo();
    }

    /** Takes every head with the least key, keeping the best of them. */
    method NextWinner() returns (winner: Entry, ghost group: set<Entry>)
      requires Sound({}) && heap.items != []
      modifies this, heap
      ensures Sound({}) && Size() < old(Size()) && old(Todo()) == group + Todo() && Wins(winner, group)
      ensures forall e :: e in Todo() ==> Less(winner.key, e.key)
    {
      hide Streams, CoveredBut, Pending, Heap, LessEq, Less, Better;
      var top := Take();
      winner := top.entry;
      group := {winner};
      WinsAlone(winner);
      while |heap.items| > 0 && heap.items[0].entry.key == winner.key
        invariant Sound({}) && Size() < old(Size()) && old(Todo()) == group + Todo() && Wins(winner, group)
        invariant forall e :: e in Todo() ==> LessEq(winner.key, e.key)
        decreases Size()
      {
        var dup := Take();
        WinsOver(winner, group, dup.entry);
        if Better(dup.entry, winner) {
          winner := dup.entry;
        }
        group := group + {dup.entry};
      }
      AllSorted(inputs, pos, rest);
      RestIsLater(heap.items, rest, winner.key);
    }
  }

  /** w is the best of a group of entries with one key. */
  ghost predicate Wins(w: Entry, group: set<Entry>) {
    w in group && forall g :: g in group ==> g.key == w.key && !Better(g, w)
  }

  lemma WinsAlone(w: Entry)
    ensures Wins(w, {w})
  {}

  lemma WinsOver(w: Entry, group: set<Entry>, e: Entry)
    requires Wins(w, group) && e.key == w.key
    ensures Wins(if Better(e, w) then e else w, group + {e})
  {}

  lemma RestIsLater(items: Items, rest: seq<seq<Entry>>, k: Bytes)
    requires Heap(items, |items|) && CoveredBut(multiset(items), rest, {}) && forall i :: 0 <= i < |rest| ==> Sorted(rest[i])
    requires items == [] || items[0].entry.key != k
    requires forall e :: e in Pending(multiset(items), rest) ==> LessEq(k, e.key)
    ensures forall e :: e in Pending(multiset(items), rest) ==> Less(k, e.key)
  {
    hide Heap, CoveredBut, Sorted, Less;
    var heads := multiset(items);
    if items == [] {
      assert heads == multiset{};
      NoHeadsNothingPending(heads, rest);
    } else {
      var root := items[0].entry;
      RootIsLeastOf(items);
      LeastPending(heads, rest, root.key);
      assert items[0] in heads;
      Total(k, root.key);
      forall e | e in Pending(heads, rest) ensures Less(k, e.key) {
        Chain(k, root.key, e.key);
      }
    }
  }

  lemma AllSorted(inputs: seq<Input>, pos: seq<nat>, rest: seq<seq<Entry>>)
    requires Streams(inputs, pos, rest)
    ensures forall i :: 0 <= i < |rest| ==> Sorted(rest[i])
  {}

  lemma TakeLeast(heads: Heads, less: Heads, rest: seq<seq<Entry>>, x: HeapItem)
    requires heads == less + multiset{x} && CoveredBut(heads, rest, {}) && forall i :: 0 <= i < |rest| ==> Sorted(rest[i])
    requires forall other :: other in heads ==> LessEq(x.entry.key, other.entry.key)
    ensures x.runIdx < |rest| && CoveredBut(less, rest, {x.runIdx})
    ensures Pending(heads, rest) == {x.entry} + Pending(less, rest)
    ensures forall e :: e in Pending(less, rest) ==> LessEq(x.entry.key, e.key)
  {
    PopCovers(heads, rest, x);
    assert less == heads - multiset{x};
    hide CoveredBut, Sorted, LessEq, HeadSet;
    LeastPending(heads, rest, x.entry.key);
  }

  // ----- mergeRuns -------------------------------------------------------------------------------

  /** The Bloom filter's hashes and the bit and probe counts its sizing formulas give. */
  datatype Sizing = Sizing(hashes: Bloom.Hashes, bits: nat, probes: nat)

  datatype Merged = Cancelled | BadSidx | Merged(sidx: Bytes, sparse: seq<Sample>)

  function KeysOf(es: seq<Entry>): set<Bytes> { set e | e in es :: e.key }

  function RunInputs(runs: seq<Bytes>): (inputs: seq<Input>)
    ensures |inputs| == |runs| && forall i :: 0 <= i < |runs| ==> inputs[i] == Input(runs[i], false)
  {
    seq(|runs|, i requires 0 <= i < |runs| => Input(runs[i], false))
  }

  /** If the existing sidx passes its checks, its region encodes es. */
  ghost predicate Existing(existing: Option<Bytes>, es: seq<Entry>) {
    && Ascending(es) && AllFit(es) && (existing.None? ==> es == [])
    && (existing.Some? && OpenSidx(existing.value).Some? ==> OpenSidx(existing.value).value.1 == EncodeAll(es, true))
  }

  lemma AscendingSorted(es: seq<Entry>)
    requires Ascending(es)
    ensures Sorted(es)
  {
    forall i, j | 0 <= i < j < |es| ensures LessEq(es[i].key, es[j].key) {
      Total(es[i].key, es[j].key);
    }
  }

  lemma RunStreams(runs: seq<Bytes>, lists: seq<seq<Entry>>)
    requires RunsHold(runs, lists)
    ensures Streams(RunInputs(runs), Starts(|runs|), lists)
  {
    hide Decodes, Sorted, AllFit;
    forall i | 0 <= i < |runs| ensures Decodes(runs[i], 0, lists[i], false) {
      DecodeEncoded([], lists[i], false);
      assert [] + runs[i] == runs[i];
    }
  }

  lemma SidxStream(inputs: seq<Input>, lists: seq<seq<Entry>>, es: seq<Entry>)
    requires Streams(inputs, Starts(|inputs|), lists) && Ascending(es) && AllFit(es)
    ensures Streams(inputs + [Input(EncodeAll(es, true), true)], Starts(|inputs| + 1), lists + [es])
    ensures UnionOf(lists + [es]) == UnionOf(lists) + SetOf(es)
  {
    hide Decodes, Sorted, AllFit, Ascending, EncodeAll;
    AscendingSorted(es);
    DecodeEncoded([], es, true);
    assert [] + EncodeAll(es, true) == EncodeAll(es, true);
    assert (lists + [es])[..|lists|] == lists;
    forall i | 0 <= i < |lists| ensures Starts(|inputs| + 1)[i] == Starts(|inputs|)[i] {}
  }

  /** Writing one more winner: body, directory and key set grow by it. */
  lemma OutStep(out: seq<Entry>, w: Entry, interval: nat)
    requires interval > 0
    ensures EncodeAll(out + [w], true) == EncodeAll(out, true) + EntryBytes(w)
    ensures SparseOf(out + [w], interval)
            == SparseOf(out, interval) + if |out| % interval == 0 then [Sample(w.key, HEADER_LEN + |EncodeAll(out, true)|)] else []
    ensures KeysOf(out + [w]) == KeysOf(out) + {w.key}
  {
    hide EntryBytes;
    assert (out + [w])[..|out|] == out;
    KeysWithLast(out, w);
  }

  lemma WroteNothing(interval: nat)
    requires interval > 0
    ensures EncodeAll([], true) == [] && SparseOf([], interval) == [] && KeysOf([]) == {}
  {}

  /** out is the canonical list of what is done, and all that is left comes later. */
  ghost predicate MergedSoFar(out: seq<Entry>, done: set<Entry>, left: set<Entry>) {
    Canonical(out, done) && (out != [] ==> forall e :: e in left ==> Less(out[|out| - 1].key, e.key))
  }

  lemma MergedNothing(left: set<Entry>)
    ensures MergedSoFar([], {}, left)
  {}

  lemma MergedMore(out: seq<Entry>, done: set<Entry>, left: set<Entry>, group: set<Entry>, left': set<Entry>, w: Entry)
    requires MergedSoFar(out, done, left) && left == group + left' && Wins(w, group)
    requires forall e :: e in left' ==> Less(w.key, e.key)
    ensures MergedSoFar(out + [w], done + group, left')
  {
    hide Canonical, Less, Better;
    assert w in left;
    CanonicalExtends(out, done, group, w);
  }

  lemma MergedAll(out: seq<Entry>, done: set<Entry>, left: set<Entry>, all: set<Entry>)
    requires MergedSoFar(out, done, left) && left == {} && all == done + left
    ensures Canonical(out, all)
  {}

  /** What a merge writes: the entries region, the sparse directory, the filter. */
  class Output {
    const interval: nat
    const bloom: Bloom.BloomFilter?
    var body: Bytes
    var sparse: seq<Sample>
    var count: nat
    var entryOff: nat
    ghost var out: seq<Entry>

    ghost function Frame(): set<object> {
      if bloom == null then {} else {bloom, bloom.bits}
    }

    ghost predicate Valid()
      reads this, Frame()
    {
      && interval > 0 && body == EncodeAll(out, true) && sparse == SparseOf(out, interval)
      && count == |out| && entryOff == |body|
      && (bloom != null ==> bloom.Valid() && bloom.Exact() && bloom.added == KeysOf(out))
    }

    constructor (interval: nat, sizing: Option<Sizing>)
      requires interval > 0
      ensures Valid() && fresh(Frame()) && out == [] && count == 0 && this.interval == interval && (bloom == null <==> sizing.None?)
    {
      this.interval := interval;
      body, sparse, count, entryOff, out := [], [], 0, 0, [];
      if sizing.Some? {
        var filter := new Bloom.BloomFilter(sizing.value.hashes, sizing.value.bits, sizing.value.probes);
        bloom := filter;
      } else {
        bloom := null;
      }
      new;
      WroteNothing(interval);
    }

    /** The finished files. */
    method Assemble() returns (r: Merged)
      requires Valid()
      ensures r == Merged(SidxFile(out), SparseOf(out, interval))
      ensures bloom != null ==> bloom.Valid() && bloom.Exact() && bloom.added == KeysOf(out)
    {
      r := Merged(Header(count) + body + Crc32.Checksum(body), sparse);
    }

    method Emit(winner: Entry)
      requires Valid()
      modifies this, Frame()
      ensures Valid() && out == old(out) + [winner] && count == |out|
    {
      hide EncodeAll, SparseOf, KeysOf, EntryBytes, Bloom.BloomFilter.Valid;
      OutStep(out, winner, interval);
      if count % interval == 0 {
        sparse := sparse + [Sample(winner.key, HEADER_LEN + entryOff)];
      }
      if bloom != null {
        bloom.Add(winner.key);
      }
      body := body + EntryBytes(winner);
      entryOff := entryOff + |EntryBytes(winner)|;
      count := count + 1;
      out := out + [winner];
    }
  }

  // ----- how many entries a merge writes -----------------------------------------------------

  ghost function Keys(all: set<Entry>): set<Bytes> { set e | e in all :: e.key }

  lemma {:induction false} AscendingKeys(out: seq<Entry>)
    requires Ascending(out)
    ensures |KeysOf(out)| == |out|
  {
    if out == [] {
      assert KeysOf(out) == {};
    } else {
      var n := |out| - 1;
      AscendingKeys(out[..n]);
      Irreflexive(out[n].key);
      assert out == out[..n] + [out[n]];
      KeysWithLast(out[..n], out[n]);
    }
  }

  lemma KeysWithLast(out: seq<Entry>, w: Entry)
    ensures KeysOf(out + [w]) == KeysOf(out) + {w.key}
  {
    forall k ensures k in KeysOf(out + [w]) <==> k in KeysOf(out) || k == w.key {
      assert w in out + [w];
      forall e | e in out ensures e in out + [w] {}
    }
  }

  /** A canonical list has one entry for every key of its set. */
  lemma CanonicalLength(out: seq<Entry>, all: set<Entry>)
    requires Canonical(out, all)
    ensures KeysOf(out) == Keys(all) && |out| == |Keys(all)|
  {
    hide Best, Ascending, Canonical;
    CanonicalAscends(out, all);
    AscendingKeys(out);
    forall k ensures k in KeysOf(out) <==> k in Keys(all) {
      if k in KeysOf(out) {
        var e :| e in out && e.key == k;
        BestOf(out, all, e);
      }
      if k in Keys(all) {
        var f :| f in all && f.key == k;
        var j := CanonicalEntry(out, all, f);
        assert out[j] in out;
      }
    }
  }

  /** While anything is left, fewer entries have been written than there are keys. */
  lemma MergedFewer(out: seq<Entry>, done: set<Entry>, left: set<Entry>, all: set<Entry>)
    requires MergedSoFar(out, done, left) && left != {} && all == done + left
    ensures |out| < |Keys(all)|
  {
    hide Canonical, Less;
    CanonicalLength(out, done);
    var e :| e in left;
    Irreflexive(e.key);
    assert forall f :: f in done ==> f.key != e.key by {
      forall f | f in done ensures f.key != e.key { DoneBelow(out, done, e, f); }
    }
    assert e.key in Keys(all) && e.key !in Keys(done);
    SubsetSmaller(Keys(done), Keys(all));
  }

  lemma SubsetSmaller<T>(a: set<T>, b: set<T>)
    requires a < b
    ensures |a| < |b|
  {
    assert b == a + (b - a);
  }

  /** The context is not cancelled at any check of the first n entries. */
  ghost predicate MergeQuiet(ctx: Context, n: nat) {
    forall m: nat :: m < n && m % CTX_CHECK_INTERVAL == 0 ==> !ctx.atMerge(m)
  }

  lemma NotQuiet(ctx: Context, n: nat, total: nat)
    requires n < total && n % CTX_CHECK_INTERVAL == 0 && ctx.atMerge(n)
    ensures !MergeQuiet(ctx, total)
  {}

  lemma QuietSoFar(ctx: Context, n: nat)
    ensures MergeQuiet(ctx, 0)
    ensures MergeQuiet(ctx, n) && !(n % CTX_CHECK_INTERVAL == 0 && ctx.atMerge(n)) ==> MergeQuiet(ctx, n + 1)
  {}

  /** Opens the runs, and the existing sidx as one more input. None when that does not pass its checks. */
  method OpenInputs(runs: seq<Bytes>, existing: Option<Bytes>, ghost lists: seq<seq<Entry>>, ghost es: seq<Entry>)
    returns (inputs: Option<seq<Input>>, ghost streams: seq<seq<Entry>>)
    requires RunsHold(runs, lists) && Existing(existing, es)
    ensures inputs.None? <==> existing.Some? && OpenSidx(existing.value).None?
    ensures inputs.Some? ==> Streams(inputs.value, Starts(|inputs.value|), streams)
    ensures inputs.Some? ==> UnionOf(streams) == UnionOf(lists) + SetOf(es)
  {
    hide Streams, EncodeAll, UnionOf, SetOf, RunsHold;
    RunStreams(runs, lists);
    if existing.None? {
      SetOfNothing();
      return Some(RunInputs(runs)), lists;
    }
    var region := OpenSidx(existing.value);
    if region.None? {
      return None, [];
    }
    SidxStream(RunInputs(runs), lists, es);
    return Some(RunInputs(runs) + [Input(region.value.1, true)]), lists + [es];
  }

  /** The merge loop: takes winners until no head is left. False exactly when a check it reaches finds the context cancelled. */
  method MergeLoop(merger: Merger, output: Output, ctx: Context) returns (ok: bool)
    requires merger.Sound({}) && output.Valid() && output.out == [] && output.count == 0
    modifies merger, merger.heap, output, output.Frame()
    ensures output.Valid()
    ensures ok <==> MergeQuiet(ctx, |Keys(old(merger.Todo()))|)
    ensures ok ==> Canonical(output.out, old(merger.Todo()))
  {
    hide Streams, Pending, Heap, Less, Canonical, EncodeAll, SparseOf, UnionOf, SetOf, KeysOf, RunsHold, Existing;
    hide OpenSidx, SidxFile, Output.Valid, Merger.Sound, Merger.Todo;
    hide Merger.Size, MergedSoFar, Wins, Bloom.BloomFilter.Valid, Bloom.BloomFilter.Exact, MergeQuiet, Keys;
    ghost var all := merger.Todo();
    ghost var done: set<Entry> := {};
    MergedNothing(merger.Todo());
    QuietSoFar(ctx, 0);
    while |merger.heap.items| > 0
      invariant merger.Sound({}) && old(merger.Todo()) == done + merger.Todo()
      invariant output.Valid() && output.count == |output.out|
      invariant MergedSoFar(output.out, done, merger.Todo()) && MergeQuiet(ctx, output.count)
      decreases merger.Size()
    {
      ghost var left := merger.Todo();
      if output.count % CTX_CHECK_INTERVAL == 0 && ctx.atMerge(output.count) {
        merger.SomethingTodo();
        MergedFewer(output.out, done, left, all);
        NotQuiet(ctx, output.count, |Keys(all)|);
        return false;
      }
      QuietSoFar(ctx, output.count);
      var winner, group := merger.NextWinner();
      MergedMore(output.out, done, left, group, merger.Todo(), winner);
      output.Emit(winner);
      done := done + group;
    }
    merger.NothingTodo();
    MergedAll(output.out, done, merger.Todo(), all);
    CanonicalLength(output.out, all);
    return true;
  }

  /**
   * mergeRuns: the k-way merge of sorted runs, and of an existing sidx if one is given. Unless a
   * check it reaches finds it cancelled, or the existing sidx does not pass its checks, the output is the sidx file and
   * sparse directory of the canonical list of all inputs.
   */
  method MergeRuns(ctx: Context, runs: seq<Bytes>, existing: Option<Bytes>, interval: nat, sizing: Option<Sizing>,
                   ghost lists: seq<seq<Entry>>, ghost es: seq<Entry>)
    returns (r: Merged, bloom: Bloom.BloomFilter?, ghost out: seq<Entry>)
    requires RunsHold(runs, lists) && Existing(existing, es) && interval > 0
    ensures r.BadSidx? <==> existing.Some? && OpenSidx(existing.value).None?
    ensures r.Merged? <==> !r.BadSidx? && MergeQuiet(ctx, |Keys(UnionOf(lists) + SetOf(es))|)
    ensures r.Merged? ==> Canonical(out, UnionOf(lists) + SetOf(es))
    ensures r.Merged? ==> forall i, j :: 0 <= i < j < |out| ==> ComesBefore(out[i].key, out[j].key)
    ensures r.Merged? ==> r.sidx == SidxFile(out) && r.sparse == SparseOf(out, interval)
    ensures r.Merged? ==> (bloom == null <==> sizing.None?)
    ensures bloom != null ==> bloom.Valid() && fresh(bloom) && (r.Merged? ==> bloom.Exact() && bloom.added == KeysOf(out))
  {
    hide Streams, Canonical, SparseOf, UnionOf, SetOf, KeysOf, RunsHold, Existing, OpenSidx, SidxFile, Output.Valid;
    hide Merger.Sound, Merger.Todo, Bloom.BloomFilter.Valid, Bloom.BloomFilter.Exact, MergeQuiet, Keys, Ascending, ComesBefore;
    out, bloom := [], null;
    var inputs, streams := OpenInputs(runs, existing, lists, es);
    if inputs.None? {
      return BadSidx, null, [];
    }
    var merger := new Merger(inputs.value, streams);
    merger.Prime();
    var output := new Output(interval, sizing);
    var ok := MergeLoop(merger, output, ctx);
    if !ok {
      return Cancelled, null, output.out;
    }
    out, bloom := output.out, output.bloom;
    CanonicalAscends(out, UnionOf(lists) + SetOf(es));
    AscendingIff(out);
    r := output.Assemble();
  }
}
