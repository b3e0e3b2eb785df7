/** Sorted-index entries: their two encodings, the order duplicates are resolved by, canonical lists. */
module Entries {
  import opened Bytes
  import opened Lex

  /** A key and where its line lives: source file, byte offset, length. */
  datatype Entry = Entry(key: Bytes, fileIdx: nat, srcOff: nat, length: nat)

  ghost predicate Fits(e: Entry) {
    1 <= |e.key| < 0x1_0000 && e.fileIdx < 0x1_0000 && e.srcOff < TWO64 && e.length < TWO32
  }

  ghost predicate AllFit(es: seq<Entry>) {
    forall i :: 0 <= i < |es| ==> Fits(es[i])
  }

  // ----- order -----------------------------------------------------------------------

  ghost predicate Sorted(es: seq<Entry>) {
    forall i, j :: 0 <= i < j < |es| ==> LessEq(es[i].key, es[j].key)
  }

  ghost predicate Ascending(es: seq<Entry>) {
    forall i, j :: 0 <= i < j < |es| ==> Less(es[i].key, es[j].key)
  }

  /** Ascending by the first byte that differs. */
  lemma AscendingIff(es: seq<Entry>)
    ensures Ascending(es) <==> forall i, j :: 0 <= i < j < |es| ==> ComesBefore(es[i].key, es[j].key)
  {
    hide Less, ComesBefore;
    forall i, j | 0 <= i < j < |es| ensures Less(es[i].key, es[j].key) <==> ComesBefore(es[i].key, es[j].key) {
      LessIff(es[i].key, es[j].key);
    }
  }

  /** betterDup: the later file wins, and within a file the later line. */
  predicate Better(candidate: Entry, current: Entry) {
    if candidate.fileIdx != current.fileIdx then candidate.fileIdx > current.fileIdx
    else candidate.srcOff > current.srcOff
  }

  /** e is among all, and nothing in all beats it for its key. */
  ghost predicate Best(e: Entry, all: set<Entry>) {
    e in all && forall f :: f in all && f.key == e.key ==> !Better(f, e)
  }

  /** The canonical list of a set of entries: ascending keys, exactly its keys, each with its best entry. */
  ghost predicate Canonical(out: seq<Entry>, all: set<Entry>) {
    && Ascending(out)
    && (forall i :: 0 <= i < |out| ==> Best(out[i], all))
    && (forall f :: f in all ==> exists i :: 0 <= i < |out| && out[i].key == f.key)
  }

  /** No two entries name the same place: a line has one key and one length. */
  ghost predicate Consistent(all: set<Entry>) {
    forall e, f :: e in all && f in all && e.fileIdx == f.fileIdx && e.srcOff == f.srcOff ==> e == f
  }

  lemma BestUnique(e: Entry, f: Entry, all: set<Entry>)
    requires Consistent(all) && Best(e, all) && Best(f, all) && e.key == f.key
    ensures e == f
  {}

  lemma CanonicalEntry(out: seq<Entry>, all: set<Entry>, f: Entry) returns (j: nat)
    requires Canonical(out, all) && f in all
    ensures j < |out| && out[j].key == f.key && Best(out[j], all)
  {
    hide Ascending, Better, Best;
    j :| 0 <= j < |out| && out[j].key == f.key;
  }

  /** The canonical list is a function of the set. */
  lemma CanonicalUnique(a: seq<Entry>, b: seq<Entry>, all: set<Entry>)
    requires Consistent(all) && Canonical(a, all) && Canonical(b, all)
    ensures a == b
  {
    hide Best, Better, Ascending;
    forall e ensures e in a <==> e in b {
      CanonicalMember(a, b, all, e);
      CanonicalMember(b, a, all, e);
    }
    AscendingUnique(a, b);
  }

  lemma CanonicalMember(a: seq<Entry>, b: seq<Entry>, all: set<Entry>, e: Entry)
    requires Consistent(all) && Canonical(a, all) && Canonical(b, all)
    ensures e in a ==> e in b
  {
    if e in a {
      BestOf(a, all, e);
      hide Canonical, Best, Better, Consistent;
      var j := CanonicalEntry(b, all, e);
      BestUnique(e, b[j], all);
    }
  }

  lemma BestOf(a: seq<Entry>, all: set<Entry>, e: Entry)
    requires Canonical(a, all) && e in a
    ensures Best(e, all) && e in all
  {
    hide Ascending, Better;
    var i :| 0 <= i < |a| && a[i] == e;
  }

  lemma {:induction false} AscendingUnique(a: seq<Entry>, b: seq<Entry>)
    requires Ascending(a) && Ascending(b)
    requires forall e :: e in a <==> e in b
    ensures a == b
    decreases |a|
  {
    if a == [] {
      if b != [] { HasMember(b); }
    } else {
      assert a[0] in b && b[0] in a;
      FirstIsLeast(a, b);
      assert a[0] == b[0];
      forall e ensures e in a[1..] <==> e in b[1..] {
        NotFirst(a, e);
        NotFirst(b, e);
      }
      AscendingUnique(a[1..], b[1..]);
    }
  }

  lemma HasMember(b: seq<Entry>)
    requires b != []
    ensures b[0] in b
  {}

  lemma FirstIsLeast(a: seq<Entry>, b: seq<Entry>)
    requires Ascending(a) && Ascending(b) && a != [] && b != [] && a[0] in b && b[0] in a
    ensures a[0] == b[0]
  {
    var i :| 0 <= i < |b| && b[i] == a[0];
    var j :| 0 <= j < |a| && a[j] == b[0];
    Total(a[0].key, b[0].key);
  }

  lemma NotFirst(a: seq<Entry>, e: Entry)
    requires Ascending(a) && a != []
    ensures e in a[1..] <==> e in a && e != a[0]
  {
    forall i | 1 <= i < |a| ensures a[i] != a[0] {
      Irreflexive(a[0].key);
    }
    if e in a && e != a[0] {
      var i :| 0 <= i < |a| && a[i] == e;
      assert a[1..][i - 1] == e;
    }
  }

  // ----- encodings ---------------------------------------------------------------------

  /** One entry of the sidx file. */
  function EntryBytes(e: Entry): (s: Bytes)
    ensures |s| == 16 + |e.key|
  {
    PutBE(|e.key|, 2) + e.key + PutBE(e.fileIdx, 2) + PutBE(e.srcOff, 8) + PutBE(e.length, 4)
  }

  /** One entry of a run file: the fixed-size part first. */
  function RunEntryBytes(e: Entry): (s: Bytes)
    ensures |s| == 16 + |e.key|
  {
    PutBE(|e.key|, 2) + PutBE(e.fileIdx, 2) + PutBE(e.srcOff, 8) + PutBE(e.length, 4) + e.key
  }

  function Encode(e: Entry, sidx: bool): (s: Bytes)
    ensures |s| == 16 + |e.key|
  {
    if sidx then EntryBytes(e) else RunEntryBytes(e)
  }

  function EncodeAll(es: seq<Entry>, sidx: bool): Bytes {
    if es == [] then [] else EncodeAll(es[..|es| - 1], sidx) + Encode(es[|es| - 1], sidx)
  }

  /** Reading stops at a clean end, or inside an entry, or gives an entry and where the next one starts. */
  datatype ReadResult = Eof | Truncated | Got(entry: Entry, next: nat)

  /** ReadFull within [pos, end): nothing left is EOF, less than n bytes is truncation. */
  datatype Field = FieldEof | FieldShort | Value(bytes: Bytes)

  function ReadField(data: Bytes, pos: nat, n: nat): Field {
    if n == 0 then Value([])
    else if pos >= |data| then FieldEof
    else if pos + n > |data| then FieldShort
    else Value(data[pos..pos + n])
  }

  function Stop(f: Field): ReadResult
  {
    if f.FieldEof? then Eof else Truncated
  }

  /** readSidxEntry: each field read on its own, so running out between two fields reads as EOF. */
  function ReadSidxEntry(data: Bytes, pos: nat): ReadResult {
    var k := ReadField(data, pos, 2);
    if !k.Value? then Stop(k) else
    var n := GetBE(k.bytes);
    var key := ReadField(data, pos + 2, n);
    if !key.Value? then Stop(key) else
    var f := ReadField(data, pos + 2 + n, 2);
    if !f.Value? then Stop(f) else
    var o := ReadField(data, pos + 4 + n, 8);
    if !o.Value? then Stop(o) else
    var l := ReadField(data, pos + 12 + n, 4);
    if !l.Value? then Stop(l) else
    Got(Entry(key.bytes, GetBE(f.bytes), GetBE(o.bytes), GetBE(l.bytes)), pos + 16 + n)
  }

  /** runReader.next: a 16-byte header, then the key. */
  function ReadRunEntry(data: Bytes, pos: nat): ReadResult {
    var h := ReadField(data, pos, 16);
    if !h.Value? then Stop(h) else
    var n := GetBE(h.bytes[0..2]);
    var key := ReadField(data, pos + 16, n);
    if !key.Value? then Stop(key) else
    Got(Entry(key.bytes, GetBE(h.bytes[2..4]), GetBE(h.bytes[4..12]), GetBE(h.bytes[12..16])), pos + 16 + n)
  }

  function Read(data: Bytes, pos: nat, sidx: bool): ReadResult {
    if sidx then ReadSidxEntry(data, pos) else ReadRunEntry(data, pos)
  }

  /** The fields of an encoded entry, in place. */
  lemma SidxFields(s: Bytes, e: Entry)
    requires s == EntryBytes(e)
    ensures var n := |e.key|;
            s[0..2] == PutBE(n, 2) && s[2..2 + n] == e.key && s[2 + n..4 + n] == PutBE(e.fileIdx, 2)
            && s[4 + n..12 + n] == PutBE(e.srcOff, 8) && s[12 + n..16 + n] == PutBE(e.length, 4)
  {}

  lemma ReadSidxBack(data: Bytes, pos: nat, e: Entry)
    requires Fits(e) && pos + |EntryBytes(e)| <= |data| && data[pos..pos + |EntryBytes(e)|] == EntryBytes(e)
    ensures ReadSidxEntry(data, pos) == Got(e, pos + |EntryBytes(e)|)
  {
    Widths();
    hide PutBE, GetBE, Pow256, EntryBytes;
    var n, s := |e.key|, EntryBytes(e);
    SidxFields(s, e);
    GetPutBE(n, 2); GetPutBE(e.fileIdx, 2); GetPutBE(e.srcOff, 8); GetPutBE(e.length, 4);
    SliceOfSlice(data, pos, pos + |s|, 0, 2);
    SliceOfSlice(data, pos, pos + |s|, 2, 2 + n);
    SliceOfSlice(data, pos, pos + |s|, 2 + n, 4 + n);
    SliceOfSlice(data, pos, pos + |s|, 4 + n, 12 + n);
    SliceOfSlice(data, pos, pos + |s|, 12 + n, 16 + n);
  }

  /** The fields of a run entry, in place. */
  lemma RunFields(s: Bytes, e: Entry)
    requires s == RunEntryBytes(e)
    ensures var h := s[0..16];
            h[0..2] == PutBE(|e.key|, 2) && h[2..4] == PutBE(e.fileIdx, 2) && h[4..12] == PutBE(e.srcOff, 8)
            && h[12..16] == PutBE(e.length, 4) && s[16..16 + |e.key|] == e.key
  {}

  lemma ReadRunBack(data: Bytes, pos: nat, e: Entry)
    requires Fits(e) && pos + |RunEntryBytes(e)| <= |data| && data[pos..pos + |RunEntryBytes(e)|] == RunEntryBytes(e)
    ensures ReadRunEntry(data, pos) == Got(e, pos + |RunEntryBytes(e)|)
  {
    hide PutBE, GetBE, Pow256, RunEntryBytes;
    var n, s := |e.key|, RunEntryBytes(e);
    Widths();
    RunFields(s, e);
    GetPutBE(n, 2); GetPutBE(e.fileIdx, 2); GetPutBE(e.srcOff, 8); GetPutBE(e.length, 4);
    SliceOfSlice(data, pos, pos + |s|, 0, 16);
    SliceOfSlice(data, pos, pos + |s|, 16, 16 + n);
  }

  /** Reading from pos gives exactly es, then a clean end. */
  ghost predicate Decodes(data: Bytes, pos: nat, es: seq<Entry>, sidx: bool)
    decreases |es|
  {
    if es == [] then Read(data, pos, sidx) == Eof
    else
      var r := Read(data, pos, sidx);
      r.Got? && r.entry == es[0] && Decodes(data, r.next, es[1..], sidx)
  }

  lemma EncodeAllBack(es: seq<Entry>, sidx: bool)
    requires es != []
    ensures EncodeAll(es, sidx) == EncodeAll(es[..|es| - 1], sidx) + Encode(es[|es| - 1], sidx)
  {
    hide Encode;
  }

  lemma {:induction false} EncodeAllFront(es: seq<Entry>, sidx: bool)
    requires es != []
    ensures EncodeAll(es, sidx) == Encode(es[0], sidx) + EncodeAll(es[1..], sidx)
  {
    hide Encode, EncodeAll;
    var n := |es| - 1;
    EncodeAllBack(es, sidx);
    if n == 0 {
      assert es[1..] == [] && es[..0] == [];
      EncodeNothing(sidx);
    } else {
      EncodeAllFront(es[..n], sidx);
      EncodeAllBack(es[1..], sidx);
      var middle := es[1..][..n - 1];
      assert es[..n][1..] == middle;
      var a, b, c := Encode(es[0], sidx), EncodeAll(middle, sidx), Encode(es[n], sidx);
      assert a + b + c == a + (b + c);
    }
  }

  lemma EncodeNothing(sidx: bool)
    ensures EncodeAll([], sidx) == []
  {}

  lemma {:induction false} DecodeEncoded(a: Bytes, es: seq<Entry>, sidx: bool)
    requires AllFit(es)
    ensures Decodes(a + EncodeAll(es, sidx), |a|, es, sidx)
    decreases |es|
  {
    hide Encode, ReadSidxEntry, ReadRunEntry, Fits;
    var data := a + EncodeAll(es, sidx);
    if es == [] {
      ReadAtEnd(data, sidx);
    } else {
      EncodeAllFront(es, sidx);
      var first := Encode(es[0], sidx);
      ReadBack(data, |a|, es[0], sidx);
      assert data == a + first + EncodeAll(es[1..], sidx);
      DecodeEncoded(a + first, es[1..], sidx);
    }
  }

  lemma ReadAtEnd(data: Bytes, sidx: bool)
    ensures Read(data, |data|, sidx) == Eof
  {}

  lemma ReadBack(data: Bytes, pos: nat, e: Entry, sidx: bool)
    requires Fits(e) && pos + |Encode(e, sidx)| <= |data| && data[pos..pos + |Encode(e, sidx)|] == Encode(e, sidx)
    ensures Read(data, pos, sidx) == Got(e, pos + |Encode(e, sidx)|)
  {
    hide ReadSidxEntry, ReadRunEntry, EntryBytes, RunEntryBytes, Fits;
    if sidx { ReadSidxBack(data, pos, e); } else { ReadRunBack(data, pos, e); }
  }
}
