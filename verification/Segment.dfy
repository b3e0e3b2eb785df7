/** One append-only segment: the log of records and how it is read back. */
module Segment {
  import opened Bytes
  import opened Record

  /** A mapped file of |data| bytes (its capacity), the first size of them used. */
  datatype SegFile = SegFile(data: Bytes, size: nat) {
    predicate Valid() { size <= |data| }

    function Remaining(): int { |data| - size }

    /** None when the record does not fit. */
    function Append(record: Bytes): Option<SegFile>
      requires Valid()
    {
      if size + |record| > |data| then None
      else Some(SegFile(data[..size] + record + data[size + |record|..], size + |record|))
    }

    /** None when the range leaves the mapping. */
    function ReadAt(offset: nat, length: nat): Option<Bytes> {
      if offset + length > |data| then None else Some(data[offset..offset + length])
    }

    /** Truncates the file to its used size, which extends it should that be past its end. */
    function Finalize(): SegFile {
      SegFile(if size <= |data| then data[..size] else data + Zeros(size - |data|), size)
    }
  }

  function NewSegment(capacity: nat): SegFile { SegFile(Zeros(capacity), 0) }

  /** What forEach hands its callback. */
  datatype Visit = Visit(off: nat, header: Header, key: Bytes, value: Bytes)

  datatype ScanResult = ScanResult(visits: seq<Visit>, end: nat)

  /** The full, checksum-valid record that starts at off, if there is one. */
  function ParseRecord(data: Bytes, off: nat): (v: Option<Visit>)
    ensures v.Some? ==> v.value.off == off && Next(v.value) <= |data|
  {
    if off + HEADER_SIZE > |data| then None else
    var h := DecodeHeader(data[off..off + HEADER_SIZE]);
    var total := RecordSize(h.keyLen, h.valLen);
    if off + total > |data| then None else
    var record := data[off..off + total];
    if !VerifyChecksum(record) then None else
    Some(Visit(off, h, record[HEADER_SIZE..HEADER_SIZE + h.keyLen], record[HEADER_SIZE + h.keyLen..]))
  }

  function Next(v: Visit): nat { v.off + RecordSize(v.header.keyLen, v.header.valLen) }

  /** The walk of forEach: records one after the other until one cannot be read. */
  function Scan(data: Bytes, off: nat): ScanResult
    decreases |data| - off
  {
    match ParseRecord(data, off)
    case None => ScanResult([], off)
    case Some(v) =>
      var rest := Scan(data, Next(v));
      ScanResult([v] + rest.visits, rest.end)
  }

  lemma ScanStep(data: Bytes, off: nat)
    ensures match ParseRecord(data, off)
      case None => Scan(data, off) == ScanResult([], off)
      case Some(v) =>
        Scan(data, off) == var rest := Scan(data, Next(v)); ScanResult([v] + rest.visits, rest.end)
  {
    hide ParseRecord;
  }

  // ----- logs ------------------------------------------------------------------

  ghost predicate EncodableLog(rs: seq<Record>) {
    forall i :: 0 <= i < |rs| ==> Encodable(rs[i])
  }

  /** Bytes a log of records takes up. */
  function Used(rs: seq<Record>): nat {
    if rs == [] then 0 else Used(rs[..|rs| - 1]) + Size(rs[|rs| - 1])
  }

  function EncodeAll(rs: seq<Record>): (s: Bytes)
    requires EncodableLog(rs)
    ensures |s| == Used(rs)
  {
    if rs == [] then [] else EncodeAll(rs[..|rs| - 1]) + Encode(rs[|rs| - 1])
  }

  /** Where record j of the log starts. */
  function Offset(rs: seq<Record>, j: nat): nat
    requires j <= |rs|
  {
    Used(rs[..j])
  }

  lemma OffsetNext(rs: seq<Record>, j: nat)
    requires j < |rs|
    ensures Offset(rs, j + 1) == Offset(rs, j) + Size(rs[j])
  {
    assert rs[..j + 1][..j] == rs[..j];
  }

  lemma {:induction false} OffsetMonotone(rs: seq<Record>, i: nat, j: nat)
    requires i <= j <= |rs|
    ensures Offset(rs, i) + HEADER_SIZE * (j - i) <= Offset(rs, j) <= Used(rs)
    decreases |rs| - i
  {
    if i == |rs| {
      assert rs[..i] == rs;
    } else {
      OffsetNext(rs, i);
      OffsetMonotone(rs, i + 1, if i < j then j else i + 1);
    }
  }

  /** data begins with the encoded log. */
  ghost predicate Holds(data: Bytes, rs: seq<Record>) {
    EncodableLog(rs) && Used(rs) <= |data| && data[..Used(rs)] == EncodeAll(rs)
  }

  lemma HoldsPrefix(data: Bytes, rs: seq<Record>)
    requires Holds(data, rs) && rs != []
    ensures Holds(data, rs[..|rs| - 1])
    ensures data[Used(rs[..|rs| - 1])..Used(rs)] == Encode(rs[|rs| - 1])
  {
    hide Encode;
    var n := |rs| - 1;
    var a, b := EncodeAll(rs[..n]), Encode(rs[n]);
    SliceOfSlice(data, 0, Used(rs), 0, |a|);
    SliceOfSlice(data, 0, Used(rs), |a|, Used(rs));
    assert (a + b)[0..|a|] == a && (a + b)[|a|..] == b;
  }

  lemma OffsetInPrefix(rs: seq<Record>, n: nat, j: nat)
    requires j <= n <= |rs|
    ensures Offset(rs[..n], j) == Offset(rs, j)
  {
    hide Used;
    assert rs[..n][..j] == rs[..j];
  }

  lemma UsedLast(rs: seq<Record>)
    requires rs != []
    ensures var n := |rs| - 1; Used(rs) == Offset(rs, n) + Size(rs[n]) && Offset(rs, n) == Used(rs[..n])
  {
    hide Size;
  }

  lemma HeldEncodable(data: Bytes, rs: seq<Record>)
    requires Holds(data, rs)
    ensures forall i :: 0 <= i < |rs| ==> Encodable(rs[i])
    ensures Used(rs) <= |data|
  {}

  /** bytes sit at off. */
  ghost predicate At(data: Bytes, off: nat, bytes: Bytes) {
    off + |bytes| <= |data| && data[off..off + |bytes|] == bytes
  }

  lemma LastInPlace(data: Bytes, rs: seq<Record>)
    requires Holds(data, rs) && rs != []
    ensures Encodable(rs[|rs| - 1]) && At(data, Offset(rs, |rs| - 1), Encode(rs[|rs| - 1]))
  {
    hide Encode, EncodeAll, Used;
    HoldsPrefix(data, rs);
    UsedLast(rs);
  }

  lemma {:induction false} EncodedAt(data: Bytes, rs: seq<Record>, j: nat)
    requires Holds(data, rs) && j < |rs|
    ensures Encodable(rs[j]) && At(data, Offset(rs, j), Encode(rs[j]))
  {
    hide Holds, Encodable, Encode, At, Used, Offset;
    var n := |rs| - 1;
    LastInPlace(data, rs);
    if j < n {
      HoldsPrefix(data, rs);
      OffsetInPrefix(rs, n, j);
      EncodedAt(data, rs[..n], j);
      assert rs[..n][j] == rs[j];
    }
  }

  /** Record j of a log sits at its offset. */
  lemma RecordInPlace(data: Bytes, rs: seq<Record>, j: nat)
    requires Holds(data, rs) && j < |rs|
    ensures Offset(rs, j) + Size(rs[j]) <= Used(rs)
    ensures data[Offset(rs, j)..Offset(rs, j) + Size(rs[j])] == Encode(rs[j])
  {
    hide Holds, Encode, Encodable, Used, EncodableLog;
    EncodedAt(data, rs, j);
    OffsetNext(rs, j);
    OffsetMonotone(rs, j + 1, |rs|);
  }

  // ----- scanning undoes encoding ------------------------------------------------

  function VisitOf(rs: seq<Record>, j: nat): Visit
    requires EncodableLog(rs) && j < |rs|
  {
    Visit(Offset(rs, j), HeaderOf(rs[j]), rs[j].key, rs[j].value)
  }

  /** The visits of the records from number j on. */
  function Visits(rs: seq<Record>, j: nat): seq<Visit>
    requires EncodableLog(rs) && j <= |rs|
    decreases |rs| - j
  {
    if j == |rs| then [] else [VisitOf(rs, j)] + Visits(rs, j + 1)
  }

  /** tail does not begin with a record. */
  predicate Stops(tail: Bytes) { ParseRecord(tail, 0).None? }

  lemma ReadEncoded(data: Bytes, off: nat, r: Record)
    requires Encodable(r) && off + Size(r) <= |data|
    requires data[off..off + Size(r)] == Encode(r)
    ensures ParseRecord(data, off) == Some(Visit(off, HeaderOf(r), r.key, r.value))
  {
    hide Crc32.Checksum, Encode, GetBE, PutBE;
    DecodeEncoded(r);
    EncodedParts(r);
    SliceOfSlice(data, off, off + Size(r), 0, HEADER_SIZE);
  }

  /** Record j of a log is read at its offset, and the next one starts where it ends. */
  lemma RecordRead(data: Bytes, rs: seq<Record>, j: nat)
    requires Holds(data, rs) && j < |rs|
    ensures ParseRecord(data, Offset(rs, j)) == Some(VisitOf(rs, j)) && Next(VisitOf(rs, j)) == Offset(rs, j + 1)
  {
    hide ParseRecord, Encode, EncodeAll, Used, Offset;
    RecordInPlace(data, rs, j);
    ReadEncoded(data, Offset(rs, j), rs[j]);
    OffsetNext(rs, j);
  }

  lemma HeldFacts(data: Bytes, rs: seq<Record>)
    requires Holds(data, rs)
    ensures EncodableLog(rs) && Offset(rs, |rs|) == Used(rs)
  {
    hide EncodableLog, EncodeAll, Used;
    assert rs[..|rs|] == rs;
  }

  lemma VisitsFrom(rs: seq<Record>, j: nat, more: seq<Visit>)
    requires EncodableLog(rs) && j <= |rs|
    ensures Visits(rs, j) + more == if j == |rs| then more else [VisitOf(rs, j)] + (Visits(rs, j + 1) + more)
  {
    hide EncodableLog, VisitOf;
  }

  /** Past the records of a log a scan goes on with whatever the bytes behind them read as. */
  lemma {:induction false} ScanGoesOn(data: Bytes, rs: seq<Record>, j: nat)
    requires Holds(data, rs) && j <= |rs|
    ensures var past := Scan(data, Used(rs));
            Scan(data, Offset(rs, j)) == ScanResult(Visits(rs, j) + past.visits, past.end)
    decreases |rs| - j
  {
    HeldFacts(data, rs);
    hide Holds, EncodableLog, Scan, ParseRecord, Used, Offset, VisitOf, Visits, Next;
    var past := Scan(data, Used(rs));
    VisitsFrom(rs, j, past.visits);
    if j < |rs| {
      RecordRead(data, rs, j);
      ScanStep(data, Offset(rs, j));
      ScanGoesOn(data, rs, j + 1);
    }
  }

  /**
   * A scan that starts at any record boundary of a log visits exactly the
   * remaining records, in order, and ends where the log ends.
   */
  lemma ScanHeld(data: Bytes, rs: seq<Record>, j: nat)
    requires Holds(data, rs) && j <= |rs| && Stops(data[Used(rs)..])
    ensures Scan(data, Offset(rs, j)) == ScanResult(Visits(rs, j), Used(rs))
  {
    hide Scan, ParseRecord, Stops;
    ScanGoesOn(data, rs, j);
    StopsAfter(data, Used(rs));
    ScanStep(data, Used(rs));
    assert Visits(rs, j) + [] == Visits(rs, j);
  }

  /** So it visits exactly the log if and only if those bytes stop it. */
  lemma ScanIsRightIff(data: Bytes, rs: seq<Record>)
    requires Holds(data, rs)
    ensures Scan(data, 0) == ScanResult(Visits(rs, 0), Used(rs)) <==> Stops(data[Used(rs)..])
  {
    hide Scan, ParseRecord, Stops;
    ScanGoesOn(data, rs, 0);
    assert rs[..0] == [];
    StopsAfter(data, Used(rs));
    ScanStep(data, Used(rs));
    var past := Scan(data, Used(rs));
    if Stops(data[Used(rs)..]) {
      ScanHeld(data, rs, 0);
    } else {
      assert |Visits(rs, 0) + past.visits| > |Visits(rs, 0)|;
    }
  }

  /** What a file holds when r is written over the front of whatever a stop left behind a log. */
  function WrittenOver(rs: seq<Record>, tail: Bytes, r: Record): Bytes
    requires EncodableLog(rs) && Encodable(r) && Size(r) <= |tail|
  {
    EncodeAll(rs) + Encode(r) + tail[Size(r)..]
  }

  /**
   * A stop left tail behind a log and one record has been appended since: recovery reads exactly
   * the log and that record if and only if what is left of tail behind it stops the scan.
   */
  lemma AppendAfterStopIff(rs: seq<Record>, tail: Bytes, r: Record)
    requires EncodableLog(rs) && Encodable(r) && Size(r) <= |tail|
    ensures EncodableLog(rs + [r])
    ensures Scan(WrittenOver(rs, tail, r), 0) == ScanResult(Visits(rs + [r], 0), Used(rs + [r])) <==> Stops(tail[Size(r)..])
  {
    hide Scan, Stops, Encode, Encodable;
    var log, data := rs + [r], WrittenOver(rs, tail, r);
    assert log[..|rs|] == rs;
    assert EncodeAll(log) == EncodeAll(rs) + Encode(r);
    assert data[..Used(log)] == EncodeAll(log);
    assert data[Used(log)..] == tail[Size(r)..];
    ScanIsRightIff(data, log);
  }

  /** It can fail: a tail that stops the scan, but holds a whole record q just where the appended one ends. */
  lemma StaleRecordReturns(rs: seq<Record>, r: Record, q: Record)
    requires EncodableLog(rs) && Encodable(r) && Encodable(q)
    ensures var tail := Zeros(Size(r)) + Encode(q);
            && Stops(tail) && EncodableLog(rs + [r])
            && Scan(WrittenOver(rs, tail, r), 0) != ScanResult(Visits(rs + [r], 0), Used(rs + [r]))
  {
    hide Scan, Encode, ParseRecord;
    var tail := Zeros(Size(r)) + Encode(q);
    ZeroFrontStops(Size(r), Encode(q));
    assert tail[Size(r)..] == Encode(q);
    assert Encode(q)[0..0 + Size(q)] == Encode(q);
    ReadEncoded(Encode(q), 0, q);
    AppendAfterStopIff(rs, tail, r);
  }

  lemma StopsAfter(data: Bytes, off: nat)
    requires off <= |data|
    ensures ParseRecord(data, off).None? == Stops(data[off..])
  {
    hide DecodeHeader, VerifyChecksum;
    var tail := data[off..];
    assert tail == data[off..|data|];
    if HEADER_SIZE <= |tail| {
      SliceOfSlice(data, off, |data|, 0, HEADER_SIZE);
      var h := DecodeHeader(tail[0..HEADER_SIZE]);
      var total := RecordSize(h.keyLen, h.valLen);
      if total <= |tail| {
        SliceOfSlice(data, off, |data|, 0, total);
      }
    }
  }

  /** Unwritten (zeroed) space never reads as a record: this is where the CRC of 17 zero bytes matters. */
  lemma ZeroTailStops(n: nat)
    ensures Stops(Zeros(n))
  {
    hide DecodeHeader, GetBE, Crc32.Checksum, Zeros;
    if HEADER_SIZE <= n {
      ZerosWithin(n, 0, HEADER_SIZE);
      ZeroHeader();
      ZerosWithin(HEADER_SIZE, 0, 4);
      ZerosWithin(HEADER_SIZE, 4, HEADER_SIZE);
      assert Zeros(HEADER_SIZE)[4..] == Zeros(HEADER_SIZE)[4..HEADER_SIZE];
      Crc32.ZeroBodyChecksum();
    }
  }

  /** So does anything behind a header's worth of zeroes. */
  lemma ZeroFrontStops(n: nat, rest: Bytes)
    requires HEADER_SIZE <= n
    ensures Stops(Zeros(n) + rest)
  {
    hide VerifyChecksum, DecodeHeader, GetBE, Zeros;
    var t := Zeros(n) + rest;
    ZeroTailStops(n);
    ZerosWithin(n, 0, HEADER_SIZE);
    assert t[0..HEADER_SIZE] == Zeros(n)[0..HEADER_SIZE];
    ZeroHeader();
  }

  lemma ZeroHeader()
    ensures RecordSize(DecodeHeader(Zeros(HEADER_SIZE)).keyLen, DecodeHeader(Zeros(HEADER_SIZE)).valLen) == HEADER_SIZE
  {
    hide GetBE, Zeros;
    ZerosWithin(HEADER_SIZE, 12, 16);
    ZerosWithin(HEADER_SIZE, 16, 20);
    GetBEOfZeros(4);
  }

  /** One record at the front, its lengths its own: whether it is read is up to its checksum. */
  lemma ReadsByChecksum(f: Bytes, rest: Bytes)
    requires HEADER_SIZE <= |f| == RecordSize(GetBE(f[12..16]), GetBE(f[16..20]))
    ensures Stops(f + rest) <==> !VerifyChecksum(f)
  {
    hide VerifyChecksum, GetBE;
    var d := f + rest;
    assert d[0..|f|] == f;
    SliceOfSlice(d, 0, HEADER_SIZE, 12, 16);
    SliceOfSlice(d, 0, HEADER_SIZE, 16, 20);
    assert d[12..16] == f[12..16] && d[16..20] == f[16..20];
  }

  lemma CorruptRecordStops(r: Record, i: nat, b: byte, rest: Bytes)
    requires Encodable(r) && i < Size(r) && Encode(r)[i] != b
    requires !(12 <= i < 20)  // the two length fields keep their value
    ensures Stops(Encode(r)[i := b] + rest)
  {
    hide Crc32.Checksum, Encode, VerifyChecksum, Stops, GetBE;
    var f := Encode(r)[i := b];
    LengthsInPlace(r);
    OneByteCorruptionDetected(r, i, b);
    assert f[12..16] == Encode(r)[12..16] && f[16..20] == Encode(r)[16..20];
    ReadsByChecksum(f, rest);
  }

  lemma LengthsInPlace(r: Record)
    requires Encodable(r)
    ensures GetBE(Encode(r)[12..16]) == |r.key| && GetBE(Encode(r)[16..20]) == |r.value|
  {
    hide Crc32.Checksum, GetBE, PutBE, Encode;
    EncodedParts(r);
    Widths();
    GetPutBE(|r.key|, 4);
    GetPutBE(|r.value|, 4);
  }

  // ----- the segment, in place ----------------------------------------------------

  class Segment {
    var data: array<byte>
    var size: nat

    ghost predicate Valid()
      reads this, data
    {
      File().Valid()
    }

    ghost function File(): SegFile
      reads this, data
    {
      SegFile(data[..], size)
    }

    constructor (capacity: nat)
      ensures Valid() && fresh(data)
      ensures File() == NewSegment(capacity)
    {
      data := new byte[capacity](_ => 0);
      size := 0;
      new;
      assert data[..] == Zeros(capacity);
    }

    method Append(record: Bytes) returns (off: nat, ok: bool)
      requires Valid()
      modifies this`size, data
      ensures Valid() && data == old(data)
      ensures ok <==> old(File()).Append(record).Some?
      ensures ok ==> off == old(size) && File() == old(File()).Append(record).value
      ensures !ok ==> File() == old(File())
    {
      off := size;
      if off + |record| > data.Length {
        return 0, false;
      }
      Copy(data, off, record);
      size := off + |record|;
      ok := true;
    }

    method ReadAt(offset: nat, length: nat) returns (bytes: Option<Bytes>)
      requires Valid()
      ensures bytes == File().ReadAt(offset, length)
    {
      if offset + length > data.Length {
        return None;
      }
      return Some(data[offset..offset + length]);
    }

    /** Calls back for every record; fails says whether the callback's call number n returns an error, which ends the walk. */
    method ForEach(fromOffset: nat, fails: nat -> bool) returns (visits: seq<Visit>, endOffset: nat, ok: bool)
      requires Valid()
      ensures var scan := Scan(data[..], fromOffset);
              && (ok <==> forall n :: 0 <= n < |scan.visits| ==> !fails(n))
              && (ok ==> ScanResult(visits, endOffset) == scan)
              && (!ok ==> 0 < |visits| <= |scan.visits| && visits == scan.visits[..|visits|]
                          && fails(|visits| - 1) && (forall n :: 0 <= n < |visits| - 1 ==> !fails(n))
                          && endOffset == visits[|visits| - 1].off)
    {
      hide DecodeHeader, VerifyChecksum, Scan;
      var view := data[..];
      var off := fromOffset;
      visits := [];
      ghost var rest := Scan(view, off);
      while off + HEADER_SIZE <= |view|
        invariant rest == Scan(view, off)
        invariant Scan(view, fromOffset) == ScanResult(visits + rest.visits, rest.end)
        invariant forall n :: 0 <= n < |visits| ==> !fails(n)
        decreases |view| - off
      {
        ScanStep(view, off);
        var h := DecodeHeader(view[off..off + HEADER_SIZE]);
        var total := RecordSize(h.keyLen, h.valLen);
        if off + total > |view| {
          break;
        }
        var record := view[off..off + total];
        if !VerifyChecksum(record) {
          break;
        }
        var v := Visit(off, h, record[HEADER_SIZE..HEADER_SIZE + h.keyLen], record[HEADER_SIZE + h.keyLen..]);
        rest := Scan(view, off + total);
        assert visits + ([v] + rest.visits) == visits + [v] + rest.visits;
        visits := visits + [v];
        if fails(|visits| - 1) {
          return visits, off, false;
        }
        off := off + total;
      }
      endOffset := off;
      ScanStep(view, off);
      assert visits + [] == visits;
      ok := true;
    }

    method Finalize()
      requires Valid()
      modifies this
      ensures Valid() && File() == old(File()).Finalize()
    {
      if size == data.Length {
        return;
      }
      var shrunk := new byte[size](i requires 0 <= i < size reads this, data requires size <= data.Length => data[i]);
      assert shrunk[..] == data[..size];
      data := shrunk;
    }
  }
}
