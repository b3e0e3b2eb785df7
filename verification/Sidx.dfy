/** The sidx file: header, entries region, checksum; and the sparse directory that samples it. */
module Sidx {
  import opened Bytes
  import opened Entries
  import Crc32

  const MAGIC: Bytes := [0x4B, 0x56, 0x53, 0x49]  // KVSI
  const VERSION: nat := 1
  const HEADER_LEN: nat := 16

  function Header(count: nat): (h: Bytes)
    ensures |h| == HEADER_LEN
  {
    MAGIC + PutBE(VERSION, 4) + PutBE(count, 8)
  }

  /** assembleSidx: the whole file for these entries. The checksum covers the entries, not the header. */
  function SidxFile(es: seq<Entry>): Bytes {
    var body := EncodeAll(es, true);
    Header(|es|) + body + Crc32.Checksum(body)
  }

  /** verifySidxHeader and verifySidxChecksum: the entry count and the entries region of a file that passes. */
  function OpenSidx(file: Bytes): Option<(nat, Bytes)> {
    if |file| < HEADER_LEN || file[0..4] != MAGIC || GetBE(file[4..8]) != VERSION then None
    else if |file| < HEADER_LEN + 4 then None
    else if Crc32.Checksum(file[HEADER_LEN..|file| - 4]) != file[|file| - 4..] then None
    else Some((GetBE(file[8..16]), file[HEADER_LEN..|file| - 4]))
  }

  lemma FileParts(h: Bytes, body: Bytes, sum: Bytes)
    requires |h| == HEADER_LEN && |sum| == 4
    ensures var f := h + body + sum;
            |f| == HEADER_LEN + |body| + 4 && f[..HEADER_LEN] == h
            && f[HEADER_LEN..|f| - 4] == body && f[|f| - 4..] == sum
            && f[0..4] == h[0..4] && f[4..8] == h[4..8] && f[8..16] == h[8..16]
  {}

  lemma HeaderParts(count: nat)
    ensures var h := Header(count);
            h[0..4] == MAGIC && GetBE(h[4..8]) == VERSION && (count < TWO64 ==> GetBE(h[8..16]) == count)
  {
    Widths();
    GetPutBE(VERSION, 4);
    if count < TWO64 { GetPutBE(count, 8); }
    hide PutBE, GetBE, Pow256;
    var v, c := PutBE(VERSION, 4), PutBE(count, 8);
    assert Header(count)[4..8] == v by { Middle(MAGIC, v, c); }
    assert Header(count)[8..16] == c;
    assert Header(count)[0..4] == MAGIC;
  }

  /** A written sidx file opens to its own entries. */
  lemma OpenWritten(es: seq<Entry>)
    ensures OpenSidx(SidxFile(es)).Some? && OpenSidx(SidxFile(es)).value.1 == EncodeAll(es, true)
    ensures |es| < TWO64 ==> OpenSidx(SidxFile(es)).value.0 == |es|
  {
    hide Header, EncodeAll, Crc32.Checksum, PutBE, GetBE;
    var h, body := Header(|es|), EncodeAll(es, true);
    var f := SidxFile(es);
    FileParts(h, body, Crc32.Checksum(body));
    HeaderParts(|es|);
  }

  /** One wrong byte anywhere in the entries region and the file is refused. */
  lemma CorruptEntriesRefused(es: seq<Entry>, i: nat, b: byte)
    requires i < |EncodeAll(es, true)| && EncodeAll(es, true)[i] != b
    ensures OpenSidx(SidxFile(es)[HEADER_LEN + i := b]).None?
  {
    hide Header, EncodeAll, Crc32.Checksum, PutBE, GetBE;
    var h, body := Header(|es|), EncodeAll(es, true);
    var sum := Crc32.Checksum(body);
    var body' := body[i := b];
    Crc32.OneByteChangesChecksum(body, i, b);
    FileParts(h, body', sum);
    assert SidxFile(es)[HEADER_LEN + i := b] == h + body' + sum;
  }

  // ----- the sparse directory --------------------------------------------------------------

  /** A sampled key and where its entry starts in the file. */
  datatype Sample = Sample(key: Bytes, offset: nat)

  /** Where entry j starts in the file. */
  function EntryOffset(es: seq<Entry>, j: nat): nat
    requires j <= |es|
  {
    HEADER_LEN + |EncodeAll(es[..j], true)|
  }

  /** Every s-th entry, from the first. */
  function SparseOf(es: seq<Entry>, s: nat): (r: seq<Sample>)
    requires s > 0
  {
    if es == [] then [] else
    var n := |es| - 1;
    SparseOf(es[..n], s) + if n % s == 0 then [Sample(es[n].key, EntryOffset(es, n))] else []
  }

  lemma MulLe(a: int, b: int, s: nat)
    ensures a <= b ==> a * s <= b * s
  {}

  /** k samples are right for n entries: one for every s begun. */
  ghost predicate Enough(k: nat, n: nat, s: nat) {
    n <= k * s && (k > 0 ==> (k - 1) * s < n)
  }

  lemma EnoughStep(k: nat, n: nat, s: nat)
    requires s > 0 && Enough(k, n, s)
    ensures n % s == 0 ==> k * s == n && Enough(k + 1, n + 1, s)
    ensures n % s != 0 ==> Enough(k, n + 1, s)
  {
    var q := n / s;
    assert n == q * s + n % s;
    MulLe(q, k - 1, s);
    MulLe(k + 1, q, s);
  }

  /** Sample j is entry j * s, at the exact start of its encoding. */
  ghost predicate SampleAt(es: seq<Entry>, s: nat, r: seq<Sample>, j: int)
    requires 0 <= j < |r|
  {
    0 <= j * s < |es| && r[j] == Sample(es[j * s].key, EntryOffset(es, j * s))
  }

  lemma SampleOfPrefix(es: seq<Entry>, n: nat, s: nat, r: seq<Sample>, more: seq<Sample>, j: nat)
    requires n <= |es| && j < |r| && SampleAt(es[..n], s, r, j)
    ensures SampleAt(es, s, r + more, j)
  {
    hide EncodeAll;
    assert es[..n][..j * s] == es[..j * s];
  }

  /** One sample for every s entries begun, each at the exact start of its entry's encoding. */
  lemma {:induction false} SamplesAre(es: seq<Entry>, s: nat)
    requires s > 0
    ensures var r := SparseOf(es, s);
            && Enough(|r|, |es|, s)
            && forall j :: 0 <= j < |r| ==> SampleAt(es, s, r, j)
  {
    if es != [] {
      var n := |es| - 1;
      SamplesAre(es[..n], s);
      var r0, r := SparseOf(es[..n], s), SparseOf(es, s);
      EnoughStep(|r0|, n, s);
      hide SampleAt, EntryOffset, Enough;
      forall j | 0 <= j < |r| ensures SampleAt(es, s, r, j) {
        if j < |r0| {
          SampleOfPrefix(es, n, s, r0, r[|r0|..], j);
          assert r == r0 + r[|r0|..];
        } else {
          LastSample(es, s, r, j);
        }
      }
    }
  }

  lemma LastSample(es: seq<Entry>, s: nat, r: seq<Sample>, j: nat)
    requires es != [] && j < |r| && j * s == |es| - 1
    requires r[j] == Sample(es[|es| - 1].key, EntryOffset(es, |es| - 1))
    ensures SampleAt(es, s, r, j)
  {}

  // ----- reading from an entry's offset on ------------------------------------------------------

  lemma {:induction false} EncodeAllSplit(es: seq<Entry>, j: nat)
    requires j <= |es|
    ensures EncodeAll(es, true) == EncodeAll(es[..j], true) + EncodeAll(es[j..], true)
    decreases |es| - j
  {
    hide Encode;
    if j == |es| {
      assert es[..j] == es;
    } else {
      EncodeAllSplit(es, j + 1);
      EncodeAllFront(es[j..], true);
      assert es[j..][1..] == es[j + 1..];
      assert es[..j + 1][..j] == es[..j];
    }
  }

  /** The file without its checksum, read from entry j's offset, gives entry j and all after it. */
  lemma DecodesFrom(es: seq<Entry>, j: nat)
    requires AllFit(es) && j <= |es|
    ensures |SidxFile(es)| >= 4 && Decodes(SidxFile(es)[..|SidxFile(es)| - 4], EntryOffset(es, j), es[j..], true)
  {
    hide Decodes, Header, EncodeAll, Crc32.Checksum, Fits;
    var h, body, f := Header(|es|), EncodeAll(es, true), SidxFile(es);
    FileParts(h, body, Crc32.Checksum(body));
    EncodeAllSplit(es, j);
    var before, rest := h + EncodeAll(es[..j], true), EncodeAll(es[j..], true);
    DecodeEncoded(before, es[j..], true);
    assert f[..|f| - 4] == h + body == before + rest;
  }
}
