/**
 * A torn write: the first n bytes of a record, then the zeroes the segment was preallocated with.
 * When it reads as a record and when it stops the scan.
 */
module Torn {
  import opened Bytes
  import opened Record
  import opened Segment
  import Crc32

  function TornTail(r: Record, n: nat, m: nat): (t: Bytes)
    requires Encodable(r) && n <= Size(r)
    ensures |t| == n + m
  {
    Encode(r)[..n] + Zeros(m)
  }

  // ----- the lengths a torn header claims ------------------------------------------

  /** What is left of x, as n big-endian bytes, when only the first c of them were written. */
  function Kept(x: nat, n: nat, c: nat): nat
  {
    if n <= c then x else 256 * Kept(x / 256, n - 1, c)
  }

  /** How many bytes of a four-byte field at lo were written. */
  function Cut(n: nat, lo: nat): (c: nat)
    ensures c <= 4
  {
    if n <= lo then 0 else if lo + 4 <= n then 4 else n - lo
  }

  /** The size of the record that a torn header speaks of. */
  function TornSize(r: Record, n: nat): nat {
    RecordSize(Kept(|r.key|, 4, Cut(n, 12)), Kept(|r.value|, 4, Cut(n, 16)))
  }

  lemma {:induction false} KeptBytes(x: nat, n: nat, c: nat)
    requires x < Pow256(n) && c <= n
    ensures GetBE(PutBE(x, n)[..c] + Zeros(n - c)) == Kept(x, n, c)
  {
    hide GetBE, Zeros;
    if n == c {
      NoZeros(PutBE(x, n));
      GetPutBE(x, n);
    } else {
      var s, t := PutBE(x, n)[..c] + Zeros(n - c), PutBE(x / 256, n - 1)[..c] + Zeros(n - 1 - c);
      PaddedFront(PutBE(x / 256, n - 1), x % 256, c);
      KeptBytes(x / 256, n - 1, c);
      ShiftedValue(s, t);
    }
  }

  lemma NoZeros(a: Bytes)
    ensures a[..|a|] + Zeros(0) == a
  {}

  lemma PaddedFront(a: Bytes, b: byte, c: nat)
    requires c <= |a|
    ensures (a + [b])[..c] + Zeros(|a| + 1 - c) == a[..c] + Zeros(|a| - c) + [0]
  {}

  lemma ShiftedValue(s: Bytes, t: Bytes)
    requires s == t + [0]
    ensures GetBE(s) == 256 * GetBE(t)
  {
    assert s[..|t|] == t;
  }

  lemma TornField(r: Record, n: nat, m: nat, lo: nat, x: nat)
    requires Encodable(r) && n <= Size(r) && lo + 4 <= Size(r) && lo + 4 <= n + m
    requires Encode(r)[lo..lo + 4] == PutBE(x, 4) && x < TWO32
    ensures GetBE(TornTail(r, n, m)[lo..lo + 4]) == Kept(x, 4, Cut(n, lo))
  {
    hide Encode, GetBE, PutBE, Kept;
    Widths();
    var e, t, c := Encode(r), TornTail(r, n, m), Cut(n, lo);
    assert t[lo..lo + 4] == e[lo..lo + 4][..c] + Zeros(4 - c);
    KeptBytes(x, 4, c);
  }

  /** Once both length fields are written it is the record's own size. */
  lemma WholeHeader(r: Record, n: nat)
    requires 20 <= n
    ensures TornSize(r, n) == Size(r)
  {}

  lemma TornSizeCovers(r: Record, n: nat)
    requires n <= Size(r)
    ensures n <= TornSize(r, n)
  {
    hide Kept;
    if 20 <= n { WholeHeader(r, n); }
  }

  /** The record the torn header speaks of, as far as it was written and zero beyond. */
  function TornRecord(r: Record, n: nat): (f: Bytes)
    requires Encodable(r) && n <= Size(r)
    ensures |f| == TornSize(r, n)
  {
    TornSizeCovers(r, n);
    TornTail(r, n, TornSize(r, n) - n)
  }

  lemma TornLengths(r: Record, n: nat)
    requires Encodable(r) && n <= Size(r)
    ensures var f := TornRecord(r, n);
            HEADER_SIZE <= |f| == RecordSize(GetBE(f[12..16]), GetBE(f[16..20]))
  {
    hide Encode, GetBE, PutBE, Kept;
    EncodedParts(r);
    TornSizeCovers(r, n);
    TornField(r, n, TornSize(r, n) - n, 12, |r.key|);
    TornField(r, n, TornSize(r, n) - n, 16, |r.value|);
  }

  // ----- when a torn write stops the scan -----------------------------------------------

  lemma ShortStops(r: Record, n: nat, m: nat)
    requires Encodable(r) && n <= Size(r) && n + m < TornSize(r, n)
    ensures Stops(TornTail(r, n, m))
  {
    hide Encode, GetBE, PutBE, Kept, VerifyChecksum;
    if HEADER_SIZE <= n + m {
      EncodedParts(r);
      var t := TornTail(r, n, m);
      TornField(r, n, m, 12, |r.key|);
      TornField(r, n, m, 16, |r.value|);
      SliceOfSlice(t, 0, HEADER_SIZE, 12, 16);
      SliceOfSlice(t, 0, HEADER_SIZE, 16, 20);
    }
  }

  /**
   * A torn write stops the scan if and only if the file ends before the record its header speaks
   * of, or that record, with zeroes for what was lost, does not match its checksum.
   */
  lemma TornTailStopsIff(r: Record, n: nat, m: nat)
    requires Encodable(r) && n <= Size(r)
    ensures Stops(TornTail(r, n, m)) <==> n + m < TornSize(r, n) || !VerifyChecksum(TornRecord(r, n))
  {
    hide Encode, GetBE, Kept, VerifyChecksum, Stops;
    TornSizeCovers(r, n);
    if n + m < TornSize(r, n) {
      ShortStops(r, n, m);
    } else {
      var k := TornSize(r, n) - n;
      assert TornTail(r, n, m) == TornRecord(r, n) + Zeros(m - k);
      TornLengths(r, n);
      ReadsByChecksum(TornRecord(r, n), Zeros(m - k));
    }
  }

  /** A file that ends at the cut always stops the scan. */
  lemma EndedStops(r: Record, n: nat)
    requires Encodable(r) && n < Size(r)
    ensures Stops(Encode(r)[..n])
  {
    hide Encode, Kept, Stops;
    if 20 <= n { WholeHeader(r, n); }
    assert TornTail(r, n, 0) == Encode(r)[..n];
    ShortStops(r, n, 0);
  }

  /** If every lost byte is zero nothing is lost: the record is read. */
  lemma NothingLost(r: Record, n: nat, m: nat)
    requires Encodable(r) && n <= Size(r) <= n + m
    requires forall i :: n <= i < Size(r) ==> Encode(r)[i] == 0
    ensures ParseRecord(TornTail(r, n, m), 0) == Some(Visit(0, HeaderOf(r), r.key, r.value))
  {
    hide Encode, ParseRecord;
    var t := TornTail(r, n, m);
    assert t[0..0 + Size(r)] == Encode(r);
    ReadEncoded(t, 0, r);
  }

  /** So a cut record need not stop the scan: a value that ends in a zero byte, short of that byte. */
  lemma CutThatReads()
    ensures var r := Record([107], [0], false, 0);
            Encodable(r) && !Stops(TornTail(r, Size(r) - 1, 1))
  {
    hide Encode, ParseRecord;
    var r := Record([107], [0], false, 0);
    EncodedParts(r);
    var e := Encode(r);
    assert e[HEADER_SIZE + 1..][0] == e[HEADER_SIZE + 1];
    NothingLost(r, Size(r) - 1, 1);
  }

  /** If what is lost and not zero lies within four bytes in a row, the scan stops. */
  lemma LostBurstStops(r: Record, n: nat, m: nat, i: nat)
    requires Encodable(r) && 20 <= n <= Size(r) && 4 <= i && i + 4 <= Size(r)
    requires forall j :: n <= j < Size(r) && Encode(r)[j] != 0 ==> i <= j < i + 4
    requires exists j :: n <= j < Size(r) && Encode(r)[j] != 0
    ensures Stops(TornTail(r, n, m))
  {
    hide Encode, VerifyChecksum, Stops;
    WholeHeader(r, n);
    var e, f := Encode(r), TornRecord(r, n);
    var j :| n <= j < Size(r) && e[j] != 0;
    assert f[j] == 0;
    assert f[..i] == e[..i] && f[i + 4..] == e[i + 4..];
    BurstDetected(r, f, i);
    TornTailStopsIff(r, n, m);
  }

  /** So it does when at most four bytes are lost, not all of them zero. */
  lemma FourLostStop(r: Record, n: nat, m: nat)
    requires Encodable(r) && 20 <= n <= Size(r) <= n + 4
    requires exists j :: n <= j < Size(r) && Encode(r)[j] != 0
    ensures Stops(TornTail(r, n, m))
  {
    hide Encode, Stops;
    LostBurstStops(r, n, m, Size(r) - 4);
  }

  /** And when exactly one lost byte is not zero. */
  lemma OneLostStops(r: Record, n: nat, m: nat, j: nat)
    requires Encodable(r) && 20 <= n <= j < Size(r) && Encode(r)[j] != 0
    requires forall k :: n <= k < Size(r) && k != j ==> Encode(r)[k] == 0
    ensures Stops(TornTail(r, n, m))
  {
    hide Encode, Stops;
    LostBurstStops(r, n, m, if j + 4 <= Size(r) then j else Size(r) - 4);
  }

  // ----- cut inside the checksum ------------------------------------------------------------

  lemma {:induction false} NothingKept(x: nat, n: nat)
    requires x < Pow256(n)
    ensures Kept(x, n, 0) == 0
  {
    if n > 0 { NothingKept(x / 256, n - 1); }
  }

  /** Without one byte of its body: stops exactly when the written checksum is not that of a zero body. */
  lemma NoBodyStopsIff(r: Record, n: nat, m: nat)
    requires Encodable(r) && n <= 4
    ensures n + m < HEADER_SIZE || n < 4 || Crc32.Checksum(Body(r)) != Crc32.Checksum(Zeros(17))
            <==> Stops(TornTail(r, n, m))
  {
    hide Crc32.Checksum, Encode, Kept, Stops, Body;
    Widths();
    NothingKept(|r.key|, 4);
    NothingKept(|r.value|, 4);
    var f := TornRecord(r, n);
    EncodedParts(r);
    assert f[4..] == Zeros(17);
    Crc32.ZeroBodyChecksum();
    if n < 4 {
      assert f[0..4][3] == 0;
    } else {
      assert f[0..4] == Encode(r)[0..4];
    }
    TornTailStopsIff(r, n, m);
  }
}
