/** bytes.Compare as an order, and prefixes. */
module Lex {
  import opened Bytes

  predicate Less(a: Bytes, b: Bytes) {
    if b == [] then false
    else if a == [] then true
    else if a[0] != b[0] then a[0] < b[0]
    else Less(a[1..], b[1..])
  }

  predicate LessEq(a: Bytes, b: Bytes) { !Less(b, a) }

  lemma {:induction false} Irreflexive(a: Bytes)
    ensures !Less(a, a)
  {
    if a != [] { Irreflexive(a[1..]); }
  }

  lemma {:induction false} Total(a: Bytes, b: Bytes)
    ensures Less(a, b) || a == b || Less(b, a)
    ensures Less(a, b) ==> !Less(b, a) && a != b
  {
    if a != [] && b != [] {
      Total(a[1..], b[1..]);
      if a[0] == b[0] && a[1..] == b[1..] {
        assert a == [a[0]] + a[1..] && b == [b[0]] + b[1..];
      }
    }
  }

  lemma {:induction false} Transitive(a: Bytes, b: Bytes, c: Bytes)
    ensures Less(a, b) && Less(b, c) ==> Less(a, c)
  {
    if a != [] && b != [] && c != [] { Transitive(a[1..], b[1..], c[1..]); }
  }

  // ----- the order of bytes.Compare ----------------------------------------------

  /** a and b agree on n bytes, and there a ends first or has the smaller byte. */
  predicate FirstDifference(a: Bytes, b: Bytes, n: nat) {
    && n <= |a| && n < |b| && a[..n] == b[..n]
    && (n < |a| ==> a[n] < b[n])
  }

  /** bytes.Compare(a, b) < 0, by the first place where they differ. */
  ghost predicate ComesBefore(a: Bytes, b: Bytes) {
    exists n :: FirstDifference(a, b, n)
  }

  lemma {:induction false} LessHasDifference(a: Bytes, b: Bytes) returns (n: nat)
    requires Less(a, b)
    ensures FirstDifference(a, b, n)
  {
    if a == [] || a[0] != b[0] {
      n := 0;
    } else {
      var m := LessHasDifference(a[1..], b[1..]);
      n := m + 1;
      assert a[..n] == [a[0]] + a[1..][..m] && b[..n] == [b[0]] + b[1..][..m];
    }
  }

  lemma {:induction false} DifferenceIsLess(a: Bytes, b: Bytes, n: nat)
    requires FirstDifference(a, b, n)
    ensures Less(a, b)
  {
    if n > 0 {
      assert a[0] == a[..n][0] == b[..n][0] == b[0];
      assert a[1..][..n - 1] == a[..n][1..] && b[1..][..n - 1] == b[..n][1..];
      DifferenceIsLess(a[1..], b[1..], n - 1);
    }
  }

  /** Less is that order, unsigned bytes and shorter keys first. */
  lemma LessIff(a: Bytes, b: Bytes)
    ensures Less(a, b) <==> exists n: nat :: n <= |a| && n < |b| && a[..n] == b[..n] && (n < |a| ==> a[n] < b[n])
    ensures Less(a, b) <==> ComesBefore(a, b)
  {
    hide Less;
    if Less(a, b) {
      var n := LessHasDifference(a, b);
    }
    forall n: nat | n <= |a| && n < |b| && a[..n] == b[..n] && (n < |a| ==> a[n] < b[n]) ensures Less(a, b) {
      DifferenceIsLess(a, b, n);
    }
  }

  /** Every mix of strict and weak steps. */
  lemma Chain(a: Bytes, b: Bytes, c: Bytes)
    ensures LessEq(a, b) && LessEq(b, c) ==> LessEq(a, c)
    ensures Less(a, b) && LessEq(b, c) ==> Less(a, c)
    ensures LessEq(a, b) && Less(b, c) ==> Less(a, c)
  {
    Total(a, b);
    Total(b, c);
    Total(a, c);
    Transitive(a, b, c);
    Transitive(c, b, a);
    Transitive(c, a, b);
    Transitive(b, c, a);
  }

  // ----- prefixes ----------------------------------------------------------------

  lemma {:induction false} PrefixNotLess(p: Bytes, k: Bytes)
    requires p <= k
    ensures !Less(k, p)
  {
    if p != [] {
      assert p[1..] <= k[1..];
      PrefixNotLess(p[1..], k[1..]);
    }
  }

  /** Past the keys with a prefix there are no more of them. */
  lemma {:induction false} PrefixRangeEnds(p: Bytes, k: Bytes, later: Bytes)
    requires !Less(k, p) && !(p <= k) && Less(k, later)
    ensures !(p <= later)
  {
    if p <= later && p != [] {
      assert later != [] && k != [];
      if k[0] == p[0] {
        assert later[0] == p[0] && p[1..] <= later[1..];
        assert p[1..] <= k[1..] ==> p <= k;
        PrefixRangeEnds(p[1..], k[1..], later[1..]);
      }
    }
  }
}
