/** The Bloom filter that gates SortedIndex.Get: it never says absent for a key that was added. */
module Bloom {
  import opened Bytes

  /** The two base hashes of a key; any deterministic functions. The second is never zero. */
  datatype Hashes = Hashes(h1: Bytes -> nat, h2: Bytes -> nat)

  function Step2(h: Hashes, key: Bytes): nat {
    if h.h2(key) % TWO64 == 0 then 1 else h.h2(key) % TWO64
  }

  /** Bit number i of key, in uint64 arithmetic. */
  function Probe(h: Hashes, key: Bytes, i: nat, m: nat): (bit: nat)
    requires m > 0
    ensures bit < m
  {
    (h.h1(key) + i * Step2(h, key)) % TWO64 % m
  }

  /** The number of probe i, from the two hashes. */
  function BitOf(i: nat, h1: nat, h2: nat, m: nat): (bit: nat)
    requires m > 0
  {
    var step := if h2 % 0x1_0000_0000_0000_0000 == 0 then 1 else h2 % 0x1_0000_0000_0000_0000;
    (h1 + i * step) % 0x1_0000_0000_0000_0000 % m
  }

  function Pick(b: nat): bv8
    requires b < 8
  {
    1 << b
  }

  predicate IsSet(x: bv8, b: nat)
    requires b < 8
  {
    x & Pick(b) != 0
  }

  lemma SetBit(x: bv8, b: nat)
    requires b < 8
    ensures IsSet(x | Pick(b), b)
    ensures forall c :: 0 <= c < 8 && c != b ==> (IsSet(x | Pick(b), c) <==> IsSet(x, c))
  {}

  lemma NoneSet(b: nat)
    requires b < 8
    ensures !IsSet(0, b)
  {}

  /** Some key of these has a probe at this bit. */
  ghost predicate SetBy(h: Hashes, keys: set<Bytes>, k: nat, m: nat, bit: nat)
    requires m > 0
  {
    exists key, i: nat :: key in keys && i < k && Probe(h, key, i, m) == bit
  }

  lemma Picked(b: nat)
    requires b < 8
    ensures Pick(b) != 0
  {}

  lemma OneProbeMore(h: Hashes, key: Bytes, i: nat, m: nat, c: nat)
    requires m > 0
    ensures SetBy(h, {key}, i + 1, m, c) <==> c == Probe(h, key, i, m) || SetBy(h, {key}, i, m, c)
  {
    hide Probe;
    if c == Probe(h, key, i, m) { assert key in {key} && i < i + 1; }
    if SetBy(h, {key}, i, m, c) {
      var k: Bytes, j: nat :| k in {key} && j < i && Probe(h, k, j, m) == c;
      assert j < i + 1;
    }
  }

  class BloomFilter {
    const hashes: Hashes
    const m: nat
    const k: nat
    const bits: array<bv8>
    ghost var added: set<Bytes>

    ghost predicate BitSet(bit: nat)
      requires bit / 8 < bits.Length
      reads bits
    {
      IsSet(bits[bit / 8], bit % 8)
    }

    ghost predicate Holds(key: Bytes, n: nat)
      requires m > 0 && bits.Length == (m + 7) / 8
      reads bits
    {
      forall i :: 0 <= i < n ==> BitSet(Probe(hashes, key, i, m))
    }

    ghost predicate Valid()
      reads this, bits
    {
      && m >= 8 && k >= 1 && bits.Length == (m + 7) / 8
      && forall key :: key in added ==> Holds(key, k)
    }

    /** No bit is set but by a key that was added. */
    ghost predicate Exact()
      requires Valid()
      reads this, bits
    {
      forall bit: nat :: bit < m && BitSet(bit) ==> SetBy(hashes, added, k, m, bit)
    }

    /** m and k come from the sizing formulas, floored at 8 bits and one probe. */
    constructor (hashes: Hashes, optimalM: nat, optimalK: nat)
      ensures Valid() && added == {} && fresh(bits) && Exact()
      ensures this.hashes == hashes && m == (if optimalM < 8 then 8 else optimalM) && k == if optimalK < 1 then 1 else optimalK
    {
      this.hashes := hashes;
      var bitCount := if optimalM < 8 then 8 else optimalM;
      m := bitCount;
      k := if optimalK < 1 then 1 else optimalK;
      bits := new bv8[(bitCount + 7) / 8](_ => 0);
      added := {};
      new;
      forall bit: nat | bit < m ensures !BitSet(bit) { NoneSet(bit % 8); }
    }

    /** Sets one bit and no other. */
    method Set(bit: nat)
      requires bit < m && bits.Length == (m + 7) / 8
      modifies bits
      ensures forall c: nat :: c < m ==> (BitSet(c) <==> c == bit || old(BitSet(c)))
    {
      SetBit(bits[bit / 8], bit % 8);
      ghost var before := bits[bit / 8];
      bits[bit / 8] := bits[bit / 8] | Pick(bit % 8);
      hide Pick, IsSet;
      forall c: nat | c < m ensures BitSet(c) <==> c == bit || old(BitSet(c)) {
        if c / 8 == bit / 8 && c != bit {
          assert c % 8 != bit % 8;
          assert old(BitSet(c)) == IsSet(before, c % 8);
        }
      }
    }

    /** The bits that are set. */
    ghost function SetBits(): set<nat>
      requires m > 0 && bits.Length == (m + 7) / 8
      reads bits
    {
      set c: nat | c < m && BitSet(c)
    }

    /** These bits, and those of one key more. */
    ghost predicate Grown(was: set<nat>, key: Bytes, n: nat)
      requires m > 0 && bits.Length == (m + 7) / 8
      reads bits
    {
      forall c: nat :: c < m ==> (BitSet(c) <==> c in was || SetBy(hashes, {key}, n, m, c))
    }

    lemma NotYetGrown(key: Bytes)
      requires Valid()
      ensures Grown(SetBits(), key, 0)
    {}

    method AddProbe(key: Bytes, i: nat, ghost was: set<nat>)
      requires m > 0 && bits.Length == (m + 7) / 8 && Grown(was, key, i)
      modifies bits
      ensures Grown(was, key, i + 1)
    {
      hide Probe, IsSet, SetBy;
      var bit := Probe(hashes, key, i, m);
      Set(bit);
      forall c: nat | c < m ensures SetBy(hashes, {key}, i + 1, m, c) <==> c == bit || SetBy(hashes, {key}, i, m, c) {
        OneProbeMore(hashes, key, i, m, c);
      }
    }

    /** Sets the bits of one key and no other. */
    method Add(key: Bytes)
      requires Valid()
      modifies this`added, bits
      ensures Valid() && added == old(added) + {key} && (old(Exact()) ==> Exact())
    {
      ghost var was, were, exact := SetBits(), added, Exact();
      KeysInBits(were);
      NotYetGrown(key);
      if exact { BitsOfKeys(were); }
      hide Exact, SetBits, Grown, KeysIn, BitsFrom, Valid;
      Sized();
      for i := 0 to k
        invariant Grown(was, key, i) && added == were
      {
        AddProbe(key, i, was);
      }
      AddedHold(was, were, key);
      added := added + {key};
      if exact { AddedExact(was, were, key); }
    }

    lemma Sized()
      requires Valid()
      ensures m >= 8 && k >= 1 && bits.Length == (m + 7) / 8
    {}

    ghost predicate KeysIn(keys: set<Bytes>, was: set<nat>)
      requires m > 0
    {
      forall key, i: nat :: key in keys && i < k ==> Probe(hashes, key, i, m) in was
    }

    ghost predicate BitsFrom(keys: set<Bytes>, was: set<nat>)
      requires m > 0
    {
      forall bit :: bit in was ==> bit < m && SetBy(hashes, keys, k, m, bit)
    }

    lemma KeysInBits(keys: set<Bytes>)
      requires Valid() && keys == added
      ensures KeysIn(keys, SetBits())
    {
      hide Probe, BitSet;
      forall key, i: nat | key in keys && i < k ensures Probe(hashes, key, i, m) in SetBits() {
        assert Holds(key, k);
      }
    }

    lemma BitsOfKeys(keys: set<Bytes>)
      requires Valid() && Exact() && keys == added
      ensures BitsFrom(keys, SetBits())
    {}

    lemma AddedHold(was: set<nat>, were: set<Bytes>, key: Bytes)
      requires m >= 8 && k >= 1 && bits.Length == (m + 7) / 8
      requires KeysIn(were, was) && Grown(was, key, k)
      ensures forall other :: other in were + {key} ==> Holds(other, k)
    {
      hide Probe, BitSet;
      forall other, i: nat | other in were + {key} && i < k ensures BitSet(Probe(hashes, other, i, m)) {
        if other !in were { assert SetBy(hashes, {key}, k, m, Probe(hashes, other, i, m)); }
      }
    }

    lemma AddedExact(was: set<nat>, were: set<Bytes>, key: Bytes)
      requires Valid() && added == were + {key} && BitsFrom(were, was) && Grown(was, key, k)
      ensures Exact()
    {
      hide Probe, BitSet;
    }

    lemma ExactBits(key: Bytes)
      requires Valid()
      ensures Exact() ==>
                (Holds(key, k) <==> forall i: nat :: i < k ==> SetBy(hashes, added, k, m, BitOf(i, hashes.h1(key), hashes.h2(key), m)))
    {
      forall i: nat ensures Probe(hashes, key, i, m) == BitOf(i, hashes.h1(key), hashes.h2(key), m) {}
      hide Probe, BitOf;
      forall bit: nat | bit < m && SetBy(hashes, added, k, m, bit) ensures BitSet(bit) {
        var other, j: nat :| other in added && j < k && Probe(hashes, other, j, m) == bit;
        assert Holds(other, k);
      }
    }

    /**
     * No false negatives; and with no bits but those of added keys, yes exactly when each of the
     * key's bits, (h1 + i*h2) mod 2^64 mod m with h2 never zero, is also one of an added key.
     */
    method MayContain(key: Bytes) returns (may: bool)
      requires Valid()
      ensures may <==> Holds(key, k)
      ensures key in added ==> may
      ensures Exact() ==> (may <==> forall i: nat :: i < k ==> SetBy(hashes, added, k, m, BitOf(i, hashes.h1(key), hashes.h2(key), m)))
    {
      ExactBits(key);
      for i := 0 to k
        invariant Holds(key, i)
      {
        var bit := Probe(hashes, key, i, m);
        if bits[bit / 8] & Pick(bit % 8) == 0 {
          assert !BitSet(bit);
          return false;
        }
      }
      return true;
    }
  }
}
