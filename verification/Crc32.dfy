/** CRC-32 IEEE (section 8 of RFC 1952), bit by bit, in the reflected form. */
module Crc32 {
  import opened Bytes

  function BitStep(s: bv32): bv32 {
    (s >> 1) ^ (if s & 1 == 1 then 0xEDB88320 else 0)
  }

  function Steps(s: bv32, n: nat): bv32
    decreases n
  {
    if n == 0 then s else Steps(BitStep(s), n - 1)
  }

  /** Bit i of v, the least significant first. */
  predicate Bit(v: nat, i: nat) {
    if i == 0 then v % 2 == 1 else Bit(v / 2, i - 1)
  }

  function Weigh(p: bool, w: bv32): bv32 { if p then w else 0 }

  function Pack(b0: bool, b1: bool, b2: bool, b3: bool, b4: bool, b5: bool, b6: bool, b7: bool): bv32 {
    Weigh(b0, 1) | Weigh(b1, 2) | Weigh(b2, 4) | Weigh(b3, 8) |
    Weigh(b4, 16) | Weigh(b5, 32) | Weigh(b6, 64) | Weigh(b7, 128)
  }

  /** A byte as a bit vector, bit by bit. */
  function ToBits(b: byte): bv32 {
    Pack(Bit(b, 0), Bit(b, 1), Bit(b, 2), Bit(b, 3), Bit(b, 4), Bit(b, 5), Bit(b, 6), Bit(b, 7))
  }

  /** The low eight bits of a bit vector as a byte. */
  function FromBits(x: bv32): byte {
    (if x & 1 != 0 then 1 else 0) + (if x & 2 != 0 then 2 else 0) +
    (if x & 4 != 0 then 4 else 0) + (if x & 8 != 0 then 8 else 0) +
    (if x & 16 != 0 then 16 else 0) + (if x & 32 != 0 then 32 else 0) +
    (if x & 64 != 0 then 64 else 0) + (if x & 128 != 0 then 128 else 0)
  }

  function Update(s: bv32, b: byte): bv32 {
    Steps(s ^ ToBits(b), 8)
  }

  /** The register after feeding data, starting from s. */
  function Register(s: bv32, data: Bytes): bv32 {
    if data == [] then s else Update(Register(s, data[..|data| - 1]), data[|data| - 1])
  }

  /** A register value as four big-endian bytes. */
  function Word(x: bv32): (w: Bytes)
    ensures |w| == 4
  {
    [FromBits(x >> 24), FromBits(x >> 16), FromBits(x >> 8), FromBits(x)]
  }

  /** crc32.ChecksumIEEE, as the four big-endian bytes every format here stores. */
  function Checksum(data: Bytes): (c: Bytes)
    ensures |c| == 4
  {
    Word(Register(0xFFFF_FFFF, data) ^ 0xFFFF_FFFF)
  }

  // ----- every step is injective --------------------------------------------

  function BitUnstep(t: bv32): bv32 {
    if t & 0x8000_0000 != 0 then ((t ^ 0xEDB88320) << 1) | 1 else t << 1
  }

  lemma UnstepStep(s: bv32)
    ensures BitUnstep(BitStep(s)) == s
  {}

  lemma {:induction false} StepsInjective(s: bv32, t: bv32, n: nat)
    requires Steps(s, n) == Steps(t, n)
    ensures s == t
    decreases n
  {
    if n > 0 {
      StepsInjective(BitStep(s), BitStep(t), n - 1);
      UnstepStep(s);
      UnstepStep(t);
    }
  }

  lemma XorCancels(s: bv32, x: bv32, y: bv32)
    requires s ^ x == s ^ y || x ^ s == y ^ s
    ensures x == y
  {}

  lemma MixInjective(s: bv32, x: bv32, y: bv32, n: nat)
    requires Steps(s ^ x, n) == Steps(s ^ y, n)
    ensures x == y
  {
    StepsInjective(s ^ x, s ^ y, n);
    XorCancels(s, x, y);
  }

  lemma MixInjectiveRight(x: bv32, s: bv32, t: bv32, n: nat)
    requires Steps(s ^ x, n) == Steps(t ^ x, n)
    ensures s == t
  {
    StepsInjective(s ^ x, t ^ x, n);
    XorCancels(x, s, t);
  }

  lemma PackInjective(a0: bool, a1: bool, a2: bool, a3: bool, a4: bool, a5: bool, a6: bool, a7: bool,
                      b0: bool, b1: bool, b2: bool, b3: bool, b4: bool, b5: bool, b6: bool, b7: bool)
    requires Pack(a0, a1, a2, a3, a4, a5, a6, a7) == Pack(b0, b1, b2, b3, b4, b5, b6, b7)
    ensures a0 == b0 && a1 == b1 && a2 == b2 && a3 == b3 && a4 == b4 && a5 == b5 && a6 == b6 && a7 == b7
  {}

  function Pow2(n: nat): nat { if n == 0 then 1 else 2 * Pow2(n - 1) }

  lemma {:induction false} BitsDetermine(a: nat, b: nat, n: nat)
    requires a < Pow2(n) && b < Pow2(n)
    requires forall i :: 0 <= i < n ==> Bit(a, i) == Bit(b, i)
    ensures a == b
  {
    if n > 0 {
      assert Bit(a, 0) == Bit(b, 0);
      forall i | 0 <= i < n - 1 ensures Bit(a / 2, i) == Bit(b / 2, i) {
        assert Bit(a, i + 1) == Bit(b, i + 1);
      }
      BitsDetermine(a / 2, b / 2, n - 1);
    }
  }

  lemma ToBitsInjective(a: byte, b: byte)
    requires ToBits(a) == ToBits(b)
    ensures a == b
  {
    PackInjective(Bit(a, 0), Bit(a, 1), Bit(a, 2), Bit(a, 3), Bit(a, 4), Bit(a, 5), Bit(a, 6), Bit(a, 7),
                  Bit(b, 0), Bit(b, 1), Bit(b, 2), Bit(b, 3), Bit(b, 4), Bit(b, 5), Bit(b, 6), Bit(b, 7));
    forall i | 0 <= i < 8 ensures Bit(a, i) == Bit(b, i) {
      assert i == 0 || i == 1 || i == 2 || i == 3 || i == 4 || i == 5 || i == 6 || i == 7;
    }
    assert Pow2(8) == 256;
    BitsDetermine(a, b, 8);
  }

  lemma WordInjective(x: bv32, y: bv32)
    requires Word(x) == Word(y)
    ensures x == y
  {
    FromBitsInjective(x >> 24, y >> 24);
    FromBitsInjective(x >> 16, y >> 16);
    FromBitsInjective(x >> 8, y >> 8);
    FromBitsInjective(x, y);
  }

  lemma FromBitsInjective(x: bv32, y: bv32)
    requires FromBits(x) == FromBits(y)
    ensures x & 0xFF == y & 0xFF
  {
  }

  lemma UpdateSeparatesBits(s: bv32, a: byte, b: byte)
    requires Steps(s ^ ToBits(a), 8) == Steps(s ^ ToBits(b), 8)
    ensures ToBits(a) == ToBits(b)
  {
    MixInjective(s, ToBits(a), ToBits(b), 8);
  }

  lemma UpdateSeparatesBytes(s: bv32, a: byte, b: byte)
    requires Update(s, a) == Update(s, b)
    ensures ToBits(a) == ToBits(b)
  {
    UpdateSeparatesBits(s, a, b);
  }

  lemma UpdateInjectiveInByte(s: bv32, a: byte, b: byte)
    requires Update(s, a) == Update(s, b)
    ensures a == b
  {
    hide Update;
    UpdateSeparatesBytes(s, a, b);
    ToBitsInjective(a, b);
  }

  lemma UpdateSeparatesRegisters(s: bv32, t: bv32, a: byte)
    requires Steps(s ^ ToBits(a), 8) == Steps(t ^ ToBits(a), 8)
    ensures s == t
  {
    MixInjectiveRight(ToBits(a), s, t, 8);
  }

  lemma UpdateInjectiveInRegister(s: bv32, t: bv32, a: byte)
    requires Update(s, a) == Update(t, a)
    ensures s == t
  {
    UpdateSeparatesRegisters(s, t, a);
  }

  /** Different registers stay different however the same bytes continue. */
  lemma {:induction false} RegisterInjective(s: bv32, t: bv32, data: Bytes)
    requires s != t
    ensures Register(s, data) != Register(t, data)
  {
    if data != [] {
      RegisterInjective(s, t, data[..|data| - 1]);
      var b := data[|data| - 1];
      if Update(Register(s, data[..|data| - 1]), b) == Update(Register(t, data[..|data| - 1]), b) {
        UpdateInjectiveInRegister(Register(s, data[..|data| - 1]), Register(t, data[..|data| - 1]), b);
      }
    }
  }

  lemma {:induction false} RegisterConcat(s: bv32, a: Bytes, b: Bytes)
    ensures Register(s, a + b) == Register(Register(s, a), b)
  {
    if b == [] {
      assert a + b == a;
    } else {
      assert (a + b)[..|a + b| - 1] == a + b[..|b| - 1];
      RegisterConcat(s, a, b[..|b| - 1]);
    }
  }

  lemma ChecksumReadsRegister(a: Bytes, b: Bytes)
    requires Register(0xFFFF_FFFF, a) != Register(0xFFFF_FFFF, b)
    ensures Checksum(a) != Checksum(b)
  {
    if Checksum(a) == Checksum(b) {
      WordInjective(Register(0xFFFF_FFFF, a) ^ 0xFFFF_FFFF, Register(0xFFFF_FFFF, b) ^ 0xFFFF_FFFF);
    }
  }

  /** Changing one byte, and only one, always changes the checksum. */
  lemma OneByteChangesChecksum(data: Bytes, i: nat, b: byte)
    requires i < |data| && data[i] != b
    ensures Checksum(data[i := b]) != Checksum(data)
  {
    var s: bv32 := 0xFFFF_FFFF;
    var pre, post := data[..i], data[i + 1..];
    assert data == pre + [data[i]] + post && data[i := b] == pre + [b] + post;
    forall c: byte ensures Register(s, pre + [c] + post) == Register(Update(Register(s, pre), c), post) {
      RegisterConcat(s, pre + [c], post);
      assert (pre + [c])[..|pre|] == pre;
    }
    if Update(Register(s, pre), data[i]) == Update(Register(s, pre), b) {
      UpdateInjectiveInByte(Register(s, pre), data[i], b);
    }
    RegisterInjective(Update(Register(s, pre), data[i]), Update(Register(s, pre), b), post);
    ChecksumReadsRegister(data[i := b], data);
  }

  // ----- bursts of up to four bytes ------------------------------------------

  function Xor(x: bv32, y: bv32): bv32 { x ^ y }

  function Double(y: bv32): bv32 { y << 1 }

  predicate TopFree(y: bv32) { y & 0x8000_0000 == 0 }

  function Up(y: bv32, n: nat): bv32 { if n == 0 then y else Double(Up(y, n - 1)) }

  /** None of y's bits is lost on the way up by n. */
  predicate RoomAbove(y: bv32, n: nat) { n == 0 || (TopFree(Up(y, n - 1)) && RoomAbove(y, n - 1)) }

  lemma StepXorBits(x: bv32, y: bv32)
    requires y & 0x8000_0000 == 0
    ensures BitStep(x ^ (y << 1)) == BitStep(x) ^ y
  {}

  /** Bits above the one a step takes away only move down. */
  lemma StepXor(x: bv32, y: bv32)
    requires TopFree(y)
    ensures BitStep(Xor(x, Double(y))) == Xor(BitStep(x), y)
  {
    hide BitStep;
    StepXorBits(x, y);
  }

  /** What is mixed in after n steps could have been mixed in before them, n bits higher. */
  lemma {:induction false} EarlyXor(x: bv32, y: bv32, n: nat)
    requires RoomAbove(y, n)
    ensures Steps(Xor(x, Up(y, n)), n) == Xor(Steps(x, n), y)
    decreases n
  {
    hide BitStep, Xor, Double, TopFree;
    if n > 0 {
      StepXor(x, Up(y, n - 1));
      EarlyXor(BitStep(x), y, n - 1);
    }
  }

  lemma {:induction false} StepsAdd(x: bv32, m: nat, n: nat)
    ensures Steps(Steps(x, m), n) == Steps(x, m + n)
    decreases m
  {
    hide BitStep;
    if m > 0 { StepsAdd(BitStep(x), m - 1, n); }
  }

  lemma {:induction false} UpAdd(y: bv32, m: nat, n: nat)
    ensures Up(Up(y, m), n) == Up(y, m + n)
    ensures RoomAbove(y, m) && RoomAbove(Up(y, m), n) ==> RoomAbove(y, m + n)
    decreases n
  {
    hide Double, TopFree;
    if n > 0 { UpAdd(y, m, n - 1); }
  }

  lemma DoubleShift(y: bv32)
    ensures Double(y) == y << 1 && Double(y << 1) == y << 2 && Double(y << 2) == y << 3 && Double(y << 3) == y << 4
    ensures Double(y << 4) == y << 5 && Double(y << 5) == y << 6 && Double(y << 6) == y << 7 && Double(y << 7) == y << 8
  {}

  lemma ShiftFree(y: bv32)
    requires y & 0xFF00_0000 == 0
    ensures TopFree(y) && TopFree(y << 1) && TopFree(y << 2) && TopFree(y << 3)
    ensures TopFree(y << 4) && TopFree(y << 5) && TopFree(y << 6) && TopFree(y << 7)
  {}

  /** One byte up. */
  lemma UpEight(y: bv32)
    requires y & 0xFF00_0000 == 0
    ensures Up(y, 8) == y << 8 && RoomAbove(y, 8)
  {
    DoubleShift(y);
    ShiftFree(y);
    UpNone(y);
    hide Double, TopFree, Up, RoomAbove;
    UpOnce(y, 0); UpOnce(y, 1); UpOnce(y, 2); UpOnce(y, 3);
    UpOnce(y, 4); UpOnce(y, 5); UpOnce(y, 6); UpOnce(y, 7);
  }

  lemma UpNone(y: bv32)
    ensures Up(y, 0) == y && RoomAbove(y, 0)
  {}

  lemma UpOnce(y: bv32, n: nat)
    ensures Up(y, n + 1) == Double(Up(y, n)) && (RoomAbove(y, n + 1) <==> TopFree(Up(y, n)) && RoomAbove(y, n))
  {
    hide Double, TopFree;
  }

  predicate OneByte(y: bv32) { y & 0xFFFF_FF00 == 0 }

  lemma OneByteUp(y: bv32)
    requires OneByte(y)
    ensures y & 0xFF00_0000 == 0 && (y << 8) & 0xFF00_0000 == 0 && (y << 16) & 0xFF00_0000 == 0
    ensures (y << 8) << 8 == y << 16 && (y << 16) << 8 == y << 24
  {}

  lemma UpBytes(y: bv32)
    requires OneByte(y)
    ensures Up(y, 8) == y << 8 && Up(y, 16) == y << 16 && Up(y, 24) == y << 24
    ensures RoomAbove(y, 8) && RoomAbove(y, 16) && RoomAbove(y, 24)
  {
    hide Up, RoomAbove, OneByte;
    OneByteUp(y);
    UpEight(y);
    UpEight(y << 8);
    UpEight(y << 16);
    UpAdd(y, 8, 8);
    UpAdd(y, 16, 8);
  }

  lemma ToBitsOneByte(b: byte)
    ensures OneByte(ToBits(b))
  {
    hide Bit;
  }

  function Fed(x: bv32, b: bv32): bv32 { Steps(Xor(x, b), 8) }

  /** Feeding a byte after n steps. */
  lemma FedLate(x: bv32, n: nat, b: bv32)
    requires RoomAbove(b, n)
    ensures Fed(Steps(x, n), b) == Steps(Xor(x, Up(b, n)), n + 8)
  {
    hide Xor, Steps, RoomAbove, Up;
    EarlyXor(x, b, n);
    StepsAdd(Xor(x, Up(b, n)), n, 8);
  }

  /** Four bytes in a row act as one word. */
  lemma FedFour(s: bv32, a: bv32, b: bv32, c: bv32, d: bv32)
    requires OneByte(a) && OneByte(b) && OneByte(c) && OneByte(d)
    ensures Fed(Fed(Fed(Fed(s, a), b), c), d) == Steps(Xor(Xor(Xor(Xor(s, a), Up(b, 8)), Up(c, 16)), Up(d, 24)), 32)
  {
    hide Xor, Steps, RoomAbove, Up, OneByte;
    UpBytes(b);
    UpBytes(c);
    UpBytes(d);
    assert Fed(s, a) == Steps(Xor(s, a), 8);
    hide Fed;
    FedLate(Xor(s, a), 8, b);
    FedLate(Xor(Xor(s, a), Up(b, 8)), 16, c);
    FedLate(Xor(Xor(Xor(s, a), Up(b, 8)), Up(c, 16)), 24, d);
  }

  lemma WordsDiffer(a: bv32, b: bv32, c: bv32, d: bv32, a': bv32, b': bv32, c': bv32, d': bv32)
    requires (a | b | c | d | a' | b' | c' | d') & 0xFFFF_FF00 == 0
    requires a ^ (b << 8) ^ (c << 16) ^ (d << 24) == a' ^ (b' << 8) ^ (c' << 16) ^ (d' << 24)
    ensures a == a' && b == b' && c == c' && d == d'
  {}

  lemma XorAssociates(s: bv32, a: bv32, b: bv32)
    ensures Xor(Xor(s, a), b) == Xor(s, Xor(a, b))
  {}

  lemma AllOneByte(a: bv32, b: bv32, c: bv32, d: bv32, a': bv32, b': bv32, c': bv32, d': bv32)
    requires a & 0xFFFF_FF00 == 0 && b & 0xFFFF_FF00 == 0 && c & 0xFFFF_FF00 == 0 && d & 0xFFFF_FF00 == 0
    requires a' & 0xFFFF_FF00 == 0 && b' & 0xFFFF_FF00 == 0 && c' & 0xFFFF_FF00 == 0 && d' & 0xFFFF_FF00 == 0
    ensures (a | b | c | d | a' | b' | c' | d') & 0xFFFF_FF00 == 0
  {}

  function Word4(a: bv32, b: bv32, c: bv32, d: bv32): bv32 { Xor(Xor(Xor(a, b << 8), c << 16), d << 24) }

  lemma MixedWord(s: bv32, a: bv32, b: bv32, c: bv32, d: bv32)
    ensures Xor(Xor(Xor(Xor(s, a), b << 8), c << 16), d << 24) == Xor(s, Word4(a, b, c, d))
  {
    hide Xor;
    var b', c', d' := b << 8, c << 16, d << 24;
    XorAssociates(s, a, b');
    XorAssociates(s, Xor(a, b'), c');
    XorAssociates(s, Xor(Xor(a, b'), c'), d');
  }

  lemma Word4Separates(a: bv32, b: bv32, c: bv32, d: bv32, a': bv32, b': bv32, c': bv32, d': bv32)
    requires OneByte(a) && OneByte(b) && OneByte(c) && OneByte(d)
    requires OneByte(a') && OneByte(b') && OneByte(c') && OneByte(d')
    requires Word4(a, b, c, d) == Word4(a', b', c', d')
    ensures a == a' && b == b' && c == c' && d == d'
  {
    AllOneByte(a, b, c, d, a', b', c', d');
    WordsDiffer(a, b, c, d, a', b', c', d');
  }

  lemma XorSeparates(s: bv32, x: bv32, y: bv32)
    requires Xor(s, x) == Xor(s, y)
    ensures x == y
  {}

  lemma WordsSeparate(s: bv32, a: bv32, b: bv32, c: bv32, d: bv32, a': bv32, b': bv32, c': bv32, d': bv32)
    requires OneByte(a) && OneByte(b) && OneByte(c) && OneByte(d)
    requires OneByte(a') && OneByte(b') && OneByte(c') && OneByte(d')
    requires Xor(Xor(Xor(Xor(s, a), b << 8), c << 16), d << 24) == Xor(Xor(Xor(Xor(s, a'), b' << 8), c' << 16), d' << 24)
    ensures a == a' && b == b' && c == c' && d == d'
  {
    hide Xor, OneByte, Word4;
    MixedWord(s, a, b, c, d);
    MixedWord(s, a', b', c', d');
    XorSeparates(s, Word4(a, b, c, d), Word4(a', b', c', d'));
    Word4Separates(a, b, c, d, a', b', c', d');
  }

  lemma FedFourSeparate(s: bv32, a: bv32, b: bv32, c: bv32, d: bv32, a': bv32, b': bv32, c': bv32, d': bv32)
    requires OneByte(a) && OneByte(b) && OneByte(c) && OneByte(d)
    requires OneByte(a') && OneByte(b') && OneByte(c') && OneByte(d')
    requires Fed(Fed(Fed(Fed(s, a), b), c), d) == Fed(Fed(Fed(Fed(s, a'), b'), c'), d')
    ensures a == a' && b == b' && c == c' && d == d'
  {
    hide Xor, Steps, RoomAbove, Up, OneByte, Fed;
    FedFour(s, a, b, c, d);
    FedFour(s, a', b', c', d');
    StepsInjective(Xor(Xor(Xor(Xor(s, a), Up(b, 8)), Up(c, 16)), Up(d, 24)),
                   Xor(Xor(Xor(Xor(s, a'), Up(b', 8)), Up(c', 16)), Up(d', 24)), 32);
    UpBytes(b); UpBytes(c); UpBytes(d);
    UpBytes(b'); UpBytes(c'); UpBytes(d');
    WordsSeparate(s, a, b, c, d, a', b', c', d');
  }

  lemma RegisterLast(s: bv32, data: Bytes)
    requires data != []
    ensures Register(s, data) == Fed(Register(s, data[..|data| - 1]), ToBits(data[|data| - 1]))
  {
    hide ToBits, Steps;
  }

  lemma RegisterNone(s: bv32)
    ensures Register(s, []) == s
  {}

  lemma RegisterFour(s: bv32, w: Bytes)
    requires |w| == 4
    ensures Register(s, w) == Fed(Fed(Fed(Fed(s, ToBits(w[0])), ToBits(w[1])), ToBits(w[2])), ToBits(w[3]))
  {
    hide ToBits, Fed, Register;
    assert w[..3][..2] == w[..2] && w[..2][..1] == w[..1] && w[..1][..0] == [];
    RegisterNone(s);
    RegisterLast(s, w);
    RegisterLast(s, w[..3]);
    RegisterLast(s, w[..2]);
    RegisterLast(s, w[..1]);
  }

  lemma FourBytesSeparate(s: bv32, a: Bytes, b: Bytes)
    requires |a| == |b| == 4 && Register(s, a) == Register(s, b)
    ensures a == b
  {
    hide ToBits, Register, Fed, OneByte;
    ToBitsOneByte(a[0]); ToBitsOneByte(a[1]); ToBitsOneByte(a[2]); ToBitsOneByte(a[3]);
    ToBitsOneByte(b[0]); ToBitsOneByte(b[1]); ToBitsOneByte(b[2]); ToBitsOneByte(b[3]);
    RegisterFour(s, a);
    RegisterFour(s, b);
    FedFourSeparate(s, ToBits(a[0]), ToBits(a[1]), ToBits(a[2]), ToBits(a[3]),
                    ToBits(b[0]), ToBits(b[1]), ToBits(b[2]), ToBits(b[3]));
    ToBitsInjective(a[0], b[0]); ToBitsInjective(a[1], b[1]);
    ToBitsInjective(a[2], b[2]); ToBitsInjective(a[3], b[3]);
  }

  lemma RegisterParts(s: bv32, pre: Bytes, w: Bytes, post: Bytes)
    ensures Register(s, pre + w + post) == Register(Register(Register(s, pre), w), post)
  {
    hide Register;
    RegisterConcat(s, pre + w, post);
    RegisterConcat(s, pre, w);
  }

  /** Any change within four bytes in a row, and nowhere else, changes the checksum. */
  lemma BurstChangesChecksum(d: Bytes, e: Bytes, i: nat)
    requires |d| == |e| && i + 4 <= |d| && d != e
    requires d[..i] == e[..i] && d[i + 4..] == e[i + 4..]
    ensures Checksum(d) != Checksum(e)
  {
    hide Register, Checksum;
    var s: bv32 := 0xFFFF_FFFF;
    var pre, a, b, post := d[..i], d[i..i + 4], e[i..i + 4], d[i + 4..];
    assert d == pre + a + post && e == pre + b + post;
    RegisterParts(s, pre, a, post);
    RegisterParts(s, pre, b, post);
    if Register(Register(s, pre), a) == Register(Register(s, pre), b) {
      FourBytesSeparate(Register(s, pre), a, b);
    }
    RegisterInjective(Register(Register(s, pre), a), Register(Register(s, pre), b), post);
    ChecksumReadsRegister(d, e);
  }

  // ----- 17 zero bytes ------------------------------------------------------

  lemma {:induction false} BitOfZero(i: nat)
    ensures !Bit(0, i)
  {
    if i > 0 { BitOfZero(i - 1); }
  }

  lemma PackZero()
    ensures Pack(false, false, false, false, false, false, false, false) == 0
  {}

  lemma ToBitsZero()
    ensures ToBits(0) == 0
  {
    BitOfZero(0); BitOfZero(1); BitOfZero(2); BitOfZero(3);
    BitOfZero(4); BitOfZero(5); BitOfZero(6); BitOfZero(7);
    PackZero();
  }

  lemma XorZero(s: bv32)
    ensures s ^ 0 == s
  {}

  lemma ZeroByteStep(n: nat, x: bv32)
    requires Register(0xFFFF_FFFF, Zeros(n)) == x
    ensures Register(0xFFFF_FFFF, Zeros(n + 1)) == Steps(x, 8)
  {
    hide Bit, ToBits, Steps;
    assert Zeros(n + 1)[..n] == Zeros(n);
    ToBitsZero();
    XorZero(x);
  }

  function EightSteps(s: bv32): bv32 {
    BitStep(BitStep(BitStep(BitStep(BitStep(BitStep(BitStep(BitStep(s))))))))
  }

  lemma StepsEight(s: bv32)
    ensures Steps(s, 8) == EightSteps(s)
  {
    hide BitStep;
    assert Steps(s, 8) == Steps(BitStep(s), 7);
    var t := BitStep(BitStep(s));
    assert Steps(BitStep(s), 7) == Steps(t, 6) == Steps(BitStep(t), 5);
    var u := BitStep(BitStep(t));
    assert Steps(BitStep(t), 5) == Steps(u, 4) == Steps(BitStep(u), 3);
    var v := BitStep(BitStep(u));
    assert Steps(BitStep(u), 3) == Steps(v, 2) == Steps(BitStep(v), 1);
  }

  lemma FirstByteSteps()
    ensures Steps(0xFFFF_FFFF, 8) == 0x2DFD_1072
    ensures Steps(0x2DFD_1072, 8) == 0xBE26_ED00
    ensures Steps(0xBE26_ED00, 8) == 0x00BE_26ED
    ensures Steps(0x00BE_26ED, 8) == 0xDEBB_20E3
    ensures Steps(0xDEBB_20E3, 8) == 0x39DD_08E2
    ensures Steps(0x39DD_08E2, 8) == 0x4E3D_5E5C
  {
    hide Steps;
    StepsEight(0xFFFF_FFFF); StepsEight(0x2DFD_1072); StepsEight(0xBE26_ED00);
    StepsEight(0x00BE_26ED); StepsEight(0xDEBB_20E3); StepsEight(0x39DD_08E2);
  }

  lemma NextByteSteps()
    ensures Steps(0x4E3D_5E5C, 8) == 0x6293_2081
    ensures Steps(0x6293_2081, 8) == 0x9ADD_2096
    ensures Steps(0x9ADD_2096, 8) == 0x19F6_EB51
    ensures Steps(0x19F6_EB51, 8) == 0x1C75_9789
    ensures Steps(0x1C75_9789, 8) == 0x9478_4E13
    ensures Steps(0x9478_4E13, 8) == 0x842A_3990
  {
    hide Steps;
    StepsEight(0x4E3D_5E5C); StepsEight(0x6293_2081); StepsEight(0x9ADD_2096);
    StepsEight(0x19F6_EB51); StepsEight(0x1C75_9789); StepsEight(0x9478_4E13);
  }

  lemma LastByteSteps()
    ensures Steps(0x842A_3990, 8) == 0xF08B_B97D
    ensures Steps(0xF08B_B97D, 8) == 0x2E44_8638
    ensures Steps(0x2E44_8638, 8) == 0x282C_FC18
    ensures Steps(0x282C_FC18, 8) == 0x1344_B4AA
    ensures Steps(0x1344_B4AA, 8) == 0x3610_0E42
  {
    hide Steps;
    StepsEight(0x842A_3990); StepsEight(0xF08B_B97D); StepsEight(0x2E44_8638);
    StepsEight(0x282C_FC18); StepsEight(0x1344_B4AA);
  }

  lemma SixZeroBytes()
    ensures Register(0xFFFF_FFFF, Zeros(6)) == 0x4E3D_5E5C
  {
    assert Register(0xFFFF_FFFF, Zeros(0)) == 0xFFFF_FFFF;
    hide *;
    FirstByteSteps();
    ZeroByteStep(0, 0xFFFF_FFFF);
    ZeroByteStep(1, 0x2DFD_1072);
    ZeroByteStep(2, 0xBE26_ED00);
    ZeroByteStep(3, 0x00BE_26ED);
    ZeroByteStep(4, 0xDEBB_20E3);
    ZeroByteStep(5, 0x39DD_08E2);
  }

  lemma TwelveZeroBytes()
    ensures Register(0xFFFF_FFFF, Zeros(12)) == 0x842A_3990
  {
    hide *;
    SixZeroBytes();
    NextByteSteps();
    ZeroByteStep(6, 0x4E3D_5E5C);
    ZeroByteStep(7, 0x6293_2081);
    ZeroByteStep(8, 0x9ADD_2096);
    ZeroByteStep(9, 0x19F6_EB51);
    ZeroByteStep(10, 0x1C75_9789);
    ZeroByteStep(11, 0x9478_4E13);
  }

  /** The checksum of an all-zero record body (timestamp, lengths, flags) is not the stored zero word. */
  lemma ZeroBodyChecksum()
    ensures Checksum(Zeros(17)) != Zeros(4) && Checksum(Zeros(17))[3] != 0
  {
    hide *;
    TwelveZeroBytes();
    LastByteSteps();
    ZeroByteStep(12, 0x842A_3990);
    ZeroByteStep(13, 0xF08B_B97D);
    ZeroByteStep(14, 0x2E44_8638);
    ZeroByteStep(15, 0x282C_FC18);
    ZeroByteStep(16, 0x1344_B4AA);
    ZeroTop(Zeros(17));
    assert Zeros(4)[0] == 0;
  }

  lemma ZeroTop(data: Bytes)
    requires Register(0xFFFF_FFFF, data) == 0x3610_0E42
    ensures Checksum(data)[0] == 201 && Checksum(data)[3] == 189
  {
    hide Register;
  }
}
