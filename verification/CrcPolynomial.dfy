/**
 * CRC-32 as IEEE 802.3 defines it: the remainder of the message, as a polynomial over the bits,
 * by the generator of degree 32. The register of Crc32 computes exactly that.
 */
module CrcPolynomial {
  import opened Bytes
  import opened Crc32

  // ----- the definition ----------------------------------------------------------

  /** Coefficients, that of the highest power first. */
  type Poly = seq<bool>

  /** Below x^32, the powers in the generator. */
  const POWERS: set<nat> := {26, 23, 22, 16, 12, 11, 10, 8, 7, 5, 4, 2, 1, 0}

  function Generator(): (g: Poly)
    ensures |g| == 32
  {
    seq(32, k requires 0 <= k < 32 => 31 - k in POWERS)
  }

  function Sum(a: Poly, b: Poly): (r: Poly)
    requires |a| == |b|
    ensures |r| == |a|
  {
    seq(|a|, i requires 0 <= i < |a| => a[i] != b[i])
  }

  /** Long division: a leading term is cancelled by a multiple of the generator, until 32 terms are left. */
  function Remainder(p: Poly): (r: Poly)
    requires |p| >= 32
    ensures |r| == 32
    decreases |p|
  {
    if |p| == 32 then p else
    var q := p[1..];
    Remainder(if p[0] then Sum(q[..32], Generator()) + q[32..] else q)
  }

  /** Bit i of a byte. */
  function ByteBits(b: byte): (p: Poly)
    ensures |p| == 8
  {
    [b % 2 == 1, b / 2 % 2 == 1, b / 4 % 2 == 1, b / 8 % 2 == 1,
     b / 16 % 2 == 1, b / 32 % 2 == 1, b / 64 % 2 == 1, b / 128 % 2 == 1]
  }

  /** A message's bits, those of each byte from the lowest up. */
  function BitsOf(data: Bytes): (p: Poly)
    ensures |p| == 8 * |data|
  {
    if data == [] then [] else BitsOf(data[..|data| - 1]) + ByteBits(data[|data| - 1])
  }

  function Padding(): (p: Poly)
    ensures |p| == 32
  {
    seq(32, _ => false)
  }

  /** The message times x^32, its first 32 terms complemented. */
  function Message(data: Bytes): (p: Poly)
    ensures |p| == 8 * |data| + 32
  {
    var p := BitsOf(data) + Padding();
    seq(|p|, i requires 0 <= i < |p| => if i < 32 then !p[i] else p[i])
  }

  // ----- bits of the register ------------------------------------------------------

  function Half(s: bv32): bv32 { s >> 1 }

  predicate Odd(s: bv32) { s & 1 == 1 }

  /** Bit k of s. */
  predicate BitAt(s: bv32, k: nat) {
    if k == 0 then Odd(s) else BitAt(Half(s), k - 1)
  }

  /** The register as a polynomial: its lowest bit is the highest power. */
  function Coefficients(s: bv32): (p: Poly)
    ensures |p| == 32
  {
    seq(32, k requires 0 <= k < 32 => BitAt(s, k))
  }

  function Mixed(s: bv32, t: bv32): bv32 { s ^ t }

  lemma XorBits(s: bv32, t: bv32)
    ensures Half(Mixed(s, t)) == Mixed(Half(s), Half(t))
    ensures Odd(Mixed(s, t)) <==> Odd(s) != Odd(t)
  {}

  lemma {:induction false} XorAt(s: bv32, t: bv32, k: nat)
    ensures BitAt(Mixed(s, t), k) <==> BitAt(s, k) != BitAt(t, k)
    decreases k
  {
    hide Half, Odd, Mixed;
    XorBits(s, t);
    if k > 0 { XorAt(Half(s), Half(t), k - 1); }
  }

  function Byte(s: bv32): bv32 { s >> 8 }

  lemma HalvesAreByte(s: bv32)
    ensures Half(Half(Half(Half(Half(Half(Half(Half(s)))))))) == Byte(s)
  {}

  lemma ByteDown(s: bv32, k: nat)
    ensures BitAt(s, k + 8) <==> BitAt(Byte(s), k)
  {
    HalvesAreByte(s);
    hide Half, Odd, Byte;
    var a, b, c := Half(Half(s)), Half(Half(Half(Half(s)))), Half(Half(Half(Half(Half(Half(s))))));
    assert BitAt(s, k + 8) == BitAt(Half(s), k + 7) == BitAt(a, k + 6);
    assert BitAt(a, k + 6) == BitAt(Half(a), k + 5) == BitAt(b, k + 4);
    assert BitAt(b, k + 4) == BitAt(Half(b), k + 3) == BitAt(c, k + 2);
    assert BitAt(c, k + 2) == BitAt(Half(c), k + 1) == BitAt(Byte(s), k);
  }

  /** One of the low eight bits. */
  predicate LowBit(s: bv32, k: nat) {
    match k
    case 0 => s & 1 != 0
    case 1 => s & 2 != 0
    case 2 => s & 4 != 0
    case 3 => s & 8 != 0
    case 4 => s & 16 != 0
    case 5 => s & 32 != 0
    case 6 => s & 64 != 0
    case _ => s & 128 != 0
  }

  lemma LowHalf(s: bv32, k: nat)
    requires 0 < k < 8
    ensures LowBit(s, k) <==> LowBit(Half(s), k - 1)
  {}

  lemma {:induction false} LowBitAt(s: bv32, k: nat)
    requires k < 8
    ensures BitAt(s, k) <==> LowBit(s, k)
    decreases k
  {
    if k == 0 {
      LowIsOdd(s);
    } else {
      hide Half, Odd, LowBit;
      LowHalf(s, k);
      LowBitAt(Half(s), k - 1);
    }
  }

  lemma LowIsOdd(s: bv32)
    ensures Odd(s) <==> LowBit(s, 0)
  {}

  lemma NothingAbove(s: bv32)
    ensures Byte(Byte(Byte(Byte(s)))) == 0 && !Odd(0)
  {}

  lemma TopEmpty(s: bv32)
    ensures !BitAt(s, 32)
  {
    NothingAbove(s);
    hide Half, Odd, Byte;
    ByteDown(s, 24);
    ByteDown(Byte(s), 16);
    ByteDown(Byte(Byte(s)), 8);
    ByteDown(Byte(Byte(Byte(s))), 0);
  }

  // ----- the constants ----------------------------------------------------------------

  lemma FourBytes(s: bv32, k: nat)
    requires k < 32
    ensures BitAt(s, k)
            <==> if k < 8 then LowBit(s, k) else if k < 16 then LowBit(Byte(s), k - 8)
                 else if k < 24 then LowBit(Byte(Byte(s)), k - 16) else LowBit(Byte(Byte(Byte(s))), k - 24)
  {
    hide BitAt, LowBit, Byte;
    if k < 8 {
      LowBitAt(s, k);
    } else if k < 16 {
      ByteDown(s, k - 8);
      LowBitAt(Byte(s), k - 8);
    } else if k < 24 {
      ByteDown(s, k - 8);
      ByteDown(Byte(s), k - 16);
      LowBitAt(Byte(Byte(s)), k - 16);
    } else {
      ByteDown(s, k - 8);
      ByteDown(Byte(s), k - 16);
      ByteDown(Byte(Byte(s)), k - 24);
      LowBitAt(Byte(Byte(Byte(s))), k - 24);
    }
  }

  /** The register's constant is the generator. */
  lemma ConstantIsGenerator(k: nat)
    requires k < 32
    ensures BitAt(0xEDB8_8320, k) <==> 31 - k in POWERS
  {
    hide BitAt;
    FourBytes(0xEDB8_8320, k);
  }

  lemma AllOnes(k: nat)
    requires k < 32
    ensures BitAt(0xFFFF_FFFF, k)
  {
    hide BitAt;
    FourBytes(0xFFFF_FFFF, k);
  }

  lemma OneBit(b: bool, k: nat)
    ensures BitAt(Weigh(b, 1), k) <==> b && k == 0
    decreases k
  {
    HalfOfBit(b);
    hide Half, Odd, Weigh;
    if k > 0 { ZeroBits(k - 1); }
  }

  lemma HalfOfBit(b: bool)
    ensures Half(Weigh(b, 1)) == 0 && Half(0) == 0 && (Odd(Weigh(b, 1)) <==> b) && !Odd(0)
  {}

  lemma {:induction false} ZeroBits(k: nat)
    ensures !BitAt(0, k)
  {
    HalfOfBit(false);
    hide Half, Odd;
    if k > 0 { ZeroBits(k - 1); }
  }

  // ----- one bit of the message ------------------------------------------------------------

  function Feed(s: bv32, b: bool): bv32 { BitStep(Mixed(s, Weigh(b, 1))) }

  function FeedBits(s: bv32, p: Poly): bv32
    decreases |p|
  {
    if p == [] then s else FeedBits(Feed(s, p[0]), p[1..])
  }

  /** The same on polynomials: the leading term, with the message's bit added, is cancelled by the generator. */
  function Direct(r: Poly, b: bool): (r': Poly)
    requires |r| == 32
    ensures |r'| == 32
  {
    var q := r[1..] + [false];
    if r[0] != b then Sum(q, Generator()) else q
  }

  function DirectBits(r: Poly, p: Poly): (r': Poly)
    requires |r| == 32
    ensures |r'| == 32
    decreases |p|
  {
    if p == [] then r else DirectBits(Direct(r, p[0]), p[1..])
  }

  lemma StepOf(s: bv32)
    ensures BitStep(s) == if Odd(s) then Mixed(Half(s), 0xEDB8_8320) else Half(s)
  {
    if Odd(s) { StepOdd(s); } else { StepEven(s); }
  }

  lemma StepOdd(s: bv32)
    requires Odd(s)
    ensures BitStep(s) == Mixed(Half(s), 0xEDB8_8320)
  {}

  lemma StepEven(s: bv32)
    requires !Odd(s)
    ensures BitStep(s) == Half(s)
  {
    XorZero(s >> 1);
  }

  lemma FedBit(s: bv32, b: bool, k: nat)
    requires k < 32
    ensures BitAt(Feed(s, b), k)
            <==> ((k < 31 && BitAt(s, k + 1)) != (BitAt(s, 0) != b && 31 - k in POWERS))
  {
    hide BitStep, Mixed, Half, Odd, Weigh;
    var t := Mixed(s, Weigh(b, 1));
    StepOf(t);
    XorAt(s, Weigh(b, 1), 0);
    XorAt(s, Weigh(b, 1), k + 1);
    OneBit(b, 0);
    OneBit(b, k + 1);
    TopEmpty(s);
    assert BitAt(Half(t), k) == BitAt(t, k + 1);
    XorAt(Half(t), 0xEDB8_8320, k);
    ConstantIsGenerator(k);
  }

  lemma DirectAt(r: Poly, b: bool, k: nat)
    requires |r| == 32 && k < 32
    ensures Direct(r, b)[k] <==> ((k < 31 && r[k + 1]) != (r[0] != b && 31 - k in POWERS))
  {}

  lemma FeedIsDirect(s: bv32, b: bool)
    ensures Coefficients(Feed(s, b)) == Direct(Coefficients(s), b)
  {
    hide BitAt, Feed, Direct, Generator;
    var r := Coefficients(s);
    forall k | 0 <= k < 32 ensures Coefficients(Feed(s, b))[k] == Direct(r, b)[k] {
      FedBit(s, b, k);
      DirectAt(r, b, k);
    }
  }

  lemma {:induction false} FeedsAreDirect(s: bv32, p: Poly)
    ensures Coefficients(FeedBits(s, p)) == DirectBits(Coefficients(s), p)
    decreases |p|
  {
    hide Coefficients, Feed, Direct;
    if p != [] {
      FeedIsDirect(s, p[0]);
      FeedsAreDirect(Feed(s, p[0]), p[1..]);
    }
  }

  // ----- a byte is its bits -------------------------------------------------------------------

  lemma FeedPack(s: bv32, b0: bool, b1: bool, b2: bool, b3: bool, b4: bool, b5: bool, b6: bool, b7: bool)
    ensures BitStep(Mixed(s, Pack(b0, b1, b2, b3, b4, b5, b6, b7)))
            == Mixed(Feed(s, b0), Pack(b1, b2, b3, b4, b5, b6, b7, false))
  {
    hide BitStep, Mixed, Pack, Half, Low;
    var y := Pack(b0, b1, b2, b3, b4, b5, b6, b7);
    StepSplits(s, y);
    PackLow(b0, b1, b2, b3, b4, b5, b6, b7);
    PackHalf(b0, b1, b2, b3, b4, b5, b6, b7);
  }

  function Low(y: bv32): bv32 { y & 1 }

  /** What is mixed in above the lowest bit only moves down. */
  lemma StepSplits(s: bv32, y: bv32)
    ensures BitStep(Mixed(s, y)) == Mixed(BitStep(Mixed(s, Low(y))), Half(y))
  {
    hide BitStep, Mixed, Low, Half, Double, TopFree, Xor;
    LowAndHigh(s, y);
    StepXor(Mixed(s, Low(y)), Half(y));
    MixedIsXor(Mixed(s, Low(y)), Double(Half(y)));
    MixedIsXor(BitStep(Mixed(s, Low(y))), Half(y));
  }

  lemma MixedIsXor(x: bv32, y: bv32)
    ensures Mixed(x, y) == Xor(x, y)
  {}

  lemma LowAndHigh(s: bv32, y: bv32)
    ensures Mixed(s, y) == Mixed(Mixed(s, Low(y)), Double(Half(y))) && TopFree(Half(y))
  {
    hide Mixed, Low, Double, Half, TopFree;
    TwoParts(y);
    MixAssociates(s, Low(y), Double(Half(y)));
  }

  lemma TwoParts(y: bv32)
    ensures y == Mixed(Low(y), Double(Half(y))) && TopFree(Half(y))
  {}

  lemma MixAssociates(x: bv32, y: bv32, z: bv32)
    ensures Mixed(x, Mixed(y, z)) == Mixed(Mixed(x, y), z)
  {}

  lemma PackLow(b0: bool, b1: bool, b2: bool, b3: bool, b4: bool, b5: bool, b6: bool, b7: bool)
    ensures Low(Pack(b0, b1, b2, b3, b4, b5, b6, b7)) == Weigh(b0, 1)
  {}

  lemma PackHalf(b0: bool, b1: bool, b2: bool, b3: bool, b4: bool, b5: bool, b6: bool, b7: bool)
    ensures Half(Pack(b0, b1, b2, b3, b4, b5, b6, b7)) == Pack(b1, b2, b3, b4, b5, b6, b7, false)
  {}

  lemma PackNone(s: bv32)
    ensures Mixed(s, Pack(false, false, false, false, false, false, false, false)) == s
  {}

  lemma UpdateIs(s: bv32, b: byte)
    ensures Update(s, b) == Steps(Mixed(s, ToBits(b)), 8)
  {}

  lemma BitDown(v: nat, i: nat)
    ensures Bit(v, i + 1) == Bit(v / 2, i)
  {}

  lemma LowestBit(v: nat)
    ensures Bit(v, 0) <==> v % 2 == 1
  {}

  lemma HalvesOf(b: nat)
    ensures b / 2 / 2 == b / 4 && b / 4 / 2 == b / 8 && b / 8 / 2 == b / 16
    ensures b / 16 / 2 == b / 32 && b / 32 / 2 == b / 64 && b / 64 / 2 == b / 128
  {}

  lemma LowBits(v: nat)
    ensures Bit(v, 0) <==> v % 2 == 1
    ensures Bit(v, 1) <==> v / 2 % 2 == 1
    ensures Bit(v, 2) <==> v / 4 % 2 == 1
    ensures Bit(v, 3) <==> v / 8 % 2 == 1
  {
    hide Bit;
    HalvesOf(v);
    BitDown(v, 0); BitDown(v, 1); BitDown(v, 2);
    BitDown(v / 2, 0); BitDown(v / 2, 1); BitDown(v / 4, 0);
    LowestBit(v); LowestBit(v / 2); LowestBit(v / 4); LowestBit(v / 8);
  }

  lemma Sixteenths(b: nat)
    ensures b / 16 / 2 == b / 32 && b / 16 / 4 == b / 64 && b / 16 / 8 == b / 128
  {}

  /** Bit i of ToBits(b) is bit i of b. */
  lemma ToBitsOf(b: byte)
    ensures var p := ByteBits(b); ToBits(b) == Pack(p[0], p[1], p[2], p[3], p[4], p[5], p[6], p[7])
  {
    hide Pack, Bit;
    HalvesOf(b);
    LowBits(b);
    LowBits(b / 16);
    Sixteenths(b);
    BitDown(b, 3); BitDown(b, 4); BitDown(b, 5); BitDown(b, 6);
    BitDown(b / 2, 2); BitDown(b / 2, 3); BitDown(b / 2, 4); BitDown(b / 2, 5);
    BitDown(b / 4, 1); BitDown(b / 4, 2); BitDown(b / 4, 3); BitDown(b / 4, 4);
    BitDown(b / 8, 0); BitDown(b / 8, 1); BitDown(b / 8, 2); BitDown(b / 8, 3);
  }

  lemma FeedFrom(s: bv32, p: Poly, k: nat)
    requires k <= |p|
    ensures FeedBits(s, p[k..]) == if k == |p| then s else FeedBits(Feed(s, p[k]), p[k + 1..])
  {
    hide Feed;
    if k < |p| { assert p[k..][1..] == p[k + 1..]; }
  }

  function Fed8(s: bv32, b0: bool, b1: bool, b2: bool, b3: bool, b4: bool, b5: bool, b6: bool, b7: bool): bv32 {
    Feed(Feed(Feed(Feed(Feed(Feed(Feed(Feed(s, b0), b1), b2), b3), b4), b5), b6), b7)
  }

  lemma FourBits(s: bv32, p: Poly, k: nat)
    requires k + 4 <= |p|
    ensures FeedBits(s, p[k..]) == FeedBits(Feed(Feed(Feed(Feed(s, p[k]), p[k + 1]), p[k + 2]), p[k + 3]), p[k + 4..])
  {
    hide *;
    FeedFrom(s, p, k);
    FeedFrom(Feed(s, p[k]), p, k + 1);
    FeedFrom(Feed(Feed(s, p[k]), p[k + 1]), p, k + 2);
    FeedFrom(Feed(Feed(Feed(s, p[k]), p[k + 1]), p[k + 2]), p, k + 3);
  }

  lemma EightBits(s: bv32, p: Poly)
    requires |p| == 8
    ensures FeedBits(s, p) == Fed8(s, p[0], p[1], p[2], p[3], p[4], p[5], p[6], p[7])
  {
    hide Feed, FeedBits;
    FourBits(s, p, 0);
    FourBits(Feed(Feed(Feed(Feed(s, p[0]), p[1]), p[2]), p[3]), p, 4);
    FeedFrom(Fed8(s, p[0], p[1], p[2], p[3], p[4], p[5], p[6], p[7]), p, 8);
    assert p[0..] == p;
  }

  lemma EightFeeds(s: bv32, b0: bool, b1: bool, b2: bool, b3: bool, b4: bool, b5: bool, b6: bool, b7: bool)
    ensures Steps(Mixed(s, Pack(b0, b1, b2, b3, b4, b5, b6, b7)), 8) == Fed8(s, b0, b1, b2, b3, b4, b5, b6, b7)
  {
    StepsEight(Mixed(s, Pack(b0, b1, b2, b3, b4, b5, b6, b7)));
    hide BitStep, Mixed, Pack, Feed, Steps;
    var s1 := Feed(s, b0);
    var s2 := Feed(s1, b1);
    var s3 := Feed(s2, b2);
    var s4 := Feed(s3, b3);
    var s5 := Feed(s4, b4);
    var s6 := Feed(s5, b5);
    var s7 := Feed(s6, b6);
    FeedPack(s, b0, b1, b2, b3, b4, b5, b6, b7);
    FeedPack(s1, b1, b2, b3, b4, b5, b6, b7, false);
    FeedPack(s2, b2, b3, b4, b5, b6, b7, false, false);
    FeedPack(s3, b3, b4, b5, b6, b7, false, false, false);
    FeedPack(s4, b4, b5, b6, b7, false, false, false, false);
    FeedPack(s5, b5, b6, b7, false, false, false, false, false);
    FeedPack(s6, b6, b7, false, false, false, false, false, false);
    FeedPack(s7, b7, false, false, false, false, false, false, false);
    PackNone(Feed(s7, b7));
  }

  lemma UpdateFeeds(s: bv32, b: byte)
    ensures Update(s, b) == FeedBits(s, ByteBits(b))
  {
    hide Update, Steps, ToBits, Mixed, Pack, Feed, FeedBits, Fed8, ByteBits;
    UpdateIs(s, b);
    ToBitsOf(b);
    var p := ByteBits(b);
    EightFeeds(s, p[0], p[1], p[2], p[3], p[4], p[5], p[6], p[7]);
    EightBits(s, p);
  }

  lemma {:induction false} FeedConcat(s: bv32, p: Poly, q: Poly)
    ensures FeedBits(s, p + q) == FeedBits(FeedBits(s, p), q)
    decreases |p|
  {
    hide Feed;
    if p == [] {
      assert p + q == q;
    } else {
      assert (p + q)[1..] == p[1..] + q;
      FeedConcat(Feed(s, p[0]), p[1..], q);
    }
  }

  lemma {:induction false} RegisterFeeds(s: bv32, data: Bytes)
    ensures Register(s, data) == FeedBits(s, BitsOf(data))
  {
    hide Update, Feed, ByteBits;
    if data != [] {
      var n := |data| - 1;
      RegisterFeeds(s, data[..n]);
      UpdateFeeds(Register(s, data[..n]), data[n]);
      FeedConcat(s, BitsOf(data[..n]), ByteBits(data[n]));
    }
  }

  // ----- the direct form is long division -----------------------------------------------------------

  /** m with r added to its first 32 terms. */
  function Offset(r: Poly, m: Poly): (p: Poly)
    requires |r| == 32 <= |m|
    ensures |p| == |m|
  {
    Sum(r, m[..32]) + m[32..]
  }

  lemma DivideOnce(r: Poly, m: Poly)
    requires |r| == 32 < |m|
    ensures Remainder(Offset(r, m)) == Remainder(Offset(Direct(r, m[0]), m[1..]))
  {
    hide Remainder, Generator;
    var p, next := Offset(r, m), Offset(Direct(r, m[0]), m[1..]);
    var q := p[1..];
    var t := if p[0] then Sum(q[..32], Generator()) + q[32..] else q;
    forall i | 0 <= i < |t| ensures t[i] == next[i] {
      if i < 31 {
        assert q[i] == p[i + 1] == (r[i + 1] != m[i + 1]);
      } else {
        assert q[i] == p[i + 1] == m[i + 1];
      }
    }
    assert t == next;
    Divides(p);
  }

  lemma Divides(p: Poly)
    requires |p| > 32
    ensures Remainder(p) == Remainder(if p[0] then Sum(p[1..][..32], Generator()) + p[1..][32..] else p[1..])
  {
    hide Sum, Generator;
  }

  lemma {:induction false} DirectDivides(r: Poly, p: Poly)
    requires |r| == 32
    ensures Remainder(Offset(r, p + Padding())) == DirectBits(r, p)
    decreases |p|
  {
    hide Direct;
    var m := p + Padding();
    if p == [] {
      assert m == Padding();
      assert Offset(r, m) == r;
    } else {
      hide Remainder;
      DivideOnce(r, m);
      assert m[1..] == p[1..] + Padding();
      DirectDivides(Direct(r, p[0]), p[1..]);
    }
  }

  lemma AllOnesOffset(data: Bytes)
    ensures Offset(Coefficients(0xFFFF_FFFF), BitsOf(data) + Padding()) == Message(data)
  {
    hide BitAt, BitsOf;
    forall k | 0 <= k < 32 ensures Coefficients(0xFFFF_FFFF)[k] {
      AllOnes(k);
    }
  }

  /** The register after a message is the remainder. */
  lemma RegisterIsRemainder(data: Bytes)
    ensures Coefficients(Register(0xFFFF_FFFF, data)) == Remainder(Message(data))
  {
    hide Coefficients, Register, FeedBits, DirectBits, Remainder, Message, Offset, BitsOf;
    RegisterFeeds(0xFFFF_FFFF, data);
    FeedsAreDirect(0xFFFF_FFFF, BitsOf(data));
    DirectDivides(Coefficients(0xFFFF_FFFF), BitsOf(data));
    AllOnesOffset(data);
  }

  // ----- the stored word ------------------------------------------------------------------------------

  function Lead(b: bool, rest: nat): nat { (if b then 1 else 0) + 2 * rest }

  function Number(b0: bool, b1: bool, b2: bool, b3: bool, b4: bool, b5: bool, b6: bool, b7: bool): nat {
    Lead(b0, Lead(b1, Lead(b2, Lead(b3, Lead(b4, Lead(b5, Lead(b6, Lead(b7, 0))))))))
  }

  lemma LeadParts(b: bool, rest: nat)
    ensures Lead(b, rest) / 2 == rest && (Lead(b, rest) % 2 == 1 <==> b)
  {}

  lemma NumberBits(b0: bool, b1: bool, b2: bool, b3: bool, b4: bool, b5: bool, b6: bool, b7: bool)
    requires Number(b0, b1, b2, b3, b4, b5, b6, b7) < 256
    ensures ByteBits(Number(b0, b1, b2, b3, b4, b5, b6, b7)) == [b0, b1, b2, b3, b4, b5, b6, b7]
  {
    hide Lead;
    var n7 := Lead(b7, 0);
    var n6 := Lead(b6, n7);
    var n5 := Lead(b5, n6);
    var n4 := Lead(b4, n5);
    var n3 := Lead(b3, n4);
    var n2 := Lead(b2, n3);
    var n1 := Lead(b1, n2);
    var n := Lead(b0, n1);
    LeadParts(b0, n1); LeadParts(b1, n2); LeadParts(b2, n3); LeadParts(b3, n4);
    LeadParts(b4, n5); LeadParts(b5, n6); LeadParts(b6, n7); LeadParts(b7, 0);
    HalvesOf(n);
  }

  lemma FromBitsIs(x: bv32)
    ensures FromBits(x) == Number(LowBit(x, 0), LowBit(x, 1), LowBit(x, 2), LowBit(x, 3),
                                  LowBit(x, 4), LowBit(x, 5), LowBit(x, 6), LowBit(x, 7))
  {}

  lemma FromBitsOf(x: bv32, k: nat)
    requires k < 8
    ensures ByteBits(FromBits(x))[k] <==> LowBit(x, k)
  {
    hide FromBits, LowBit, Number, ByteBits;
    FromBitsIs(x);
    NumberBits(LowBit(x, 0), LowBit(x, 1), LowBit(x, 2), LowBit(x, 3),
               LowBit(x, 4), LowBit(x, 5), LowBit(x, 6), LowBit(x, 7));
  }

  lemma WordIs(x: bv32)
    ensures Word(x) == [FromBits(Byte(Byte(Byte(x)))), FromBits(Byte(Byte(x))), FromBits(Byte(x)), FromBits(x)]
  {
    hide FromBits;
    ByteShifts(x);
  }

  lemma ByteShifts(x: bv32)
    ensures x >> 8 == Byte(x) && x >> 16 == Byte(Byte(x)) && x >> 24 == Byte(Byte(Byte(x)))
  {}

  /** The word is big-endian: bit i of the register is in byte 3 - i / 8. */
  lemma WordBits(x: bv32, i: nat)
    requires i < 32
    ensures ByteBits(Word(x)[3 - i / 8])[i % 8] <==> BitAt(x, i)
  {
    hide BitAt, LowBit, FromBits, Word, ByteBits, Byte;
    FourBytes(x, i);
    WordIs(x);
    if i < 8 {
      FromBitsOf(x, i);
    } else if i < 16 {
      FromBitsOf(Byte(x), i - 8);
    } else if i < 24 {
      FromBitsOf(Byte(Byte(x)), i - 16);
    } else {
      FromBitsOf(Byte(Byte(Byte(x))), i - 24);
    }
  }

  lemma ChecksumIs(data: Bytes)
    ensures Checksum(data) == Word(Mixed(Register(0xFFFF_FFFF, data), 0xFFFF_FFFF))
  {}

  /**
   * The checksum is the complement of the remainder of the message times x^32, its first 32 terms
   * complemented. The lowest bit of the last byte is the highest power.
   */
  lemma ChecksumIsRemainder(data: Bytes)
    ensures forall i :: 0 <= i < 32 ==> ByteBits(Checksum(data)[3 - i / 8])[i % 8] != Remainder(Message(data))[i]
  {
    hide BitAt, Register, Remainder, Message, Mixed, Word, Checksum, ByteBits;
    var x := Register(0xFFFF_FFFF, data);
    ChecksumIs(data);
    RegisterIsRemainder(data);
    forall i | 0 <= i < 32 ensures ByteBits(Checksum(data)[3 - i / 8])[i % 8] != Remainder(Message(data))[i] {
      WordBits(Mixed(x, 0xFFFF_FFFF), i);
      XorAt(x, 0xFFFF_FFFF, i);
      AllOnes(i);
      assert Coefficients(x)[i] == BitAt(x, i);
    }
  }

  // ----- the check value --------------------------------------------------------------------------------

  lemma PackedDigits()
    ensures Pack(true, false, false, false, true, true, false, false) == 49
    ensures Pack(false, true, false, false, true, true, false, false) == 50
    ensures Pack(true, true, false, false, true, true, false, false) == 51
    ensures Pack(false, false, true, false, true, true, false, false) == 52
    ensures Pack(true, false, true, false, true, true, false, false) == 53
    ensures Pack(false, true, true, false, true, true, false, false) == 54
    ensures Pack(true, true, true, false, true, true, false, false) == 55
    ensures Pack(false, false, false, true, true, true, false, false) == 56
    ensures Pack(true, false, false, true, true, true, false, false) == 57
  {}

  /** A digit as a bit vector. */
  function Digit(b: byte): bv32 {
    match b
    case 49 => 49 case 50 => 50 case 51 => 51 case 52 => 52 case 53 => 53
    case 54 => 54 case 55 => 55 case 56 => 56 case _ => 57
  }

  lemma DigitBits(b: byte)
    requires 49 <= b <= 57
    ensures ToBits(b) == Digit(b)
  {
    hide ToBits, Pack;
    PackedDigits();
    ToBitsOf(b);
  }

  lemma NextByte(d: Bytes, k: nat, bits: bv32, x: bv32, y: bv32)
    requires k < |d| && Register(0xFFFF_FFFF, d[..k]) == x && ToBits(d[k]) == bits && EightSteps(Mixed(x, bits)) == y
    ensures Register(0xFFFF_FFFF, d[..k + 1]) == y
  {
    hide ToBits, Steps, EightSteps;
    assert d[..k + 1][..k] == d[..k];
    StepsEight(Mixed(x, bits));
  }

  /** One more byte, its bits and the eight steps worked out. */
  lemma OneMore(d: Bytes, k: nat, x: bv32, y: bv32)
    requires k < |d| && 49 <= d[k] <= 57
    requires Register(0xFFFF_FFFF, d[..k]) == x && EightSteps(Mixed(x, Digit(d[k]))) == y
    ensures Register(0xFFFF_FFFF, d[..k + 1]) == y
  {
    hide ToBits, EightSteps, Digit, Register;
    DigitBits(d[k]);
    NextByte(d, k, Digit(d[k]), x, y);
  }

  lemma DigitSteps()
    ensures EightSteps(Mixed(0xFFFF_FFFF, Digit(49))) == 0x7C23_1048
    ensures EightSteps(Mixed(0x7C23_1048, Digit(50))) == 0xB0AC_BB32
    ensures EightSteps(Mixed(0xB0AC_BB32, Digit(51))) == 0x77B7_9C2D
    ensures EightSteps(Mixed(0x77B7_9C2D, Digit(52))) == 0x641C_1F5C
    ensures EightSteps(Mixed(0x641C_1F5C, Digit(53))) == 0x340A_C5E3
    ensures EightSteps(Mixed(0x340A_C5E3, Digit(54))) == 0xF68D_2C9E
    ensures EightSteps(Mixed(0xF68D_2C9E, Digit(55))) == 0xAFFC_9660
    ensures EightSteps(Mixed(0xAFFC_9660, Digit(56))) == 0x651F_2550
    ensures EightSteps(Mixed(0x651F_2550, Digit(57))) == 0x340B_C6D9
  {}

  lemma CheckWord()
    ensures Word(0x340B_C6D9 ^ 0xFFFF_FFFF) == [0xCB, 0xF4, 0x39, 0x26]
  {}

  lemma NoDigits(d: Bytes)
    ensures Register(0xFFFF_FFFF, d[..0]) == 0xFFFF_FFFF
  {}

  lemma ThreeDigits(d: Bytes)
    requires |d| == 9 && forall k :: 0 <= k < 9 ==> d[k] == 49 + k
    ensures Register(0xFFFF_FFFF, d[..3]) == 0x77B7_9C2D
  {
    hide *;
    NoDigits(d);
    DigitSteps();
    OneMore(d, 0, 0xFFFF_FFFF, 0x7C23_1048);
    OneMore(d, 1, 0x7C23_1048, 0xB0AC_BB32);
    OneMore(d, 2, 0xB0AC_BB32, 0x77B7_9C2D);
  }

  lemma SixDigits(d: Bytes)
    requires |d| == 9 && forall k :: 0 <= k < 9 ==> d[k] == 49 + k
    ensures Register(0xFFFF_FFFF, d[..6]) == 0xF68D_2C9E
  {
    hide *;
    ThreeDigits(d);
    DigitSteps();
    OneMore(d, 3, 0x77B7_9C2D, 0x641C_1F5C);
    OneMore(d, 4, 0x641C_1F5C, 0x340A_C5E3);
    OneMore(d, 5, 0x340A_C5E3, 0xF68D_2C9E);
  }

  lemma NineDigits(d: Bytes)
    requires |d| == 9 && forall k :: 0 <= k < 9 ==> d[k] == 49 + k
    ensures Register(0xFFFF_FFFF, d) == 0x340B_C6D9
  {
    hide *;
    SixDigits(d);
    DigitSteps();
    OneMore(d, 6, 0xF68D_2C9E, 0xAFFC_9660);
    OneMore(d, 7, 0xAFFC_9660, 0x651F_2550);
    OneMore(d, 8, 0x651F_2550, 0x340B_C6D9);
    assert d[..9] == d;
  }

  /** The check value: the CRC of the nine ASCII digits 123456789 is CBF43926. */
  lemma CheckValue(d: Bytes)
    requires d == [49, 50, 51, 52, 53, 54, 55, 56, 57]
    ensures Checksum(d) == [0xCB, 0xF4, 0x39, 0x26]
  {
    hide Register, Word;
    NineDigits(d);
    CheckWord();
  }
}
