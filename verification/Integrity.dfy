/** The checksum of crates/protocol/src/integrity.rs.

    The hasher is a reflected 32-bit CRC: each byte is added (exclusive or) to the low end of the
    register, which is then shifted right eight times, feeding back a polynomial.  Registers are
    bit lists with the low bit first.  The polynomial is a parameter; the hasher the program uses
    is the IEEE one (section 3.2.9 of IEEE 802.3).
 */
module Integrity {
  import opened Common

  type Bits = seq<bool>
  type Word = w: Bits | |w| == 32 witness Fill(false, 32)

  const ALL_ONES: Word := Fill(true, 32)

  /** The exponents of the generating polynomial of section 3.2.9 of IEEE 802.3, x^32 apart. */
  const IEEE_EXPONENTS: set<nat> := {26, 23, 22, 16, 12, 11, 10, 8, 7, 5, 4, 2, 1, 0}

  /** The highest exponent is at the low end. */
  const IEEE_POLYNOMIAL: Word := Coefficients(IEEE_EXPONENTS)

  function Coefficients(exponents: set<nat>): Word {
    seq(32, i requires 0 <= i < 32 => 31 - i in exponents)
  }

  function Fill(bit: bool, count: nat): (b: Bits)
    ensures |b| == count && forall i :: 0 <= i < count ==> b[i] == bit
  {
    seq(count, _ => bit)
  }

  /** The low `width` bits of x, lowest first. */
  function ToBits(x: nat, width: nat): (b: Bits)
    ensures |b| == width
  {
    if width == 0 then [] else [x % 2 == 1] + ToBits(x / 2, width - 1)
  }

  function Xor(a: Word, b: Word): Word {
    seq(32, i requires 0 <= i < 32 => a[i] != b[i])
  }

  function ShiftRight(a: Word): Word {
    a[1..] + [false]
  }

  /** x at the low end of an otherwise zero register. */
  function Pad(x: Bits): (w: Word)
    requires |x| <= 32
  {
    x + Fill(false, 32 - |x|)
  }

  /** One shift of the register with feedback. */
  function ShiftOnce(poly: Word, reg: Word): Word {
    if reg[0] then Xor(ShiftRight(reg), poly) else ShiftRight(reg)
  }

  function Shift(poly: Word, reg: Word, count: nat): Word
    decreases count
  {
    if count == 0 then reg else Shift(poly, ShiftOnce(poly, reg), count - 1)
  }

  /** Hasher::update, one byte after the other. */
  function Update(poly: Word, reg: Word, data: seq<u8>): Word
    decreases |data|
  {
    if data == [] then reg
    else Update(poly, Shift(poly, Xor(reg, Pad(ToBits(data[0], 8))), 8), data[1..])
  }

  function ComputeChecksum(poly: Word, data: seq<u8>): Word {
    Xor(Update(poly, ALL_ONES, data), ALL_ONES)
  }

  /** The little-endian bytes of x. */
  function LeBytes(x: nat, width: nat): (b: seq<u8>)
    ensures |b| == width
  {
    if width == 0 then [] else [x % 256] + LeBytes(x / 256, width - 1)
  }

  /** The fields of an interrupt report that the checksum covers. */
  datatype Fields = Fields(sequence: u64, endpoint: u8, data: seq<u8>, timestampUs: u64)

  /** The four hasher updates of the interrupt checksum, in the source's order. */
  function ComputeInterruptChecksum(poly: Word, f: Fields): Word {
    var header := Update(poly, Update(poly, ALL_ONES, LeBytes(f.sequence, 8)), [f.endpoint]);
    Xor(Update(poly, Update(poly, header, f.data), LeBytes(f.timestampUs, 8)), ALL_ONES)
  }

  predicate VerifyInterruptChecksum(f: Fields, expected: Word) {
    ComputeInterruptChecksum(IEEE_POLYNOMIAL, f) == expected
  }

  /** The covered bytes in transmission order. */
  function InterruptBytes(f: Fields): (b: seq<u8>)
    ensures |b| == 17 + |f.data|
  {
    LeBytes(f.sequence, 8) + [f.endpoint] + f.data + LeBytes(f.timestampUs, 8)
  }

  // ---------- Piecewise update ----------

  lemma {:induction false} UpdateConcat(poly: Word, reg: Word, a: seq<u8>, b: seq<u8>)
    ensures Update(poly, reg, a + b) == Update(poly, Update(poly, reg, a), b)
    decreases |a|
  {
    if a == [] {
      assert a + b == b;
    } else {
      assert (a + b)[1..] == a[1..] + b;
      UpdateConcat(poly, Shift(poly, Xor(reg, Pad(ToBits(a[0], 8))), 8), a[1..], b);
    }
  }

  /** The four updates are one pass over the concatenated fields. */
  lemma InterruptChecksumIsOnePass(poly: Word, f: Fields)
    ensures ComputeInterruptChecksum(poly, f) == ComputeChecksum(poly, InterruptBytes(f))
  {
    var s, e, t := LeBytes(f.sequence, 8), [f.endpoint], LeBytes(f.timestampUs, 8);
    UpdateConcat(poly, ALL_ONES, s + e + f.data, t);
    UpdateConcat(poly, ALL_ONES, s + e, f.data);
    UpdateConcat(poly, ALL_ONES, s, e);
  }

  // ---------- Bit-serial form ----------

  /** The transmitted bits: every byte low bit first. */
  function BitStream(data: seq<u8>): Bits {
    if data == [] then [] else ToBits(data[0], 8) + BitStream(data[1..])
  }

  /** Feeding one message bit at a time. */
  function Feed(poly: Word, reg: Word, bits: Bits): Word
    decreases |bits|
  {
    if bits == [] then reg
    else Feed(poly, ShiftOnce(poly, Xor(reg, Pad([bits[0]]))), bits[1..])
  }

  lemma {:induction false} FeedConcat(poly: Word, reg: Word, a: Bits, b: Bits)
    ensures Feed(poly, reg, a + b) == Feed(poly, Feed(poly, reg, a), b)
    decreases |a|
  {
    if a == [] {
      assert a + b == b;
    } else {
      assert (a + b)[1..] == a[1..] + b;
      FeedConcat(poly, ShiftOnce(poly, Xor(reg, Pad([a[0]]))), a[1..], b);
    }
  }

  lemma ShiftOnceLinear(poly: Word, x: Word, y: Word)
    ensures ShiftOnce(poly, Xor(x, y)) == Xor(ShiftOnce(poly, x), ShiftOnce(poly, y))
  {
  }

  /** A bit block of at most 32 bits can be added to the register at once. */
  lemma {:induction false} FeedIsShift(poly: Word, reg: Word, bits: Bits)
    requires |bits| <= 32
    ensures Feed(poly, reg, bits) == Shift(poly, Xor(reg, Pad(bits)), |bits|)
    decreases |bits|
  {
    if bits == [] {
      assert Xor(reg, Pad(bits)) == reg;
    } else {
      var rest := [false] + Pad(bits[1..])[..31];
      var first := Xor(reg, Pad([bits[0]]));
      FeedIsShift(poly, ShiftOnce(poly, first), bits[1..]);
      ShiftOnceLinear(poly, first, rest);
      assert ShiftOnce(poly, rest) == Pad(bits[1..]);
      assert Xor(first, rest) == Xor(reg, Pad(bits));
    }
  }

  /** Processing whole bytes is feeding their bits in order. */
  lemma {:induction false} UpdateIsFeed(poly: Word, reg: Word, data: seq<u8>)
    ensures Update(poly, reg, data) == Feed(poly, reg, BitStream(data))
    decreases |data|
  {
    if data != [] {
      var b := ToBits(data[0], 8);
      FeedIsShift(poly, reg, b);
      FeedConcat(poly, reg, b, BitStream(data[1..]));
      UpdateIsFeed(poly, Shift(poly, Xor(reg, Pad(b)), 8), data[1..]);
    }
  }

  // ---------- Burst detection ----------

  lemma ShiftOnceInjective(poly: Word, x: Word, y: Word)
    requires poly[31]
    requires ShiftOnce(poly, x) == ShiftOnce(poly, y)
    ensures x == y
  {
    assert ShiftOnce(poly, x)[31] == x[0] && ShiftOnce(poly, y)[31] == y[0];
    forall i | 1 <= i < 32
      ensures x[i] == y[i]
    {
      assert ShiftOnce(poly, x)[i - 1] == ShiftOnce(poly, y)[i - 1];
    }
  }

  lemma {:induction false} ShiftInjective(poly: Word, x: Word, y: Word, count: nat)
    requires poly[31]
    requires Shift(poly, x, count) == Shift(poly, y, count)
    ensures x == y
    decreases count
  {
    if count > 0 {
      ShiftInjective(poly, ShiftOnce(poly, x), ShiftOnce(poly, y), count - 1);
      ShiftOnceInjective(poly, x, y);
    }
  }

  lemma XorCancel(x: Word, y: Word, z: Word)
    requires Xor(x, z) == Xor(y, z)
    ensures x == y
  {
    forall i | 0 <= i < 32
      ensures x[i] == y[i]
    {
      assert Xor(x, z)[i] == Xor(y, z)[i];
    }
  }

  lemma XorCancelLeft(x: Word, y: Word, z: Word)
    requires Xor(z, x) == Xor(z, y)
    ensures x == y
  {
    forall i | 0 <= i < 32
      ensures x[i] == y[i]
    {
      assert Xor(z, x)[i] == Xor(z, y)[i];
    }
  }

  lemma {:induction false} FeedInjective(poly: Word, x: Word, y: Word, bits: Bits)
    requires poly[31]
    requires Feed(poly, x, bits) == Feed(poly, y, bits)
    ensures x == y
    decreases |bits|
  {
    if bits != [] {
      var b := Pad([bits[0]]);
      FeedInjective(poly, ShiftOnce(poly, Xor(x, b)), ShiftOnce(poly, Xor(y, b)), bits[1..]);
      ShiftOnceInjective(poly, Xor(x, b), Xor(y, b));
      XorCancel(x, y, b);
    }
  }

  /** Two bit streams of equal length that differ only inside one window of at most 32 bits. */
  ghost predicate BurstError(a: Bits, b: Bits) {
    exists before: Bits, x: Bits, y: Bits, after: Bits ::
      && a == before + x + after && b == before + y + after
      && |x| == |y| <= 32 && x != y
  }

  lemma BurstChangesRegister(poly: Word, reg: Word, before: Bits, x: Bits, y: Bits, after: Bits)
    requires poly[31]
    requires |x| == |y| <= 32 && x != y
    ensures Feed(poly, reg, before + x + after) != Feed(poly, reg, before + y + after)
  {
    FeedConcat(poly, reg, before + x, after);
    FeedConcat(poly, reg, before + y, after);
    FeedConcat(poly, reg, before, x);
    FeedConcat(poly, reg, before, y);
    var r := Feed(poly, reg, before);
    assert Pad(x) != Pad(y) by {
      assert x == Pad(x)[..|x|] && y == Pad(y)[..|y|];
    }
    if Feed(poly, Feed(poly, r, x), after) == Feed(poly, Feed(poly, r, y), after) {
      FeedInjective(poly, Feed(poly, r, x), Feed(poly, r, y), after);
      FeedIsShift(poly, r, x);
      FeedIsShift(poly, r, y);
      ShiftInjective(poly, Xor(r, Pad(x)), Xor(r, Pad(y)), |x|);
      XorCancelLeft(Pad(x), Pad(y), r);
    }
  }

  /** Every burst of at most 32 bits, in data of any length, changes the checksum. */
  lemma BurstDetected(poly: Word, a: seq<u8>, b: seq<u8>)
    requires poly[31]
    requires BurstError(BitStream(a), BitStream(b))
    ensures ComputeChecksum(poly, a) != ComputeChecksum(poly, b)
  {
    var before, x, y, after :|
      && BitStream(a) == before + x + after && BitStream(b) == before + y + after
      && |x| == |y| <= 32 && x != y;
    BurstChangesRegister(poly, ALL_ONES, before, x, y, after);
    UpdateIsFeed(poly, ALL_ONES, a);
    UpdateIsFeed(poly, ALL_ONES, b);
    if ComputeChecksum(poly, a) == ComputeChecksum(poly, b) {
      XorCancel(Update(poly, ALL_ONES, a), Update(poly, ALL_ONES, b), ALL_ONES);
    }
  }

  // ---------- The polynomials that detect every burst ----------

  ghost predicate DetectsEveryBurst(poly: Word) {
    forall a: seq<u8>, b: seq<u8> :: BurstError(BitStream(a), BitStream(b)) ==>
      ComputeChecksum(poly, a) != ComputeChecksum(poly, b)
  }

  function Pow2(n: nat): nat {
    if n == 0 then 1 else 2 * Pow2(n - 1)
  }

  function FromBits(bits: Bits): (x: nat)
    ensures x < Pow2(|bits|)
  {
    if bits == [] then 0 else (if bits[0] then 1 else 0) + 2 * FromBits(bits[1..])
  }

  lemma {:induction false} FromBitsRoundTrip(bits: Bits)
    ensures ToBits(FromBits(bits), |bits|) == bits
  {
    if bits != [] {
      FromBitsRoundTrip(bits[1..]);
    }
  }

  /** The bytes whose bits are the given ones. */
  function Pack(bits: Bits): seq<u8>
    requires |bits| % 8 == 0
  {
    if bits == [] then []
    else
      assert Pow2(8) == 256;
      [FromBits(bits[..8])] + Pack(bits[8..])
  }

  lemma {:induction false} PackRoundTrip(bits: Bits)
    requires |bits| % 8 == 0
    ensures BitStream(Pack(bits)) == bits
  {
    if bits != [] {
      FromBitsRoundTrip(bits[..8]);
      PackRoundTrip(bits[8..]);
    }
  }

  lemma {:induction false} ShiftZero(poly: Word, count: nat)
    ensures Shift(poly, Fill(false, 32), count) == Fill(false, 32)
  {
    if count > 0 {
      assert ShiftOnce(poly, Fill(false, 32)) == Fill(false, 32);
      ShiftZero(poly, count - 1);
    }
  }

  /** Without its top bit the polynomial shifts this non-zero word out of the register. */
  function LostWord(poly: Word): Word {
    [true] + poly[..31]
  }

  lemma LostWordVanishes(poly: Word, reg: Word)
    requires !poly[31]
    ensures Feed(poly, reg, LostWord(poly)) == Feed(poly, reg, Fill(false, 32))
  {
    var zero, word := Fill(false, 32), LostWord(poly);
    assert ShiftOnce(poly, word) == zero;
    ShiftZero(poly, 31);
    ShiftZero(poly, 32);
    FeedIsShift(poly, reg, zero);
    FeedIsShift(poly, reg, word);
    ShiftLinear(poly, reg, zero, 32);
    ShiftLinear(poly, reg, word, 32);
    assert Pad(zero) == zero && Pad(word) == word;
  }

  /** Two different four-byte messages with equal checksums. */
  lemma UndetectedBurst(poly: Word) returns (a: seq<u8>, b: seq<u8>)
    requires !poly[31]
    ensures BurstError(BitStream(a), BitStream(b))
    ensures ComputeChecksum(poly, a) == ComputeChecksum(poly, b)
  {
    var zero, word := Fill(false, 32), LostWord(poly);
    a, b := Pack(zero), Pack(word);
    PackRoundTrip(zero);
    PackRoundTrip(word);
    BlockIsABurst(zero, word);
    UpdateIsFeed(poly, ALL_ONES, a);
    UpdateIsFeed(poly, ALL_ONES, b);
    LostWordVanishes(poly, ALL_ONES);
  }

  lemma BlockIsABurst(x: Bits, y: Bits)
    requires |x| == |y| <= 32 && x != y
    ensures BurstError(x, y)
  {
    assert x == [] + x + [] && y == [] + y + [];
  }

  lemma {:induction false} ShiftLinear(poly: Word, x: Word, y: Word, count: nat)
    ensures Shift(poly, Xor(x, y), count) == Xor(Shift(poly, x, count), Shift(poly, y, count))
    decreases count
  {
    if count > 0 {
      ShiftOnceLinear(poly, x, y);
      ShiftLinear(poly, ShiftOnce(poly, x), ShiftOnce(poly, y), count - 1);
    }
  }

  /** Exactly the polynomials with their top bit set detect every burst of at most 32 bits. */
  lemma BurstDetectionExact(poly: Word)
    ensures DetectsEveryBurst(poly) <==> poly[31]
  {
    if poly[31] {
      forall a: seq<u8>, b: seq<u8> | BurstError(BitStream(a), BitStream(b))
        ensures ComputeChecksum(poly, a) != ComputeChecksum(poly, b)
      {
        BurstDetected(poly, a, b);
      }
    } else {
      var a, b := UndetectedBurst(poly);
    }
  }

  // ---------- Corruption of an interrupt report ----------

  lemma {:induction false} BitStreamConcat(a: seq<u8>, b: seq<u8>)
    ensures BitStream(a + b) == BitStream(a) + BitStream(b)
  {
    if a == [] {
      assert a + b == b;
    } else {
      assert (a + b)[1..] == a[1..] + b;
      BitStreamConcat(a[1..], b);
    }
  }

  lemma {:induction false} ToBitsInjective(x: nat, y: nat, width: nat)
    requires x < Pow2(width) && y < Pow2(width)
    requires ToBits(x, width) == ToBits(y, width)
    ensures x == y
  {
    if width > 0 {
      assert ToBits(x, width)[1..] == ToBits(x / 2, width - 1);
      assert ToBits(y, width)[1..] == ToBits(y / 2, width - 1);
      assert ToBits(x, width)[0] == ToBits(y, width)[0];
      ToBitsInjective(x / 2, y / 2, width - 1);
    }
  }

  /** Changing one byte, whatever surrounds it, is a burst. */
  lemma OneByteIsABurst(before: seq<u8>, x: u8, y: u8, after: seq<u8>)
    requires x != y
    ensures BurstError(BitStream(before + [x] + after), BitStream(before + [y] + after))
  {
    BitStreamConcat(before + [x], after);
    BitStreamConcat(before + [y], after);
    BitStreamConcat(before, [x]);
    BitStreamConcat(before, [y]);
    assert Pow2(8) == 256;
    if ToBits(x, 8) == ToBits(y, 8) {
      ToBitsInjective(x, y, 8);
    }
    assert BitStream([x]) == ToBits(x, 8) && BitStream([y]) == ToBits(y, 8);
  }

  /** The covered bytes of a and b differ in exactly one place. */
  ghost predicate OneByteAltered(a: Fields, b: Fields) {
    && |a.data| == |b.data|
    && exists i ::
         && 0 <= i < |InterruptBytes(a)| && InterruptBytes(a)[i] != InterruptBytes(b)[i]
         && forall j :: 0 <= j < |InterruptBytes(a)| && j != i ==> InterruptBytes(a)[j] == InterruptBytes(b)[j]
  }

  /** One altered byte, be it in the sequence number, the endpoint, the data or the timestamp,
      always changes the interrupt checksum. */
  lemma CorruptionDetected(poly: Word, a: Fields, b: Fields)
    requires poly[31]
    requires OneByteAltered(a, b)
    ensures ComputeInterruptChecksum(poly, a) != ComputeInterruptChecksum(poly, b)
  {
    var x, y := InterruptBytes(a), InterruptBytes(b);
    var i :| 0 <= i < |x| && x[i] != y[i] && forall j :: 0 <= j < |x| && j != i ==> x[j] == y[j];
    assert x == x[..i] + [x[i]] + x[i + 1..];
    assert y == x[..i] + [y[i]] + x[i + 1..];
    OneByteIsABurst(x[..i], x[i], y[i], x[i + 1..]);
    BurstDetected(poly, x, y);
    InterruptChecksumIsOnePass(poly, a);
    InterruptChecksumIsOnePass(poly, b);
  }

  /** A report altered in one byte after its checksum was computed fails the receiver's check. */
  lemma AlteredReportRejected(sent: Fields, received: Fields)
    requires OneByteAltered(sent, received)
    ensures !VerifyInterruptChecksum(received, ComputeInterruptChecksum(IEEE_POLYNOMIAL, sent))
  {
    assert 0 in IEEE_EXPONENTS && IEEE_POLYNOMIAL[31];
    CorruptionDetected(IEEE_POLYNOMIAL, sent, received);
  }

  // ---------- The code of IEEE 802.3 ----------

  lemma FirstBit(bit: bool, rest: Bits)
    ensures FromBits([bit] + rest) == (if bit then 1 else 0) + 2 * FromBits(rest)
  {
    assert ([bit] + rest)[1..] == rest;
  }

  /** Four bits in front are a lowest hexadecimal digit. */
  lemma FourBits(b0: bool, b1: bool, b2: bool, b3: bool, rest: Bits)
    ensures FromBits([b0, b1, b2, b3] + rest)
            == (if b0 then 1 else 0) + (if b1 then 2 else 0) + (if b2 then 4 else 0) + (if b3 then 8 else 0)
               + 16 * FromBits(rest)
  {
    var r3 := [b3] + rest;
    var r2 := [b2] + r3;
    var r1 := [b1] + r2;
    FirstBit(b3, rest);
    FirstBit(b2, r3);
    FirstBit(b1, r2);
    FirstBit(b0, r1);
    assert [b0, b1, b2, b3] + rest == [b0] + r1;
  }

  lemma IeeeUpperHalf()
    ensures FromBits(IEEE_POLYNOMIAL[16..]) == 0xEDB8
  {
    var p := IEEE_POLYNOMIAL;
    FourBits(false, true, true, true, []);
    assert p[28..] == [false, true, true, true] + [];
    FourBits(true, false, true, true, p[28..]);
    assert p[24..] == [true, false, true, true] + p[28..];
    FourBits(true, true, false, true, p[24..]);
    assert p[20..] == [true, true, false, true] + p[24..];
    FourBits(false, false, false, true, p[20..]);
    assert p[16..] == [false, false, false, true] + p[20..];
  }

  /** As a number the polynomial is the constant by which it is known. */
  lemma IeeeConstant()
    ensures FromBits(IEEE_POLYNOMIAL) == 0xEDB8_8320
  {
    var p := IEEE_POLYNOMIAL;
    IeeeUpperHalf();
    FourBits(false, false, false, true, p[16..]);
    assert p[12..] == [false, false, false, true] + p[16..];
    FourBits(true, true, false, false, p[12..]);
    assert p[8..] == [true, true, false, false] + p[12..];
    FourBits(false, true, false, false, p[8..]);
    assert p[4..] == [false, true, false, false] + p[8..];
    FourBits(false, false, false, false, p[4..]);
    assert p == [false, false, false, false] + p[4..];
  }

  function Complement(bits: Bits): (c: Bits)
    ensures |c| == |bits| && forall i :: 0 <= i < |c| ==> c[i] == !bits[i]
  {
    seq(|bits|, i requires 0 <= i < |bits| => !bits[i])
  }

  lemma FirstWord(poly: Word, first: Bits)
    requires |first| == 32
    ensures Feed(poly, ALL_ONES, first) == Feed(poly, Fill(false, 32), Complement(first))
  {
    FeedIsShift(poly, ALL_ONES, first);
    FeedIsShift(poly, Fill(false, 32), Complement(first));
    assert Xor(ALL_ONES, Pad(first)) == Xor(Fill(false, 32), Pad(Complement(first)));
  }

  /** The checksum of at least four bytes: the first 32 bits complemented, divided by the polynomial with
      nothing in the register before, and the remainder complemented. */
  lemma ComplementsBothEnds(poly: Word, data: seq<u8>)
    requires |data| >= 4
    ensures |BitStream(data)| >= 32
    ensures var bits := BitStream(data);
            ComputeChecksum(poly, data)
            == Complement(Feed(poly, Fill(false, 32), Complement(bits[..32]) + bits[32..]))
  {
    BitStreamLength(data);
    var bits := BitStream(data);
    var first, rest := bits[..32], bits[32..];
    assert bits == first + rest;
    UpdateIsFeed(poly, ALL_ONES, data);
    FeedConcat(poly, ALL_ONES, first, rest);
    FeedConcat(poly, Fill(false, 32), Complement(first), rest);
    FirstWord(poly, first);
  }

  lemma {:induction false} BitStreamLength(data: seq<u8>)
    ensures |BitStream(data)| == 8 * |data|
  {
    if data != [] {
      BitStreamLength(data[1..]);
    }
  }

  /** The number whose little-endian bytes are given. */
  function LeValue(b: seq<u8>): nat {
    if b == [] then 0 else b[0] + 256 * LeValue(b[1..])
  }

  lemma {:induction false} LeBytesValue(x: nat, width: nat)
    requires x < Pow2(8 * width)
    ensures LeValue(LeBytes(x, width)) == x
  {
    if width > 0 {
      assert Pow2(8 * width) == 256 * Pow2(8 * (width - 1)) by {
        PowOfByte(8 * (width - 1));
      }
      LeBytesValue(x / 256, width - 1);
    }
  }

  lemma PowOfTwoBits(n: nat)
    ensures Pow2(n + 2) == 4 * Pow2(n)
  {
    assert Pow2(n + 2) == 2 * Pow2(n + 1);
    assert Pow2(n + 1) == 2 * Pow2(n);
  }

  lemma PowOfByte(n: nat)
    ensures Pow2(n + 8) == 256 * Pow2(n)
  {
    PowOfTwoBits(n + 6);
    PowOfTwoBits(n + 4);
    PowOfTwoBits(n + 2);
    PowOfTwoBits(n);
  }

  lemma PowOfWord()
    ensures Pow2(64) == U64_LIMIT
  {
    assert Pow2(0) == 1;
    PowOfByte(0);
    PowOfByte(8);
    PowOfByte(16);
    PowOfByte(24);
    PowOfByte(32);
    PowOfByte(40);
    PowOfByte(48);
    PowOfByte(56);
  }

  lemma Slices(s: seq<u8>, e: u8, data: seq<u8>, t: seq<u8>)
    requires |s| == 8
    ensures var b, n := s + [e] + data + t, |data|;
            b[..8] == s && b[8] == e && b[9..9 + n] == data && b[9 + n..] == t
  {
    var b := s + [e] + data + t;
    assert b == s + ([e] + data + t);
    assert b == (s + [e]) + (data + t);
    assert |s + [e]| == 9 && b[9..] == data + t;
    assert b[9..9 + |data|] == b[9..][..|data|] == data;
    assert b[9 + |data|..] == b[9..][|data|..] == t;
  }

  lemma InterruptSlices(f: Fields)
    ensures var b, n := InterruptBytes(f), |f.data|;
            && b[..8] == LeBytes(f.sequence, 8) && b[8] == f.endpoint && b[9..9 + n] == f.data
            && b[9 + n..] == LeBytes(f.timestampUs, 8)
  {
    Slices(LeBytes(f.sequence, 8), f.endpoint, f.data, LeBytes(f.timestampUs, 8));
  }

  /** The bytes under the checksum: the sequence number in eight bytes, little-endian, the endpoint, the
      data, the time stamp in eight bytes, little-endian. */
  lemma CoveredBytes(poly: Word, f: Fields) returns (b: seq<u8>)
    ensures ComputeInterruptChecksum(poly, f) == ComputeChecksum(poly, b)
    ensures var n := |f.data|;
            && |b| == 17 + n && LeValue(b[..8]) == f.sequence && b[8] == f.endpoint
            && b[9..9 + n] == f.data && LeValue(b[9 + n..]) == f.timestampUs
  {
    b := InterruptBytes(f);
    InterruptChecksumIsOnePass(poly, f);
    InterruptSlices(f);
    PowOfWord();
    LeBytesValue(f.sequence, 8);
    LeBytesValue(f.timestampUs, 8);
  }
}
