/**
 The CRC-32 of src/algorithm/crc.c: the reflected 0xEDB88320 code of section 8 of RFC 1952.

 A machine word is modelled by its bits, the least significant one first.
 `Crc` is the bit-at-a-time definition: each byte enters the shift register lowest bit first.
 The class computes the same value a byte at a time, from a 256-entry table that is filled on first use.
 The burst lemmas say what the checksum is for: no change confined to 32 consecutive bits goes unnoticed.
 */
module Crc32 {
  import opened Bytes

  // A uint32_t, bit 0 first.
  type Word = w: seq<bool> | |w| == 32 witness Zeros(32)

  // ---------- bits and numbers ----------

  function Zeros(n: nat): (w: seq<bool>)
    ensures |w| == n && forall i :: 0 <= i < n ==> !w[i]
  {
    seq(n, _ => false)
  }

  predicate Bit(n: nat, i: nat)
    decreases i
  {
    if i == 0 then n % 2 == 1 else Bit(n / 2, i - 1)
  }

  function ToBits(n: nat, width: nat): (w: seq<bool>)
    ensures |w| == width && forall i :: 0 <= i < width ==> w[i] == Bit(n, i)
  {
    seq(width, i requires 0 <= i < width => Bit(n, i))
  }

  lemma ToBitsStep(n: nat, width: nat)
    requires width > 0
    ensures ToBits(n, width)[0] == (n % 2 == 1) && ToBits(n, width)[1..] == ToBits(n / 2, width - 1)
  {
  }

  function Number(w: seq<bool>): nat {
    if w == [] then 0 else (if w[0] then 1 else 0) + 2 * Number(w[1..])
  }

  function Pow2(n: nat): nat {
    if n == 0 then 1 else 2 * Pow2(n - 1)
  }

  lemma {:induction false} NumberBound(w: seq<bool>)
    ensures Number(w) < Pow2(|w|)
    decreases |w|
  {
    if w != [] {
      NumberBound(w[1..]);
    }
  }

  lemma {:induction false} BitsOfNumber(w: seq<bool>, extra: nat)
    ensures ToBits(Number(w), |w| + extra) == w + Zeros(extra)
    decreases |w|
  {
    if w == [] {
      BitsOfZero(extra);
    } else {
      BitsOfNumber(w[1..], extra);
      assert Number(w) / 2 == Number(w[1..]);
      ToBitsStep(Number(w), |w| + extra);
      assert w == [w[0]] + w[1..];
    }
  }

  lemma {:induction false} BitsOfZero(n: nat)
    ensures ToBits(0, n) == Zeros(n)
  {
    if n != 0 {
      BitsOfZero(n - 1);
      ToBitsStep(0, n);
    }
  }

  lemma {:induction false} NumberOfBits(n: nat, width: nat)
    requires n < Pow2(width)
    ensures Number(ToBits(n, width)) == n
    decreases width
  {
    if width != 0 {
      NumberOfBits(n / 2, width - 1);
      ToBitsStep(n, width);
    }
  }

  // ---------- the shift register ----------

  function Xor(a: seq<bool>, b: seq<bool>): (r: seq<bool>)
    requires |a| == |b|
    ensures |r| == |a|
    ensures forall i :: 0 <= i < |a| ==> r[i] == (a[i] != b[i])
  {
    seq(|a|, i requires 0 <= i < |a| => a[i] != b[i])
  }

  function Not(a: Word): (r: Word)
    ensures forall i :: 0 <= i < 32 ==> r[i] == !a[i]
  {
    seq(32, i requires 0 <= i < 32 => !a[i])
  }

  function ShiftRight(a: Word, n: nat): (r: Word)
    requires n <= 32
    ensures forall i :: 0 <= i < 32 ==> r[i] == (i + n < 32 && a[i + n])
  {
    seq(32, i requires 0 <= i < 32 => i + n < 32 && a[i + n])
  }

  // 0xEDB88320; its top bit, the constant term of the generator, is set.
  const POLYNOMIAL: Word := ToBits(0xEDB88320, 32)

  const INITIAL: Word := ToBits(0xFFFF_FFFF, 32)

  lemma {:induction false} TopBit(n: nat, width: nat)
    requires 0 < width && n < Pow2(width)
    ensures Bit(n, width - 1) == (Pow2(width - 1) <= n)
    decreases width
  {
    if width > 1 {
      TopBit(n / 2, width - 1);
    }
  }

  lemma PolynomialTopBit()
    ensures POLYNOMIAL[31]
  {
    assert Pow2(31) == 0x8000_0000 by {
      assert Pow2(8) == 0x100;
      assert Pow2(16) == 0x1_0000;
      assert Pow2(24) == 0x100_0000;
    }
    TopBit(0xEDB88320, 32);
  }

  // One step with a zero input bit.
  function Shift(c: Word): Word {
    if c[0] then Xor(POLYNOMIAL, ShiftRight(c, 1)) else ShiftRight(c, 1)
  }

  function FlipLow(c: Word, b: bool): Word {
    c[0 := c[0] != b]
  }

  // The register after the given input bits have been shifted in.
  function Feed(c: Word, bits: seq<bool>): Word
    decreases |bits|
  {
    if bits == [] then c else Feed(Shift(FlipLow(c, bits[0])), bits[1..])
  }

  // n steps with zero input bits.
  function ShiftN(c: Word, n: nat): Word {
    Feed(c, Zeros(n))
  }

  lemma ShiftNStep(c: Word, n: nat)
    ensures ShiftN(c, 0) == c
    ensures n > 0 ==> ShiftN(c, n) == ShiftN(Shift(c), n - 1)
  {
    if n > 0 {
      assert FlipLow(c, false) == c;
      assert Zeros(n)[1..] == Zeros(n - 1);
    }
  }

  function BitStream(msg: seq<Byte>): (bits: seq<bool>)
    ensures |bits| == 8 * |msg|
  {
    if msg == [] then [] else ToBits(msg[0], 8) + BitStream(msg[1..])
  }

  // The bitwise reference definition.
  function Crc(msg: seq<Byte>): Word {
    Not(Feed(INITIAL, BitStream(msg)))
  }

  // ---------- the register is linear and loses nothing ----------

  lemma ShiftXor(a: Word, b: Word)
    ensures Shift(Xor(a, b)) == Xor(Shift(a), Shift(b))
  {
  }

  // The generator has its top bit set, so a step can be undone.
  lemma ShiftLosesNothing(c: Word)
    ensures Shift(c) == Zeros(32) <==> c == Zeros(32)
  {
    PolynomialTopBit();
    if c[0] {
      assert Shift(c)[31];
    } else if Shift(c) == Zeros(32) {
      forall i | 0 <= i < 32 ensures !c[i] {
        assert i == 0 || c[i] == Shift(c)[i - 1];
      }
    }
  }

  lemma {:induction false} ShiftNLosesNothing(c: Word, n: nat)
    ensures ShiftN(c, n) == Zeros(32) <==> c == Zeros(32)
    decreases n
  {
    ShiftNStep(c, n);
    if n != 0 {
      ShiftLosesNothing(c);
      ShiftNLosesNothing(Shift(c), n - 1);
    }
  }

  // Two runs differ by exactly what the difference of their inputs produces on its own.
  lemma {:induction false} FeedXor(a: Word, b: Word, p: seq<bool>, q: seq<bool>)
    requires |p| == |q|
    ensures Feed(Xor(a, b), Xor(p, q)) == Xor(Feed(a, p), Feed(b, q))
    decreases |p|
  {
    if p != [] {
      var x, y := FlipLow(a, p[0]), FlipLow(b, q[0]);
      assert FlipLow(Xor(a, b), Xor(p, q)[0]) == Xor(x, y);
      ShiftXor(x, y);
      assert Xor(p, q)[1..] == Xor(p[1..], q[1..]);
      FeedXor(Shift(x), Shift(y), p[1..], q[1..]);
    }
  }

  lemma {:induction false} FeedAppend(c: Word, p: seq<bool>, q: seq<bool>)
    ensures Feed(c, p + q) == Feed(Feed(c, p), q)
    decreases |p|
  {
    if p == [] {
      assert p + q == q;
    } else {
      assert (p + q)[1..] == p[1..] + q;
      FeedAppend(Shift(FlipLow(c, p[0])), p[1..], q);
    }
  }

  // ---------- up to 32 bits at once ----------

  function Widen(bits: seq<bool>): (w: Word)
    requires |bits| <= 32
  {
    bits + Zeros(32 - |bits|)
  }

  lemma ShiftInOne(c: Word, bits: seq<bool>)
    requires 0 < |bits| <= 32
    ensures Shift(Xor(c, Widen(bits))) == Xor(Shift(FlipLow(c, bits[0])), Widen(bits[1..]))
  {
    var d := FlipLow(c, bits[0]);
    var rest: Word := [false] + bits[1..] + Zeros(32 - |bits|);
    assert Xor(c, Widen(bits)) == Xor(d, rest);
    ShiftXor(d, rest);
    assert Shift(rest) == Widen(bits[1..]);
  }

  // Shifting in at most a register's worth of bits is one exclusive-or followed by empty steps.
  lemma {:induction false} FeedWord(c: Word, bits: seq<bool>)
    requires |bits| <= 32
    ensures Feed(c, bits) == ShiftN(Xor(c, Widen(bits)), |bits|)
    decreases |bits|
  {
    ShiftNStep(Xor(c, Widen(bits)), |bits|);
    if bits == [] {
      assert Xor(c, Widen(bits)) == c;
    } else {
      ShiftInOne(c, bits);
      FeedWord(Shift(FlipLow(c, bits[0])), bits[1..]);
    }
  }

  // ---------- burst detection ----------

  // p and q agree everywhere outside the 32 positions that start at w.
  predicate AgreeOutside<T(==)>(p: seq<T>, q: seq<T>, w: nat, width: nat) {
    |p| == |q| && forall i :: 0 <= i < |p| && !(w <= i < w + width) ==> p[i] == q[i]
  }

  // Silence before a burst does not move the register,
  lemma QuietBefore(n: nat, rest: seq<bool>)
    ensures Feed(Zeros(32), Zeros(n) + rest) == Feed(Zeros(32), rest)
  {
    FeedAppend(Zeros(32), Zeros(n), rest);
    ShiftNLosesNothing(Zeros(32), n);
  }

  // a burst that fits the register moves it,
  lemma {:induction false} BurstMoves(burst: seq<bool>, k: nat)
    requires k < |burst| <= 32 && burst[k]
    ensures Feed(Zeros(32), burst) != Zeros(32)
  {
    var state := Widen(burst);
    assert state[k];
    FeedWord(Zeros(32), burst);
    assert Xor(Zeros(32), state) == state;
    ShiftNLosesNothing(state, |burst|);
  }

  // and silence after it cannot bring the register back to zero.
  lemma {:induction false} QuietAfter(burst: seq<bool>, n: nat)
    ensures Feed(Zeros(32), burst + Zeros(n)) == Zeros(32) <==> Feed(Zeros(32), burst) == Zeros(32)
  {
    FeedAppend(Zeros(32), burst, Zeros(n));
    ShiftNLosesNothing(Feed(Zeros(32), burst), n);
  }

  lemma SilentAround(d: seq<bool>, w: nat, e: nat, k: nat)
    requires w <= k < e <= |d| && d[k]
    requires forall i :: 0 <= i < |d| && !(w <= i < e) ==> !d[i]
    ensures d[w..e][k - w] && d == Zeros(w) + (d[w..e] + Zeros(|d| - e))
  {
  }

  lemma {:induction false} BurstInSilence(before: nat, burst: seq<bool>, after: nat, k: nat)
    requires k < |burst| <= 32 && burst[k]
    ensures Feed(Zeros(32), Zeros(before) + (burst + Zeros(after))) != Zeros(32)
  {
    BurstMoves(burst, k);
    QuietAfter(burst, after);
    QuietBefore(before, burst + Zeros(after));
  }

  // A burst, seen on its own, leaves a trace in the register however long the message goes on.
  lemma {:induction false} BurstLeavesTrace(d: seq<bool>, w: nat, k: nat)
    requires w <= k < |d| && k < w + 32 && d[k]
    requires forall i :: 0 <= i < |d| && !(w <= i < w + 32) ==> !d[i]
    ensures Feed(Zeros(32), d) != Zeros(32)
  {
    var e := if w + 32 <= |d| then w + 32 else |d|;
    var burst := d[w..e];
    assert burst[k - w] && d == Zeros(w) + (burst + Zeros(|d| - e)) by {
      SilentAround(d, w, e, k);
    }
    BurstInSilence(w, burst, |d| - e, k - w);
  }

  lemma XorSelf(x: Word)
    ensures Xor(x, x) == Zeros(32)
  {
  }

  lemma {:induction false} BurstBits(c: Word, p: seq<bool>, q: seq<bool>, w: nat)
    requires AgreeOutside(p, q, w, 32) && p != q
    ensures Feed(c, p) != Feed(c, q)
  {
    var k :| 0 <= k < |p| && p[k] != q[k];
    BurstLeavesTrace(Xor(p, q), w, k);
    XorSelf(c);
    FeedXor(c, c, p, q);
    XorSelf(Feed(c, p));
  }

  lemma {:induction false} BitStreamInjective(a: seq<Byte>, b: seq<Byte>)
    requires BitStream(a) == BitStream(b)
    ensures a == b
    decreases |a|
  {
    assert |a| == |b|;
    if a != [] {
      assert ToBits(a[0], 8) == BitStream(a)[..8] == BitStream(b)[..8] == ToBits(b[0], 8);
      assert Pow2(8) == 256;
      NumberOfBits(a[0], 8);
      NumberOfBits(b[0], 8);
      assert BitStream(a)[8..] == BitStream(a[1..]) && BitStream(b)[8..] == BitStream(b[1..]);
      BitStreamInjective(a[1..], b[1..]);
    }
  }

  lemma NotInjective(a: Word, b: Word)
    requires Not(a) == Not(b)
    ensures a == b
  {
    forall i | 0 <= i < 32 ensures a[i] == b[i] {
      assert Not(a)[i] == Not(b)[i];
    }
  }

  // Two different messages of one length whose bits differ only inside a window of 32 have different checksums.
  lemma {:induction false} BurstDetected(a: seq<Byte>, b: seq<Byte>, w: nat)
    requires AgreeOutside(BitStream(a), BitStream(b), w, 32) && a != b
    ensures Crc(a) != Crc(b)
  {
    if BitStream(a) == BitStream(b) {
      BitStreamInjective(a, b);
    }
    BurstBits(INITIAL, BitStream(a), BitStream(b), w);
    if Crc(a) == Crc(b) {
      NotInjective(Feed(INITIAL, BitStream(a)), Feed(INITIAL, BitStream(b)));
    }
  }

  lemma {:induction false} BitStreamAt(msg: seq<Byte>, i: nat)
    requires i < 8 * |msg|
    ensures BitStream(msg)[i] == ToBits(msg[i / 8], 8)[i % 8]
    decreases |msg|
  {
    if i >= 8 {
      assert i / 8 == (i - 8) / 8 + 1;
      BitStreamAt(msg[1..], i - 8);
      assert BitStream(msg)[i] == BitStream(msg[1..])[i - 8];
    }
  }

  // The byte-level reading: a change confined to four consecutive bytes is always detected.
  lemma {:induction false} FourByteBurstDetected(a: seq<Byte>, b: seq<Byte>, k: nat)
    requires AgreeOutside(a, b, k, 4) && a != b
    ensures Crc(a) != Crc(b)
  {
    var p, q := BitStream(a), BitStream(b);
    forall i | 0 <= i < |p| && !(8 * k <= i < 8 * k + 32) ensures p[i] == q[i] {
      BitStreamAt(a, i);
      BitStreamAt(b, i);
      assert !(k <= i / 8 < k + 4);
    }
    BurstDetected(a, b, 8 * k);
  }

  // ---------- what the checksum is ----------

  lemma HalfBit(q: nat, r: nat, i: nat)
    requires r < 16
    ensures Bit(16 * q + r, i) == if i < 4 then Bit(r, i) else Bit(q, i - 4)
  {
    if i >= 4 {
      assert (16 * q + r) / 2 == 8 * q + r / 2 && (8 * q + r / 2) / 2 == 4 * q + r / 4;
      assert (4 * q + r / 4) / 2 == 2 * q + r / 8 && (2 * q + r / 8) / 2 == q;
      assert Bit(16 * q + r, i) == Bit(8 * q + r / 2, i - 1) == Bit(4 * q + r / 4, i - 2);
      assert Bit(4 * q + r / 4, i - 2) == Bit(2 * q + r / 8, i - 3) == Bit(q, i - 4);
    } else if i > 0 {
      assert (16 * q + r) / 2 == 8 * q + r / 2 && (8 * q + r / 2) / 2 == 4 * q + r / 4;
      assert (4 * q + r / 4) / 2 == 2 * q + r / 8;
      assert Bit(16 * q + r, i) == Bit(8 * q + r / 2, i - 1) && Bit(r, i) == Bit(r / 2, i - 1);
      assert i > 1 ==> Bit(8 * q + r / 2, i - 1) == Bit(4 * q + r / 4, i - 2) && Bit(r / 2, i - 1) == Bit(r / 4, i - 2);
      assert i > 2 ==> Bit(4 * q + r / 4, 1) == Bit(2 * q + r / 8, 0) && Bit(r / 4, 1) == Bit(r / 8, 0);
    }
  }

  // The generator of the code, x^32 + x^26 + x^23 + x^22 + x^16 + x^12 + x^11 + x^10 + x^8 + x^7 + x^5 + x^4 + x^2
  // + x + 1: bit i of the register belongs to x^(31 - i).
  lemma PolynomialTerms(i: nat)
    requires i < 32
    ensures POLYNOMIAL[i] <==> 31 - i in {26, 23, 22, 16, 12, 11, 10, 8, 7, 5, 4, 2, 1, 0}
  {
    HalfBit(0xEDB8832, 0, i);
    if i >= 4 {
      HalfBit(0xEDB883, 2, i - 4);
    }
    if i >= 8 {
      HalfBit(0xEDB88, 3, i - 8);
    }
    if i >= 12 {
      HalfBit(0xEDB8, 8, i - 12);
    }
    if i >= 16 {
      HalfBit(0xEDB, 8, i - 16);
    }
    if i >= 20 {
      HalfBit(0xED, 11, i - 20);
    }
    if i >= 24 {
      HalfBit(0xE, 13, i - 24);
    }
    NibbleBits();
  }

  lemma NibbleBits()
    ensures !Bit(0, 0) && !Bit(0, 1) && !Bit(0, 2) && !Bit(0, 3)
    ensures !Bit(2, 0) && Bit(2, 1) && !Bit(2, 2) && !Bit(2, 3)
    ensures Bit(3, 0) && Bit(3, 1) && !Bit(3, 2) && !Bit(3, 3)
    ensures !Bit(8, 0) && !Bit(8, 1) && !Bit(8, 2) && Bit(8, 3)
    ensures Bit(11, 0) && Bit(11, 1) && !Bit(11, 2) && Bit(11, 3)
    ensures Bit(13, 0) && !Bit(13, 1) && Bit(13, 2) && Bit(13, 3)
    ensures !Bit(14, 0) && Bit(14, 1) && Bit(14, 2) && Bit(14, 3)
  {
  }

  lemma InitialIsOnes(i: nat)
    requires i < 32
    ensures INITIAL[i]
  {
    HalfBit(0xFFF_FFFF, 15, i);
    if i >= 4 {
      HalfBit(0xFF_FFFF, 15, i - 4);
    }
    if i >= 8 {
      HalfBit(0xF_FFFF, 15, i - 8);
    }
    if i >= 12 {
      HalfBit(0xFFFF, 15, i - 12);
    }
    if i >= 16 {
      HalfBit(0xFFF, 15, i - 16);
    }
    if i >= 20 {
      HalfBit(0xFF, 15, i - 20);
    }
    if i >= 24 {
      HalfBit(0xF, 15, i - 24);
    }
    AllOnesNibble();
  }

  lemma AllOnesNibble()
    ensures Bit(15, 0) && Bit(15, 1) && Bit(15, 2) && Bit(15, 3)
  {
  }

  lemma AllOnesByte(i: nat)
    requires i < 8
    ensures ToBits(255, 8)[i]
  {
    HalfBit(15, 15, i);
    AllOnesNibble();
  }

  lemma StreamFirst(b: Byte, rest: seq<Byte>)
    ensures BitStream([b] + rest) == ToBits(b, 8) + BitStream(rest)
  {
    assert ([b] + rest)[1..] == rest;
  }

  lemma FourBytes(a: Byte, b: Byte, c: Byte, d: Byte)
    ensures BitStream([a, b, c, d]) == ToBits(a, 8) + (ToBits(b, 8) + (ToBits(c, 8) + ToBits(d, 8)))
  {
    hide ToBits;
    StreamFirst(a, [b, c, d]);
    StreamFirst(b, [c, d]);
    StreamFirst(c, [d]);
    StreamFirst(d, []);
    assert [a, b, c, d] == [a] + [b, c, d] && [b, c, d] == [b] + [c, d] && [c, d] == [c] + [d] && [d] == [d] + [];
    assert ToBits(d, 8) + BitStream([]) == ToBits(d, 8);
  }

  lemma StreamOfOnes()
    ensures BitStream([255, 255, 255, 255]) == INITIAL
  {
    FourBytes(255, 255, 255, 255);
    var ones := ToBits(255, 8);
    var bits := ones + (ones + (ones + ones));
    forall i | 0 <= i < 32 ensures bits[i] && INITIAL[i] {
      InitialIsOnes(i);
      AllOnesByte(i % 8);
      assert bits[i] == ones[i % 8];
    }
  }

  // Four bytes of all ones leave the register at zero, and the complement of zero is the checksum.
  lemma {:induction false} CrcOfOnes()
    ensures forall i :: 0 <= i < 32 ==> Crc([255, 255, 255, 255])[i]
  {
    hide Shift, ToBits, BitStream;
    StreamOfOnes();
    FeedWord(INITIAL, INITIAL);
    assert Xor(INITIAL, Widen(INITIAL)) == Zeros(32);
    ShiftNLosesNothing(Zeros(32), 32);
  }

  // The bytes of a word as the machine stores it.
  function Octets(w: Word): (bytes: seq<Byte>)
    ensures |bytes| == 4
  {
    OctetBound(w);
    [Number(w[..8]), Number(w[8..16]), Number(w[16..24]), Number(w[24..])]
  }

  lemma OctetBound(w: Word)
    ensures Number(w[..8]) < 256 && Number(w[8..16]) < 256 && Number(w[16..24]) < 256 && Number(w[24..]) < 256
  {
    assert Pow2(8) == 256;
    NumberBound(w[..8]);
    NumberBound(w[8..16]);
    NumberBound(w[16..24]);
    NumberBound(w[24..]);
  }

  lemma OctetBits(w: seq<bool>)
    requires |w| == 8
    ensures ToBits(Number(w), 8) == w
  {
    BitsOfNumber(w, 0);
    assert w + Zeros(0) == w;
  }

  lemma StreamOfOctets(w: Word)
    ensures BitStream(Octets(w)) == w
  {
    hide Number, ToBits;
    OctetBound(w);
    FourBytes(Number(w[..8]), Number(w[8..16]), Number(w[16..24]), Number(w[24..]));
    OctetBits(w[..8]);
    OctetBits(w[8..16]);
    OctetBits(w[16..24]);
    OctetBits(w[24..]);
    assert w[..8] + (w[8..16] + (w[16..24] + w[24..])) == w;
  }

  lemma {:induction false} StreamAppend(a: seq<Byte>, b: seq<Byte>)
    ensures BitStream(a + b) == BitStream(a) + BitStream(b)
    decreases |a|
  {
    if a == [] {
      assert a + b == b;
    } else {
      assert (a + b)[1..] == a[1..] + b;
      StreamAppend(a[1..], b);
    }
  }

  lemma XorNot(a: Word)
    ensures Xor(a, Not(a)) == INITIAL
  {
    forall i | 0 <= i < 32 ensures INITIAL[i] {
      InitialIsOnes(i);
    }
  }

  lemma CrcOfZeros()
    ensures Crc([0, 0, 0, 0]) == Not(ShiftN(INITIAL, 32))
  {
    FourBytes(0, 0, 0, 0);
    BitsOfZero(8);
    assert BitStream([0, 0, 0, 0]) == Zeros(32);
  }

  // A message followed by its own checksum always has the same checksum, that of four zero bytes.
  lemma {:induction false} ResidueIsFixed(msg: seq<Byte>)
    ensures Crc(msg + Octets(Crc(msg))) == Crc([0, 0, 0, 0])
  {
    hide Octets, Shift;
    var state := Feed(INITIAL, BitStream(msg));
    StreamAppend(msg, Octets(Crc(msg)));
    StreamOfOctets(Crc(msg));
    FeedAppend(INITIAL, BitStream(msg), Not(state));
    FeedWord(state, Not(state));
    assert Widen(Not(state)) == Not(state);
    XorNot(state);
    CrcOfZeros();
  }

  lemma TopOfByte(b: Byte)
    requires b < 128
    ensures Xor(ToBits(b, 8), ToBits(b + 128, 8)) == Zeros(7) + [true]
  {
    var low, high := b % 16, b / 16;
    forall i | 0 <= i < 8 ensures Bit(b, i) != Bit(b + 128, i) <==> i == 7 {
      HalfBit(high, low, i);
      HalfBit(high + 8, low, i);
      TopOfNibble(high);
    }
  }

  lemma TopOfNibble(n: nat)
    requires n < 8
    ensures Bit(n, 0) == Bit(n + 8, 0) && Bit(n, 1) == Bit(n + 8, 1) && Bit(n, 2) == Bit(n + 8, 2)
    ensures !Bit(n, 3) && Bit(n + 8, 3)
  {
    assert n == 0 || n == 1 || n == 2 || n == 3 || n == 4 || n == 5 || n == 6 || n == 7;
  }

  // The top bit of the last byte is the last one in: it changes the checksum by the polynomial.
  lemma {:induction false} LastBitIsPolynomial(msg: seq<Byte>, b: Byte)
    requires b < 128
    ensures Xor(Crc(msg + [b]), Crc(msg + [b + 128])) == POLYNOMIAL
  {
    hide ToBits, Shift;
    var p, q := BitStream(msg + [b]), BitStream(msg + [b + 128]);
    BitStreamSnoc(msg, b);
    BitStreamSnoc(msg, b + 128);
    TopOfByte(b);
    assert Xor(p, q) == Zeros(|p| - 1) + [true];
    FeedXor(INITIAL, INITIAL, p, q);
    assert Xor(INITIAL, INITIAL) == Zeros(32);
    QuietBefore(|p| - 1, [true]);
    OneBit();
    assert Xor(Crc(msg + [b]), Crc(msg + [b + 128])) == Xor(Feed(INITIAL, p), Feed(INITIAL, q));
  }

  lemma OneBit()
    ensures Feed(Zeros(32), [true]) == POLYNOMIAL
  {
    var c: Word := FlipLow(Zeros(32), true);
    assert ShiftRight(c, 1) == Zeros(32);
    assert Shift(c) == POLYNOMIAL;
  }

  // ---------- a byte at a time ----------

  function TableEntry(i: Byte): Word {
    ShiftN(ToBits(i, 32), 8)
  }

  function TablePrefix(n: nat): seq<Word>
    requires n <= 256
  {
    seq(n, i requires 0 <= i < n => TableEntry(i))
  }

  function LowByte(x: Word): (b: Byte)
    ensures b == Number(x[..8])
  {
    NumberBound(x[..8]);
    assert Pow2(8) == 256;
    Number(x[..8])
  }

  // With n low zero bits, n steps are plain shifts.
  lemma {:induction false} ShiftNHigh(x: Word, n: nat)
    requires n <= 32 && x[..n] == Zeros(n)
    ensures ShiftN(x, n) == ShiftRight(x, n)
    decreases n
  {
    ShiftNStep(x, n);
    if n == 0 {
      assert ShiftRight(x, 0) == x;
    } else {
      assert !x[0] by { assert x[0] == x[..n][0]; }
      var y := ShiftRight(x, 1);
      assert y[..n - 1] == Zeros(n - 1) by {
        assert forall i :: 0 <= i < n - 1 ==> y[i] == x[..n][i + 1];
      }
      ShiftNHigh(y, n - 1);
      assert ShiftRight(y, n - 1) == ShiftRight(x, n);
    }
  }

  lemma LowEntry(x: Word)
    ensures ShiftN(x[..8] + Zeros(24), 8) == TableEntry(LowByte(x))
  {
    BitsOfNumber(x[..8], 24);
  }

  lemma HighRest(x: Word)
    ensures ShiftN(Zeros(8) + x[8..], 8) == ShiftRight(x, 8)
  {
    var high := Zeros(8) + x[8..];
    ShiftNHigh(high, 8);
    assert ShiftRight(high, 8) == ShiftRight(x, 8);
  }

  lemma {:induction false} ShiftNXor(a: Word, b: Word, n: nat)
    ensures ShiftN(Xor(a, b), n) == Xor(ShiftN(a, n), ShiftN(b, n))
  {
    FeedXor(a, b, Zeros(n), Zeros(n));
    assert Xor(Zeros(n), Zeros(n)) == Zeros(n);
  }

  // The low byte selects the table entry, the rest is only shifted down.
  lemma {:induction false} SplitLowByte(x: Word)
    ensures ShiftN(x, 8) == Xor(TableEntry(LowByte(x)), ShiftRight(x, 8))
  {
    assert x == Xor(x[..8] + Zeros(24), Zeros(8) + x[8..]);
    ShiftNXor(x[..8] + Zeros(24), Zeros(8) + x[8..], 8);
    LowEntry(x);
    HighRest(x);
  }

  lemma {:induction false} ByteStep(c: Word, b: Byte)
    ensures Feed(c, ToBits(b, 8)) == Xor(TableEntry(LowByte(Xor(c, ToBits(b, 32)))), ShiftRight(c, 8))
  {
    var x := Xor(c, ToBits(b, 32));
    assert Pow2(8) == 256;
    NumberOfBits(b, 8);
    BitsOfNumber(ToBits(b, 8), 24);
    assert Widen(ToBits(b, 8)) == ToBits(b, 32);
    FeedWord(c, ToBits(b, 8));
    SplitLowByte(x);
    assert ShiftRight(x, 8) == ShiftRight(c, 8);
  }

  lemma {:induction false} BitStreamSnoc(msg: seq<Byte>, b: Byte)
    ensures BitStream(msg + [b]) == BitStream(msg) + ToBits(b, 8)
    decreases |msg|
  {
    if msg == [] {
      assert (msg + [b])[1..] == [];
    } else {
      assert (msg + [b])[1..] == msg[1..] + [b];
      BitStreamSnoc(msg[1..], b);
    }
  }

  // One more byte, from the register value that the table loop has reached.
  lemma {:induction false} FeedSnoc(c: Word, msg: seq<Byte>, i: nat)
    requires i < |msg|
    ensures Feed(c, BitStream(msg[..i + 1]))
         == var d := Feed(c, BitStream(msg[..i]));
            Xor(TableEntry(LowByte(Xor(d, ToBits(msg[i], 32)))), ShiftRight(d, 8))
  {
    BitStreamSnoc(msg[..i], msg[i]);
    assert msg[..i + 1] == msg[..i] + [msg[i]];
    FeedAppend(c, BitStream(msg[..i]), ToBits(msg[i], 8));
    ByteStep(Feed(c, BitStream(msg[..i])), msg[i]);
  }

  // ---------- the table and the checksum loop ----------

  class Calculator {
    const table: array<Word>
    var initialized: bool

    ghost predicate Valid()
      reads this, table
    {
      table.Length == 256
      && (initialized ==> table[..] == TablePrefix(256))
    }

    constructor ()
      ensures Valid() && !initialized && fresh(table)
    {
      table := new Word[256](_ => Zeros(32));
      initialized := false;
    }

    // The inner loop: eight steps from the index.
    static method ByteSteps(i: Byte) returns (c: Word)
      ensures c == TableEntry(i)
    {
      c := ToBits(i, 32);
      for j := 0 to 8
        invariant ShiftN(c, 8 - j) == TableEntry(i)
      {
        ShiftNStep(c, 8 - j);
        if c[0] {
          c := Xor(POLYNOMIAL, ShiftRight(c, 1));
        } else {
          c := ShiftRight(c, 1);
        }
      }
      ShiftNStep(c, 0);
    }

    method InitTable()
      requires Valid()
      modifies this, table
      ensures Valid() && initialized
    {
      if initialized {
        return;
      }
      for i := 0 to 256
        modifies table
        invariant table[..i] == TablePrefix(i)
      {
        table[i] := ByteSteps(i);
        assert table[..i + 1] == table[..i] + [TableEntry(i)];
      }
      assert table[..256] == table[..];
      initialized := true;
    }

    method Calculate(data: seq<Byte>) returns (crc: Word)
      requires Valid()
      modifies this, table
      ensures Valid() && initialized
      ensures crc == Crc(data)
    {
      if !initialized {
        InitTable();
      }
      crc := INITIAL;
      for i := 0 to |data|
        invariant Valid() && initialized
        invariant crc == Feed(INITIAL, BitStream(data[..i]))
      {
        FeedSnoc(INITIAL, data, i);
        assert forall k :: 0 <= k < 256 ==> table[k] == table[..][k];
        crc := Xor(table[LowByte(Xor(crc, ToBits(data[i], 32)))], ShiftRight(crc, 8));
      }
      assert data[..|data|] == data;
      crc := Not(crc);
    }
  }
}
