// What the CRC trailer of a packet detects. The CRC shifts low bits out first, but the
// trailer holds its high byte first: the bits of message and trailer are not in the order
// of one polynomial, and a burst across their boundary is a case of its own.

module Trailer {
  import opened Gf2
  import opened Words
  import opened BigEndian
  import opened ByteXor
  import opened Crc32
  import opened CrcDivision
  import opened CrcHoles
  import opened Ostp

  function TrailerOf(body: seq<Byte>): (t: seq<Byte>)
    ensures |t| == 4
  {
    Be32(CrcValue(body))
  }

  /** The bytes a CRC covers, and the trailer. */
  function Sealed(body: seq<Byte>): (p: seq<Byte>)
    ensures |p| == |body| + 4
  {
    body + TrailerOf(body)
  }

  /** The receiver's test: the last four bytes are the CRC of those before. */
  predicate Matches(p: seq<Byte>)
    requires |p| >= 4
  {
    U32At(p, |p| - 4) == CrcValue(p[..|p| - 4])
  }

  lemma MatchesIffSealed(p: seq<Byte>)
    requires |p| >= 4
    ensures Matches(p) <==> p == Sealed(p[..|p| - 4])
  {
    hide CrcValue, Be32, U32At;
    var at := |p| - 4;
    Be32OfU32At(p, at);
    U32AtOfBe32(p, at, CrcValue(p[..at]));
    EndsInIff(p, TrailerOf(p[..at]));
  }

  lemma EndsInIff(p: seq<Byte>, t: seq<Byte>)
    requires |p| >= 4 && |t| == 4
    ensures p == p[..|p| - 4] + t <==> p[|p| - 4..|p| - 4 + 4] == t
  {
    assert p == p[..|p| - 4] + p[|p| - 4..];
  }

  lemma Be32OfU32At(p: seq<Byte>, i: nat)
    requires i + 4 <= |p|
    ensures Be32(U32At(p, i)) == p[i..i + 4]
  {
    Digits(p[i], p[i + 1], p[i + 2], p[i + 3]);
  }

  lemma Digits(a: Byte, b: Byte, c: Byte, d: Byte)
    ensures
      var x := 0x100_0000 * a as int + 0x1_0000 * b as int + 256 * c as int + d as int;
      x / 0x100_0000 == a && x / 0x1_0000 % 256 == b && x / 256 % 256 == c && x % 256 == d
  {
    var x := 0x100_0000 * a as int + 0x1_0000 * b as int + 256 * c as int + d as int;
    assert x / 256 == 0x1_0000 * a as int + 256 * b as int + c as int;
    assert x / 0x1_0000 == 256 * a as int + b as int;
  }

  lemma U32AtOfBe32(p: seq<Byte>, i: nat, x: U32)
    requires i + 4 <= |p|
    ensures p[i..i + 4] == Be32(x) ==> U32At(p, i) == x
  {
    Be32RoundTrip(x);
    if p[i..i + 4] == Be32(x) {
      forall k | 0 <= k < 4 ensures p[i + k] == Be32(x)[k] { assert p[i..i + 4][k] == p[i + k]; }
    }
  }

  // ---- The trailer's bits -------------------------------------------------------------

  lemma {:induction false} LowBits(x: nat, y: nat, k: nat, n: nat)
    ensures BitsOf(x + Doubled(y, k), k) == BitsOf(x, k)
    ensures x < Doubled(1, k) ==> BitsOf(x + Doubled(y, k), k + n) == BitsOf(x, k) + BitsOf(y, n)
    decreases k
  {
    if k > 0 {
      var d, z := Doubled(y, k - 1), x + Doubled(y, k);
      assert Doubled(y, k) == 2 * d && z / 2 == x / 2 + d && z % 2 == x % 2;
      LowBits(x / 2, y, k - 1, n);
    }
  }

  lemma DoubledByte(y: nat)
    ensures Doubled(y, 8) == 256 * y && Doubled(1, 8) == 256
  {
    DoubledNibble(y, 0);
    DoubledNibble(y, 4);
    DoubledEight(0);
  }

  lemma DoubledNibble(y: nat, n: nat)
    ensures Doubled(y, n + 4) == 16 * Doubled(y, n)
  {
    assert Doubled(y, n + 2) == 2 * Doubled(y, n + 1) == 4 * Doubled(y, n);
    assert Doubled(y, n + 4) == 2 * Doubled(y, n + 3) == 4 * Doubled(y, n + 2);
  }

  lemma LowByte(x: nat, n: nat)
    ensures BitsOf(x, n + 8) == BitsOf(x % 256, 8) + BitsOf(x / 256, n)
  {
    hide BitsOf, Doubled;
    DoubledByte(x / 256);
    LowBits(x % 256, x / 256, 8, n);
  }

  /** The CRC's bits are the trailer's bytes, last byte first, each low bit first. */
  lemma CrcFromTrailer(body: seq<Byte>)
    ensures
      var t := TrailerOf(body);
      Crc(body) == BitsOf(t[3], 8) + (BitsOf(t[2], 8) + (BitsOf(t[1], 8) + BitsOf(t[0], 8)))
  {
    hide BitsOf, Crc, CrcValue;
    var c := CrcValue(body);
    CrcIsBitsOfValue(body);
    BitsByByte(c);
  }

  lemma CrcIsBitsOfValue(body: seq<Byte>)
    ensures Crc(body) == BitsOf(CrcValue(body), 32)
  {
    hide BitsOf, Crc;
    BitsOfValue(Crc(body), 32);
    assert Crc(body) + Zeros(0) == Crc(body);
  }

  lemma BitsByByte(c: U32)
    ensures
      BitsOf(c, 32) ==
      BitsOf(c % 256, 8) + (BitsOf(c / 256 % 256, 8) + (BitsOf(c / 0x1_0000 % 256, 8) + BitsOf(c / 0x100_0000, 8)))
  {
    hide BitsOf;
    LowByte(c, 24);
    LowByte(c / 256, 16);
    LowByte(c / 256 / 256, 8);
    assert c / 256 / 256 == c / 0x1_0000 && c / 256 / 256 / 256 == c / 0x100_0000;
  }

  // ---- Messages that differ at the end only ----------------------------------------------

  lemma LastMessageByte(a: seq<Byte>)
    requires a != []
    ensures MessageBits(a) == MessageBits(a[..|a| - 1]) + BitsOf(a[|a| - 1], 8)
  {}

  lemma {:induction false} MessageBitsConcat(a: seq<Byte>, b: seq<Byte>)
    ensures MessageBits(a + b) == MessageBits(a) + MessageBits(b)
    decreases |b|
  {
    hide BitsOf, MessageBits;
    if b == [] {
      assert a + b == a;
    } else {
      var n := |b| - 1;
      MessageBitsConcat(a, b[..n]);
      LastOfConcat(a, b);
      LastMessageByte(a + b);
      LastMessageByte(b);
      Associative(MessageBits(a), MessageBits(b[..n]), BitsOf(b[n], 8));
    }
  }

  lemma LastOfConcat(a: seq<Byte>, b: seq<Byte>)
    requires b != []
    ensures
      var last := |a + b| - 1;
      (a + b)[..last] == a + b[..|b| - 1] && (a + b)[last] == b[|b| - 1]
  {}

  lemma Associative(a: Bits, b: Bits, c: Bits)
    ensures a + (b + c) == a + b + c
  {}

  lemma {:induction false} ZerosInFront(k: nat, q: Bits)
    ensures Multiple(Zeros(k) + q) == Zeros(k) + Multiple(q)
    decreases k
  {
    hide Multiple, Lead, Xor, Zeros;
    if k == 0 {
      assert Zeros(k) + q == q;
      assert Zeros(k) + Multiple(q) == Multiple(q);
    } else {
      ZerosInFront(k - 1, q);
      ZerosShift(k - 1, q);
      ZerosShift(k - 1, Multiple(q));
      MultipleCons(false, Zeros(k - 1) + q);
      NoLead(k - 1 + |q|, Zeros(k - 1) + Multiple(q));
    }
  }

  lemma NoLead(n: nat, m: Bits)
    requires |m| == n + 32
    ensures Xor(Lead(false, n), [false] + m) == [false] + m
  {}

  /** A multiple that starts with k zeros has a quotient that does. */
  lemma FrontZero(q: Bits, k: nat)
    requires k <= |q| && forall i | 0 <= i < k :: !Multiple(q)[i]
    ensures q == Zeros(k) + q[k..]
  {
    hide Multiple;
    if !IsZero(q) {
      var first := MultipleFirst(q);
      assert forall i | 0 <= i < k :: q[i] == q[..first][i];
    }
    assert q == q[..k] + q[k..];
    assert q[..k] == Zeros(k);
  }

  lemma SameFront(a: Bits, x: Bits, y: Bits)
    requires |x| == |y|
    ensures Xor(a + x, a + y) == Zeros(|a|) + Xor(x, y)
  {}

  /** The generator divides the difference of the ends, followed by that of the CRCs. */
  lemma EndsDifference(a: seq<Byte>, x: seq<Byte>, y: seq<Byte>) returns (q: Bits)
    requires |x| == |y|
    ensures |q| == 8 * |x|
    ensures Multiple(q) == Xor(MessageBits(x), MessageBits(y)) + Xor(Crc(a + x), Crc(a + y))
  {
    hide Multiple, MessageBits, Crc, Xor, Zeros;
    var long := DifferenceDivides(a + x, a + y);
    q := long[8 * |a|..];
    MessageBitsConcat(a, x);
    MessageBitsConcat(a, y);
    SameFront(MessageBits(a), MessageBits(x), MessageBits(y));
    QuotientOfEnd(long, 8 * |a|, Xor(MessageBits(x), MessageBits(y)), Xor(Crc(a + x), Crc(a + y)));
  }

  lemma QuotientOfEnd(q: Bits, k: nat, m: Bits, d: Bits)
    requires k <= |q| && Multiple(q) == Zeros(k) + m + d
    ensures Multiple(q[k..]) == m + d
  {
    hide Multiple;
    FrontZero(q, k);
    ZerosInFront(k, q[k..]);
    Associative(Zeros(k), m, d);
    hide Zeros;
    SameBehind(Zeros(k), Multiple(q[k..]), m + d);
  }

  lemma SameBehind(z: Bits, a: Bits, b: Bits)
    requires z + a == z + b
    ensures a == b
  {
    assert a == (z + a)[|z|..] && b == (z + b)[|z|..];
  }

  lemma EndsGiveDifference(a: seq<Byte>, x: seq<Byte>, y: seq<Byte>, q: Bits, d: Bits)
    requires |x| == |y| && |q| == 8 * |x| && |d| == 32
    requires Multiple(q) == Xor(MessageBits(x), MessageBits(y)) + d
    ensures Xor(Crc(a + x), Crc(a + y)) == d
  {
    hide Multiple, MessageBits, Crc, Xor;
    var k := 8 * |a|;
    MessageBitsConcat(a, x);
    MessageBitsConcat(a, y);
    SameFront(MessageBits(a), MessageBits(x), MessageBits(y));
    ZerosInFront(k, q);
    Associative(Zeros(k), Xor(MessageBits(x), MessageBits(y)), d);
    hide Zeros;
    DivisorGivesDifference(a + x, a + y, d, Zeros(k) + q);
  }

  // ---- Bursts across the boundary -------------------------------------------------------------

  lemma XorByteIff(x: Byte, y: Byte, e: Byte)
    ensures Xor(BitsOf(x, 8), BitsOf(y, 8)) == BitsOf(e, 8) <==> y == XorByte(x, e)
  {
    hide BitsOf, XorByte, Xor;
    var a, b, c := BitsOf(x, 8), BitsOf(y, 8), BitsOf(e, 8);
    BitsOfXor(x, e);
    XorUndo(a, b);
    XorUndo(a, c);
    if Xor(a, b) == c {
      DoubledEight(0);
      BitsInjective(y, XorByte(x, e), 8);
    }
  }

  predicate IsDigit(k: nat, b: Bits) {
    && |b| == 4
    && k == (if b[0] then 1 else 0) + (if b[1] then 2 else 0) + (if b[2] then 4 else 0) + (if b[3] then 8 else 0)
  }

  lemma DigitFirst(x: nat, n: nat, k: nat, b: Bits)
    requires IsDigit(k, b)
    ensures BitsOf(16 * x + k, n + 4) == b + BitsOf(x, n)
  {
    hide BitsOf;
    Nibble(x, n, b[0], b[1], b[2], b[3], k);
    assert [b[0], b[1], b[2], b[3]] == b;
  }

  /** The bits of a byte given by its two hexadecimal digits. */
  lemma ByteIs(high: nat, low: nat, l: Bits, h: Bits, x: nat)
    requires x == 16 * high + low && IsDigit(high, h) && IsDigit(low, l)
    ensures BitsOf(x, 8) == l + h
  {
    hide BitsOf, IsDigit;
    NoBitsOf();
    DigitFirst(0, 0, high, h);
    DigitFirst(high, 4, low, l);
    assert h + [] == h;
  }

  lemma NoBitsOf()
    ensures BitsOf(0, 0) == []
  {}

  lemma HoledBytes()
    ensures HoledMessage() == BitsOf(0x61, 8) + BitsOf(0xD8, 8) && HoledCrc() == BitsOf(0xEE, 8) + BitsOf(0xF4, 8)
  {
    hide BitsOf;
    ByteIs(6, 1, [true, false, false, false], [false, true, true, false], 0x61);
    ByteIs(13, 8, [false, false, false, true], [true, false, true, true], 0xD8);
    ByteIs(14, 14, [false, true, true, true], [false, true, true, true], 0xEE);
    ByteIs(15, 4, [false, false, true, false], [true, true, true, true], 0xF4);
  }

  lemma TwoMessageBytes(x: seq<Byte>)
    requires |x| == 2
    ensures MessageBits(x) == BitsOf(x[0], 8) + BitsOf(x[1], 8)
  {
    hide BitsOf;
    assert x[..1][..0] == [];
    assert MessageBits(x[..1]) == MessageBits([]) + BitsOf(x[0], 8);
  }

  /** Two bits strings of two bytes each differ by two bytes' bits. */
  lemma XorOfPairs(a: Bits, b: Bits, c: Bits, d: Bits)
    requires |a| == |b| == |c| == |d| == 8
    ensures Xor(a + b, c + d) == Xor(a, c) + Xor(b, d)
  {}

  lemma SamePairs(a: Bits, b: Bits, c: Bits, d: Bits)
    requires |a| == |c| && a + b == c + d
    ensures a == c && b == d
  {
    assert a == (a + b)[..|a|] && c == (c + d)[..|a|] && b == (a + b)[|a|..] && d == (c + d)[|a|..];
  }

  predicate FlippedEnd(x: seq<Byte>, y: seq<Byte>) {
    |x| == |y| == 2 && y == [XorByte(x[0], 0x61), XorByte(x[1], 0xD8)]
  }

  lemma FlippedEndIff(x: seq<Byte>, y: seq<Byte>)
    requires |x| == |y| == 2
    ensures Xor(MessageBits(x), MessageBits(y)) == HoledMessage() <==> FlippedEnd(x, y)
  {
    hide BitsOf, XorByte, MessageBits, HoledMessage, Xor;
    TwoMessageBytes(x);
    TwoMessageBytes(y);
    HoledBytes();
    XorByteIff(x[0], y[0], 0x61);
    XorByteIff(x[1], y[1], 0xD8);
    var d0, d1 := Xor(BitsOf(x[0], 8), BitsOf(y[0], 8)), Xor(BitsOf(x[1], 8), BitsOf(y[1], 8));
    XorOfPairs(BitsOf(x[0], 8), BitsOf(x[1], 8), BitsOf(y[0], 8), BitsOf(y[1], 8));
    if d0 + d1 == BitsOf(0x61, 8) + BitsOf(0xD8, 8) { SamePairs(d0, d1, BitsOf(0x61, 8), BitsOf(0xD8, 8)); }
  }

  lemma ZeroByte(x: Byte, y: Byte)
    requires Xor(BitsOf(x, 8), BitsOf(y, 8)) == Zeros(8)
    ensures x == y
  {
    BitsOfZero(8);
    XorByteIff(x, y, 0);
    XorTwice(x, 0);
  }

  lemma SameTrailerBytes(t: seq<Byte>, u: seq<Byte>)
    requires |t| == |u| == 4
    requires
      Xor(BitsOf(t[3], 8) + (BitsOf(t[2], 8) + (BitsOf(t[1], 8) + BitsOf(t[0], 8))),
          BitsOf(u[3], 8) + (BitsOf(u[2], 8) + (BitsOf(u[1], 8) + BitsOf(u[0], 8)))) == Zeros(16) + HoledCrc()
    ensures u == [XorByte(t[0], 0xF4), XorByte(t[1], 0xEE), t[2], t[3]]
  {
    hide BitsOf, XorByte, HoledCrc, Xor, Zeros;
    HoledBytes();
    XorByteIff(t[0], u[0], 0xF4);
    XorByteIff(t[1], u[1], 0xEE);
    FourBytes(BitsOf(t[3], 8), BitsOf(t[2], 8), BitsOf(t[1], 8), BitsOf(t[0], 8),
              BitsOf(u[3], 8), BitsOf(u[2], 8), BitsOf(u[1], 8), BitsOf(u[0], 8),
              BitsOf(0xEE, 8), BitsOf(0xF4, 8));
    ZeroByte(t[2], u[2]);
    ZeroByte(t[3], u[3]);
  }

  lemma FourBytes(a3: Bits, a2: Bits, a1: Bits, a0: Bits, b3: Bits, b2: Bits, b1: Bits, b0: Bits, d1: Bits, d0: Bits)
    requires |a3| == |a2| == |a1| == |a0| == 8 && |b3| == |b2| == |b1| == |b0| == 8 && |d1| == |d0| == 8
    requires Xor(a3 + (a2 + (a1 + a0)), b3 + (b2 + (b1 + b0))) == Zeros(16) + (d1 + d0)
    ensures Xor(a3, b3) == Zeros(8) && Xor(a2, b2) == Zeros(8) && Xor(a1, b1) == d1 && Xor(a0, b0) == d0
  {
    var a, b, d := a3 + (a2 + (a1 + a0)), b3 + (b2 + (b1 + b0)), Zeros(16) + (d1 + d0);
    assert a == a3 + a2 + a1 + a0 && b == b3 + b2 + b1 + b0 && d == Zeros(16) + d1 + d0;
    forall i | 0 <= i < 8
      ensures Xor(a3, b3)[i] == Zeros(8)[i] && Xor(a2, b2)[i] == Zeros(8)[i]
      ensures Xor(a1, b1)[i] == d1[i] && Xor(a0, b0)[i] == d0[i]
    {
      assert Xor(a, b)[i] == d[i] && Xor(a, b)[8 + i] == d[8 + i];
      assert Xor(a, b)[16 + i] == d[16 + i] && Xor(a, b)[24 + i] == d[24 + i];
    }
  }

  // ---- Bursts across the boundary ------------------------------------------------------------

  /** x^15 + x^10 + x^6 + x^5 + x^3 + 1 */
  function Holed(): (q: Bits)
    ensures IsHoled(q)
  {
    [true, false, false, false, false, true, false, false, false, true, true, false, true, false, false, true]
  }

  /** Changing the last two bytes so changes the first two of the trailer so. */
  lemma FlippedTrailer(a: seq<Byte>, x: seq<Byte>, y: seq<Byte>)
    requires FlippedEnd(x, y)
    ensures
      var t := TrailerOf(a + x);
      TrailerOf(a + y) == [XorByte(t[0], 0xF4), XorByte(t[1], 0xEE), t[2], t[3]]
  {
    hide XorByte, Holed, TrailerOf, Crc, MessageBits, Multiple, HoledMessage, HoledCrc, Xor;
    FlippedEndIff(x, y);
    HoledProduct(Holed());
    EndsGiveDifference(a, x, y, Holed(), Zeros(16) + HoledCrc());
    CrcFromTrailer(a + x);
    CrcFromTrailer(a + y);
    SameTrailerBytes(TrailerOf(a + x), TrailerOf(a + y));
  }

  /** Same last n trailer bytes, same first 8n bits of the CRC. */
  lemma SameLowBits(a: seq<Byte>, b: seq<Byte>, n: nat)
    requires 1 <= n <= 3 && TrailerOf(a)[4 - n..] == TrailerOf(b)[4 - n..]
    ensures Crc(a)[..8 * n] == Crc(b)[..8 * n]
  {
    var t, u := TrailerOf(a), TrailerOf(b);
    hide BitsOf, TrailerOf, Crc;
    CrcFromTrailer(a);
    CrcFromTrailer(b);
    forall i | 4 - n <= i < 4 ensures t[i] == u[i] { assert t[i] == t[4 - n..][i - (4 - n)]; }
  }

  lemma ZeroPrefix(c: Bits, d: Bits, k: nat)
    requires |c| == |d| && k <= |c| && c[..k] == d[..k]
    ensures forall i | 0 <= i < k :: !Xor(c, d)[i]
  {
    forall i | 0 <= i < k ensures !Xor(c, d)[i] { assert c[..k][i] == d[..k][i]; }
  }

  /** A change of the last one to three bytes that leaves as many bytes at the end of the
      trailer is none, or the one of two bytes. */
  lemma Straddling(a: seq<Byte>, x: seq<Byte>, y: seq<Byte>)
    requires |x| == |y| && 1 <= |x| <= 3 && x != y
    requires TrailerOf(a + x)[4 - |x|..] == TrailerOf(a + y)[4 - |x|..]
    ensures FlippedEnd(x, y)
  {
    hide TrailerOf, Crc, MessageBits, Multiple, HoledMessage, HoledCrc, Xor, FlippedEnd, IsHoled, Zeros;
    var q := EndsDifference(a, x, y);
    var m, d, n := Xor(MessageBits(x), MessageBits(y)), Xor(Crc(a + x), Crc(a + y)), 8 * |x|;
    SameLowBits(a + x, a + y, |x|);
    ZeroPrefix(Crc(a + x), Crc(a + y), n);
    assert Hole(q) by {
      forall i | n <= i < 2 * n ensures !Multiple(q)[i] { assert (m + d)[i] == d[i - n]; }
    }
    MessageBitsInjective(x, y);
    ZeroDifference(MessageBits(x), MessageBits(y));
    if |x| == 1 {
      NoHoleOf8(q);
    } else if |x| == 3 {
      NoHoleOf24(q);
    } else {
      HoleOf16(q);
    }
    if q == Zeros(n) {
      ZeroMultiple(n);
      ZeroFront(m, d);
      assert false;
    }
    HoledProduct(q);
    SamePairs(m, d, HoledMessage(), Zeros(16) + HoledCrc());
    FlippedEndIff(x, y);
  }

  lemma ZeroMultiple(n: nat)
    ensures Multiple(Zeros(n)) == Zeros(n + 32)
  {
    MultipleOfZero(Zeros(n));
  }

  lemma ZeroFront(m: Bits, d: Bits)
    requires m + d == Zeros(|m| + |d|)
    ensures m == Zeros(|m|)
  {
    forall i | 0 <= i < |m| ensures !m[i] { assert m[i] == (m + d)[i]; }
  }

  // ---- Main results ------------------------------------------------------------------------------

  lemma CrcValueInjective(a: seq<Byte>, b: seq<Byte>)
    requires TrailerOf(a) == TrailerOf(b)
    ensures Crc(a) == Crc(b)
  {
    hide TrailerOf, Crc;
    CrcFromTrailer(a);
    CrcFromTrailer(b);
  }

  /** The last two bytes before the trailer exclusive-ored with 61 D8, and its first two with
      F4 EE. */
  function Escaped(s: seq<Byte>): (p: seq<Byte>)
    requires |s| >= 6
    ensures |p| == |s|
  {
    var n := |s|;
    s[..n - 6]
    + [XorByte(s[n - 6], 0x61), XorByte(s[n - 5], 0xD8), XorByte(s[n - 4], 0xF4), XorByte(s[n - 3], 0xEE)]
    + s[n - 2..]
  }

  /** Four consecutive bytes of a sealed packet are changed, in the bytes the CRC covers, in
      the trailer, or across: the trailer still matches in exactly one case. */
  lemma CorruptPacketMatchesIff(body: seq<Byte>, p: seq<Byte>, k: nat)
    requires |p| == |body| + 4 && p != Sealed(body)
    requires forall i | 0 <= i < |p| && !(k <= i < k + 4) :: p[i] == Sealed(body)[i]
    ensures Matches(Sealed(body))
    ensures Matches(p) <==> |body| >= 2 && p == Escaped(Sealed(body))
  {
    SealedMatches(body);
    MatchesIffSealed(p);
    hide Matches, Escaped, TrailerOf, Crc;
    if |body| >= 2 && p == Escaped(Sealed(body)) { EscapedMatches(body); }
    if Matches(p) { OnlyEscapedMatches(body, p[..|body|], k); }
  }

  lemma EscapedMatches(body: seq<Byte>)
    requires |body| >= 2
    ensures Matches(Escaped(Sealed(body)))
  {
    hide XorByte, TrailerOf, Matches, Escaped;
    var n := |body| - 2;
    var a, x := body[..n], body[n..];
    var y := [XorByte(x[0], 0x61), XorByte(x[1], 0xD8)];
    FlippedTrailer(a, x, y);
    assert a + x == body;
    EscapedIs(a, x, y);
    SealedMatches(a + y);
  }

  lemma SealedMatches(body: seq<Byte>)
    ensures Matches(Sealed(body))
  {
    MatchesIffSealed(Sealed(body));
    hide Matches, TrailerOf;
    assert Sealed(body)[..|body|] == body;
  }

  lemma OnlyEscapedMatches(body: seq<Byte>, front: seq<Byte>, k: nat)
    requires |front| == |body| && Sealed(front) != Sealed(body)
    requires forall i | 0 <= i < |body| + 4 && !(k <= i < k + 4) :: Sealed(front)[i] == Sealed(body)[i]
    ensures |body| >= 2 && Sealed(front) == Escaped(Sealed(body))
  {
    hide Escaped, TrailerOf, Crc;
    SealedAt(body);
    SealedAt(front);
    hide Sealed;
    assert forall i | 0 <= i < |body| && !(k <= i < k + 4) :: front[i] == body[i];
    var d := FirstDifference(body, front);
    if k + 4 <= |body| {
      var i := WithinBody(body, front, k);
      assert false;
    } else {
      var t, u, n := TrailerOf(body), TrailerOf(front), |body|;
      forall i | k + 4 - n <= i < 4 ensures t[i] == u[i] {
        assert Sealed(body)[n + i] == Sealed(front)[n + i];
      }
      AcrossBoundary(body, front, k);
    }
  }

  lemma SealedAt(body: seq<Byte>)
    ensures |Sealed(body)| == |body| + 4
    ensures forall i | 0 <= i < |body| :: Sealed(body)[i] == body[i]
    ensures forall i | 0 <= i < 4 :: Sealed(body)[|body| + i] == TrailerOf(body)[i]
  {
    hide TrailerOf;
  }

  lemma FirstDifference(a: seq<Byte>, b: seq<Byte>) returns (i: nat)
    requires |a| == |b| && a != b
    ensures i < |a| && a[i] != b[i]
  {
    i :| i < |a| && a[i] != b[i];
  }

  lemma WithinBody(body: seq<Byte>, front: seq<Byte>, k: nat) returns (i: nat)
    requires |front| == |body| && k + 4 <= |body| && Sealed(front) != Sealed(body)
    requires forall i | 0 <= i < |body| && !(k <= i < k + 4) :: front[i] == body[i]
    ensures i < 4 && Sealed(front)[|body| + i] != Sealed(body)[|body| + i]
  {
    hide TrailerOf, Crc;
    if TrailerOf(front) == TrailerOf(body) {
      CrcValueInjective(front, body);
      DetectsFourByteCorruption(front, body, k);
      assert false;
    }
    SealedAt(body);
    SealedAt(front);
    i := FirstDifference(TrailerOf(front), TrailerOf(body));
  }

  lemma AcrossBoundary(body: seq<Byte>, front: seq<Byte>, k: nat)
    requires |front| == |body| && front != body && k < |body| < k + 4
    requires forall i | 0 <= i < k :: front[i] == body[i]
    requires forall i | k + 4 - |body| <= i < 4 :: TrailerOf(body)[i] == TrailerOf(front)[i]
    ensures |body| >= 2 && Sealed(front) == Escaped(Sealed(body))
  {
    hide Escaped, TrailerOf, Sealed, FlippedEnd;
    var a, x, y := body[..k], body[k..], front[k..];
    assert front[..k] == a;
    assert body == a + x && front == a + y;
    assert TrailerOf(body)[4 - |x|..] == TrailerOf(front)[4 - |x|..];
    Straddling(a, x, y);
    FlippedTrailer(a, x, y);
    FlippedLength(x, y);
    EscapedIs(a, x, y);
  }

  lemma FlippedLength(x: seq<Byte>, y: seq<Byte>)
    requires FlippedEnd(x, y)
    ensures |x| == |y| == 2
  {}

  lemma EscapedIs(a: seq<Byte>, x: seq<Byte>, y: seq<Byte>)
    requires FlippedEnd(x, y)
    requires
      var t := TrailerOf(a + x);
      TrailerOf(a + y) == [XorByte(t[0], 0xF4), XorByte(t[1], 0xEE), t[2], t[3]]
    ensures Sealed(a + y) == Escaped(Sealed(a + x))
  {
    hide XorByte, TrailerOf;
    var s, t, n := Sealed(a + x), TrailerOf(a + x), |a|;
    assert s[..n] == a && s[n] == x[0] && s[n + 1] == x[1] && s[n + 2] == t[0] && s[n + 3] == t[1];
    assert s[n + 4..] == [t[2], t[3]];
  }

  /** The same for the packets of the radios, whose CRC covers the payload. */
  lemma CorruptPayloadMatchesIff(f: Fields, payload: seq<Byte>, p: seq<Byte>, k: nat)
    requires |p| == 28 + |payload| && p[24..] != PacketOf(f, payload)[24..]
    requires forall i | 24 <= i < |p| && !(k <= i < k + 4) :: p[i] == PacketOf(f, payload)[i]
    ensures Matches(PacketOf(f, payload)[24..])
    ensures Matches(p[24..]) <==> |payload| >= 2 && p[24..] == Escaped(PacketOf(f, payload)[24..])
  {
    var s, c := PacketOf(f, payload), p[24..];
    hide HeaderBytes, CrcValue, Be32, Matches, Escaped;
    assert s[24..] == Sealed(payload);
    if k >= 24 {
      CorruptPacketMatchesIff(payload, c, k - 24);
    } else {
      CorruptPacketMatchesIff(payload, c, 0);
    }
  }
}
