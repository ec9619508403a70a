// CRC-32 against the definition of IEEE 802.3 section 3.2.9: the complemented remainder of
// the message, its first 32 bits complemented and 32 zero bits appended, divided by the
// generator; and what the division detects.

module CrcDivision {
  import opened Crc32
  import opened Gf2
  import opened Words

  // ---- The register divides ------------------------------------------------------

  lemma BitsCons(x: nat, n: nat, b: bool)
    ensures BitsOf(2 * x + (if b then 1 else 0), n + 1) == [b] + BitsOf(x, n)
  {
    var y := 2 * x + (if b then 1 else 0);
    assert y / 2 == x && (y % 2 == 1) == b;
  }

  lemma Pair(x: nat, n: nat, b0: bool, b1: bool)
    ensures BitsOf(4 * x + (if b0 then 1 else 0) + (if b1 then 2 else 0), n + 2) == [b0, b1] + BitsOf(x, n)
  {
    hide BitsOf;
    var y := 2 * x + (if b1 then 1 else 0);
    BitsCons(x, n, b1);
    BitsCons(y, n + 1, b0);
    assert [b0] + ([b1] + BitsOf(x, n)) == [b0, b1] + BitsOf(x, n);
  }

  lemma Nibble(x: nat, n: nat, b0: bool, b1: bool, b2: bool, b3: bool, k: nat)
    requires k == (if b0 then 1 else 0) + (if b1 then 2 else 0) + (if b2 then 4 else 0) + (if b3 then 8 else 0)
    ensures BitsOf(16 * x + k, n + 4) == [b0, b1, b2, b3] + BitsOf(x, n)
  {
    hide BitsOf;
    var y := 4 * x + (if b2 then 1 else 0) + (if b3 then 2 else 0);
    Pair(x, n, b2, b3);
    Pair(y, n + 2, b0, b1);
    assert [b0, b1] + ([b2, b3] + BitsOf(x, n)) == [b0, b1, b2, b3] + BitsOf(x, n);
  }

  lemma PolyTop()
    ensures BitsOf(0xED, 8) == [true, false, true, true, false, true, true, true]
  {
    assert BitsOf(0, 0) == [];
    hide BitsOf;
    Nibble(0, 0, false, true, true, true, 0xE);
    assert [false, true, true, true] + BitsOf(0, 0) == [false, true, true, true];
    assert BitsOf(0xE, 4) == [false, true, true, true];
    Nibble(0xE, 4, true, false, true, true, 0xD);
  }

  lemma PolyLow()
    ensures BitsOf(0xEDB8, 16) ==
      [false, false, false, true, true, true, false, true, true, false, true, true, false, true, true, true]
  {
    PolyTop();
    hide BitsOf;
    Nibble(0xED, 8, true, true, false, true, 0xB);
    Nibble(0xEDB, 12, false, false, false, true, 8);
  }

  lemma PolyHigh()
    ensures Reflected() ==
      [false, false, false, false, false, true, false, false, true, true, false, false, false, false, false, true]
      + BitsOf(0xEDB8, 16)
  {
    hide BitsOf;
    Nibble(0xEDB8, 16, false, false, false, true, 8);
    Nibble(0xEDB88, 20, true, true, false, false, 3);
    Nibble(0xEDB883, 24, false, true, false, false, 2);
    Nibble(0xEDB8832, 28, false, false, false, false, 0);
  }

  lemma TailLow()
    ensures Tail()[16..] ==
      [false, false, false, true, true, true, false, true, true, false, true, true, false, true, true, true]
  {}

  lemma TailHigh()
    ensures Tail()[..16] ==
      [false, false, false, false, false, true, false, false, true, true, false, false, false, false, false, true]
  {}

  /** The reflected constant 0xEDB88320 is the generator's coefficients. */
  lemma PolyIsGenerator()
    ensures Reflected() == Tail()
  {
    PolyLow();
    PolyHigh();
    TailLow();
    TailHigh();
    hide Reflected, BitsOf, Tail;
    assert Tail() == Tail()[..16] + Tail()[16..];
  }

  lemma ShiftFeedsBit(r: Bits, w: Bits)
    requires |r| == |w| == 32
    ensures Shift(Xor(r, w)) == Xor(BitStep(r, w[0]), w[1..] + [false])
  {
    PolyIsGenerator();
    hide Reflected, Tail;
    var f := if r[0] != w[0] then Tail() else Zeros(32);
    assert Shr(Xor(r, w)) == Xor(r[1..] + [false], w[1..] + [false]);
    assert Xor(Xor(r[1..] + [false], w[1..] + [false]), f) == Xor(Xor(r[1..] + [false], f), w[1..] + [false]);
  }

  /** |w| shifts of the register with w added in feed the bits of w one by one. */
  lemma {:induction false} ShiftsFeedBits(r: Bits, w: Bits)
    requires |r| == 32 && |w| <= 32
    ensures ShiftN(Xor(r, w + Zeros(32 - |w|)), |w|) == BitRun(r, w)
    decreases |w|
  {
    hide Shift, Xor, BitStep, Tail;
    var padded := w + Zeros(32 - |w|);
    if w == [] {
      assert padded == Zeros(32);
      XorZeros(r);
    } else {
      ShiftFeedsBit(r, padded);
      assert padded[1..] + [false] == w[1..] + Zeros(32 - |w[1..]|);
      ShiftsFeedBits(BitStep(r, w[0]), w[1..]);
    }
  }

  /** The message in transmission order: bytes in turn, each low bit first. */
  function MessageBits(data: seq<Byte>): (m: Bits)
    ensures |m| == 8 * |data|
  {
    if data == [] then [] else MessageBits(data[..|data| - 1]) + BitsOf(data[|data| - 1], 8)
  }

  lemma {:induction false} RegisterDivides(c: Bits, data: seq<Byte>)
    requires |c| == 32
    ensures Register(c, data) == BitRun(c, MessageBits(data))
    decreases |data|
  {
    if data != [] {
      var before, b := data[..|data| - 1], data[|data| - 1];
      RegisterDivides(c, before);
      var r := Register(c, before);
      BitsOfByte(b);
      hide Xor, Shift, ShiftN;
      ShiftsFeedBits(r, BitsOf(b, 8));
      BitRunConcat(c, MessageBits(before), BitsOf(b, 8));
    }
  }

  // ---- Main results ----------------------------------------------------------------

  /** IEEE 802.3 section 3.2.9: r is a remainder, below x^32, of the message with
      its first 32 bits complemented, times x^32, divided by G. */
  ghost predicate IsIeeeRemainder(m: Bits, r: Bits) {
    |r| == 32 && exists q: Bits :: |q| == |m| && Dividend(Ones(32), m) == Xor(Multiple(q), Zeros(|m|) + r)
  }

  lemma XorOnesInvolutive(a: Bits)
    requires |a| == 32
    ensures Xor(Xor(a, Ones(32)), Ones(32)) == a
  {}

  /** The program's result is the IEEE CRC and nothing else is. */
  lemma CrcIsIeeeCrc(data: seq<Byte>, c: Bits)
    requires |c| == 32
    ensures IsIeeeRemainder(MessageBits(data), Xor(c, Ones(32))) <==> c == Crc(data)
  {
    var m, r := MessageBits(data), Register(Ones(32), data);
    RegisterDivides(Ones(32), data);
    Division(Ones(32), m);
    XorOnesInvolutive(r);
    XorOnesInvolutive(c);
    hide Xor, Multiple, Dividend, Register;
    assert IsIeeeRemainder(m, r);
    if IsIeeeRemainder(m, Xor(c, Ones(32))) {
      var q: Bits :| |q| == |m| && Dividend(Ones(32), m) == Xor(Multiple(q), Zeros(|m|) + Xor(c, Ones(32)));
      DivisionUnique(q, Xor(c, Ones(32)), Quotient(Ones(32), m), r);
    }
  }

  /** The CRCs of two equal-length messages differ by exactly d if and only if their
      difference, followed by d, is a multiple of the generator. */
  lemma CrcDifferenceIff(data: seq<Byte>, data': seq<Byte>, d: Bits)
    requires |data| == |data'| && |d| == 32
    ensures Xor(Crc(data), Crc(data')) == d <==>
      exists q: Bits :: |q| == 8 * |data| && Multiple(q) == Xor(MessageBits(data), MessageBits(data')) + d
  {
    var e := Xor(MessageBits(data), MessageBits(data')) + d;
    if Xor(Crc(data), Crc(data')) == d {
      var q := DifferenceDivides(data, data');
      assert |q| == 8 * |data| && Multiple(q) == e;
    }
    if q: Bits :| |q| == 8 * |data| && Multiple(q) == e {
      DivisorGivesDifference(data, data', d, q);
    }
  }

  lemma DifferenceDivides(data: seq<Byte>, data': seq<Byte>) returns (q: Bits)
    requires |data| == |data'|
    ensures |q| == 8 * |data|
    ensures Multiple(q) == Xor(MessageBits(data), MessageBits(data')) + Xor(Crc(data), Crc(data'))
  {
    var m, m' := MessageBits(data), MessageBits(data');
    var r, r' := Register(Ones(32), data), Register(Ones(32), data');
    var Q, Q' := Quotient(Ones(32), m), Quotient(Ones(32), m');
    hide Multiple, Dividend, Register, Quotient, BitRun, MessageBits, Xor;
    q := Xor(Q, Q');
    RegisterDivides(Ones(32), data);
    RegisterDivides(Ones(32), data');
    Division(Ones(32), m);
    Division(Ones(32), m');
    CrcsDiffer(data, data');
    MultipleLinear(Q, Q');
    DividendDifference(Ones(32), m, m');
    SumOfDivisions(Multiple(Q), Multiple(Q'), r, r', Xor(m, m'));
  }

  lemma CrcsDiffer(data: seq<Byte>, data': seq<Byte>)
    ensures Xor(Crc(data), Crc(data')) == Xor(Register(Ones(32), data), Register(Ones(32), data'))
  {
    hide Register;
  }

  lemma SumOfDivisions(a: Bits, a': Bits, r: Bits, r': Bits, x: Bits)
    requires |r| == |r'| == 32 && |a| == |a'| == |x| + 32
    requires Xor(Xor(a, Zeros(|x|) + r), Xor(a', Zeros(|x|) + r')) == x + Zeros(32)
    ensures Xor(a, a') == x + Xor(r, r')
  {
    var z, z' := Zeros(|x|) + r, Zeros(|x|) + r';
    var lhs, sum := Xor(a, a'), Xor(Xor(a, z), Xor(a', z'));
    forall i | 0 <= i < |x| + 32 ensures lhs[i] == (x + Xor(r, r'))[i] {
      assert sum[i] == ((a[i] != z[i]) != (a'[i] != z'[i]));
    }
  }

  lemma DivisorGivesDifference(data: seq<Byte>, data': seq<Byte>, d: Bits, q: Bits)
    requires |data| == |data'| && |d| == 32 && |q| == 8 * |data|
    requires Multiple(q) == Xor(MessageBits(data), MessageBits(data')) + d
    ensures Xor(Crc(data), Crc(data')) == d
  {
    var m, m' := MessageBits(data), MessageBits(data');
    var r, r' := Register(Ones(32), data), Register(Ones(32), data');
    var Q, Q' := Quotient(Ones(32), m), Quotient(Ones(32), m');
    hide Multiple, Dividend, Register, Quotient, BitRun, MessageBits, Xor;
    RegisterDivides(Ones(32), data);
    RegisterDivides(Ones(32), data');
    Division(Ones(32), m);
    Division(Ones(32), m');
    CrcsDiffer(data, data');
    MultipleLinear(Q, q);
    DividendDifference(Ones(32), m, m');
    OtherDivision(Dividend(Ones(32), m), Dividend(Ones(32), m'), Multiple(Q), r, Xor(m, m'), d);
    DivisionUnique(Xor(Q, q), Xor(r, d), Q', r');
    XorUndo(r, d);
  }

  lemma OtherDivision(div: Bits, div': Bits, a: Bits, r: Bits, x: Bits, d: Bits)
    requires |r| == |d| == 32 && |div| == |div'| == |a| == |x| + 32
    requires div == Xor(a, Zeros(|x|) + r) && Xor(div, div') == x + Zeros(32)
    ensures div' == Xor(Xor(a, x + d), Zeros(|x|) + Xor(r, d))
  {
    var z, y, w := Zeros(|x|) + r, x + d, Zeros(|x|) + Xor(r, d);
    forall i | 0 <= i < |x| + 32 ensures div'[i] == Xor(Xor(a, y), w)[i] {
      assert Xor(div, div')[i] == (div[i] != div'[i]);
      assert div[i] == (a[i] != z[i]);
    }
  }

  /** Two equal-length messages have the same CRC exactly when the generator
      divides their difference. */
  lemma SameCrcIffDivisible(data: seq<Byte>, data': seq<Byte>)
    requires |data| == |data'|
    ensures Crc(data) == Crc(data') <==>
      exists q: Bits :: |q| == 8 * |data| && Multiple(q) == Xor(MessageBits(data), MessageBits(data')) + Zeros(32)
  {
    hide Multiple, MessageBits, Crc;
    CrcDifferenceIff(data, data', Zeros(32));
    ZeroDifference(Crc(data), Crc(data'));
  }

  lemma ZeroDifference(a: Bits, b: Bits)
    requires |a| == |b|
    ensures Xor(a, b) == Zeros(|a|) <==> a == b
  {
    if Xor(a, b) == Zeros(|a|) {
      forall i | 0 <= i < |a| ensures a[i] == b[i] { assert !Xor(a, b)[i]; }
    }
  }

  lemma DividendDifference(r: Bits, m: Bits, m': Bits)
    requires |r| == 32 && |m| == |m'|
    ensures Xor(Dividend(r, m), Dividend(r, m')) == Xor(m, m') + Zeros(32)
  {
    assert Zeros(32) == Xor(Zeros(32), Zeros(32));
  }

  lemma XorUndo(a: Bits, b: Bits)
    requires |a| == |b|
    ensures Xor(a, Xor(a, b)) == b
  {}

  lemma DifferenceInWindow(m: Bits, m': Bits, start: nat)
    requires |m| == |m'|
    requires forall i | 0 <= i < |m| && !(start <= i < start + 32) :: m[i] == m'[i]
    ensures forall i | 0 <= i < |m| + 32 && (Xor(m, m') + Zeros(32))[i] :: start <= i < start + 32
  {}

  /** Every error burst of at most 32 bits is detected, wherever it starts. */
  lemma DetectsBitBursts(data: seq<Byte>, data': seq<Byte>, start: nat)
    requires |data| == |data'| && MessageBits(data) != MessageBits(data')
    requires forall i | 0 <= i < 8 * |data| && !(start <= i < start + 32) ::
      MessageBits(data)[i] == MessageBits(data')[i]
    ensures Crc(data) != Crc(data')
  {
    if Crc(data) == Crc(data') {
      SameCrcIffDivisible(data, data');
      var m, m' := MessageBits(data), MessageBits(data');
      DifferenceInWindow(m, m', start);
      var q: Bits :| |q| == |m| && Multiple(q) == Xor(m, m') + Zeros(32);
      DifferenceNonZero(m, m');
      if IsZero(q) {
        MultipleOfZero(q);
        assert false;
      } else {
        var i, j := MultipleSpread(q);
        assert false;
      }
    }
  }

  lemma DifferenceNonZero(m: Bits, m': Bits)
    requires |m| == |m'| && m != m'
    ensures Xor(m, m') + Zeros(32) != Zeros(|m| + 32)
  {
    var e := Xor(m, m') + Zeros(32);
    if e == Zeros(|m| + 32) {
      forall i | 0 <= i < |m| ensures m[i] == m'[i] { assert e[i] == (m[i] != m'[i]); }
    }
  }

  /** Every corruption confined to four consecutive bytes is detected. */
  lemma DetectsFourByteCorruption(data: seq<Byte>, data': seq<Byte>, k: nat)
    requires |data| == |data'| && data != data'
    requires forall i | 0 <= i < |data| && !(k <= i < k + 4) :: data[i] == data'[i]
    ensures Crc(data) != Crc(data')
  {
    var m, m' := MessageBits(data), MessageBits(data');
    forall i | 0 <= i < 8 * |data| && !(8 * k <= i < 8 * k + 32) ensures m[i] == m'[i] {
      MessageBitAt(data, i);
      MessageBitAt(data', i);
    }
    MessageBitsInjective(data, data');
    DetectsBitBursts(data, data', 8 * k);
  }

  lemma {:induction false} MessageBitAt(data: seq<Byte>, i: nat)
    requires i < 8 * |data|
    ensures MessageBits(data)[i] == BitsOf(data[i / 8], 8)[i % 8]
    decreases |data|
  {
    var n := |data| - 1;
    if i < 8 * n { MessageBitAt(data[..n], i); }
  }

  lemma {:induction false} MessageBitsInjective(data: seq<Byte>, data': seq<Byte>)
    requires |data| == |data'| && data != data'
    ensures MessageBits(data) != MessageBits(data')
    decreases |data|
  {
    var n := |data| - 1;
    var b, b' := MessageBits(data[..n]), MessageBits(data'[..n]);
    if MessageBits(data) == MessageBits(data') {
      assert b == MessageBits(data)[..8 * n] && b' == MessageBits(data')[..8 * n];
      assert BitsOf(data[n], 8) == MessageBits(data)[8 * n..] && BitsOf(data'[n], 8) == MessageBits(data')[8 * n..];
      DoubledEight(0);
      BitsInjective(data[n], data'[n], 8);
      assert data == data[..n] + [data[n]] && data' == data'[..n] + [data'[n]];
      MessageBitsInjective(data[..n], data'[..n]);
    }
  }
}
