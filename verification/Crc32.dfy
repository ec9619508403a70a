// CRC-32 as the repository computes it: a shift register eight times a byte, and the
// table-driven form. A uint32_t is its 32 bits, least significant first, which is also
// the order in which the bits of a byte are fed.

module Crc32 {
  import opened Gf2
  import opened Words

  // ---- uint32_t operators ----------------------------------------------------

  function Shr(w: Bits): (r: Bits)
    requires |w| == 32
    ensures |r| == 32
  {
    w[1..] + [false]
  }

  function And(a: Bits, b: Bits): (c: Bits)
    requires |a| == |b|
    ensures |c| == |a|
  {
    seq(|a|, i requires 0 <= i < |a| => a[i] && b[i])
  }

  /** -(w & 1): all ones when the low bit is set, else zero. */
  function NegLowBit(w: Bits): (m: Bits)
    requires |w| == 32
    ensures |m| == 32
  {
    if w[0] then Ones(32) else Zeros(32)
  }

  function Reflected(): (p: Bits)
    ensures |p| == 32
  {
    BitsOf(0xEDB8_8320, 32)
  }

  // ---- The register ----------------------------------------------------------

  function Shift(c: Bits): (r: Bits)
    requires |c| == 32
    ensures |r| == 32
  {
    Xor(Shr(c), if c[0] then Reflected() else Zeros(32))
  }

  function ShiftN(c: Bits, n: nat): (r: Bits)
    requires |c| == 32
    ensures |r| == 32
    decreases n
  {
    if n == 0 then c else ShiftN(Shift(c), n - 1)
  }

  function StepByte(c: Bits, b: Byte): (r: Bits)
    requires |c| == 32
    ensures |r| == 32
  {
    ShiftN(Xor(c, BitsOf(b, 32)), 8)
  }

  /** The register after `data`, started from c. */
  function Register(c: Bits, data: seq<Byte>): (r: Bits)
    requires |c| == 32
    ensures |r| == 32
  {
    if data == [] then c
    else StepByte(Register(c, data[..|data| - 1]), data[|data| - 1])
  }

  function Crc(data: seq<Byte>): (r: Bits)
    ensures |r| == 32
  {
    Xor(Register(Ones(32), data), Ones(32))
  }

  // ---- The programs ----------------------------------------------------------

  lemma MaskedXor(c: Bits)
    requires |c| == 32
    ensures Xor(Shr(c), And(Reflected(), NegLowBit(c))) == Shift(c)
  {
    if c[0] {
      assert And(Reflected(), Ones(32)) == Reflected();
    } else {
      assert And(Reflected(), Zeros(32)) == Zeros(32);
    }
  }

  lemma {:induction false} ShiftLast(c: Bits, n: nat)
    requires |c| == 32
    ensures ShiftN(c, n + 1) == Shift(ShiftN(c, n))
    decreases n
  {
    hide Shift;
    if n > 0 { ShiftLast(Shift(c), n - 1); }
  }

  /** ostp_crc32 */
  method BitwiseCrc32(data: seq<Byte>) returns (r: Bits)
    ensures r == Crc(data)
  {
    hide Shift, Reflected, Xor;
    var crc := Ones(32);
    for i := 0 to |data|
      invariant |crc| == 32 && crc == Register(Ones(32), data[..i])
    {
      assert data[..i + 1][..i] == data[..i];
      crc := Xor(crc, BitsOf(data[i], 32));
      ghost var start := crc;
      for j := 0 to 8
        invariant |crc| == 32 && crc == ShiftN(start, j)
      {
        MaskedXor(crc);
        ShiftLast(start, j);
        crc := Xor(Shr(crc), And(Reflected(), NegLowBit(crc)));
      }
    }
    assert data[..|data|] == data;
    r := Xor(crc, Ones(32));
  }

  ghost predicate IsTable(t: seq<Bits>) {
    |t| == 256 && forall i | 0 <= i < 256 :: t[i] == ShiftN(BitsOf(i, 32), 8)
  }

  /** crc32_init, and the table literal of the web client. */
  method BuildTable() returns (t: array<Bits>)
    ensures fresh(t) && IsTable(t[..])
  {
    hide ShiftN, BitsOf;
    t := new Bits[256](_ => []);
    for i := 0 to 256
      invariant forall k | 0 <= k < i :: t[k] == ShiftN(BitsOf(k, 32), 8)
    {
      var c := TableEntry(i);
      t[i] := c;
    }
  }

  method TableEntry(i: nat) returns (c: Bits)
    ensures c == ShiftN(BitsOf(i, 32), 8)
  {
    c := BitsOf(i, 32);
    for j := 0 to 8
      invariant |c| == 32 && c == ShiftN(BitsOf(i, 32), j)
    {
      ShiftLast(BitsOf(i, 32), j);
      EitherBranch(c);
      c := if c[0] then Xor(Reflected(), Shr(c)) else Shr(c);
    }
  }

  lemma EitherBranch(c: Bits)
    requires |c| == 32
    ensures (if c[0] then Xor(Reflected(), Shr(c)) else Shr(c)) == Shift(c)
  {}

  /** The table-driven program computes the same function as the bitwise one. */
  method TableCrc32(t: array<Bits>, data: seq<Byte>) returns (r: Bits)
    requires IsTable(t[..])
    ensures r == Crc(data)
  {
    hide Shift, ShiftN, Reflected, Xor;
    var crc := Ones(32);
    for i := 0 to |data|
      invariant |crc| == 32 && crc == Register(Ones(32), data[..i])
    {
      assert data[..i + 1][..i] == data[..i];
      crc := TableLookup(t, crc, data[i]);
    }
    assert data[..|data|] == data;
    r := Xor(crc, Ones(32));
  }

  /** table[(crc ^ b) & 0xFF] ^ (crc >> 8) */
  method TableLookup(t: array<Bits>, crc: Bits, b: Byte) returns (r: Bits)
    requires IsTable(t[..]) && |crc| == 32
    ensures r == StepByte(crc, b)
  {
    var x := Xor(crc, BitsOf(b, 32));
    ByteLeavesHighBits(crc, b);
    hide Shift, ShiftN, Reflected, Xor;
    var low := x[..8];
    ByteValueBound(low);
    BitsOfValue(low, 32);
    TableStep(x);
    var k := ValueOf(low);
    assert t[..][k] == ShiftN(BitsOf(k, 32), 8);
    r := Xor(t[k], crc[8..] + Zeros(8));
  }

  lemma ByteLeavesHighBits(c: Bits, b: Byte)
    requires |c| == 32
    ensures Xor(c, BitsOf(b, 32))[8..] == c[8..]
  {
    BitsOfByte(b);
  }

  // ---- Why one lookup is eight shifts ------------------------------------------

  lemma ShiftLinear(a: Bits, b: Bits)
    requires |a| == |b| == 32
    ensures Shift(Xor(a, b)) == Xor(Shift(a), Shift(b))
  {
    hide Reflected;
    ShrLinear(a, b);
    var fa, fb := if a[0] then Reflected() else Zeros(32), if b[0] then Reflected() else Zeros(32);
    FeedbackLinear(a[0], b[0], Reflected());
    hide Xor;
    XorExchange(Shr(a), fa, Shr(b), fb);
  }

  lemma ShrLinear(a: Bits, b: Bits)
    requires |a| == |b| == 32
    ensures Shr(Xor(a, b)) == Xor(Shr(a), Shr(b)) && Xor(a, b)[0] == (a[0] != b[0])
  {}

  lemma FeedbackLinear(p: bool, q: bool, poly: Bits)
    requires |poly| == 32
    ensures (if p != q then poly else Zeros(32)) == Xor(if p then poly else Zeros(32), if q then poly else Zeros(32))
  {}

  lemma {:induction false} ShiftNLinear(a: Bits, b: Bits, n: nat)
    requires |a| == |b| == 32
    ensures ShiftN(Xor(a, b), n) == Xor(ShiftN(a, n), ShiftN(b, n))
    decreases n
  {
    hide Shift;
    if n > 0 {
      ShiftLinear(a, b);
      ShiftNLinear(Shift(a), Shift(b), n - 1);
    }
  }

  function Padded(k: nat, t: Bits): (c: Bits)
    requires k + |t| <= 32
    ensures |c| == 32
  {
    Zeros(k) + t + Zeros(32 - k - |t|)
  }

  lemma ShiftClearOnce(k: nat, t: Bits)
    requires 0 < k && k + |t| <= 32
    ensures Shift(Padded(k, t)) == Padded(k - 1, t)
  {
    ShrPadded(k, t);
    XorZeros(Padded(k - 1, t));
    hide Padded, Shr, Xor;
  }

  lemma ShrPadded(k: nat, t: Bits)
    requires 0 < k && k + |t| <= 32
    ensures !Padded(k, t)[0] && Shr(Padded(k, t)) == Padded(k - 1, t)
  {
    assert Zeros(k)[1..] == Zeros(k - 1);
    assert Zeros(32 - k - |t|) + [false] == Zeros(33 - k - |t|);
    assert Padded(k, t)[1..] == Zeros(k - 1) + t + Zeros(32 - k - |t|);
  }

  lemma XorZeros(a: Bits)
    requires |a| == 32
    ensures Xor(a, Zeros(32)) == a
  {}

  /** Shifting out k clear bits meets no feedback. */
  lemma {:induction false} ShiftClear(k: nat, t: Bits)
    requires k + |t| <= 32
    ensures ShiftN(Padded(k, t), k) == Padded(0, t)
    decreases k
  {
    hide Padded, Shift;
    if k > 0 {
      ShiftClearOnce(k, t);
      ShiftClear(k - 1, t);
    }
  }

  lemma SplitLowByte(x: Bits)
    requires |x| == 32
    ensures Xor(x[..8] + Zeros(24), Padded(8, x[8..])) == x && Padded(0, x[8..]) == x[8..] + Zeros(8)
  {}

  lemma TableStep(x: Bits)
    requires |x| == 32
    ensures ShiftN(x, 8) == Xor(ShiftN(x[..8] + Zeros(24), 8), x[8..] + Zeros(8))
  {
    SplitLowByte(x);
    hide Shift, ShiftN, Xor, Padded;
    ShiftNLinear(x[..8] + Zeros(24), Padded(8, x[8..]), 8);
    ShiftClear(8, x[8..]);
  }
}
