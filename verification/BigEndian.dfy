// Unsigned integers in network byte order.

module BigEndian {
  import opened Words

  type U8 = x: int | 0 <= x < 0x100
  type U32 = x: int | 0 <= x < 0x1_0000_0000

  const WORD64: nat := 0x1_0000_0000_0000_0000

  function Be16(x: U16): (b: seq<Byte>)
    ensures |b| == 2
  {
    [x / 256, x % 256]
  }

  function Be32(x: U32): (b: seq<Byte>)
    ensures |b| == 4
  {
    [x / 0x100_0000, x / 0x1_0000 % 256, x / 256 % 256, x % 256]
  }

  /** The low n bytes of x. */
  function BeBytes(x: nat, n: nat): (b: seq<Byte>)
    ensures |b| == n
  {
    if n == 0 then [] else BeBytes(x / 256, n - 1) + [x % 256]
  }

  function Be64(x: nat): (b: seq<Byte>)
    requires x < WORD64
    ensures |b| == 8
  {
    BeBytes(x, 8)
  }

  function BeValue(b: seq<Byte>): nat {
    if b == [] then 0 else 256 * BeValue(b[..|b| - 1]) + b[|b| - 1] as int
  }

  function Pow256(n: nat): nat { if n == 0 then 1 else 256 * Pow256(n - 1) }

  lemma Pow256Of8()
    ensures Pow256(8) == WORD64
  {
    assert Pow256(3) == 256 * 256 * 256;
    assert Pow256(6) == 256 * 256 * 256 * Pow256(3);
  }

  lemma {:induction false} BeRoundTrip(x: nat, n: nat)
    requires x < Pow256(n)
    ensures BeValue(BeBytes(x, n)) == x
  {
    if n > 0 {
      BeRoundTrip(x / 256, n - 1);
      assert BeBytes(x, n)[..n - 1] == BeBytes(x / 256, n - 1);
    }
  }

  lemma {:induction false} BeValueBound(b: seq<Byte>)
    ensures BeValue(b) < Pow256(|b|)
  {
    if b != [] { BeValueBound(b[..|b| - 1]); }
  }

  /** x >> 8 s */
  function ShiftBytes(x: nat, s: nat): nat { if s == 0 then x else ShiftBytes(x / 256, s - 1) }

  /** Byte i of n, counted from the most significant. */
  lemma {:induction false} BeByte(x: nat, n: nat, i: nat)
    requires i < n
    ensures BeBytes(x, n)[i] == ShiftBytes(x, n - 1 - i) % 256
  {
    if i < n - 1 { BeByte(x / 256, n - 1, i); }
  }

  function U16At(p: seq<Byte>, i: nat): U16
    requires i + 2 <= |p|
  {
    256 * p[i] as int + p[i + 1] as int
  }

  function U32At(p: seq<Byte>, i: nat): U32
    requires i + 4 <= |p|
  {
    0x100_0000 * p[i] as int + 0x1_0000 * p[i + 1] as int + 256 * p[i + 2] as int + p[i + 3] as int
  }

  lemma Be32RoundTrip(x: U32)
    ensures 0x100_0000 * (x / 0x100_0000) + 0x1_0000 * (x / 0x1_0000 % 256) + 256 * (x / 256 % 256) + x % 256 == x
  {
    var q := x / 256;
    assert x / 0x1_0000 == q / 256 && x / 0x100_0000 == q / 256 / 256;
  }

  lemma Be64Injective(x: nat, y: nat)
    requires x < WORD64 && y < WORD64 && Be64(x) == Be64(y)
    ensures x == y
  {
    Pow256Of8();
    BeRoundTrip(x, 8);
    BeRoundTrip(y, 8);
  }
}
