// Machine words as bit strings, least significant bit first.

module Words {
  import opened Gf2

  type Byte = x: int | 0 <= x < 256
  type U16 = x: int | 0 <= x < 0x1_0000

  function BitsOf(x: nat, n: nat): (b: Bits)
    ensures |b| == n
  {
    if n == 0 then [] else [x % 2 == 1] + BitsOf(x / 2, n - 1)
  }

  function ValueOf(b: Bits): nat {
    if b == [] then 0 else (if b[0] then 1 else 0) + 2 * ValueOf(b[1..])
  }

  function Doubled(x: nat, n: nat): (y: nat)
    ensures x > 0 ==> y > 0
  {
    if n == 0 then x else 2 * Doubled(x, n - 1)
  }

  lemma DoubledEight(n: nat)
    ensures Doubled(1, n + 8) == 256 * Doubled(1, n)
  {
    DoubledFour(n);
    DoubledFour(n + 4);
  }

  lemma DoubledFour(n: nat)
    ensures Doubled(1, n + 4) == 16 * Doubled(1, n)
  {
    assert Doubled(1, n + 2) == 2 * Doubled(1, n + 1) == 4 * Doubled(1, n);
    assert Doubled(1, n + 4) == 2 * Doubled(1, n + 3) == 4 * Doubled(1, n + 2);
  }

  lemma {:induction false} ValueBound(b: Bits)
    ensures ValueOf(b) < Doubled(1, |b|)
  {
    if b != [] { ValueBound(b[1..]); }
  }

  lemma ByteValueBound(b: Bits)
    requires |b| == 8
    ensures ValueOf(b) < 256
  {
    ValueBound(b);
    DoubledEight(0);
  }

  lemma {:induction false} BitsOfValue(b: Bits, n: nat)
    requires |b| <= n
    ensures BitsOf(ValueOf(b), n) == b + Zeros(n - |b|)
    decreases n
  {
    if b == [] {
      BitsOfZero(n);
    } else {
      BitsOfValue(b[1..], n - 1);
      var v, w := ValueOf(b), ValueOf(b[1..]);
      assert v / 2 == w && (v % 2 == 1) == b[0];
      assert b == [b[0]] + b[1..];
    }
  }

  lemma {:induction false} BitsOfZero(n: nat)
    ensures BitsOf(0, n) == Zeros(n)
  {
    if n > 0 { BitsOfZero(n - 1); }
  }

  lemma {:induction false} BitsOfSmall(x: nat, k: nat, n: nat)
    requires x < Doubled(1, k) && k <= n
    ensures BitsOf(x, n) == BitsOf(x, k) + Zeros(n - k)
    decreases n
  {
    if k == 0 {
      BitsOfZero(n);
    } else {
      assert Doubled(1, k) == 2 * Doubled(1, k - 1);
      BitsOfSmall(x / 2, k - 1, n - 1);
    }
  }

  lemma BitsOfByte(x: Byte)
    ensures BitsOf(x, 32) == BitsOf(x, 8) + Zeros(24)
  {
    DoubledEight(0);
    BitsOfSmall(x, 8, 32);
  }

  lemma {:induction false} BitsInjective(x: nat, y: nat, n: nat)
    requires x < Doubled(1, n) && y < Doubled(1, n) && BitsOf(x, n) == BitsOf(y, n)
    ensures x == y
  {
    if n > 0 {
      assert BitsOf(x, n)[0] == BitsOf(y, n)[0];
      assert BitsOf(x, n)[1..] == BitsOf(x / 2, n - 1) && BitsOf(y, n)[1..] == BitsOf(y / 2, n - 1);
      assert Doubled(1, n) == 2 * Doubled(1, n - 1);
      BitsInjective(x / 2, y / 2, n - 1);
    }
  }
}
