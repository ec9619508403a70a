// Bitwise operators on unbounded naturals, and the two facts about powers of
// two on which the ring buffers rest: masking with 2^k - 1 is reduction
// modulo 2^k, and the shift-and-or cascade of next_pow2 rounds up.

module Bits {

  function Pow2(k: nat): (p: nat)
    ensures p >= 1
  {
    if k == 0 then 1 else 2 * Pow2(k - 1)
  }

  function And(a: nat, b: nat): nat {
    if a == 0 || b == 0 then 0
    else 2 * And(a / 2, b / 2) + (if a % 2 == 1 && b % 2 == 1 then 1 else 0)
  }

  function Or(a: nat, b: nat): nat
    decreases a + b
  {
    if a == 0 && b == 0 then 0
    else 2 * Or(a / 2, b / 2) + (if a % 2 == 1 || b % 2 == 1 then 1 else 0)
  }

  /** x >> s */
  function Shr(x: nat, s: nat): nat {
    if s == 0 then x else Shr(x / 2, s - 1)
  }

  predicate Bit(x: nat, i: nat) {
    Shr(x, i) % 2 == 1
  }

  lemma DoubledProduct(x: nat, y: nat)
    ensures 2 * (x * y) == (2 * x) * y
  {}

  lemma {:induction false} Pow2Add(a: nat, b: nat)
    ensures Pow2(a + b) == Pow2(a) * Pow2(b)
  {
    if a > 0 {
      Pow2Add(a - 1, b);
      assert Pow2(a) == 2 * Pow2(a - 1) && Pow2(a + b) == 2 * Pow2(a - 1 + b);
      DoubledProduct(Pow2(a - 1), Pow2(b));
    }
  }

  lemma AndOdd(x: nat, p: nat)
    requires p >= 1
    ensures And(x, 2 * p - 1) == 2 * And(x / 2, p - 1) + x % 2
  {
    assert (2 * p - 1) / 2 == p - 1 && (2 * p - 1) % 2 == 1;
  }

  /** x & (2^k - 1) is x % 2^k: the ring's masking is modular indexing. */
  lemma {:induction false} AndMaskIsMod(x: nat, k: nat)
    ensures And(x, Pow2(k) - 1) == x % Pow2(k)
  {
    if k > 0 {
      AndMaskIsMod(x / 2, k - 1);
      assert Pow2(k) == 2 * Pow2(k - 1);
      hide And, Pow2;
      AndOdd(x, Pow2(k - 1));
      ModHalves(x, Pow2(k - 1));
    }
  }

  lemma ModHalves(x: nat, p: nat)
    requires p >= 1
    ensures x % (2 * p) == 2 * ((x / 2) % p) + x % 2
  {
    var q, r := (x / 2) / p, (x / 2) % p;
    assert x == 2 * (q * p + r) + x % 2 == q * (2 * p) + (2 * r + x % 2);
    DivModUnique(x, 2 * p, q, 2 * r + x % 2);
  }

  lemma MulMonotone(a: int, b: int, n: int)
    requires a <= b && n >= 0
    ensures a * n <= b * n
  {}

  lemma DivModUnique(x: int, n: int, q: int, r: int)
    requires n > 0 && x == q * n + r && 0 <= r < n
    ensures x / n == q && x % n == r
  {
    var q' := x / n;
    if q < q' {
      MulMonotone(q + 1, q', n);
    } else if q' < q {
      MulMonotone(q' + 1, q, n);
    }
  }

  // ---- next_pow2 -----------------------------------------------------------

  lemma {:induction false} ShrZero(i: nat)
    ensures Shr(0, i) == 0
  {
    if i > 0 { ShrZero(i - 1); }
  }

  lemma OrHalves(a: nat, b: nat)
    ensures Or(a, b) / 2 == Or(a / 2, b / 2) && (Or(a, b) % 2 == 1 <==> a % 2 == 1 || b % 2 == 1)
  {}

  lemma LowBit(x: nat)
    ensures Bit(x, 0) <==> x % 2 == 1
  {}

  lemma HighBit(x: nat, i: nat)
    requires i > 0
    ensures Bit(x, i) <==> Bit(x / 2, i - 1)
  {}

  lemma {:induction false} OrBit(a: nat, b: nat, i: nat)
    ensures Bit(Or(a, b), i) <==> Bit(a, i) || Bit(b, i)
    decreases i
  {
    hide Or, Bit;
    OrHalves(a, b);
    if i == 0 {
      LowBit(a);
      LowBit(b);
      LowBit(Or(a, b));
    } else {
      OrBit(a / 2, b / 2, i - 1);
      HighBit(a, i);
      HighBit(b, i);
      HighBit(Or(a, b), i);
    }
  }

  lemma {:induction false} ShrShr(x: nat, s: nat, i: nat)
    ensures Shr(Shr(x, s), i) == Shr(x, s + i)
  {
    if s > 0 { ShrShr(x / 2, s - 1, i); }
  }

  /** x has highest set bit k, and its `ones` highest bits are all set. */
  ghost predicate TopOnes(x: nat, k: nat, ones: nat) {
    && (forall i: nat | i > k :: !Bit(x, i))
    && (forall i: nat | k < i + ones && i <= k :: Bit(x, i))
  }

  /** One `v |= v >> s` doubles the run of ones below the leading bit. */
  lemma SmearStep(x: nat, k: nat, s: nat)
    requires TopOnes(x, k, s)
    ensures TopOnes(Or(x, Shr(x, s)), k, 2 * s)
  {
    var y := Or(x, Shr(x, s));
    forall i: nat | i > k ensures !Bit(y, i) {
      OrBit(x, Shr(x, s), i);
      ShrShr(x, s, i);
      assert !Bit(x, i) && !Bit(x, s + i);
    }
    forall i: nat | k < i + 2 * s && i <= k ensures Bit(y, i) {
      OrBit(x, Shr(x, s), i);
      ShrShr(x, s, i);
      assert k < i + s || Bit(x, s + i);
    }
  }

  lemma {:induction false} LeadingBit(x: nat) returns (k: nat)
    requires x > 0
    ensures TopOnes(x, k, 1) && Pow2(k) <= x < Pow2(k + 1)
  {
    if x == 1 {
      k := 0;
      forall i: nat | i > 0 ensures !Bit(x, i) { ShrZero(i - 1); }
    } else {
      var k' := LeadingBit(x / 2);
      k := k' + 1;
      forall i: nat | i > 0 ensures Bit(x, i) == Bit(x / 2, i - 1) {}
      forall i: nat | i > k ensures !Bit(x, i) { assert !Bit(x / 2, i - 1); }
      assert Bit(x / 2, k');
    }
  }

  lemma {:induction false} AllOnes(x: nat, k: nat)
    requires forall i: nat | i > k :: !Bit(x, i)
    requires forall i: nat | i <= k :: Bit(x, i)
    ensures x == Pow2(k + 1) - 1
  {
    forall i: nat ensures Bit(x / 2, i) == Bit(x, i + 1) {}
    assert Bit(x, 0);
    if k == 0 {
      NoBits(x / 2);
    } else {
      AllOnes(x / 2, k - 1);
    }
  }

  lemma {:induction false} NoBits(x: nat)
    requires forall i: nat :: !Bit(x, i)
    ensures x == 0
  {
    if x > 0 {
      assert !Bit(x, 0);
      forall i: nat ensures !Bit(x / 2, i) { assert !Bit(x, i + 1); }
      NoBits(x / 2);
    }
  }

  const SIZE_MAX_PLUS_1: nat := 0x1_0000_0000_0000_0000

  /** The five statements v |= v >> 1; ... v |= v >> 16; */
  function Smear(v0: nat): nat {
    var v1 := Or(v0, Shr(v0, 1));
    var v2 := Or(v1, Shr(v1, 2));
    var v3 := Or(v2, Shr(v2, 4));
    var v4 := Or(v3, Shr(v3, 8));
    Or(v4, Shr(v4, 16))
  }

  /** size_t next_pow2(size_t v) */
  function NextPow2(v: nat): nat
    requires v < SIZE_MAX_PLUS_1
  {
    (Smear((v - 1) % SIZE_MAX_PLUS_1) + 1) % SIZE_MAX_PLUS_1
  }

  lemma {:induction false} Pow2Monotone(a: nat, b: nat)
    requires a <= b
    ensures Pow2(a) <= Pow2(b)
    decreases b
  {
    if a < b { Pow2Monotone(a, b - 1); }
  }

  lemma PowerStep(k: nat)
    ensures Pow2(k + 1) == 2 * Pow2(k)
  {}

  /** On 1 .. 2^32 the result is the least power of two that is not below v. */
  lemma NextPow2IsLeast(v: nat) returns (k: nat)
    requires 1 <= v <= 0x1_0000_0000
    ensures k <= 32 && NextPow2(v) == Pow2(k) && v <= Pow2(k)
    ensures forall j: nat | v <= Pow2(j) :: Pow2(k) <= Pow2(j)
  {
    hide *;
    if v == 1 {
      k := 0;
      OneIsLeast();
    } else {
      var top := LeadingBit(v - 1);
      k := top + 1;
      NextAboveLeading(v, top);
    }
  }

  lemma OneIsLeast()
    ensures NextPow2(1) == Pow2(0) == 1 && forall j: nat :: Pow2(0) <= Pow2(j)
  {
    hide NextPow2;
    NextPow2OfOne();
  }

  lemma NextAboveLeading(v: nat, top: nat)
    requires 1 < v <= 0x1_0000_0000 && TopOnes(v - 1, top, 1) && Pow2(top) <= v - 1 < Pow2(top + 1)
    ensures top < 32 && NextPow2(v) == Pow2(top + 1) && v <= Pow2(top + 1)
    ensures forall j: nat | v <= Pow2(j) :: Pow2(top + 1) <= Pow2(j)
  {
    hide *;
    Pow2Of32();
    PowerStep(top);
    if top >= 32 { Pow2Monotone(32, top); }
    Pow2Monotone(top + 1, 32);
    SmearedIsAllOnes(v - 1, top);
    RoundedUp(v, top + 1);
    forall j: nat | v <= Pow2(j) ensures Pow2(top + 1) <= Pow2(j) {
      if j <= top { Pow2Monotone(j, top); } else { Pow2Monotone(top + 1, j); }
    }
  }

  lemma Pow2Of32()
    ensures Pow2(32) == 0x1_0000_0000
  {
    assert Pow2(4) == 16;
    Pow2Add(4, 4);
    Pow2Add(8, 8);
    Pow2Add(16, 16);
  }

  lemma NextPow2OfOne()
    ensures NextPow2(1) == 1
  {
    ShrZero(1); ShrZero(2); ShrZero(4); ShrZero(8); ShrZero(16);
    assert Or(0, 0) == 0;
  }

  lemma RoundedUp(v: nat, k: nat)
    requires 1 <= v <= 0x1_0000_0000 && Pow2(k) <= 0x1_0000_0000
    requires Smear(v - 1) == Pow2(k) - 1
    ensures NextPow2(v) == Pow2(k)
  {
    hide Smear, Pow2;
    SmallMod(v - 1);
    SmallMod(Pow2(k));
  }

  lemma SmallMod(x: nat)
    requires x < SIZE_MAX_PLUS_1
    ensures x % SIZE_MAX_PLUS_1 == x
  {}

  lemma SmearedIsAllOnes(v0: nat, top: nat)
    requires TopOnes(v0, top, 1) && top < 32
    ensures Smear(v0) == Pow2(top + 1) - 1
  {
    var v1 := Or(v0, Shr(v0, 1));
    SmearStep(v0, top, 1);
    var v2 := Or(v1, Shr(v1, 2));
    SmearStep(v1, top, 2);
    var v3 := Or(v2, Shr(v2, 4));
    SmearStep(v2, top, 4);
    var v4 := Or(v3, Shr(v3, 8));
    SmearStep(v3, top, 8);
    SmearStep(v4, top, 16);
    AllOnes(Or(v4, Shr(v4, 16)), top);
  }

  // ---- next_pow2 beyond 2^32 --------------------------------------------------

  /** One of the w bits from i on is set. */
  ghost predicate Near(x: nat, i: nat, w: nat) {
    exists j: nat | i <= j < i + w :: Bit(x, j)
  }

  /** Below its leading one, x has no 32 zeros in a row. */
  ghost predicate Dense(x: nat) {
    forall i: nat, j: nat | i <= j && Bit(x, j) :: Near(x, i, 32)
  }

  ghost predicate IsLeastPow2(v: nat, p: nat) {
    && (exists k :: p == Pow2(k)) && v <= p
    && forall j: nat | v <= Pow2(j) :: p <= Pow2(j)
  }

  lemma SmearWindow(x0: nat, x: nat, w: nat)
    requires forall i: nat :: Bit(x, i) <==> Near(x0, i, w)
    ensures forall i: nat :: Bit(Or(x, Shr(x, w)), i) <==> Near(x0, i, 2 * w)
  {
    forall i: nat ensures Bit(Or(x, Shr(x, w)), i) <==> Near(x0, i, 2 * w) {
      OrBit(x, Shr(x, w), i);
      ShrShr(x, w, i);
      NearSplits(x0, i, w);
    }
  }

  lemma NearSplits(x: nat, i: nat, w: nat)
    ensures Near(x, i, 2 * w) <==> Near(x, i, w) || Near(x, w + i, w)
  {
    if Near(x, i, 2 * w) {
      var j: nat :| i <= j < i + 2 * w && Bit(x, j);
      assert j < i + w || w + i <= j;
    }
  }

  /** The cascade spreads every one over the 31 bits below it. */
  lemma SmearBits(v0: nat)
    ensures forall i: nat :: Bit(Smear(v0), i) <==> Near(v0, i, 32)
  {
    forall i: nat ensures Bit(v0, i) <==> Near(v0, i, 1) {}
    hide Bit, Or, Shr, Near;
    var v1 := Or(v0, Shr(v0, 1));
    var v2 := Or(v1, Shr(v1, 2));
    var v3 := Or(v2, Shr(v2, 4));
    var v4 := Or(v3, Shr(v3, 8));
    SmearWindow(v0, v0, 1);
    SmearWindow(v0, v1, 2);
    SmearWindow(v0, v2, 4);
    SmearWindow(v0, v3, 8);
    SmearWindow(v0, v4, 16);
  }

  lemma {:induction false} AllOnesBits(k: nat, i: nat)
    ensures Bit(Pow2(k) - 1, i) <==> i < k
  {
    if k == 0 {
      ShrZero(i);
    } else {
      assert (Pow2(k) - 1) / 2 == Pow2(k - 1) - 1 && (Pow2(k) - 1) % 2 == 1;
      if i > 0 { AllOnesBits(k - 1, i - 1); }
    }
  }

  lemma {:induction false} BelowTop(x: nat, k: nat)
    requires forall i: nat | i >= k :: !Bit(x, i)
    ensures x < Pow2(k)
  {
    if k == 0 {
      NoBits(x);
    } else {
      forall i: nat | i >= k - 1 ensures !Bit(x / 2, i) { assert !Bit(x, i + 1); }
      BelowTop(x / 2, k - 1);
    }
  }

  /** With leading bit k, the cascade fills up to it exactly when x is dense. */
  lemma SmearFillsIff(x: nat, k: nat)
    requires TopOnes(x, k, 1)
    ensures Smear(x) < Pow2(k + 1)
    ensures Smear(x) == Pow2(k + 1) - 1 <==> Dense(x)
  {
    var y := Smear(x);
    SmearBits(x);
    hide Smear;
    assert Bit(x, k);
    forall i: nat | i >= k + 1 ensures !Bit(y, i) { assert !Near(x, i, 32); }
    BelowTop(y, k + 1);
    if Dense(x) {
      forall i: nat | i <= k ensures Bit(y, i) { assert Near(x, i, 32); }
      AllOnes(y, k);
    }
    if y == Pow2(k + 1) - 1 {
      forall i: nat, j: nat | i <= j && Bit(x, j) ensures Near(x, i, 32) {
        AllOnesBits(k + 1, i);
        assert Bit(y, i);
      }
    }
  }

  lemma LeastAbove(v: nat, k: nat)
    requires Pow2(k) < v <= Pow2(k + 1)
    ensures forall p: nat :: IsLeastPow2(v, p) <==> p == Pow2(k + 1)
  {
    forall j: nat | v <= Pow2(j) ensures Pow2(k + 1) <= Pow2(j) {
      if j < k + 1 { Pow2Monotone(j, k); } else { Pow2Monotone(k + 1, j); }
    }
  }

  /** For every size_t the result is the least power of two that is not below it if and only
      if it is positive, such a power fits, and v - 1 has no 32 zero bits in a row below its
      leading one: the cascade lacks a shift by 32. */
  lemma NextPow2IsLeastIff(v: nat)
    requires v < SIZE_MAX_PLUS_1
    ensures IsLeastPow2(v, NextPow2(v)) <==> 1 <= v <= 0x8000_0000_0000_0000 && Dense(v - 1)
  {
    if v == 0 {
      NextPow2OfZero();
      hide *;
      ZeroIsNoPower();
    } else if v == 1 {
      NextPow2OfOne();
      assert Pow2(0) == 1;
      forall j: nat ensures !Bit(0, j) { ShrZero(j); }
    } else {
      var top := LeadingBit(v - 1);
      SmearFillsIff(v - 1, top);
      LeastAbove(v, top);
      hide *;
      RoundedUpIff(v, top);
    }
  }

  /** 0 - 1 wraps to 64 ones, which stay, and wrap back. */
  lemma NextPow2OfZero()
    ensures NextPow2(0) == 0
  {
    hide Smear, Pow2;
    Pow2Of63And64();
    OnesStay(SIZE_MAX_PLUS_1 - 1, 63);
    SmallMod(SIZE_MAX_PLUS_1 - 1);
    assert (0 - 1) % SIZE_MAX_PLUS_1 == SIZE_MAX_PLUS_1 - 1;
  }

  lemma OnesStay(x: nat, k: nat)
    requires x == Pow2(k + 1) - 1
    ensures Smear(x) == x
  {
    hide Smear, Bit, Pow2;
    forall i: nat ensures Bit(x, i) <==> i < k + 1 { AllOnesBits(k + 1, i); }
    forall i: nat, j: nat | i <= j && Bit(x, j) ensures Near(x, i, 32) { assert Bit(x, i); }
    SmearFillsIff(x, k);
  }

  lemma ZeroIsNoPower()
    ensures !IsLeastPow2(0, 0)
  {}

  lemma RoundedUpIff(v: nat, top: nat)
    requires 1 <= v < SIZE_MAX_PLUS_1 && Pow2(top) < v <= Pow2(top + 1) && Smear(v - 1) < Pow2(top + 1)
    ensures NextPow2(v) == Pow2(top + 1) <==> v <= 0x8000_0000_0000_0000 && Smear(v - 1) == Pow2(top + 1) - 1
  {
    Pow2Of63And64();
    hide Smear, Pow2;
    assert (v - 1) % SIZE_MAX_PLUS_1 == v - 1;
    if top < 63 {
      Pow2Monotone(top + 1, 63);
    } else {
      Pow2Monotone(63, top);
      Pow2Monotone(64, top + 1);
    }
  }

  lemma Pow2Of63And64()
    ensures Pow2(63) == 0x8000_0000_0000_0000 && Pow2(64) == SIZE_MAX_PLUS_1
  {
    Pow2Of32();
    Pow2Add(32, 32);
    assert Pow2(64) == 2 * Pow2(63);
  }

  lemma {:induction false} BitsOfPow2(k: nat, i: nat)
    ensures Bit(Pow2(k), i) <==> i == k
  {
    if k == 0 {
      if i > 0 { ShrZero(i - 1); }
    } else {
      assert Pow2(k) / 2 == Pow2(k - 1) && Pow2(k) % 2 == 0;
      if i > 0 { BitsOfPow2(k - 1, i - 1); }
    }
  }

  /** 2^33 + 2 is answered with less than the 2^34 it needs. */
  lemma NextPow2MissesExample(v: nat)
    requires v == 0x2_0000_0002
    ensures !IsLeastPow2(v, NextPow2(v))
  {
    var half := Pow2(32);
    var x := 2 * half + 1;
    Pow2Of32();
    forall j: nat | j >= 1 ensures Bit(x, j) <==> j == 33 {
      assert x / 2 == half;
      BitsOfPow2(32, j - 1);
    }
    assert !Near(x, 1, 32);
    assert Bit(x, 33) && !Dense(x);
    assert v == x + 1;
    NextPow2IsLeastIff(v);
  }
}
