// Multiples of the CRC generator whose product with a short quotient has a hole: zeros on
// the places just behind the quotient's.

module CrcHoles {
  import opened Gf2

  /** Coefficient k, zero outside. */
  predicate Coefficient(q: Bits, k: int) { 0 <= k < |q| && q[k] }

  function Plus(a: bool, b: bool): bool { a != b }

  /** Coefficient i of q(x) * G(x): a sum over the fifteen terms of G. */
  function Convolved(q: Bits, i: int): bool {
    Plus(Coefficient(q, i), Plus(Coefficient(q, i - 6), Plus(Coefficient(q, i - 9), Plus(Coefficient(q, i - 10),
    Plus(Coefficient(q, i - 16), Plus(Coefficient(q, i - 20), Plus(Coefficient(q, i - 21),
    Plus(Coefficient(q, i - 22), Plus(Coefficient(q, i - 24), Plus(Coefficient(q, i - 25),
    Plus(Coefficient(q, i - 27), Plus(Coefficient(q, i - 28), Plus(Coefficient(q, i - 30),
    Plus(Coefficient(q, i - 31), Coefficient(q, i - 32)))))))))))))))
  }

  lemma {:induction false} MultipleIsConvolution(q: Bits, i: nat)
    requires i < |q| + 32
    ensures Multiple(q)[i] == Convolved(q, i)
    decreases |q|
  {
    hide *;
    if q == [] {
      NothingConvolved(i);
    } else {
      LeadAt(q[0], |q| - 1, i);
      ConvolvedCons(q, i);
      if i > 0 {
        MultipleIsConvolution(q[1..], i - 1);
        MultipleAt(q, i);
      } else {
        MultipleStarts(q);
        BeforeFirst(q[1..]);
      }
      PlusIs(q[0] && InG(i), Convolved(q[1..], i - 1));
    }
  }

  lemma NothingConvolved(i: nat)
    requires i < 32
    ensures !Convolved([], i) && !Multiple([])[i]
  {}

  lemma PlusIs(a: bool, b: bool)
    ensures Plus(a, b) == (a != b)
  {}

  lemma BeforeFirst(q: Bits)
    ensures !Convolved(q, -1)
  {}

  lemma MultipleStarts(q: Bits)
    requires q != []
    ensures Multiple(q)[0] == q[0] && InG(0)
  {}

  predicate InG(i: int) { i in {0, 6, 9, 10, 16, 20, 21, 22, 24, 25, 27, 28, 30, 31, 32} }

  lemma LeadAt(c: bool, n: nat, i: nat)
    requires i < n + 33
    ensures Lead(c, n)[i] == (c && InG(i))
  {
    if c && 0 < i < 33 { assert Generator()[i] == Generator()[1..][i - 1]; }
  }

  lemma CoefficientCons(q: Bits, k: int)
    requires q != []
    ensures Coefficient(q, k) == if k == 0 then q[0] else Coefficient(q[1..], k - 1)
  {}

  lemma ConvolvedCons(q: Bits, i: int)
    requires q != []
    ensures Convolved(q, i) == Plus(q[0] && InG(i), Convolved(q[1..], i - 1))
  {
    hide Coefficient;
    forall k: int ensures Coefficient(q, k) == if k == 0 then q[0] else Coefficient(q[1..], k - 1) {
      CoefficientCons(q, k);
    }
    forall k: int | k < 0 ensures !Coefficient(q[1..], k) { Negative(q[1..], k); }
  }

  lemma Negative(q: Bits, k: int)
    requires k < 0
    ensures !Coefficient(q, k)
  {}

  ghost predicate Hole(q: Bits)
    requires |q| <= 32
  {
    forall i | |q| <= i < 2 * |q| :: !Multiple(q)[i]
  }

  lemma HoleIs(q: Bits)
    requires |q| <= 32 && Hole(q)
    ensures forall i | |q| <= i < 2 * |q| :: !Convolved(q, i)
  {
    forall i | |q| <= i < 2 * |q| ensures !Convolved(q, i) { MultipleIsConvolution(q, i); }
  }

  lemma NoHoleOf8(q: Bits)
    requires |q| == 8 && Hole(q)
    ensures q == Zeros(8)
  {
    HoleIs(q);
    hide Hole, Multiple;
    assert !Convolved(q, 8) && !Convolved(q, 9) && !Convolved(q, 10) && !Convolved(q, 11);
    assert !Convolved(q, 12) && !Convolved(q, 13) && !Convolved(q, 14) && !Convolved(q, 15);
  }

  /** x^15 + x^10 + x^6 + x^5 + x^3 + 1 */
  predicate IsHoled(q: Bits) {
    && |q| == 16
    && q[0] && !q[1] && !q[2] && !q[3] && !q[4] && q[5] && !q[6] && !q[7]
    && !q[8] && q[9] && q[10] && !q[11] && q[12] && !q[13] && !q[14] && q[15]
  }

  lemma HoleOf16(q: Bits)
    requires |q| == 16 && Hole(q)
    ensures q == Zeros(16) || IsHoled(q)
  {
    HoleIs(q);
    hide Hole, Multiple;
    assert !Convolved(q, 16) && !Convolved(q, 17) && !Convolved(q, 18) && !Convolved(q, 19);
    assert !Convolved(q, 20) && !Convolved(q, 21) && !Convolved(q, 22) && !Convolved(q, 23);
    assert !Convolved(q, 24) && !Convolved(q, 25) && !Convolved(q, 26) && !Convolved(q, 27);
    assert !Convolved(q, 28) && !Convolved(q, 29) && !Convolved(q, 30) && !Convolved(q, 31);
  }

  /** The last eight coefficients of a quotient of 24 determine the eight before them ... */
  predicate MiddleFromLast(q: Bits)
    requires |q| == 24
  {
    && q[15] == Plus(q[16], Plus(q[17], Plus(q[19], Plus(q[20], Plus(q[22], q[23])))))
    && q[14] == Plus(q[17], Plus(q[18], Plus(q[20], Plus(q[21], q[23]))))
    && q[13] == Plus(q[16], Plus(q[17], Plus(q[19], Plus(q[20], Plus(q[22], q[23])))))
    && q[12] == Plus(q[17], Plus(q[18], Plus(q[20], Plus(q[21], q[23]))))
    && q[11] == Plus(q[16], Plus(q[17], Plus(q[19], Plus(q[20], q[22]))))
    && q[10] == Plus(q[17], Plus(q[18], Plus(q[20], Plus(q[21], Plus(q[22], q[23])))))
    && q[9] == Plus(q[16], Plus(q[17], Plus(q[19], Plus(q[20], Plus(q[21], Plus(q[22], q[23]))))))
    && q[8] == Plus(q[17], Plus(q[18], Plus(q[21], q[23])))
  }

  /** ... and the first eight. */
  predicate FirstFromLast(q: Bits)
    requires |q| == 24
  {
    && q[7] == Plus(q[16], Plus(q[17], Plus(q[20], q[22])))
    && q[6] == Plus(q[17], Plus(q[20], Plus(q[21], q[22])))
    && q[5] == Plus(q[16], Plus(q[19], Plus(q[20], Plus(q[21], q[23]))))
    && q[4] == Plus(q[16], Plus(q[17], q[18]))
    && q[3] == Plus(q[19], Plus(q[20], q[22]))
    && q[2] == Plus(q[18], Plus(q[19], Plus(q[21], q[23])))
    && q[1] == Plus(q[17], Plus(q[18], Plus(q[20], Plus(q[22], q[23]))))
    && q[0] == Plus(q[16], Plus(q[17], Plus(q[19], Plus(q[21], Plus(q[22], q[23])))))
  }

  lemma MiddleDetermined(q: Bits)
    requires |q| == 24 && Hole(q)
    ensures MiddleFromLast(q)
  {
    HoleIs(q);
    hide Hole, Multiple;
    assert !Convolved(q, 47) && !Convolved(q, 46);
    assert !Convolved(q, 45) && !Convolved(q, 44);
    assert !Convolved(q, 43) && !Convolved(q, 42);
    assert !Convolved(q, 41) && !Convolved(q, 40);
  }

  lemma FirstDetermined(q: Bits)
    requires |q| == 24 && Hole(q) && MiddleFromLast(q)
    ensures FirstFromLast(q)
  {
    HoleIs(q);
    hide Hole, Multiple;
    assert !Convolved(q, 39) && !Convolved(q, 38);
    assert !Convolved(q, 37) && !Convolved(q, 36);
    assert !Convolved(q, 35) && !Convolved(q, 34);
    assert !Convolved(q, 33) && !Convolved(q, 32);
  }

  lemma NoHoleOf24(q: Bits)
    requires |q| == 24 && Hole(q)
    ensures q == Zeros(24)
  {
    MiddleDetermined(q);
    FirstDetermined(q);
    HoleIs(q);
    hide Hole, Multiple;
    assert !Convolved(q, 31) && !Convolved(q, 30) && !Convolved(q, 29) && !Convolved(q, 28);
    assert !Convolved(q, 27) && !Convolved(q, 26) && !Convolved(q, 25) && !Convolved(q, 24);
  }

  function HoledMessage(): (m: Bits)
    ensures |m| == 16
  {
    [true, false, false, false, false, true, true, false]
    + [false, false, false, true, true, false, true, true]
  }

  function HoledCrc(): (c: Bits)
    ensures |c| == 16
  {
    [false, true, true, true, false, true, true, true]
    + [false, false, true, false, true, true, true, true]
  }

  lemma ProductIs(q: Bits)
    ensures forall i | 0 <= i < |q| + 32 :: Multiple(q)[i] == Convolved(q, i)
  {
    forall i | 0 <= i < |q| + 32 ensures Multiple(q)[i] == Convolved(q, i) { MultipleIsConvolution(q, i); }
  }

  lemma HoledProductFront(q: Bits)
    requires IsHoled(q)
    ensures Multiple(q)[0..16] == HoledMessage()
  {
    ProductIs(q);
    hide Multiple;
    assert Convolved(q, 0) && !Convolved(q, 1) && !Convolved(q, 2) && !Convolved(q, 3);
    assert !Convolved(q, 4) && Convolved(q, 5) && Convolved(q, 6) && !Convolved(q, 7);
    assert !Convolved(q, 8) && !Convolved(q, 9) && !Convolved(q, 10) && Convolved(q, 11);
    assert Convolved(q, 12) && !Convolved(q, 13) && Convolved(q, 14) && Convolved(q, 15);
  }

  lemma HoledProductHole(q: Bits)
    requires IsHoled(q)
    ensures Multiple(q)[16..32] == Zeros(16)
  {
    ProductIs(q);
    hide Multiple;
    assert !Convolved(q, 16) && !Convolved(q, 17) && !Convolved(q, 18) && !Convolved(q, 19);
    assert !Convolved(q, 20) && !Convolved(q, 21) && !Convolved(q, 22) && !Convolved(q, 23);
    assert !Convolved(q, 24) && !Convolved(q, 25) && !Convolved(q, 26) && !Convolved(q, 27);
    assert !Convolved(q, 28) && !Convolved(q, 29) && !Convolved(q, 30) && !Convolved(q, 31);
  }

  lemma HoledProductBack(q: Bits)
    requires IsHoled(q)
    ensures Multiple(q)[32..48] == HoledCrc()
  {
    ProductIs(q);
    hide Multiple;
    assert !Convolved(q, 32) && Convolved(q, 33) && Convolved(q, 34) && Convolved(q, 35);
    assert !Convolved(q, 36) && Convolved(q, 37) && Convolved(q, 38) && Convolved(q, 39);
    assert !Convolved(q, 40) && !Convolved(q, 41) && Convolved(q, 42) && !Convolved(q, 43);
    assert Convolved(q, 44) && Convolved(q, 45) && Convolved(q, 46) && Convolved(q, 47);
  }

  /** The one quotient whose product has a hole: two bytes' worth of message, the hole, and
      two bytes' worth of CRC. */
  lemma HoledProduct(q: Bits)
    requires IsHoled(q)
    ensures |q| == 16 && Multiple(q) == HoledMessage() + (Zeros(16) + HoledCrc())
  {
    hide Multiple, HoledMessage, HoledCrc, Zeros;
    HoledProductFront(q);
    HoledProductHole(q);
    HoledProductBack(q);
    ThreeParts(Multiple(q));
  }

  lemma ThreeParts(m: Bits)
    requires |m| == 48
    ensures m == m[..16] + (m[16..32] + m[32..48])
  {}
}
