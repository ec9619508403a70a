// Bit strings as polynomials over GF(2), highest power first, and division by
// the CRC-32 generator of IEEE 802.3 section 3.2.9.

module Gf2 {

  type Bits = seq<bool>

  function Xor(a: Bits, b: Bits): (c: Bits)
    requires |a| == |b|
    ensures |c| == |a|
  {
    seq(|a|, i requires 0 <= i < |a| => a[i] != b[i])
  }

  function Zeros(n: nat): (z: Bits)
    ensures |z| == n && forall i | 0 <= i < n :: !z[i]
  {
    seq(n, _ => false)
  }

  function Ones(n: nat): (z: Bits)
    ensures |z| == n && forall i | 0 <= i < n :: z[i]
  {
    seq(n, _ => true)
  }

  /** The powers of x with coefficient one in the generator, below x^32. */
  predicate InGenerator(power: nat) {
    power in {26, 23, 22, 16, 12, 11, 10, 8, 7, 5, 4, 2, 1, 0}
  }

  /** G(x) without its leading x^32. */
  function Tail(): (g: Bits)
    ensures |g| == 32 && forall i | 0 <= i < 32 :: g[i] == InGenerator(31 - i)
  {
    seq(32, i requires 0 <= i < 32 => InGenerator(31 - i))
  }

  function Generator(): (g: Bits)
    ensures |g| == 33 && g[0] && g[32] && g[1..] == Tail()
  {
    [true] + Tail()
  }

  /** c * G(x), followed by n zeros. */
  function Lead(c: bool, n: nat): (l: Bits)
    ensures |l| == n + 33
  {
    (if c then Generator() else Zeros(33)) + Zeros(n)
  }

  /** q(x) * G(x) by shift and add. */
  function Multiple(q: Bits): (p: Bits)
    ensures |p| == |q| + 32
  {
    if q == [] then Zeros(32)
    else Xor(Lead(q[0], |q| - 1), [false] + Multiple(q[1..]))
  }

  // ---- The bit-serial division register ------------------------------------

  function BitStep(r: Bits, b: bool): (r': Bits)
    requires |r| == 32
    ensures |r'| == 32
  {
    Xor(r[1..] + [false], if r[0] != b then Tail() else Zeros(32))
  }

  function BitRun(r: Bits, m: Bits): (r': Bits)
    requires |r| == 32
    ensures |r'| == 32
    decreases |m|
  {
    if m == [] then r else BitRun(BitStep(r, m[0]), m[1..])
  }

  function Quotient(r: Bits, m: Bits): (q: Bits)
    requires |r| == 32
    ensures |q| == |m|
    decreases |m|
  {
    if m == [] then [] else [r[0] != m[0]] + Quotient(BitStep(r, m[0]), m[1..])
  }

  lemma {:induction false} BitRunConcat(r: Bits, a: Bits, b: Bits)
    requires |r| == 32
    ensures BitRun(r, a + b) == BitRun(BitRun(r, a), b)
    decreases |a|
  {
    if a == [] {
      assert a + b == b;
    } else {
      assert (a + b)[1..] == a[1..] + b;
      BitRunConcat(BitStep(r, a[0]), a[1..], b);
    }
  }

  /** The message m followed by 32 zeros, with r added to its first 32 bits. */
  function Dividend(r: Bits, m: Bits): (d: Bits)
    requires |r| == 32
    ensures |d| == |m| + 32
  {
    Xor(m + Zeros(32), r + Zeros(|m|))
  }

  lemma DividendStep(r: Bits, m: Bits)
    requires |r| == 32 && m != []
    ensures
      var r1, c, n := BitStep(r, m[0]), r[0] != m[0], |m|;
      Dividend(r, m) == Xor(Lead(c, n - 1), [false] + Dividend(r1, m[1..]))
  {
    var r1, c, n := BitStep(r, m[0]), r[0] != m[0], |m|;
    var lhs := Dividend(r, m);
    var g := Lead(c, n - 1);
    var rest := [false] + Dividend(r1, m[1..]);
    forall i | 0 <= i < n + 32 ensures lhs[i] == (g[i] != rest[i]) {
      if i == 0 {
      } else if i <= 31 {
        assert r1[i - 1] == (r[i] != (if c then Tail() else Zeros(32))[i - 1]);
        if c { assert Generator()[i] == Generator()[1..][i - 1]; }
      } else if i == 32 {
        assert r1[31] == (if c then Tail() else Zeros(32))[31];
        if c { assert Generator()[32] == Generator()[1..][31]; }
      }
    }
  }

  /** Division with remainder: Dividend == Quotient * G + register. */
  lemma {:induction false} Division(r: Bits, m: Bits)
    requires |r| == 32
    ensures Dividend(r, m) == Xor(Multiple(Quotient(r, m)), Zeros(|m|) + BitRun(r, m))
    decreases |m|
  {
    if m == [] {
      assert Dividend(r, m) == r;
    } else {
      var r1, c := BitStep(r, m[0]), r[0] != m[0];
      Division(r1, m[1..]);
      DividendStep(r, m);
      var q1 := Quotient(r1, m[1..]);
      assert Quotient(r, m) == [c] + q1;
      DivisionJoin(c, q1, BitRun(r1, m[1..]), Dividend(r1, m[1..]));
    }
  }

  lemma XorAssociative(a: Bits, b: Bits, c: Bits)
    requires |a| == |b| == |c|
    ensures Xor(a, Xor(b, c)) == Xor(Xor(a, b), c)
  {}

  lemma XorPrefix(a: Bits, b: Bits)
    requires |a| == |b|
    ensures [false] + Xor(a, b) == Xor([false] + a, [false] + b)
  {}

  lemma ZerosShift(n: nat, r: Bits)
    ensures Zeros(n + 1) + r == [false] + (Zeros(n) + r)
  {
    assert Zeros(n + 1) == [false] + Zeros(n);
  }

  lemma MultipleCons(c: bool, q: Bits)
    ensures Multiple([c] + q) == Xor(Lead(c, |q|), [false] + Multiple(q))
  {
    hide Xor, Lead;
    assert ([c] + q)[1..] == q;
  }

  lemma DivisionJoin(c: bool, q: Bits, r: Bits, d: Bits)
    requires |r| == 32 && |d| == |q| + 32
    requires d == Xor(Multiple(q), Zeros(|q|) + r)
    ensures Xor(Lead(c, |q|), [false] + d) == Xor(Multiple([c] + q), Zeros(|q| + 1) + r)
  {
    hide Multiple, Lead, Xor;
    MultipleCons(c, q);
    var z := Zeros(|q|) + r;
    ZerosShift(|q|, r);
    XorPrefix(Multiple(q), z);
    XorAssociative(Lead(c, |q|), [false] + Multiple(q), [false] + z);
  }

  /** A quotient and a remainder below x^32 are determined by their sum. */
  lemma {:induction false} DivisionUnique(q: Bits, r: Bits, q': Bits, r': Bits)
    requires |q| == |q'| && |r| == |r'| == 32
    requires Xor(Multiple(q), Zeros(|q|) + r) == Xor(Multiple(q'), Zeros(|q|) + r')
    ensures q == q' && r == r'
    decreases |q|
  {
    var x, x' := Xor(Multiple(q), Zeros(|q|) + r), Xor(Multiple(q'), Zeros(|q|) + r');
    if q == [] {
      forall i | 0 <= i < 32 ensures r[i] == r'[i] { assert x[i] == x'[i]; }
    } else {
      assert x[0] == q[0] && x'[0] == q'[0];
      assert q == [q[0]] + q[1..] && q' == [q'[0]] + q'[1..];
      hide Xor, Multiple, Lead;
      DivisionTail(q[0], q[1..], r);
      DivisionTail(q'[0], q'[1..], r');
      var y, y' := Xor(Multiple(q[1..]), Zeros(|q| - 1) + r), Xor(Multiple(q'[1..]), Zeros(|q| - 1) + r');
      assert [false] + y == [false] + y';
      assert y == ([false] + y)[1..] && y' == ([false] + y')[1..];
      DivisionUnique(q[1..], r, q'[1..], r');
    }
  }

  lemma DivisionTail(c: bool, q: Bits, r: Bits)
    requires |r| == 32
    ensures Xor(Xor(Multiple([c] + q), Zeros(|q| + 1) + r), Lead(c, |q|)) == [false] + Xor(Multiple(q), Zeros(|q|) + r)
  {
    hide Multiple, Lead, Xor;
    var z, l := Zeros(|q|) + r, Lead(c, |q|);
    var m1, z1 := [false] + Multiple(q), [false] + z;
    calc {
      Xor(Xor(Multiple([c] + q), Zeros(|q| + 1) + r), l);
      { MultipleCons(c, q); ZerosShift(|q|, r); }
      Xor(Xor(Xor(l, m1), z1), l);
      { XorCancelFirst(l, m1, z1); }
      Xor(m1, z1);
      { XorPrefix(Multiple(q), z); }
      [false] + Xor(Multiple(q), z);
    }
  }

  lemma XorCancelFirst(l: Bits, m: Bits, z: Bits)
    requires |l| == |m| == |z|
    ensures Xor(Xor(Xor(l, m), z), l) == Xor(m, z)
  {}

  lemma {:induction false} MultipleLinear(q: Bits, q': Bits)
    requires |q| == |q'|
    ensures Multiple(Xor(q, q')) == Xor(Multiple(q), Multiple(q'))
    decreases |q|
  {
    if q == [] {
      assert Xor(q, q') == [];
      assert Xor(Zeros(32), Zeros(32)) == Zeros(32);
    } else {
      var x := Xor(q, q');
      assert x[1..] == Xor(q[1..], q'[1..]);
      MultipleLinear(q[1..], q'[1..]);
      LeadLinear(q[0], q'[0], |q| - 1);
      XorPrefix(Multiple(q[1..]), Multiple(q'[1..]));
      XorExchange(Lead(q[0], |q| - 1), [false] + Multiple(q[1..]), Lead(q'[0], |q| - 1), [false] + Multiple(q'[1..]));
    }
  }

  lemma LeadLinear(c: bool, c': bool, n: nat)
    ensures Lead(c != c', n) == Xor(Lead(c, n), Lead(c', n))
  {}

  lemma XorExchange(a: Bits, b: Bits, c: Bits, d: Bits)
    requires |a| == |b| == |c| == |d|
    ensures Xor(Xor(a, b), Xor(c, d)) == Xor(Xor(a, c), Xor(b, d))
  {}

  ghost predicate IsZero(q: Bits) {
    forall i | 0 <= i < |q| :: !q[i]
  }

  /** A nonzero multiple of G has ones at least 32 places apart: its ends carry
      the ends of the quotient, because x^32 and 1 are both terms of G. */
  lemma {:induction false} MultipleFirst(q: Bits) returns (first: nat)
    requires !IsZero(q)
    ensures first < |q| && q[first] && Multiple(q)[first]
    ensures IsZero(q[..first])
    decreases |q|
  {
    if q[0] {
      first := 0;
    } else {
      assert exists i :: 0 <= i < |q| && q[i] && i > 0 && q[1..][i - 1];
      var f := MultipleFirst(q[1..]);
      first := f + 1;
      forall i | 0 <= i < first ensures !q[..first][i] {
        if i > 0 { assert q[..first][i] == q[1..][..f][i - 1]; }
      }
    }
  }

  lemma LeadEnds(c: bool, n: nat)
    ensures Lead(c, n)[32] == c && forall i | 33 <= i < n + 33 :: !Lead(c, n)[i]
  {}

  lemma MultipleAt(q: Bits, i: nat)
    requires q != [] && 0 < i < |q| + 32
    ensures Multiple(q)[i] == (Lead(q[0], |q| - 1)[i] != Multiple(q[1..])[i - 1])
  {
    hide Lead, Xor;
    XorShifted(Lead(q[0], |q| - 1), Multiple(q[1..]), i);
  }

  lemma XorShifted(l: Bits, m: Bits, i: nat)
    requires 0 < i < |l| == |m| + 1
    ensures Xor(l, [false] + m)[i] == (l[i] != m[i - 1])
  {}

  lemma TailZero(q: Bits)
    requires !IsZero(q) && IsZero(q[1..])
    ensures q[0] && forall i | 0 < i < |q| :: !q[i]
  {
    forall i | 0 < i < |q| ensures !q[i] { assert !q[1..][i - 1]; }
  }

  lemma LastShifts(q: Bits, l: nat)
    requires q != [] && forall i | l < i < |q| - 1 :: !q[1..][i]
    ensures forall i | l + 1 < i < |q| :: !q[i]
  {
    forall i | l + 1 < i < |q| ensures !q[i] { assert !q[1..][i - 1]; }
  }

  lemma {:induction false} MultipleLast(q: Bits) returns (last: nat)
    requires !IsZero(q)
    ensures last < |q| && q[last] && Multiple(q)[last + 32]
    ensures forall i | last < i < |q| :: !q[i]
    decreases |q|
  {
    hide Multiple, Lead, IsZero;
    NotEmpty(q);
    LeadEnds(q[0], |q| - 1);
    if IsZero(q[1..]) {
      TailZero(q);
      last := 0;
      MultipleOfZero(q[1..]);
      MultipleAt(q, 32);
    } else {
      var l := MultipleLast(q[1..]);
      last := l + 1;
      LastShifts(q, l);
      MultipleAt(q, last + 32);
    }
  }

  lemma NotEmpty(q: Bits)
    requires !IsZero(q)
    ensures q != []
  {}

  lemma MultipleSpread(q: Bits) returns (i: nat, j: nat)
    requires !IsZero(q)
    ensures i + 32 <= j < |q| + 32 && Multiple(q)[i] && Multiple(q)[j]
  {
    i := MultipleFirst(q);
    var last := MultipleLast(q);
    j := last + 32;
  }

  lemma {:induction false} MultipleOfZero(q: Bits)
    requires IsZero(q)
    ensures Multiple(q) == Zeros(|q| + 32)
    decreases |q|
  {
    if q != [] {
      assert !q[0];
      assert IsZero(q[1..]);
      MultipleOfZero(q[1..]);
    }
  }
}
