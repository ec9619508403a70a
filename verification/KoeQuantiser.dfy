// The quantisers of KoeCodec: logarithmic gain codes, and residual vector
// quantisation in stages. Floats are reals.

module KoeQuantiser {
  import opened Common

  type Vector = seq<real>
  type Book = seq<Vector>

  const STAGES := 3
  const SUBS := 4
  const SDIM := 40
  const CBSIZE := 256

  const HUGE := 1_000_000_000_000_000_000_000_000_000_000.0

  predicate IsBook(b: Book) {
    |b| == CBSIZE && forall i | 0 <= i < CBSIZE :: |b[i]| == SDIM
  }

  predicate AreBooks(books: seq<Book>) {
    forall s | 0 <= s < |books| :: IsBook(books[s])
  }

  // ---- Vectors ---------------------------------------------------------------------------

  function Plus(a: Vector, b: Vector): (c: Vector)
    requires |a| == |b|
    ensures |c| == |a|
  {
    seq(|a|, i requires 0 <= i < |a| => a[i] + b[i])
  }

  function Minus(a: Vector, b: Vector): (c: Vector)
    requires |a| == |b|
    ensures |c| == |a|
  {
    seq(|a|, i requires 0 <= i < |a| => a[i] - b[i])
  }

  function Zero(): (c: Vector)
    ensures |c| == SDIM
  {
    seq(SDIM, _ => 0.0)
  }

  function Square(x: real): (y: real)
    ensures y >= 0.0
  {
    x * x
  }

  /** Squared distance in the first n coordinates. */
  function DistUpTo(a: Vector, b: Vector, n: nat): (d: real)
    requires n <= |a| == |b|
    ensures d >= 0.0
  {
    if n == 0 then 0.0 else DistUpTo(a, b, n - 1) + Square(a[n - 1] - b[n - 1])
  }

  function Dist(a: Vector, b: Vector): real
    requires |a| == |b|
  {
    DistUpTo(a, b, |a|)
  }

  // ---- One stage: the nearest entry ---------------------------------------------------------

  /** Best distance and entry among the first n, as the scan finds them. */
  function Scan(r: Vector, book: Book, n: nat): (b: (real, nat))
    requires IsBook(book) && |r| == SDIM && n <= CBSIZE
    ensures b.1 < CBSIZE
  {
    if n == 0 then (HUGE, 0)
    else
      var best, d := Scan(r, book, n - 1), Dist(r, book[n - 1]);
      if d < best.0 then (d, n - 1) else best
  }

  function Choose(r: Vector, book: Book): (i: nat)
    requires IsBook(book) && |r| == SDIM
    ensures i < CBSIZE
  {
    Scan(r, book, CBSIZE).1
  }

  ghost predicate IsNearest(r: Vector, book: Book, i: nat)
    requires IsBook(book) && |r| == SDIM && i < CBSIZE
  {
    forall j | 0 <= j < CBSIZE :: Dist(r, book[i]) <= Dist(r, book[j])
  }

  ghost predicate SomeBelowHuge(r: Vector, book: Book)
    requires IsBook(book) && |r| == SDIM
  {
    exists j | 0 <= j < CBSIZE :: Dist(r, book[j]) < 1_000_000_000_000_000_000_000_000_000_000.0
  }

  lemma {:induction false} ScanIsMinimum(r: Vector, book: Book, n: nat)
    requires IsBook(book) && |r| == SDIM && n <= CBSIZE
    ensures
      var b := Scan(r, book, n);
      && (forall j | 0 <= j < n :: b.0 <= Dist(r, book[j]))
      && (if exists j | 0 <= j < n :: Dist(r, book[j]) < HUGE then
            b.1 < n && b.0 == Dist(r, book[b.1]) < HUGE && forall j | 0 <= j < b.1 :: Dist(r, book[j]) > b.0
          else b == (HUGE, 0))
  {
    if n > 0 { ScanIsMinimum(r, book, n - 1); }
  }

  /** The chosen entry is a nearest one exactly when some entry is closer than 1e30 or
      entry 0 is nearest; in the first case it is the first of the nearest. */
  lemma ChosenIsNearestIff(r: Vector, book: Book)
    requires IsBook(book) && |r| == SDIM
    ensures IsNearest(r, book, Choose(r, book)) <==> SomeBelowHuge(r, book) || IsNearest(r, book, 0)
    ensures SomeBelowHuge(r, book) ==> forall j | 0 <= j < Choose(r, book) :: !IsNearest(r, book, j)
  {
    hide Dist, Scan;
    ScanIsMinimum(r, book, CBSIZE);
    assert Choose(r, book) == Scan(r, book, CBSIZE).1;
    if SomeBelowHuge(r, book) {
      var k := Choose(r, book);
      forall j | 0 <= j < k ensures !IsNearest(r, book, j) {
        assert Dist(r, book[j]) > Dist(r, book[k]);
      }
    }
  }

  method FindNearest(r: Vector, book: Book) returns (best: nat)
    requires IsBook(book) && |r| == SDIM
    ensures best == Choose(r, book)
  {
    hide DistUpTo;
    var bestD := HUGE;
    best := 0;
    for i := 0 to CBSIZE
      invariant (bestD, best) == Scan(r, book, i)
    {
      var d := Measure(r, book[i]);
      if d < bestD { bestD, best := d, i; }
    }
  }

  method Measure(r: Vector, e: Vector) returns (d: real)
    requires |r| == |e| == SDIM
    ensures d == Dist(r, e)
  {
    d := 0.0;
    for k := 0 to SDIM
      invariant d == DistUpTo(r, e, k)
    {
      var diff := r[k] - e[k];
      d := d + Square(diff);
    }
  }

  // ---- All stages --------------------------------------------------------------------------------

  /** The sum of the codewords that idx names, one per stage. */
  function Sum(books: seq<Book>, idx: seq<nat>): (v: Vector)
    requires AreBooks(books) && |idx| <= |books| && forall i | 0 <= i < |idx| :: idx[i] < CBSIZE
    ensures |v| == SDIM
  {
    if idx == [] then Zero()
    else
      var n := |idx| - 1;
      Plus(Sum(books, idx[..n]), books[n][idx[n]])
  }

  /** The choices of the first s stages. */
  function Choices(norm: Vector, books: seq<Book>, s: nat): (idx: seq<nat>)
    requires |norm| == SDIM && AreBooks(books) && s <= |books|
    ensures |idx| == s && forall i | 0 <= i < s :: idx[i] < CBSIZE
  {
    if s == 0 then []
    else
      var before := Choices(norm, books, s - 1);
      before + [Choose(Minus(norm, Sum(books, before)), books[s - 1])]
  }

  /** What is left of norm after s stages. */
  function Residual(norm: Vector, books: seq<Book>, s: nat): (r: Vector)
    requires |norm| == SDIM && AreBooks(books) && s <= |books|
    ensures |r| == SDIM
  {
    Minus(norm, Sum(books, Choices(norm, books, s)))
  }

  /** The residual drops by the chosen codeword at each stage ... */
  lemma ResidualStep(norm: Vector, books: seq<Book>, s: nat)
    requires |norm| == SDIM && AreBooks(books) && s < |books|
    ensures
      var r := Residual(norm, books, s);
      Residual(norm, books, s + 1) == Minus(r, books[s][Choose(r, books[s])])
  {
    var before := Choices(norm, books, s);
    var k := Choose(Residual(norm, books, s), books[s]);
    hide Choose, Choices, IsBook;
    assert (before + [k])[..s] == before;
    SumStep(books, before, k);
    var a, b := Sum(books, before), books[s][k];
    assert Minus(norm, Plus(a, b)) == Minus(Minus(norm, a), b);
    ChoicesStep(norm, books, s);
  }

  lemma SumStep(books: seq<Book>, before: seq<nat>, k: nat)
    requires AreBooks(books) && |before| < |books| && k < CBSIZE && forall i | 0 <= i < |before| :: before[i] < CBSIZE
    ensures Sum(books, before + [k]) == Plus(Sum(books, before), books[|before|][k])
  {
    assert (before + [k])[..|before|] == before;
  }

  lemma ChoicesStep(norm: Vector, books: seq<Book>, s: nat)
    requires |norm| == SDIM && AreBooks(books) && s < |books|
    ensures Choices(norm, books, s + 1) == Choices(norm, books, s) + [Choose(Residual(norm, books, s), books[s])]
  {}

  /** ... and is then the shortest that this stage's codebook allows, if and only if some
      codeword is closer than 1e30 or codeword 0 is a nearest one. */
  lemma StageIsGreedyIff(norm: Vector, books: seq<Book>, s: nat)
    requires |norm| == SDIM && AreBooks(books) && s < |books|
    ensures
      var r, book := Residual(norm, books, s), books[s];
      (forall j | 0 <= j < CBSIZE ::
         Dist(Residual(norm, books, s + 1), Zero()) <= Dist(Minus(r, book[j]), Zero()))
      <==> SomeBelowHuge(r, book) || IsNearest(r, book, 0)
  {
    hide Residual, Dist, Choose, SomeBelowHuge;
    var r, book := Residual(norm, books, s), books[s];
    var k := Choose(r, book);
    ResidualStep(norm, books, s);
    ChosenIsNearestIff(r, book);
    LengthIsDistance(r, book[k]);
    forall j | 0 <= j < CBSIZE ensures Dist(Minus(r, book[j]), Zero()) == Dist(r, book[j]) {
      LengthIsDistance(r, book[j]);
    }
  }

  /** With a zero codeword in the codebook such a stage never makes the residual longer. */
  lemma StageNeverHurts(norm: Vector, books: seq<Book>, s: nat, j: nat)
    requires |norm| == SDIM && AreBooks(books) && s < |books| && j < CBSIZE && books[s][j] == Zero()
    requires SomeBelowHuge(Residual(norm, books, s), books[s]) || IsNearest(Residual(norm, books, s), books[s], 0)
    ensures Dist(Residual(norm, books, s + 1), Zero()) <= Dist(Residual(norm, books, s), Zero())
  {
    hide Residual, Dist, SomeBelowHuge, IsNearest;
    var r := Residual(norm, books, s);
    StageIsGreedyIff(norm, books, s);
    LengthIsDistance(r, Zero());
    assert Dist(Minus(r, books[s][j]), Zero()) == Dist(r, Zero());
  }

  lemma LengthIsDistance(a: Vector, b: Vector)
    requires |a| == |b| == SDIM
    ensures Dist(Minus(a, b), Zero()) == Dist(a, b)
  {
    LengthUpTo(a, b, SDIM);
  }

  lemma {:induction false} LengthUpTo(a: Vector, b: Vector, n: nat)
    requires |a| == |b| == SDIM && n <= SDIM
    ensures DistUpTo(Minus(a, b), Zero(), n) == DistUpTo(a, b, n)
  {
    if n > 0 { LengthUpTo(a, b, n - 1); }
  }

  // ---- Gains ----------------------------------------------------------------------------------------

  /** The six-bit code of a gain whose base-two logarithm is lg. */
  function GainCode(lg: real): (code: nat)
    ensures code < 64
  {
    var code := Truncate((lg + 20.0) / 30.0 * 63.0 + 0.5);
    if code < 0 then 0 else if code >= 64 then 63 else code
  }

  function GainLog(code: nat): real { code as real / 63.0 * 30.0 - 20.0 }

  /** Within its range a gain is coded to within half a step; outside it is clamped. */
  lemma GainWithinHalfStep(lg: real)
    ensures -20.0 <= lg <= 10.0 ==> -15.0 / 63.0 <= GainLog(GainCode(lg)) - lg <= 15.0 / 63.0
    ensures lg < -20.0 ==> GainLog(GainCode(lg)) == -20.0
    ensures lg > 10.0 ==> GainLog(GainCode(lg)) == 10.0
  {
    var v := (lg + 20.0) / 30.0 * 63.0 + 0.5;
    assert v == lg * 2.1 + 42.5;
    TruncateBounds(v);
  }

  lemma TruncateBounds(v: real)
    ensures v >= 0.0 ==> Truncate(v) as real <= v < Truncate(v) as real + 1.0
    ensures v < 0.0 ==> v <= Truncate(v) as real <= 0.0
  {}

  /** Every code is the code of the gain it stands for. */
  lemma GainCodesAreFixed(code: nat)
    requires code < 64
    ensures GainCode(GainLog(code)) == code
  {
    var v := (GainLog(code) + 20.0) / 30.0 * 63.0 + 0.5;
    assert v == code as real + 0.5;
    assert v.Floor == code;
  }

  // ---- Distances -------------------------------------------------------------------------------------

  /** The parallelogram law, coordinate by coordinate: distances are Euclidean. */
  lemma {:induction false} ParallelogramLaw(a: Vector, b: Vector, n: nat)
    requires |a| == |b| == SDIM && n <= SDIM
    ensures
      DistUpTo(Plus(a, b), Zero(), n) + DistUpTo(a, b, n)
      == 2.0 * (DistUpTo(a, Zero(), n) + DistUpTo(b, Zero(), n))
  {
    if n > 0 {
      hide *;
      ParallelogramLaw(a, b, n - 1);
      LawStep(a, b, n);
    }
  }

  lemma LawStep(a: Vector, b: Vector, n: nat)
    requires |a| == |b| == SDIM && 0 < n <= SDIM
    ensures
      (DistUpTo(Plus(a, b), Zero(), n) - DistUpTo(Plus(a, b), Zero(), n - 1))
      + (DistUpTo(a, b, n) - DistUpTo(a, b, n - 1))
      == 2.0 * ((DistUpTo(a, Zero(), n) - DistUpTo(a, Zero(), n - 1))
                + (DistUpTo(b, Zero(), n) - DistUpTo(b, Zero(), n - 1)))
  {
    hide DistUpTo, Square;
    DistStep(Plus(a, b), Zero(), n);
    DistStep(a, b, n);
    DistStep(a, Zero(), n);
    DistStep(b, Zero(), n);
    SquareLaw(a[n - 1], b[n - 1]);
  }

  lemma DistStep(r: Vector, e: Vector, n: nat)
    requires |r| == |e| == SDIM && 0 < n <= SDIM
    ensures DistUpTo(r, e, n) == DistUpTo(r, e, n - 1) + Square(r[n - 1] - e[n - 1])
  {
    hide Square;
  }

  lemma SquareLaw(x: real, y: real)
    ensures Square(x + y - 0.0) + Square(x - y) == 2.0 * (Square(x - 0.0) + Square(y - 0.0))
  {}

  /** A vector of n ones, or of any signs, has length n squared. */
  lemma {:induction false} UnitsAddUp(a: Vector, n: nat)
    requires |a| == SDIM && n <= SDIM && forall i | 0 <= i < SDIM :: a[i] == 1.0 || a[i] == -1.0
    ensures DistUpTo(a, Zero(), n) == n as real
  {
    if n > 0 { UnitsAddUp(a, n - 1); }
  }
}
