// wsola_plc: a lost packet is replaced by repeating the last pitch period of the
// packet before it. Floats and doubles are exact; the square root and the cosine
// fade are parameters.

module Wsola {
  import Naturals = Bits
  import opened Blend
  import opened Common
  import opened Interleaved

  const MIN_PERIOD: nat := 48

  // ---- The pitch search ------------------------------------------------------------

  function MaxPeriod(frames: nat): nat { Min(960, frames / 2) }

  function AnalysisLen(frames: nat): nat { Min(frames, MaxPeriod(frames) * 2) }

  function Count(frames: nat, lag: nat): nat
    requires lag <= AnalysisLen(frames)
  {
    Min(AnalysisLen(frames) - lag, 512)
  }

  /** Sum of a[i] * b[i], i < n, for the stretches of x that start at a and b. */
  function Dot(x: seq<int>, a: nat, b: nat, n: nat): int
    requires a + n <= |x| && b + n <= |x|
  {
    if n == 0 then 0 else Dot(x, a, b, n - 1) + x[a + n - 1] * x[b + n - 1]
  }

  predicate Searchable(frames: nat) { AnalysisLen(frames) > MIN_PERIOD && MaxPeriod(frames) > MIN_PERIOD }

  /** Similarity of the end of x to itself, shifted by lag. */
  function Corr(x: seq<int>, lag: nat, sqrt: real -> real): real
    requires MIN_PERIOD <= lag <= MaxPeriod(|x|)
  {
    var offset, n := |x| - AnalysisLen(|x|), Count(|x|, lag);
    var denom := sqrt((Dot(x, offset, offset, n) * Dot(x, offset + lag, offset + lag, n)) as real);
    if denom > 1.0 then Dot(x, offset, offset + lag, n) as real / denom else 0.0
  }

  ghost predicate IsSqrt(sqrt: real -> real) {
    forall r | r >= 0.0 :: sqrt(r) >= 0.0 && sqrt(r) * sqrt(r) == r
  }

  /** p is the first lag of highest similarity; short packets use the shortest one. */
  ghost predicate IsPeriod(x: seq<int>, p: nat, sqrt: real -> real) {
    if Searchable(|x|) then
      && MIN_PERIOD <= p <= MaxPeriod(|x|)
      && (forall l | MIN_PERIOD <= l <= MaxPeriod(|x|) :: Corr(x, l, sqrt) <= Corr(x, p, sqrt))
      && (forall l | MIN_PERIOD <= l < p :: Corr(x, l, sqrt) < Corr(x, p, sqrt))
    else p == MIN_PERIOD
  }

  lemma PeriodIsUnique(x: seq<int>, p: nat, q: nat, sqrt: real -> real)
    requires IsPeriod(x, p, sqrt) && IsPeriod(x, q, sqrt)
    ensures p == q
  {
    if Searchable(|x|) {
      var similarities := (Corr(x, p, sqrt), Corr(x, q, sqrt));
    }
  }

  // ---- Why the search may start from -1 ----------------------------------------------

  /** Sum of (p * a[i] - q * b[i]) squared. */
  function Quad(x: seq<int>, a: nat, b: nat, n: nat, p: int, q: int): int
    requires a + n <= |x| && b + n <= |x|
  {
    if n == 0 then 0
    else
      var d := p * x[a + n - 1] - q * x[b + n - 1];
      Quad(x, a, b, n - 1, p, q) + d * d
  }

  lemma {:induction false} QuadExpands(x: seq<int>, a: nat, b: nat, n: nat, p: int, q: int)
    requires a + n <= |x| && b + n <= |x|
    ensures 0 <= Quad(x, a, b, n, p, q)
    ensures Quad(x, a, b, n, p, q) == p * p * Dot(x, a, a, n) - 2 * p * q * Dot(x, a, b, n) + q * q * Dot(x, b, b, n)
  {
    if n > 0 {
      QuadExpands(x, a, b, n - 1, p, q);
      SquareExpands(p, x[a + n - 1], q, x[b + n - 1],
                    Dot(x, a, a, n - 1), Dot(x, a, b, n - 1), Dot(x, b, b, n - 1));
    }
  }

  lemma SquareExpands(p: int, u: int, q: int, v: int, aa: int, ab: int, bb: int)
    ensures (p * u - q * v) * (p * u - q * v) >= 0
    ensures p * p * (aa + u * u) - 2 * p * q * (ab + u * v) + q * q * (bb + v * v)
         == p * p * aa - 2 * p * q * ab + q * q * bb + (p * u - q * v) * (p * u - q * v)
  {
    Regroup(p, u, p, u);
    Regroup(p, u, q, v);
    Regroup(q, v, q, v);
    Binomial(p * u, q * v);
    Distribute(p * p, aa, u * u);
    Distribute(2 * p * q, ab, u * v);
    Distribute(q * q, bb, v * v);
    assert 2 * p * q * (u * v) == 2 * (p * q * (u * v)) by { Associate(p, q, u * v); }
  }

  lemma Regroup(a: int, b: int, c: int, d: int)
    ensures (a * b) * (c * d) == a * c * (b * d)
  {
    assert (a * b) * (c * d) == a * (b * (c * d));
    assert b * (c * d) == c * (b * d);
  }

  lemma Binomial(x: int, y: int)
    ensures (x - y) * (x - y) == x * x - 2 * (x * y) + y * y
    ensures (x - y) * (x - y) >= 0
  {
    assert (x - y) * (x - y) == (x - y) * x - (x - y) * y;
  }

  lemma Distribute(a: int, b: int, c: int)
    ensures a * (b + c) == a * b + a * c
  {}

  lemma Associate(a: int, b: int, c: int)
    ensures 2 * a * b * c == 2 * (a * b * c)
  {
    assert 2 * a * b == 2 * (a * b);
    assert 2 * (a * b) * c == 2 * ((a * b) * c);
  }

  lemma {:induction false} EnergyNonNegative(x: seq<int>, a: nat, n: nat)
    requires a + n <= |x|
    ensures 0 <= Dot(x, a, a, n)
  {
    if n > 0 { EnergyNonNegative(x, a, n - 1); }
  }

  /** The Cauchy-Schwarz inequality for two stretches of x. */
  lemma CauchySchwarz(x: seq<int>, a: nat, b: nat, n: nat)
    requires a + n <= |x| && b + n <= |x|
    ensures Dot(x, a, b, n) * Dot(x, a, b, n) <= Dot(x, a, a, n) * Dot(x, b, b, n)
  {
    var aa, ab, bb := Dot(x, a, a, n), Dot(x, a, b, n), Dot(x, b, b, n);
    EnergyNonNegative(x, b, n);
    hide Dot;
    if bb == 0 {
      NoEnergyNoProduct(x, a, b, n);
    } else {
      QuadExpands(x, a, b, n, bb, ab);
      DivideOut(aa, ab, bb);
    }
  }

  /** A stretch without energy is silent. */
  lemma {:induction false} NoEnergyNoProduct(x: seq<int>, a: nat, b: nat, n: nat)
    requires a + n <= |x| && b + n <= |x| && Dot(x, b, b, n) == 0
    ensures Dot(x, a, b, n) == 0
  {
    if n > 0 {
      EnergyNonNegative(x, b, n - 1);
      SquareIsZero(x[b + n - 1], Dot(x, b, b, n - 1));
      NoEnergyNoProduct(x, a, b, n - 1);
    }
  }

  lemma SquareIsZero(u: int, rest: int)
    requires rest >= 0 && rest + u * u == 0
    ensures u == 0 && rest == 0
  {
    assert u * u >= 0;
  }

  lemma DivideOut(aa: int, ab: int, bb: int)
    requires bb > 0 && bb * bb * aa - 2 * bb * ab * ab + ab * ab * bb >= 0
    ensures ab * ab <= aa * bb
  {
    assert bb * (aa * bb - ab * ab) == bb * bb * aa - 2 * bb * ab * ab + ab * ab * bb;
    if aa * bb - ab * ab < 0 { Negative(bb, aa * bb - ab * ab); }
  }

  lemma Negative(p: int, d: int)
    requires p > 0 && d < 0
    ensures p * d < 0
  {}

  /** No similarity lies outside [-1, 1]. */
  lemma CorrInUnit(x: seq<int>, lag: nat, sqrt: real -> real)
    requires IsSqrt(sqrt) && MIN_PERIOD <= lag <= MaxPeriod(|x|)
    ensures -1.0 <= Corr(x, lag, sqrt) <= 1.0
  {
    var offset, n := |x| - AnalysisLen(|x|), Count(|x|, lag);
    var aa, ab, bb := Dot(x, offset, offset, n), Dot(x, offset, offset + lag, n), Dot(x, offset + lag, offset + lag, n);
    EnergyNonNegative(x, offset, n);
    EnergyNonNegative(x, offset + lag, n);
    ProductNonNegative(aa, bb);
    var denom := sqrt((aa * bb) as real);
    assert denom * denom == (aa * bb) as real;
    if denom > 1.0 {
      assert denom * denom > 1.0;
      CauchySchwarz(x, offset, offset + lag, n);
      QuotientInUnit(ab, denom, aa * bb);
    }
  }

  lemma ProductNonNegative(a: int, b: int)
    requires a >= 0 && b >= 0
    ensures a * b >= 0
  {}

  lemma QuotientInUnit(s: int, d: real, e: int)
    requires d > 1.0 && d * d == e as real && s * s <= e
    ensures -1.0 <= s as real / d <= 1.0
  {
    var r := s as real;
    assert r * r == (s * s) as real;
    assert r > d ==> r * r > d * d;
    assert r < -d ==> r * r > d * d;
    var q := r / d;
    assert q * d == r;
    assert q > 1.0 ==> q * d > d;
    assert q < -1.0 ==> q * d < -d;
  }

  // ---- The output --------------------------------------------------------------------

  function FadeLen(period: nat): nat { Min(period / 4, 24) }

  /** Sample f of the replacement for the packet that follows x. */
  function Sample(x: seq<int>, period: nat, f: nat, fade: (nat, nat) -> real): int
    requires 0 < period <= |x|
  {
    var pos, n := f % period, FadeLen(period);
    var start := |x| - period;
    if f >= period && pos < n then
      Truncate(Mix(x[start + period - n + pos] as real, x[start + pos] as real, fade(pos, n)))
    else Truncate(x[start + pos] as real)
  }

  // ---- The program -------------------------------------------------------------------

  method FindPeriod(prev: array<int>, frames: nat, channels: nat, sqrt: real -> real) returns (period: nat)
    requires channels > 0 && Fits(prev.Length, frames, channels) && IsSqrt(sqrt)
    ensures IsPeriod(Channel(prev[..], frames, channels, 0), period, sqrt)
  {
    hide Channel, Corr, IsSqrt, Fits;
    ghost var x := Channel(prev[..], frames, channels, 0);
    period := MIN_PERIOD;
    var bestCorr := -1.0;
    if AnalysisLen(frames) > MIN_PERIOD && MaxPeriod(frames) > MIN_PERIOD {
      for lag := MIN_PERIOD to MaxPeriod(frames) + 1
        invariant period == MIN_PERIOD || period < lag
        invariant MIN_PERIOD <= period <= MaxPeriod(frames)
        invariant (bestCorr == -1.0 && period == MIN_PERIOD) || (bestCorr == Corr(x, period, sqrt) && period < lag)
        invariant forall l | MIN_PERIOD <= l < lag :: Corr(x, l, sqrt) <= bestCorr
        invariant forall l | MIN_PERIOD <= l < period :: Corr(x, l, sqrt) < bestCorr
      {
        var corr := Correlate(prev, frames, channels, lag, sqrt);
        if corr > bestCorr {
          bestCorr := corr;
          period := lag;
        }
      }
      CorrInUnit(x, period, sqrt);
    }
  }

  method Correlate(prev: array<int>, frames: nat, channels: nat, lag: nat, sqrt: real -> real) returns (corr: real)
    requires channels > 0 && Fits(prev.Length, frames, channels) && MIN_PERIOD <= lag <= MaxPeriod(frames)
    ensures corr == Corr(Channel(prev[..], frames, channels, 0), lag, sqrt)
  {
    hide Channel, Fits;
    ghost var x := Channel(prev[..], frames, channels, 0);
    var offset := if frames > AnalysisLen(frames) then frames - AnalysisLen(frames) else 0;
    var count := AnalysisLen(frames) - lag;
    if count > 512 { count := 512; }
    var sum, energyA, energyB := 0, 0, 0;
    for i := 0 to count
      invariant sum == Dot(x, offset, offset + lag, i)
      invariant energyA == Dot(x, offset, offset, i)
      invariant energyB == Dot(x, offset + lag, offset + lag, i)
    {
      ChannelElement(prev[..], frames, channels, 0, offset + i);
      ChannelElement(prev[..], frames, channels, 0, offset + i + lag);
      var a := prev[(offset + i) * channels];
      var b := prev[(offset + i + lag) * channels];
      sum, energyA, energyB := sum + a * b, energyA + a * a, energyB + b * b;
    }
    var denom := sqrt((energyA * energyB) as real);
    corr := if denom > 1.0 then sum as real / denom else 0.0;
  }

  /** wsola_plc. When the previous packet has fewer frames than the shortest period, the
      template starts before it, and the first read is outside. */
  method WsolaPlc(prev: array?<int>, out: array<int>, frames: nat, channels: nat,
                  sqrt: real -> real, fade: (nat, nat) -> real)
    returns (ghost period: nat, inside: bool)
    requires Fits(out.Length, frames, channels) && out != prev && IsSqrt(sqrt)
    requires prev != null ==> Fits(prev.Length, frames, channels)
    modifies out
    ensures prev == null ==> forall f: nat, c: nat | f < frames && c < channels ::
      Channel(out[..], frames, channels, c)[f] == 0
    ensures inside <==> prev == null || frames == 0 || channels == 0 || frames >= MIN_PERIOD
    ensures inside && prev != null && frames > 0 && channels > 0 ==>
      && IsPeriod(Channel(prev[..], frames, channels, 0), period, sqrt)
      && MIN_PERIOD <= period <= frames
      && forall f: nat, c: nat | f < frames && c < channels ::
        Channel(out[..], frames, channels, c)[f] == Sample(Channel(prev[..], frames, channels, c), period, f, fade)
  {
    period, inside := MIN_PERIOD, true;
    AtIsIndex(frames, channels, 0);
    var total := frames * channels;
    if prev == null || total == 0 {
      for k := 0 to total
        invariant forall i | 0 <= i < k :: out[i] == 0
      {
        out[k] := 0;
      }
      forall f: nat, c: nat | f < frames && c < channels ensures Channel(out[..], frames, channels, c)[f] == 0 {
        AtInBuffer(f, c, frames, channels);
      }
      if frames > 0 && channels > 0 { AtInBuffer(0, 0, frames, channels); }
      return;
    }
    hide Channel, Sample, IsPeriod, Fits, IsSqrt;
    var best := FindPeriod(prev, frames, channels, sqrt);
    period := best;
    if frames < best {
      ShortPacket(Channel(prev[..], frames, channels, 0), best, sqrt);
      inside := false;
      return;
    }
    PeriodInPacket(Channel(prev[..], frames, channels, 0), best, sqrt);
    for f := 0 to frames
      invariant forall g: nat, c: nat | g < f && c < channels ::
        Channel(out[..], frames, channels, c)[g] == Sample(Channel(prev[..], frames, channels, c), best, g, fade)
    {
      FillFrame(prev, out, frames, channels, best, f, fade);
    }
  }

  lemma PeriodInPacket(x: seq<int>, p: nat, sqrt: real -> real)
    requires IsPeriod(x, p, sqrt) && |x| >= p
    ensures MIN_PERIOD <= p <= |x|
  {}

  lemma ShortPacket(x: seq<int>, p: nat, sqrt: real -> real)
    requires IsPeriod(x, p, sqrt) && |x| < p
    ensures |x| < MIN_PERIOD
  {}

  method FillFrame(prev: array<int>, out: array<int>, frames: nat, channels: nat, period: nat, f: nat,
                   fade: (nat, nat) -> real)
    requires Fits(prev.Length, frames, channels) && Fits(out.Length, frames, channels) && out != prev
    requires MIN_PERIOD <= period <= frames && f < frames
    modifies out
    ensures forall c: nat | c < channels ::
      Channel(out[..], frames, channels, c) ==
        Channel(old(out[..]), frames, channels, c)[f := Sample(Channel(prev[..], frames, channels, c), period, f, fade)]
  {
    hide Channel, Fits;
    var fadeLen := FadeLen(period);
    var template := frames - period;
    var pos := f % period;
    for ch := 0 to channels
      invariant forall c: nat | c < ch ::
        Channel(out[..], frames, channels, c) ==
          Channel(old(out[..]), frames, channels, c)
            [f := Sample(Channel(prev[..], frames, channels, c), period, f, fade)]
      invariant forall c: nat | ch <= c < channels ::
        Channel(out[..], frames, channels, c) == Channel(old(out[..]), frames, channels, c)
    {
      ChannelElement(prev[..], frames, channels, ch, template + pos);
      var sample := prev[(template + pos) * channels + ch] as real;
      if f >= period && pos < fadeLen && fadeLen > 0 {
        var t := fade(pos, fadeLen);
        ChannelElement(prev[..], frames, channels, ch, template + period - fadeLen + pos);
        var tail := prev[(template + period - fadeLen + pos) * channels + ch] as real;
        sample := Mix(tail, sample, t);
      }
      PutFrame(out, frames, channels, ch, f, Truncate(sample));
    }
  }

  // ---- What the listener hears ---------------------------------------------------------

  ghost predicate InRange(x: seq<int>, lo: int, hi: int) {
    forall i | 0 <= i < |x| :: lo <= x[i] <= hi
  }

  ghost predicate IsFade(fade: (nat, nat) -> real) {
    forall pos: nat, n: nat | pos < n :: 0.0 <= fade(pos, n) <= 1.0
  }

  /** Concealment never leaves the range of the packet it repeats. */
  lemma ConcealmentStaysInRange(x: seq<int>, period: nat, f: nat, fade: (nat, nat) -> real, lo: int, hi: int)
    requires MIN_PERIOD <= period <= |x| && InRange(x, lo, hi) && IsFade(fade)
    ensures lo <= Sample(x, period, f, fade) <= hi
  {
    hide Mix;
    var pos, n := f % period, FadeLen(period);
    var start := |x| - period;
    TruncateStaysInHull(x[start + pos] as real, lo, hi);
    if f >= period && pos < n {
      var a, b := x[start + period - n + pos], x[start + pos];
      MixBetween(a as real, b as real, fade(pos, n), lo as real, hi as real);
      TruncateStaysInHull(Mix(a as real, b as real, fade(pos, n)), lo, hi);
    }
  }

  /** The first cycle is the end of the packet before, sample by sample; later cycles
      equal it outside the fade at their start. */
  lemma RepeatsLastPeriod(x: seq<int>, period: nat, f: nat, fade: (nat, nat) -> real)
    requires MIN_PERIOD <= period <= |x| && (f < period || f % period >= FadeLen(period))
    ensures Sample(x, period, f, fade) == x[|x| - period + f % period]
  {
    assert (x[|x| - period + f % period] as real).Floor == x[|x| - period + f % period];
  }

  /** From the third cycle on the output repeats with its period. */
  lemma PeriodicFromThirdCycle(x: seq<int>, period: nat, f: nat, fade: (nat, nat) -> real)
    requires MIN_PERIOD <= period <= |x| && f >= 2 * period
    ensures Sample(x, period, f, fade) == Sample(x, period, f - period, fade)
  {
    OnePeriodBack(f, period);
  }

  lemma OnePeriodBack(f: nat, p: nat)
    requires p > 0 && f >= p
    ensures f % p == (f - p) % p
  {
    var q, r := (f - p) / p, (f - p) % p;
    assert f == (q + 1) * p + r by { assert (q + 1) * p == q * p + p; }
    Naturals.DivModUnique(f, p, q + 1, r);
  }

  /** The template lies inside the packet before exactly when that has 48 frames: the
      search never returns a shorter period, whatever the packet's length. */
  lemma TemplateInsideIff(x: seq<int>, period: nat, sqrt: real -> real)
    requires IsPeriod(x, period, sqrt) && |x| > 0
    ensures (forall f | 0 <= f < |x| :: 0 <= |x| - period + f % period < |x|) <==> |x| >= MIN_PERIOD
  {
    if |x| < MIN_PERIOD {
      assert period == MIN_PERIOD;
      assert 0 % period == 0;
      assert !(0 <= |x| - period + 0 % period);
    } else {
      PeriodInPacket(x, period, sqrt);
    }
  }

  // ---- The search and the fade, in numbers ------------------------------------------------

  /** Every lag from 48 to 960 samples of which the packet holds two is searched; a packet
      that does not hold 98 samples is repeated with a period of 48. */
  lemma PeriodIsBest(x: seq<int>, p: nat, lag: nat, sqrt: real -> real)
    requires IsPeriod(x, p, sqrt)
    ensures |x| < 98 ==> p == 48
    ensures |x| >= 98 ==> 48 <= p <= 960 && 2 * p <= |x|
    ensures |x| >= 98 && 48 <= lag <= 960 && 2 * lag <= |x| ==> Corr(x, lag, sqrt) <= Corr(x, p, sqrt)
  {
    hide Corr;
  }

  /** Where the similarity is taken: the last 1920 samples at most ... */
  function WindowStart(frames: nat): (a: nat)
    ensures a <= frames
  {
    if frames >= 1920 then frames - 1920 else frames % 2
  }

  /** ... of which 512 at most are compared with those `lag` later. */
  function Compared(frames: nat, lag: nat): (n: nat)
    requires lag <= 960 && 2 * lag <= frames
    ensures WindowStart(frames) + lag + n <= frames
  {
    Min(512, frames - WindowStart(frames) - lag)
  }

  lemma WindowIs(frames: nat, lag: nat)
    requires lag <= MaxPeriod(frames)
    ensures lag <= 960 && 2 * lag <= frames
    ensures frames - AnalysisLen(frames) == WindowStart(frames) && Count(frames, lag) == Compared(frames, lag)
  {}

  /** The similarity is the normalised sum of products over that window. */
  lemma CorrWindow(x: seq<int>, lag: nat, sqrt: real -> real)
    requires MIN_PERIOD <= lag <= MaxPeriod(|x|)
    ensures lag <= 960 && 2 * lag <= |x|
    ensures
      var a, n := WindowStart(|x|), Compared(|x|, lag);
      var d := sqrt((Dot(x, a, a, n) * Dot(x, a + lag, a + lag, n)) as real);
      && (d > 1.0 ==> Corr(x, lag, sqrt) * d == Dot(x, a, a + lag, n) as real)
      && (d <= 1.0 ==> Corr(x, lag, sqrt) == 0.0)
  {
    hide Dot, AnalysisLen, MaxPeriod, Count, WindowStart, Compared;
    WindowIs(|x|, lag);
    var a, n := WindowStart(|x|), Compared(|x|, lag);
    QuotientTimes(Dot(x, a, a + lag, n) as real, sqrt((Dot(x, a, a, n) * Dot(x, a + lag, a + lag, n)) as real));
  }

  lemma QuotientTimes(s: real, d: real)
    ensures d > 1.0 ==> s / d * d == s
  {}

  lemma {:induction false} SameStretch(x: seq<int>, a: nat, b: nat, n: nat)
    requires a + n <= |x| && b + n <= |x| && x[a..a + n] == x[b..b + n]
    ensures Dot(x, a, b, n) == Dot(x, a, a, n) == Dot(x, b, b, n)
  {
    if n > 0 {
      assert x[a..a + n][..n - 1] == x[a..a + n - 1] && x[b..b + n][..n - 1] == x[b..b + n - 1];
      SameStretch(x, a, b, n - 1);
      assert x[a + n - 1] == x[a..a + n][n - 1] == x[b..b + n][n - 1] == x[b + n - 1];
    }
  }

  /** The window repeats after `lag` samples, and is not silent. */
  ghost predicate Repeats(x: seq<int>, lag: nat)
    requires lag <= 960 && 2 * lag <= |x|
  {
    var a, n := WindowStart(|x|), Compared(|x|, lag);
    x[a..a + n] == x[a + lag..a + lag + n] && Dot(x, a, a, n) > 1
  }

  /** Such a lag is one of perfect similarity, and the period found is one. */
  lemma RepetitionIsFound(x: seq<int>, lag: nat, p: nat, sqrt: real -> real)
    requires IsSqrt(sqrt) && IsPeriod(x, p, sqrt) && |x| >= 98 && 48 <= lag <= 960 && 2 * lag <= |x|
    requires Repeats(x, lag)
    ensures Corr(x, lag, sqrt) == 1.0 == Corr(x, p, sqrt)
  {
    hide IsSqrt, Dot, Corr, WindowStart, Compared, IsPeriod, Repeats;
    PeriodIsBest(x, p, lag, sqrt);
    SimilarToItself(x, lag, sqrt);
    CorrInUnit(x, p, sqrt);
  }

  lemma SimilarToItself(x: seq<int>, lag: nat, sqrt: real -> real)
    requires IsSqrt(sqrt) && MIN_PERIOD <= lag <= MaxPeriod(|x|) && lag <= 960 && 2 * lag <= |x| && Repeats(x, lag)
    ensures Corr(x, lag, sqrt) == 1.0
  {
    hide IsSqrt, Dot, Corr, WindowStart, Compared, MaxPeriod;
    var a, n := WindowStart(|x|), Compared(|x|, lag);
    CorrWindow(x, lag, sqrt);
    SameStretch(x, a, a + lag, n);
    hide Repeats;
    RootOfSquare(Dot(x, a, a, n), sqrt);
    QuotientIsOne(Corr(x, lag, sqrt), Dot(x, a, a, n) as real);
  }

  lemma RootOfSquare(e: int, sqrt: real -> real)
    requires IsSqrt(sqrt) && e > 1
    ensures sqrt((e * e) as real) == e as real > 1.0
  {
    var r, d := (e * e) as real, e as real;
    assert r == d * d && r >= 0.0;
    var q := sqrt(r);
    assert q * q == r && q >= 0.0;
    assert (q - d) * (q + d) == q * q - d * d == 0.0;
    PositiveFactor(q - d, q + d);
  }

  lemma PositiveFactor(a: real, b: real)
    requires a * b == 0.0 && b > 0.0
    ensures a == 0.0
  {}

  lemma QuotientIsOne(c: real, d: real)
    requires d > 1.0 && c * d == d
    ensures c == 1.0
  {
    assert (c - 1.0) * d == 0.0;
    PositiveFactor(c - 1.0, d);
  }

  /** A fade lasts 24 samples, or a quarter of a period below 96. */
  lemma FadeLength(period: nat)
    ensures FadeLen(period) == if period >= 96 then 24 else period / 4
  {}

  /** The fade at the start of every later cycle leads from the samples that end the packet, so
      that the cycle joins on to the one before, to the template's. */
  lemma FadeJoinsCycles(x: seq<int>, period: nat, f: nat, fade: (nat, nat) -> real)
    requires MIN_PERIOD <= period <= |x| && f >= period && f % period < FadeLen(period)
    ensures
      var pos, n := f % period, FadeLen(period);
      var tail, template, t := x[|x| - n + pos], x[|x| - period + pos], fade(pos, n);
      && Sample(x, period, f, fade) == Truncate(tail as real + t * (template - tail) as real)
      && (t == 0.0 ==> Sample(x, period, f, fade) == tail)
      && (t == 1.0 ==> Sample(x, period, f, fade) == template)
  {
    hide Mix, Truncate, Sample, FadeLen;
    var pos, n := f % period, FadeLen(period);
    SampleInFade(x, period, f, pos, n, fade);
    InFade(x, |x| - n + pos, |x| - period + pos, fade(pos, n));
  }

  lemma SampleInFade(x: seq<int>, period: nat, f: nat, pos: nat, n: nat, fade: (nat, nat) -> real)
    requires 0 < period <= |x| && f >= period && pos == f % period && n == FadeLen(period) && pos < n
    ensures n <= period && pos < period
    ensures Sample(x, period, f, fade) ==
      Truncate(Mix(x[|x| - n + pos] as real, x[|x| - period + pos] as real, fade(pos, n)))
  {
    hide Mix, Truncate;
  }

  lemma WholeStays(v: int)
    ensures Truncate(v as real) == v
  {}

  lemma InFade(x: seq<int>, tail: nat, template: nat, t: real)
    requires tail < |x| && template < |x|
    ensures
      var m := Mix(x[tail] as real, x[template] as real, t);
      && m == x[tail] as real + t * (x[template] - x[tail]) as real
      && (t == 0.0 ==> Truncate(m) == x[tail]) && (t == 1.0 ==> Truncate(m) == x[template])
  {
    MixIsLinear(x[tail] as real, x[template] as real, t);
    WholeStays(x[tail]);
    WholeStays(x[template]);
    hide Mix, Truncate;
  }
}
