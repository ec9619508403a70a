// deglitch_buffer: clicks of a few samples are replaced by straight lines, in
// place, channel by channel. Floats are reals; sqrt is a parameter.

module Deglitch {
  import opened Blend
  import opened Interleaved

  function Abs(x: real): (r: real)
    ensures r >= 0.0 && (r == x || r == -x)
  {
    if x < 0.0 then -x else x
  }

  function SumSquares(x: seq<real>): real {
    if x == [] then 0.0 else SumSquares(x[..|x| - 1]) + x[|x| - 1] * x[|x| - 1]
  }

  // sigma, floor and the square root the threshold is computed with.
  datatype Tuning = Tuning(sigma: real, floor: real, sqrt: real -> real)

  /** fmax(floor, rms * sigma) */
  function Threshold(x: seq<real>, t: Tuning): real
    requires |x| > 0
  {
    var r := t.sqrt(SumSquares(x) / |x| as real) * t.sigma;
    if t.floor > r then t.floor else r
  }

  // ---- One channel ---------------------------------------------------------------

  /** The end of the glitch that starts at f: the scan stops at the first quiet step
      or after five frames or at the last but one frame. */
  function GlitchEnd(x: seq<real>, f: nat, e: nat, threshold: real): (r: nat)
    requires f < e && e <= |x| - 1
    ensures e <= r <= |x| - 1
    decreases |x| - e
  {
    if e < f + 5 && e < |x| - 1 then
      if Abs(x[e + 1] - x[e]) < threshold * 0.3 then e else GlitchEnd(x, f, e + 1, threshold)
    else e
  }

  /** Value g of a straight line of `span` inner points from a to b. */
  function Line(a: real, b: real, g: nat, span: nat): real {
    Mix(a, b, (g + 1) as real / (span + 1) as real)
  }

  /** Frames f .. end replaced by the line between their outer neighbours. */
  function Bridge(x: seq<real>, f: nat, end: nat): (y: seq<real>)
    requires 0 < f <= end && end + 1 < |x|
    ensures |y| == |x|
  {
    seq(|x|, i requires 0 <= i < |x| => if f <= i <= end then Line(x[f - 1], x[end + 1], i - f, end - f + 1) else x[i])
  }

  function Repair(x: seq<real>, f: nat, threshold: real): (r: (seq<real>, nat))
    requires 0 < f
    ensures |r.0| == |x|
    decreases |x| - f
  {
    if f + 1 >= |x| then (x, 0)
    else if Abs(x[f] - x[f - 1]) > threshold then
      var end := GlitchEnd(x, f, f + 1, threshold);
      if end + 1 < |x| then
        var rest := Repair(Bridge(x, f, end), end + 1, threshold);
        (rest.0, rest.1 + (end - f + 1))
      else Repair(x, f + 1, threshold)
    else Repair(x, f + 1, threshold)
  }

  // ---- The program -----------------------------------------------------------------

  /** Channel c of the buffer after the pass, and the samples it repaired. */
  function Repaired(buf: seq<real>, n: nat, channels: nat, c: nat, t: Tuning): (seq<real>, nat)
    requires c < channels && Fits(|buf|, n, channels) && n >= 5
  {
    var x := Channel(buf, n, channels, c);
    Repair(x, 1, Threshold(x, t))
  }

  function TotalRepairs(buf: seq<real>, n: nat, channels: nat, upto: nat, t: Tuning): nat
    requires upto <= channels && Fits(|buf|, n, channels) && n >= 5
  {
    if upto == 0 then 0
    else TotalRepairs(buf, n, channels, upto - 1, t) + Repaired(buf, n, channels, upto - 1, t).1
  }

  method DeglitchBuffer(buf: array<real>, frameCount: nat, channels: nat, t: Tuning) returns (repairs: nat)
    requires Fits(buf.Length, frameCount, channels)
    modifies buf
    ensures frameCount < 5 ==> repairs == 0 && buf[..] == old(buf[..])
    ensures frameCount >= 5 ==> repairs == TotalRepairs(old(buf[..]), frameCount, channels, channels, t)
    ensures frameCount >= 5 ==> forall c: nat | c < channels ::
      Channel(buf[..], frameCount, channels, c) == Repaired(old(buf[..]), frameCount, channels, c, t).0
  {
    repairs := 0;
    if frameCount < 5 { return; }
    hide Channel, Fits, Repaired, At, RepairedUpTo;
    ghost var b0 := buf[..];
    NoneRepaired(b0, frameCount, channels, t);
    for ch := 0 to channels
      invariant repairs == TotalRepairs(b0, frameCount, channels, ch, t)
      invariant RepairedUpTo(buf[..], b0, frameCount, channels, ch, t)
    {
      ghost var was := buf[..];
      var more := DeglitchChannel(buf, frameCount, channels, ch, t);
      OneMoreRepaired(was, buf[..], b0, frameCount, channels, ch, t);
      repairs := repairs + more;
    }
    AllRepaired(buf[..], b0, frameCount, channels, t);
  }

  /** The first `done` channels are repaired, the others as they were. */
  ghost predicate RepairedUpTo(now: seq<real>, b0: seq<real>, n: nat, channels: nat, done: nat, t: Tuning)
    requires Fits(|b0|, n, channels) && n >= 5 && |now| == |b0|
  {
    && (forall c: nat | c < done && c < channels :: Channel(now, n, channels, c) == Repaired(b0, n, channels, c, t).0)
    && (forall c: nat | done <= c < channels :: Channel(now, n, channels, c) == Channel(b0, n, channels, c))
  }

  lemma NoneRepaired(b0: seq<real>, n: nat, channels: nat, t: Tuning)
    requires Fits(|b0|, n, channels) && n >= 5
    ensures RepairedUpTo(b0, b0, n, channels, 0, t)
  {}

  lemma AllRepaired(now: seq<real>, b0: seq<real>, n: nat, channels: nat, t: Tuning)
    requires Fits(|b0|, n, channels) && n >= 5 && |now| == |b0| && RepairedUpTo(now, b0, n, channels, channels, t)
    ensures forall c: nat | c < channels :: Channel(now, n, channels, c) == Repaired(b0, n, channels, c, t).0
  {
    hide Channel, Repaired;
  }

  lemma OneMoreRepaired(was: seq<real>, now: seq<real>, b0: seq<real>, n: nat, channels: nat, ch: nat, t: Tuning)
    requires ch < channels && Fits(|b0|, n, channels) && n >= 5 && |now| == |was| == |b0|
    requires RepairedUpTo(was, b0, n, channels, ch, t)
    requires Channel(now, n, channels, ch) == Repaired(was, n, channels, ch, t).0
    requires forall c: nat | c < channels && c != ch :: Channel(now, n, channels, c) == Channel(was, n, channels, c)
    ensures RepairedUpTo(now, b0, n, channels, ch + 1, t) &&
      Repaired(was, n, channels, ch, t) == Repaired(b0, n, channels, ch, t)
  {
    hide Channel, Repair, Threshold;
  }

  method DeglitchChannel(buf: array<real>, n: nat, channels: nat, ch: nat, t: Tuning) returns (repairs: nat)
    requires ch < channels && Fits(buf.Length, n, channels) && n >= 5
    modifies buf
    ensures Channel(buf[..], n, channels, ch) == Repaired(old(buf[..]), n, channels, ch, t).0
    ensures repairs == Repaired(old(buf[..]), n, channels, ch, t).1
    ensures forall c: nat | c < channels && c != ch ::
      Channel(buf[..], n, channels, c) == Channel(old(buf[..]), n, channels, c)
  {
    hide Channel, Repair, Bridge, GlitchEnd, Threshold, Abs;
    ghost var x := Channel(buf[..], n, channels, ch);
    var threshold := MeasureThreshold(buf, n, channels, ch, t);
    repairs := 0;
    var f := 1;
    while f < n - 1
      invariant 1 <= f <= n
      invariant forall c: nat | c < channels && c != ch ::
        Channel(buf[..], n, channels, c) == Channel(old(buf[..]), n, channels, c)
      invariant
        var r := Repair(Channel(buf[..], n, channels, ch), f, threshold);
        Repair(x, 1, threshold) == (r.0, repairs + r.1)
      decreases n - f
    {
      RepairStep(Channel(buf[..], n, channels, ch), f, threshold);
      ChannelElement(buf[..], n, channels, ch, f);
      ChannelElement(buf[..], n, channels, ch, f - 1);
      var dIn := Abs(buf[f * channels + ch] - buf[(f - 1) * channels + ch]);
      if dIn > threshold {
        var glitchEnd := ScanAhead(buf, n, channels, ch, f, threshold);
        if glitchEnd < n - 1 {
          Interpolate(buf, n, channels, ch, f, glitchEnd);
          repairs := repairs + (glitchEnd - f + 1);
          f := glitchEnd;
        }
      }
      f := f + 1;
    }
    RepairStep(Channel(buf[..], n, channels, ch), f, threshold);
  }

  /** One turn of the scan, without the loop. */
  lemma RepairStep(x: seq<real>, f: nat, threshold: real)
    requires 0 < f
    ensures f + 1 >= |x| ==> Repair(x, f, threshold) == (x, 0)
    ensures f + 1 < |x| && !(Abs(x[f] - x[f - 1]) > threshold && GlitchEnd(x, f, f + 1, threshold) + 1 < |x|) ==>
              Repair(x, f, threshold) == Repair(x, f + 1, threshold)
    ensures f + 1 < |x| && Abs(x[f] - x[f - 1]) > threshold && GlitchEnd(x, f, f + 1, threshold) + 1 < |x| ==>
              var end := GlitchEnd(x, f, f + 1, threshold);
              var rest := Repair(Bridge(x, f, end), end + 1, threshold);
              Repair(x, f, threshold) == (rest.0, rest.1 + (end - f + 1))
  {}

  method MeasureThreshold(buf: array<real>, n: nat, channels: nat, ch: nat, t: Tuning) returns (threshold: real)
    requires ch < channels && Fits(buf.Length, n, channels) && n >= 5
    ensures threshold == Threshold(Channel(buf[..], n, channels, ch), t)
  {
    hide Channel;
    ghost var x := Channel(buf[..], n, channels, ch);
    var sumSq := 0.0;
    for f := 0 to n
      invariant sumSq == SumSquares(x[..f])
    {
      ChannelElement(buf[..], n, channels, ch, f);
      assert x[..f + 1][..f] == x[..f];
      sumSq := sumSq + buf[f * channels + ch] * buf[f * channels + ch];
    }
    assert x[..n] == x;
    var rms := t.sqrt(sumSq / n as real);
    threshold := if t.floor > rms * t.sigma then t.floor else rms * t.sigma;
  }

  method ScanAhead(buf: array<real>, n: nat, channels: nat, ch: nat, f: nat, threshold: real) returns (glitchEnd: nat)
    requires ch < channels && Fits(buf.Length, n, channels) && f + 1 < n
    ensures glitchEnd == GlitchEnd(Channel(buf[..], n, channels, ch), f, f + 1, threshold)
  {
    hide Channel;
    ghost var x := Channel(buf[..], n, channels, ch);
    glitchEnd := f + 1;
    while glitchEnd < f + 5 && glitchEnd < n - 1
      invariant f < glitchEnd <= n - 1
      invariant GlitchEnd(x, f, f + 1, threshold) == GlitchEnd(x, f, glitchEnd, threshold)
    {
      ChannelElement(buf[..], n, channels, ch, glitchEnd);
      ChannelElement(buf[..], n, channels, ch, glitchEnd + 1);
      var dOut := Abs(buf[(glitchEnd + 1) * channels + ch] - buf[glitchEnd * channels + ch]);
      if dOut < threshold * 0.3 { break; }
      glitchEnd := glitchEnd + 1;
    }
  }

  /** x[f .. f+g] already on the line, the rest of the stretch still to come. */
  ghost predicate PartBridged(now: seq<real>, x: seq<real>, f: nat, end: nat, g: nat)
    requires 0 < f <= end && end + 1 < |x|
  {
    && |now| == |x|
    && forall i | 0 <= i < |x| :: now[i] == if f <= i < f + g then Bridge(x, f, end)[i] else x[i]
  }

  method Interpolate(buf: array<real>, n: nat, channels: nat, ch: nat, f: nat, end: nat)
    requires ch < channels && Fits(buf.Length, n, channels) && 0 < f <= end && end + 1 < n
    modifies buf
    ensures Channel(buf[..], n, channels, ch) == Bridge(Channel(old(buf[..]), n, channels, ch), f, end)
    ensures forall c: nat | c < channels && c != ch ::
      Channel(buf[..], n, channels, c) == Channel(old(buf[..]), n, channels, c)
  {
    hide Channel, Fits, PartBridged, Mix;
    ghost var x := Channel(buf[..], n, channels, ch);
    ChannelElement(buf[..], n, channels, ch, f - 1);
    ChannelElement(buf[..], n, channels, ch, end + 1);
    var startVal := buf[(f - 1) * channels + ch];
    var endVal := buf[(end + 1) * channels + ch];
    var span := end - f + 1;
    var g := 0;
    NothingBridged(x, f, end);
    while g < span && f + g < n
      invariant 0 <= g <= span
      invariant forall c: nat | c < channels && c != ch ::
        Channel(buf[..], n, channels, c) == Channel(old(buf[..]), n, channels, c)
      invariant PartBridged(Channel(buf[..], n, channels, ch), x, f, end, g)
    {
      ghost var was := Channel(buf[..], n, channels, ch);
      var t := (g + 1) as real / (span + 1) as real;
      var v := Mix(startVal, endVal, t);
      PutFrame(buf, n, channels, ch, f + g, v);
      OneMoreBridged(was, x, f, end, g, v);
      g := g + 1;
    }
    AllBridged(Channel(buf[..], n, channels, ch), x, f, end);
  }

  lemma NothingBridged(x: seq<real>, f: nat, end: nat)
    requires 0 < f <= end && end + 1 < |x|
    ensures PartBridged(x, x, f, end, 0)
  {}

  lemma OneMoreBridged(now: seq<real>, x: seq<real>, f: nat, end: nat, g: nat, v: real)
    requires 0 < f <= end && end + 1 < |x| && g < end - f + 1
    requires PartBridged(now, x, f, end, g) && v == Line(x[f - 1], x[end + 1], g, end - f + 1)
    ensures |now| == |x| && PartBridged(now[f + g := v], x, f, end, g + 1)
  {
    hide Line;
    assert Bridge(x, f, end)[f + g] == v;
  }

  lemma AllBridged(now: seq<real>, x: seq<real>, f: nat, end: nat)
    requires 0 < f <= end && end + 1 < |x|
    requires PartBridged(now, x, f, end, end - f + 1)
    ensures now == Bridge(x, f, end)
  {
    hide Line;
    forall i | 0 <= i < |x| ensures now[i] == Bridge(x, f, end)[i] {}
  }

  // ---- What the pass does to a channel -----------------------------------------------

  ghost predicate Within(x: seq<real>, lo: real, hi: real) {
    forall i | 0 <= i < |x| :: lo <= x[i] <= hi
  }

  lemma LineBetween(a: real, b: real, g: nat, span: nat, lo: real, hi: real)
    requires g < span && lo <= a <= hi && lo <= b <= hi
    ensures lo <= Line(a, b, g, span) <= hi
  {
    hide Mix;
    FractionBelowOne(g, span);
    MixBetween(a, b, (g + 1) as real / (span + 1) as real, lo, hi);
  }

  lemma FractionBelowOne(g: nat, span: nat)
    requires g < span
    ensures 0.0 < (g + 1) as real / (span + 1) as real < 1.0
  {}

  /** De-clicking never leaves the range of the channel's input. */
  lemma {:induction false} StaysInRange(x: seq<real>, f: nat, threshold: real, lo: real, hi: real)
    requires 0 < f && Within(x, lo, hi)
    ensures Within(Repair(x, f, threshold).0, lo, hi)
    decreases |x| - f
  {
    if f + 1 < |x| {
      var end := GlitchEnd(x, f, f + 1, threshold);
      if Abs(x[f] - x[f - 1]) > threshold && end + 1 < |x| {
        forall i | 0 <= i < |x| ensures lo <= Bridge(x, f, end)[i] <= hi {
          if f <= i <= end { LineBetween(x[f - 1], x[end + 1], i - f, end - f + 1, lo, hi); }
        }
        StaysInRange(Bridge(x, f, end), end + 1, threshold, lo, hi);
      } else {
        StaysInRange(x, f + 1, threshold, lo, hi);
      }
    }
  }

  /** Frames before the scan position, and the last frame, never change. */
  lemma {:induction false} EndsUnchanged(x: seq<real>, f: nat, threshold: real)
    requires 0 < f
    ensures forall i | 0 <= i < |x| && (i < f || i == |x| - 1) :: Repair(x, f, threshold).0[i] == x[i]
    ensures Repair(x, f, threshold).1 <= if f + 1 < |x| then |x| - 1 - f else 0
    decreases |x| - f
  {
    if f + 1 < |x| {
      var end := GlitchEnd(x, f, f + 1, threshold);
      if Abs(x[f] - x[f - 1]) > threshold && end + 1 < |x| {
        EndsUnchanged(Bridge(x, f, end), end + 1, threshold);
      } else {
        EndsUnchanged(x, f + 1, threshold);
      }
    }
  }

  /** A channel without a jump above the threshold is left as it is. */
  lemma {:induction false} QuietIsUntouched(x: seq<real>, f: nat, threshold: real)
    requires 0 < f
    requires forall i | f <= i < |x| - 1 :: Abs(x[i] - x[i - 1]) <= threshold
    ensures Repair(x, f, threshold) == (x, 0)
    decreases |x| - f
  {
    if f + 1 < |x| { QuietIsUntouched(x, f + 1, threshold); }
  }

  /** A repaired stretch, both joints included, climbs in equal steps. */
  lemma BridgeIsStraight(x: seq<real>, f: nat, end: nat, i: nat)
    requires 0 < f <= end && end + 1 < |x| && f <= i <= end + 1
    ensures Bridge(x, f, end)[i] - Bridge(x, f, end)[i - 1] == (x[end + 1] - x[f - 1]) / (end - f + 2) as real
  {
    hide Line;
    var a, b, span := x[f - 1], x[end + 1], end - f + 1;
    if i <= end { LineValue(a, b, i - f, span); }
    if f < i { LineValue(a, b, i - 1 - f, span); }
    Steps(b - a, i - f, span);
  }

  lemma LineValue(a: real, b: real, g: nat, span: nat)
    ensures Line(a, b, g, span) == a + Times(b - a, (g + 1) as real / (span + 1) as real)
  {
    hide Times;
    var t := (g + 1) as real / (span + 1) as real;
    Distribute(a, b, t);
  }

  lemma Distribute(a: real, b: real, t: real)
    ensures Times(a, 1.0 - t) + Times(b, t) == a + Times(b - a, t)
  {}

  lemma Steps(d: real, g: nat, span: nat)
    ensures Times(d, (g + 1) as real / (span + 1) as real) ==
      Times(d, g as real / (span + 1) as real) + d / (span + 1) as real
    ensures Times(d, 0.0) == 0.0 && Times(d, (span + 1) as real / (span + 1) as real) == d
  {
    var w := (span + 1) as real;
    assert (g + 1) as real / w == g as real / w + 1.0 / w;
    assert d * (1.0 / w) == d / w;
    assert d * (g as real / w + 1.0 / w) == d * (g as real / w) + d * (1.0 / w);
  }

  // ---- The threshold and the scan --------------------------------------------------------

  /** The energy of two stretches is the sum of theirs. */
  lemma {:induction false} EnergyAdds(a: seq<real>, b: seq<real>)
    ensures SumSquares(a + b) == SumSquares(a) + SumSquares(b)
    decreases |b|
  {
    if b == [] {
      assert a + b == a;
    } else {
      EnergyAdds(a, b[..|b| - 1]);
      assert (a + b)[..|a + b| - 1] == a + b[..|b| - 1];
    }
  }

  lemma {:induction false} EvenEnergy(x: seq<real>, a: real)
    requires forall i | 0 <= i < |x| :: x[i] == a || x[i] == -a
    ensures SumSquares(x) == |x| as real * (a * a)
  {
    if x != [] {
      EvenEnergy(x[..|x| - 1], a);
      assert x[|x| - 1] * x[|x| - 1] == a * a;
      assert |x| as real * (a * a) == (|x| - 1) as real * (a * a) + a * a;
    }
  }

  /** The threshold of a signal of constant magnitude a: sigma times a, but not below the
      floor. */
  lemma ThresholdOfEvenSignal(x: seq<real>, a: real, t: Tuning)
    requires |x| > 0 && t.sqrt(a * a) == a && forall i | 0 <= i < |x| :: x[i] == a || x[i] == -a
    ensures Threshold(x, t) >= t.floor && Threshold(x, t) >= t.sigma * a
    ensures Threshold(x, t) == t.floor || Threshold(x, t) == t.sigma * a
  {
    EvenEnergy(x, a);
    assert |x| as real * (a * a) / |x| as real == a * a;
  }

  /** The scan from a jump at f: it ends at the first frame after f whose step to the next is
      below three tenths of the threshold, or five frames after f, or at the last frame. */
  lemma {:induction false} GlitchEndIs(x: seq<real>, f: nat, e: nat, threshold: real)
    requires f < e <= f + 5 && e <= |x| - 1
    ensures
      var r := GlitchEnd(x, f, e, threshold);
      && e <= r <= f + 5
      && (forall i | e <= i < r :: Abs(x[i + 1] - x[i]) >= threshold * 0.3)
      && (r < f + 5 && r < |x| - 1 ==> Abs(x[r + 1] - x[r]) < threshold * 0.3)
    decreases |x| - e
  {
    hide Abs;
    if e < f + 5 && e < |x| - 1 && Abs(x[e + 1] - x[e]) >= threshold * 0.3 {
      GlitchEndIs(x, f, e + 1, threshold);
    }
  }

  lemma {:induction false} QuietIsSkipped(x: seq<real>, f: nat, i: nat, threshold: real)
    requires 0 < f <= i && i + 1 < |x| && forall k | f <= k < i :: Abs(x[k] - x[k - 1]) <= threshold
    ensures Repair(x, f, threshold) == Repair(x, i, threshold)
    decreases i - f
  {
    if f < i { QuietIsSkipped(x, f + 1, i, threshold); }
  }

  /** What the pass is for: a single sample that sticks out of a constant signal by more than
      the threshold is gone. */
  lemma ClickIsRemoved(x: seq<real>, a: real, at: nat, threshold: real)
    requires 1 <= at && at + 2 < |x| && threshold > 0.0
    requires forall i | 0 <= i < |x| && i != at :: x[i] == a
    requires Abs(x[at] - a) > threshold
    ensures Repair(x, 1, threshold) == (seq(|x|, _ => a), 2)
  {
    QuietIsSkipped(x, 1, at, threshold);
    var flat := seq(|x|, _ => a);
    assert GlitchEnd(x, at, at + 1, threshold) == at + 1;
    FlatBridge(x, a, at);
    QuietIsUntouched(flat, at + 2, threshold);
    hide Bridge, GlitchEnd;
    assert Repair(x, at, threshold) == (Repair(flat, at + 2, threshold).0, Repair(flat, at + 2, threshold).1 + 2);
  }

  lemma FlatBridge(x: seq<real>, a: real, at: nat)
    requires 1 <= at && at + 2 < |x| && forall i | 0 <= i < |x| && i != at :: x[i] == a
    ensures Bridge(x, at, at + 1) == seq(|x|, _ => a)
  {
    FlatLine(a, 0, 2);
    FlatLine(a, 1, 2);
    hide Line;
    var y := Bridge(x, at, at + 1);
    forall i | 0 <= i < |x| ensures y[i] == a {
      if i == at { assert y[i] == Line(a, a, 0, 2); }
      if i == at + 1 { assert y[i] == Line(a, a, 1, 2); }
    }
  }

  lemma FlatLine(a: real, g: nat, span: nat)
    ensures Line(a, a, g, span) == a
  {
    MixSame(a, (g + 1) as real / (span + 1) as real);
    hide Mix;
  }

  /** The same in the buffer: the scan starts at the second frame. */
  lemma ClickInBuffer(buf: seq<real>, n: nat, channels: nat, c: nat, t: Tuning, a: real, at: nat)
    requires c < channels && Fits(|buf|, n, channels) && n >= 5 && 1 <= at && at + 2 < n
    requires forall i | 0 <= i < n && i != at :: Channel(buf, n, channels, c)[i] == a
    requires Abs(Channel(buf, n, channels, c)[at] - a) > Threshold(Channel(buf, n, channels, c), t) > 0.0
    ensures Repaired(buf, n, channels, c, t) == (seq(n, _ => a), 2)
  {
    hide Channel, Fits, Repair, Threshold;
    var x := Channel(buf, n, channels, c);
    ClickIsRemoved(x, a, at, Threshold(x, t));
  }

  /** A buffer of quiet channels needs no repairs. */
  lemma {:induction false} QuietBuffer(buf: seq<real>, n: nat, channels: nat, upto: nat, t: Tuning)
    requires upto <= channels && Fits(|buf|, n, channels) && n >= 5
    requires forall c, i | 0 <= c < upto && 1 <= i < n - 1 ::
      var x := Channel(buf, n, channels, c); Abs(x[i] - x[i - 1]) <= Threshold(x, t)
    ensures TotalRepairs(buf, n, channels, upto, t) == 0
  {
    hide Channel, Fits, Repair, Threshold;
    if upto > 0 {
      QuietBuffer(buf, n, channels, upto - 1, t);
      var x := Channel(buf, n, channels, upto - 1);
      assert forall i | 1 <= i < n - 1 :: Abs(x[i] - x[i - 1]) <= Threshold(x, t);
      QuietIsUntouched(x, 1, Threshold(x, t));
    }
  }

  /** Channels with as many repairs each add up. */
  lemma {:induction false} RepairsAddUp(buf: seq<real>, n: nat, channels: nat, upto: nat, t: Tuning, each: nat)
    requires upto <= channels && Fits(|buf|, n, channels) && n >= 5
    requires forall c | 0 <= c < upto :: Repaired(buf, n, channels, c, t).1 == each
    ensures TotalRepairs(buf, n, channels, upto, t) == upto * each
  {
    hide Fits, Repaired;
    if upto > 0 {
      RepairsAddUp(buf, n, channels, upto - 1, t, each);
      assert upto * each == (upto - 1) * each + each;
    }
  }
}
