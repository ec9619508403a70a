// The AudioWorklet's ring and its variable-rate reader (web/soluna-worklet.js).
// Numbers that JavaScript keeps as doubles are reals here.

module Worklet {
  import opened Bits
  import opened Common

  const CAP := 192000
  const HIGH_WATER := 172800   // CAP * 0.9
  const PREFILL := 14400

  type Frame = (real, real)

  // ---- The rate and the read cursor ------------------------------------------------

  /** 1 plus the fill error times 1e-6, the correction clamped to two percent. */
  function Rate(buffered: nat, target: int): real {
    var c := (buffered - target) as real * 0.000001;
    1.0 + (if c > 0.02 then 0.02 else if c < -0.02 then -0.02 else c)
  }

  // Frames taken since the last reset, and the fractional position.
  datatype Cursor = Cursor(taken: nat, frac: real)

  /** One output sample: nothing moves once the ring is empty. */
  function Advance(c: Cursor, total: nat, rate: real): Cursor
    requires c.taken <= total && 0.0 <= c.frac && 0.0 <= rate
  {
    if c.taken < total then
      var x := c.frac + rate;
      Cursor(c.taken + Min(x.Floor, total - c.taken), x - x.Floor as real)
    else c
  }

  function CursorAfter(c: Cursor, total: nat, rate: real, n: nat): (r: Cursor)
    requires c.taken <= total && 0.0 <= c.frac < 1.0 && 0.0 <= rate
    ensures c.taken <= r.taken <= total && 0.0 <= r.frac < 1.0
  {
    if n == 0 then c else Advance(CursorAfter(c, total, rate, n - 1), total, rate)
  }

  lemma RateBounds(buffered: nat, target: int)
    ensures 0.98 <= Rate(buffered, target) <= 1.02
    ensures buffered > target ==> Rate(buffered, target) > 1.0
    ensures buffered < target ==> Rate(buffered, target) < 1.0
    ensures buffered == target ==> Rate(buffered, target) == 1.0
  {}

  /** Consecutive outputs come from the same frame, the next, or the one after it. */
  lemma StepsOfAtMostTwo(c: Cursor, total: nat, rate: real, n: nat)
    requires c.taken <= total && 0.0 <= c.frac < 1.0 && 0.98 <= rate <= 1.02
    ensures
      var a, b := CursorAfter(c, total, rate, n).taken, CursorAfter(c, total, rate, n + 1).taken;
      a <= b <= a + 2 && (b == a + 2 ==> rate > 1.0) && (b == a < total ==> rate < 1.0)
  {
    var d := CursorAfter(c, total, rate, n);
    var x := d.frac + rate;
    assert 0 <= x.Floor <= 2;
  }

  /** n * rate, as a repeated addition. */
  function NTimes(n: nat, rate: real): real {
    if n == 0 then 0.0 else NTimes(n - 1, rate) + rate
  }

  lemma {:induction false} TimesIsProduct(n: nat, rate: real)
    ensures NTimes(n, rate) == n as real * rate
  {
    if n > 0 {
      TimesIsProduct(n - 1, rate);
      OneMoreTime((n - 1) as real, rate);
      assert n as real == (n - 1) as real + 1.0;
    }
  }

  lemma OneMoreTime(a: real, rate: real)
    ensures (a + 1.0) * rate == a * rate + rate
  {}

  lemma {:induction false} TimesNonNegative(n: nat, rate: real)
    requires rate >= 0.0
    ensures NTimes(n, rate) >= 0.0
  {
    if n > 0 { TimesNonNegative(n - 1, rate); }
  }

  lemma FloorAdds(x: real, y: real)
    requires y >= 0.0
    ensures (x - x.Floor as real + y).Floor == (x + y).Floor - x.Floor >= 0
  {
    var d := (x + y).Floor - x.Floor;
    assert d as real <= x - x.Floor as real + y < d as real + 1.0;
  }

  ghost predicate Consumed(c: Cursor, total: nat, x: real, r: Cursor) {
    && c.taken <= total && x.Floor >= 0
    && r.taken == c.taken + Min(x.Floor, total - c.taken)
    && (r.taken < total ==> r.frac == x - x.Floor as real)
  }

  lemma ConsumeOne(c: Cursor, total: nat, x: real, r: Cursor, rate: real)
    requires Consumed(c, total, x, r) && r.taken <= total && 0.0 <= r.frac < 1.0 && rate >= 0.0
    ensures Consumed(c, total, x + rate, Advance(r, total, rate))
  {
    FloorAdds(x, rate);
  }

  lemma NoneConsumed(c: Cursor, total: nat)
    requires c.taken <= total && 0.0 <= c.frac < 1.0
    ensures Consumed(c, total, c.frac, c)
  {}

  lemma {:induction false} BlockConsumes(c: Cursor, total: nat, rate: real, n: nat)
    requires c.taken <= total && 0.0 <= c.frac < 1.0 && 0.0 <= rate
    ensures Consumed(c, total, c.frac + NTimes(n, rate), CursorAfter(c, total, rate, n))
  {
    if n == 0 {
      NoneConsumed(c, total);
    } else {
      hide Consumed, Advance;
      BlockConsumes(c, total, rate, n - 1);
      ConsumeOne(c, total, c.frac + NTimes(n - 1, rate), CursorAfter(c, total, rate, n - 1), rate);
    }
  }

  /** n outputs consume floor(frac + n * rate) frames, or all there are. */
  lemma BlockConsumption(c: Cursor, total: nat, rate: real, n: nat)
    requires c.taken <= total && 0.0 <= c.frac < 1.0 && 0.0 <= rate
    ensures
      var x := c.frac + n as real * rate;
      var r := CursorAfter(c, total, rate, n);
      && x.Floor >= 0
      && r.taken == c.taken + Min(x.Floor, total - c.taken)
      && (r.taken < total ==> r.frac == x - x.Floor as real)
  {
    BlockConsumes(c, total, rate, n);
    TimesIsProduct(n, rate);
    hide CursorAfter;
  }

  // ---- The target ------------------------------------------------------------------------

  /** The reader in the middle of a stream: the cursor, and the frames accepted so far. */
  datatype Playback = Playback(cursor: Cursor, total: nat) {
    predicate Valid() { cursor.taken <= total && 0.0 <= cursor.frac < 1.0 }

    function Buffered(): nat
      requires Valid()
    {
      total - cursor.taken
    }

    /** The fill, down to the fraction of a frame already played. */
    function Level(): real
      requires Valid()
    {
      Buffered() as real - cursor.frac
    }
  }

  /** A block of n outputs while n frames arrive: process, then push. */
  function Steady(p: Playback, target: int, n: nat): (q: Playback)
    requires p.Valid()
    ensures q.Valid()
  {
    RateBounds(p.Buffered(), target);
    Playback(CursorAfter(p.cursor, p.total, Rate(p.Buffered(), target), n), p.total + n)
  }

  function SteadyBlocks(p: Playback, target: int, ns: seq<nat>): (q: Playback)
    requires p.Valid()
    ensures q.Valid()
  {
    if ns == [] then p else Steady(SteadyBlocks(p, target, ns[..|ns| - 1]), target, ns[|ns| - 1])
  }

  /** The frames a block of n outputs asks for. */
  function Demand(p: Playback, target: int, n: nat): int
    requires p.Valid()
  {
    (p.cursor.frac + n as real * Rate(p.Buffered(), target)).Floor
  }

  /** What the rate takes in a block beyond the frames that arrive. */
  function Drift(p: Playback, target: int, n: nat): real
    requires p.Valid()
  {
    n as real * (Rate(p.Buffered(), target) - 1.0)
  }

  /** What the target is for: while as many frames arrive as are played and the ring does
      not run dry, the fill moves towards it and never past it, and stays once it is there.
      The level falls by exactly the drift. */
  lemma FillApproachesTarget(p: Playback, target: int, n: nat)
    requires p.Valid() && n <= 1_000_000 && Demand(p, target, n) <= p.Buffered()
    ensures
      var fill, next := p.Buffered(), Steady(p, target, n).Buffered();
      && (fill >= target ==> target <= next <= fill)
      && (fill <= target ==> fill <= next <= target)
    ensures Demand(p, target, n) < p.Buffered() ==> Steady(p, target, n).Level() == p.Level() - Drift(p, target, n)
  {
    hide *;
    DriftIs(p, target, n);
    SteadyIs(p, target, n);
    FillMoves(p, target, n);
  }

  lemma DriftIs(p: Playback, target: int, n: nat)
    requires p.Valid()
    ensures Drift(p, target, n) == NTimes(n, Rate(p.Buffered(), target) - 1.0)
  {
    hide Rate, NTimes;
    TimesIsProduct(n, Rate(p.Buffered(), target) - 1.0);
  }

  lemma DemandIs(p: Playback, target: int, n: nat)
    requires p.Valid()
    ensures Demand(p, target, n) == (p.cursor.frac + NTimes(n, Rate(p.Buffered(), target))).Floor
  {
    hide Rate, NTimes;
    TimesIsProduct(n, Rate(p.Buffered(), target));
  }

  lemma SteadyIs(p: Playback, target: int, n: nat)
    requires p.Valid() && Demand(p, target, n) <= p.Buffered()
    ensures
      var x := p.cursor.frac + NTimes(n, Rate(p.Buffered(), target) - 1.0);
      var q := Steady(p, target, n);
      && q.Buffered() == p.Buffered() - x.Floor
      && (Demand(p, target, n) < p.Buffered() ==> q.Level() == p.Level() - NTimes(n, Rate(p.Buffered(), target) - 1.0))
  {
    var rate := Rate(p.Buffered(), target);
    RateBounds(p.Buffered(), target);
    DemandIs(p, target, n);
    TimesOnePlus(n, rate - 1.0);
    hide Rate, CursorAfter, NTimes, Demand;
    BlockConsumes(p.cursor, p.total, rate, n);
    FloorOfShift(p.cursor.frac + NTimes(n, rate - 1.0), n);
  }

  lemma FillMoves(p: Playback, target: int, n: nat)
    requires p.Valid() && n <= 1_000_000 && Demand(p, target, n) <= p.Buffered()
    ensures
      var fill, next := p.Buffered(), Steady(p, target, n).Buffered();
      && (fill >= target ==> target <= next <= fill)
      && (fill <= target ==> fill <= next <= target)
  {
    var c := Rate(p.Buffered(), target) - 1.0;
    RateFollowsError(p.Buffered(), target);
    ShiftWithinError(n, p.Buffered() - target, c);
    SteadyIs(p, target, n);
    hide Rate, NTimes, Steady, Demand;
    NextFill(p.Buffered(), target, p.cursor.frac + NTimes(n, c), Steady(p, target, n).Buffered());
  }

  lemma NextFill(buffered: nat, target: int, x: real, next: nat)
    requires next == buffered - x.Floor
    requires
      if buffered >= target then 0.0 <= x < (buffered - target) as real + 1.0
      else (buffered - target) as real <= x < 1.0
    ensures buffered >= target ==> target <= next <= buffered
    ensures buffered <= target ==> buffered <= next <= target
  {}

  lemma FloorOfShift(x: real, n: nat)
    ensures (x + n as real).Floor == x.Floor + n
  {}

  lemma {:induction false} TimesOnePlus(n: nat, c: real)
    ensures NTimes(n, 1.0 + c) == n as real + NTimes(n, c)
  {
    if n > 0 { TimesOnePlus(n - 1, c); }
  }

  lemma RateFollowsError(buffered: nat, target: int)
    ensures
      var d, c := (buffered - target) as real, Rate(buffered, target) - 1.0;
      if d >= 0.0 then 0.0 <= 1000000.0 * c <= d else d <= 1000000.0 * c <= 0.0
  {}

  /** A block of at most a million outputs corrects no more than the whole error. */
  lemma ShiftWithinError(n: nat, d: int, c: real)
    requires n <= 1_000_000
    requires if d >= 0 then 0.0 <= 1000000.0 * c <= d as real else d as real <= 1000000.0 * c <= 0.0
    ensures if d >= 0 then 0.0 <= NTimes(n, c) <= d as real else d as real <= NTimes(n, c) <= 0.0
  {
    TimesGrows(n, 1_000_000, c);
    TimesGrows(0, n, c);
    TimesIsProduct(1_000_000, c);
    hide NTimes;
  }

  lemma {:induction false} TimesGrows(n: nat, m: nat, c: real)
    requires n <= m
    ensures if c >= 0.0 then NTimes(n, c) <= NTimes(m, c) else NTimes(n, c) >= NTimes(m, c)
    ensures NTimes(0, c) == 0.0
    decreases m
  {
    if n < m { TimesGrows(n, m - 1, c); }
  }

  /** The law of the reader, in the fill alone: over a block of n outputs that leaves frames in
      the ring, while n more arrive, the level closes n millionths of the error, up to an error
      of 20000 frames, and a fiftieth of n beyond. */
  lemma LevelLaw(p: Playback, target: int, n: nat)
    requires p.Valid() && Steady(p, target, n).cursor.taken < p.total
    ensures
      var error, gain := p.Buffered() - target, 1000000.0 * (Steady(p, target, n).Level() - p.Level());
      && (-20000 <= error <= 20000 ==> gain == -((n * error) as real))
      && (error > 20000 ==> gain == -((n * 20000) as real))
      && (error < -20000 ==> gain == (n * 20000) as real)
  {
    NotShort(p, target, n);
    ClampedLaw(p, target, n);
  }

  function Clamped(error: int): int { if error > 20000 then 20000 else if error < -20000 then -20000 else error }

  lemma ClampedLaw(p: Playback, target: int, n: nat)
    requires p.Valid() && Demand(p, target, n) < p.Buffered()
    ensures
      1000000.0 * (Steady(p, target, n).Level() - p.Level()) == -((n * Clamped(p.Buffered() - target)) as real)
  {
    hide Rate, Steady, Demand, NTimes;
    SteadyIs(p, target, n);
    RateLaw(p.Buffered(), target);
    TimesScaled(n, Rate(p.Buffered(), target) - 1.0, Clamped(p.Buffered() - target));
  }

  lemma NotShort(p: Playback, target: int, n: nat)
    requires p.Valid() && Steady(p, target, n).cursor.taken < p.total
    ensures Demand(p, target, n) < p.Buffered()
  {
    RateBounds(p.Buffered(), target);
    DemandIs(p, target, n);
    hide Rate, CursorAfter, NTimes, Demand;
    BlockConsumes(p.cursor, p.total, Rate(p.Buffered(), target), n);
  }

  lemma RateLaw(buffered: nat, target: int)
    ensures 1000000.0 * (Rate(buffered, target) - 1.0) == Clamped(buffered - target) as real
  {}

  lemma {:induction false} TimesScaled(n: nat, c: real, e: int)
    requires 1000000.0 * c == e as real
    ensures 1000000.0 * NTimes(n, c) == (n * e) as real
  {
    if n > 0 {
      TimesScaled(n - 1, c, e);
      assert n * e == (n - 1) * e + e;
    }
  }

  function Sum(ns: seq<nat>): nat { if ns == [] then 0 else Sum(ns[..|ns| - 1]) + ns[|ns| - 1] }

  /** No block is longer than a million outputs or runs the ring dry. */
  predicate Fed(p: Playback, target: int, ns: seq<nat>)
    requires p.Valid()
  {
    ns == [] ||
    var before, n := ns[..|ns| - 1], ns[|ns| - 1];
    && Fed(p, target, before) && n <= 1_000_000
    && var q := SteadyBlocks(p, target, before); Demand(q, target, n) < q.Buffered()
  }

  /** How far the fill is from the target. */
  function ErrorOf(p: Playback, target: int): (e: nat)
    requires p.Valid()
  {
    if p.Buffered() >= target then p.Buffered() - target else target - p.Buffered()
  }

  /** Convergence at the speed of the error: while the error is at least e, every output closes
      e millionths of a frame, so that it falls below e once outputs times e are a million for
      every frame above e, over any blocks that do not run the ring dry. */
  lemma ErrorFallsBelow(p: Playback, target: int, ns: seq<nat>, e: nat)
    requires p.Valid() && Fed(p, target, ns) && 1 <= e <= 20000
    requires Sum(ns) * e >= 1_000_000 * (ErrorOf(p, target) - e + 1)
    ensures ErrorOf(SteadyBlocks(p, target, ns), target) < e
  {
    LevelMoves(p, target, ns, e);
    hide SteadyBlocks, Fed, Sum;
  }

  /** Once a million outputs have been played for every frame of error the fill is exactly the
      target. */
  lemma FillReachesTarget(p: Playback, target: int, ns: seq<nat>)
    requires p.Valid() && Fed(p, target, ns)
    requires Sum(ns) >= 1_000_000 * ErrorOf(p, target)
    ensures SteadyBlocks(p, target, ns).Buffered() == target
  {
    ErrorFallsBelow(p, target, ns, 1);
    hide SteadyBlocks, Fed, Sum;
  }

  /** Two million outputs halve the error. */
  lemma ErrorHalves(p: Playback, target: int, ns: seq<nat>, e: nat)
    requires p.Valid() && Fed(p, target, ns) && 1 <= e <= 20000
    requires Sum(ns) >= 2_000_000 && ErrorOf(p, target) <= 2 * e
    ensures ErrorOf(SteadyBlocks(p, target, ns), target) < e
  {
    hide SteadyBlocks, Fed, Sum;
    MulMonotone(2_000_000, Sum(ns), e);
    ErrorFallsBelow(p, target, ns, e);
  }

  function Stages(p: Playback, target: int, nss: seq<seq<nat>>): (q: Playback)
    requires p.Valid()
    ensures q.Valid()
    decreases |nss|
  {
    if nss == [] then p else Stages(SteadyBlocks(p, target, nss[0]), target, nss[1..])
  }

  predicate AllFed(p: Playback, target: int, nss: seq<seq<nat>>)
    requires p.Valid()
    decreases |nss|
  {
    nss == [] || (Fed(p, target, nss[0]) && AllFed(SteadyBlocks(p, target, nss[0]), target, nss[1..]))
  }

  /** So an error of at most 2^k frames is gone after k stretches of two million outputs. */
  lemma {:induction false} HalvingReachesTarget(p: Playback, target: int, nss: seq<seq<nat>>)
    requires p.Valid() && AllFed(p, target, nss) && |nss| <= 15
    requires forall ns | ns in nss :: Sum(ns) >= 2_000_000
    requires ErrorOf(p, target) < Pow2(|nss|) + 1
    requires |nss| > 0
    ensures Stages(p, target, nss).Buffered() == target
    decreases |nss|
  {
    var q := SteadyBlocks(p, target, nss[0]);
    var e := Pow2(|nss| - 1);
    Pow2Monotone(|nss| - 1, 14);
    Pow2Of14();
    hide SteadyBlocks, Sum, Fed;
    assert Pow2(|nss|) == 2 * e;
    ErrorHalves(p, target, nss[0], e);
    if |nss| > 1 {
      HalvingReachesTarget(q, target, nss[1..]);
    }
  }

  lemma Pow2Of14()
    ensures Pow2(14) == 16384
  {
    assert Pow2(4) == 16;
    Pow2Add(4, 4);
    Pow2Add(8, 4);
    Pow2Add(12, 2);
    assert Pow2(2) == 4;
  }

  /** While the error is at least e, the level moves by e millionths of a frame an output. */
  lemma {:induction false} LevelMoves(p: Playback, target: int, ns: seq<nat>, e: nat)
    requires p.Valid() && Fed(p, target, ns) && 1 <= e <= 20000
    ensures
      var fill, q := p.Buffered(), SteadyBlocks(p, target, ns);
      var gain, least := 1000000.0 * (q.Level() - p.Level()), (Sum(ns) * e) as real;
      && (fill >= target ==> target <= q.Buffered() <= fill && (q.Buffered() >= target + e ==> gain <= -least))
      && (fill <= target ==> fill <= q.Buffered() <= target && (q.Buffered() <= target - e ==> gain >= least))
    decreases |ns|
  {
    if ns != [] {
      var before, n := ns[..|ns| - 1], ns[|ns| - 1];
      hide Rate, Steady, Demand;
      LevelMoves(p, target, before, e);
      var q := SteadyBlocks(p, target, before);
      FillMoves(q, target, n);
      OneBlockMoves(q, target, n, e);
      SumTimes(Sum(before), n, e);
      hide Fed;
    }
  }

  lemma SumTimes(a: nat, b: nat, e: nat)
    ensures (a + b) * e == a * e + b * e
  {}

  lemma OneBlockMoves(q: Playback, target: int, n: nat, e: nat)
    requires q.Valid() && n <= 1_000_000 && Demand(q, target, n) < q.Buffered() && 1 <= e <= 20000
    ensures
      var gain := 1000000.0 * (Steady(q, target, n).Level() - q.Level());
      && (q.Buffered() >= target + e ==> gain <= -((n * e) as real))
      && (q.Buffered() <= target - e ==> gain >= (n * e) as real)
  {
    hide Steady, Demand;
    ClampedLaw(q, target, n);
    ClampedAtLeast(n, q.Buffered() - target, e);
  }

  lemma ClampedAtLeast(n: nat, error: int, e: int)
    requires 1 <= e <= 20000
    ensures error >= e ==> n * Clamped(error) >= n * e
    ensures error <= -e ==> n * Clamped(error) <= -(n * e)
  {
    if error >= e {
      MulMonotone(e, Clamped(error), n);
    } else if error <= -e {
      MulMonotone(Clamped(error), -e, n);
    }
  }

  /** Blocks of at most m outputs do not run a ring dry whose fill and target are both two
      percent and a frame above m. */
  lemma {:induction false} DeepRingIsFed(p: Playback, target: int, ns: seq<nat>, m: nat)
    requires p.Valid() && m <= 1_000_000 && forall n | n in ns :: n <= m
    requires 100 * p.Buffered() >= 102 * m + 100 && 100 * target >= 102 * m + 100
    ensures Fed(p, target, ns)
    decreases |ns|
  {
    if ns != [] {
      var before, n := ns[..|ns| - 1], ns[|ns| - 1];
      forall n | n in before ensures n <= m { assert n in ns; }
      DeepRingIsFed(p, target, before, m);
      LevelMoves(p, target, before, 1);
      var q := SteadyBlocks(p, target, before);
      assert n in ns;
      DemandBelow(q, target, n);
    }
  }

  lemma DemandBelow(q: Playback, target: int, n: nat)
    requires q.Valid() && 100 * q.Buffered() >= 102 * n + 100
    ensures Demand(q, target, n) < q.Buffered()
  {
    hide Rate, NTimes, Demand;
    var rate := Rate(q.Buffered(), target);
    RateBounds(q.Buffered(), target);
    TimesAtMost(n, rate);
    DemandIs(q, target, n);
    FloorBelow(q.cursor.frac, NTimes(n, rate), n, q.Buffered());
  }

  lemma FloorBelow(frac: real, x: real, n: nat, buffered: nat)
    requires frac < 1.0 && 100.0 * x <= (102 * n) as real && 100 * buffered >= 102 * n + 100
    ensures (frac + x).Floor < buffered
  {
    assert 100.0 * (frac + x) < (100 * buffered) as real;
  }

  lemma {:induction false} TimesAtMost(n: nat, rate: real)
    requires rate <= 1.02
    ensures 100.0 * NTimes(n, rate) <= (102 * n) as real
  {
    if n > 0 { TimesAtMost(n - 1, rate); }
  }

  // ---- The processor -----------------------------------------------------------------

  /** Where frame i of the stream lies in the rings. */
  function Slot(i: nat): (k: nat)
    ensures k < CAP
  {
    i % CAP
  }

  lemma SlotMoves(i: nat, n: nat)
    requires n <= CAP
    ensures (Slot(i) + n) % CAP == Slot(i + n)
  {}

  lemma SlotsDiffer(k: nat, w: nat)
    requires k < w < k + CAP
    ensures Slot(k) != Slot(w)
  {}

  lemma DropTwice<T>(s: seq<T>, a: nat, b: nat)
    requires a + b <= |s|
    ensures s[a..][b..] == s[a + b..]
  {}

  lemma DropFront<T>(s: seq<T>, t: seq<T>, a: nat)
    requires a <= |s|
    ensures (s + t)[a..] == s[a..] + t
  {}

  /** e.data.frames || 14400, None for a message without a number. */
  function TargetOf(frames: Option<int>): (target: int)
    ensures target != 0 && (frames.None? || frames.value == 0 ==> target == 14400)
  {
    if frames.None? || frames.value == 0 then PREFILL else frames.value
  }

  class SolunaProcessor {
    const ringL: array<real>
    const ringR: array<real>
    var writePos: nat
    var readPos: nat
    var buffered: nat
    var prefillReached: bool
    var targetBufferFrames: int
    var fracPos: real

    // Every frame accepted since the last reset, and how many were consumed.
    ghost var stream: seq<Frame>
    ghost var taken: nat

    ghost predicate Valid()
      reads this, ringL, ringR
    {
      && ringL != ringR && ringL.Length == ringR.Length == CAP
      && taken + buffered == |stream| && buffered <= CAP
      && writePos == Slot(|stream|) && readPos == Slot(taken)
      && 0.0 <= fracPos < 1.0
      && Held(stream, taken)
    }

    /** What holds even after a message that did not fit has been written over frames not
        yet read: the rings hold the newest CAP frames of what is queued. */
    ghost predicate Consistent()
      reads this, ringL, ringR
    {
      && ringL != ringR && ringL.Length == ringR.Length == CAP
      && taken + buffered == |stream|
      && writePos == Slot(|stream|) && readPos == Slot(taken)
      && 0.0 <= fracPos < 1.0
      && Held(stream, Max(taken, |stream| - CAP))
    }

    ghost predicate Held(s: seq<Frame>, from: nat)
      reads ringL, ringR
    {
      && ringL.Length == ringR.Length == CAP
      && forall i: nat | from <= i < |s| :: ringL[Slot(i)] == s[i].0 && ringR[Slot(i)] == s[i].1
    }

    lemma HeldFrom(s: seq<Frame>, from: nat, later: nat)
      requires Held(s, from) && from <= later
      ensures Held(s, later)
    {}

    /** Accepted and not yet consumed, oldest first. */
    ghost function Queue(): seq<Frame>
      requires Valid()
      reads this, ringL, ringR
    {
      stream[taken..]
    }

    ghost function ReadCursor(): Cursor
      reads this
    {
      Cursor(taken, fracPos)
    }

    ghost function Now(): (p: Playback)
      requires Valid()
      reads this, ringL, ringR
      ensures p.Valid() && p.Buffered() == buffered
    {
      Playback(ReadCursor(), |stream|)
    }

    constructor ()
      ensures Valid() && Queue() == [] && !prefillReached && targetBufferFrames == 14400
      ensures fresh(ringL) && fresh(ringR)
    {
      ringL := new real[CAP];
      ringR := new real[CAP];
      writePos, readPos, buffered, fracPos := 0, 0, 0, 0.0;
      prefillReached, targetBufferFrames := false, PREFILL;
      stream, taken := [], 0;
    }

    /** A 'stereo' message, or a 'samples' message with both channels equal. Above
        the high-water mark it is dropped whole; otherwise it is queued. Nothing checks
        that it fits: if it does not, it replaces the oldest frames not yet read, while
        the count of buffered frames passes the capacity. */
    method Push(frames: seq<Frame>)
      requires Valid()
      modifies this`writePos, this`buffered, this`prefillReached, this`stream, ringL, ringR
      ensures Consistent() && (Valid() <==> buffered <= CAP)
      ensures buffered == FillAfter(old(buffered), Message(|frames|))
      ensures stream == if old(buffered) > 172800 then old(stream) else old(stream) + frames
      ensures Valid() ==> Queue() == if old(buffered) > 172800 then old(Queue()) else old(Queue()) + frames
      ensures prefillReached ==
        (old(prefillReached) || (old(buffered) <= 172800 && old(buffered) + |frames| >= 14400))
    {
      hide Slot, Held;
      if buffered > HIGH_WATER { return; }
      ghost var s0 := stream;
      assert Filling(s0);
      assert s0 + frames[..0] == s0;
      for i := 0 to |frames|
        invariant Filling(s0 + frames[..i])
        invariant stream == s0 && buffered == old(buffered) && prefillReached == old(prefillReached)
      {
        Put(frames[i], s0 + frames[..i]);
        assert frames[..i + 1] == frames[..i] + [frames[i]];
        assert s0 + frames[..i] + [frames[i]] == s0 + frames[..i + 1];
      }
      assert frames[..|frames|] == frames;
      DropFront(s0, frames, taken);
      stream := s0 + frames;
      buffered := buffered + |frames|;
      if !prefillReached && buffered >= PREFILL {
        prefillReached := true;
      }
    }

    /** The rings hold the newest frames of s from `taken` on, and writePos is its end. */
    ghost predicate Filling(s: seq<Frame>)
      reads this`writePos, this`taken, ringL, ringR
    {
      ringL != ringR && writePos == Slot(|s|) && Held(s, Max(taken, |s| - CAP))
    }

    method Put(frame: Frame, ghost s: seq<Frame>)
      requires Filling(s)
      modifies this`writePos, ringL, ringR
      ensures Filling(s + [frame])
    {
      hide Slot;
      ghost var w := |s|;
      forall k: nat | w < k + CAP && k < w ensures Slot(k) != Slot(w) { SlotsDiffer(k, w); }
      SlotMoves(w, 1);
      ringL[writePos] := frame.0;
      ringR[writePos] := frame.1;
      writePos := (writePos + 1) % CAP;
    }

    method Reset()
      requires Valid()
      modifies this
      ensures Valid() && Queue() == [] && !prefillReached && fracPos == 0.0
      ensures targetBufferFrames == old(targetBufferFrames)
    {
      writePos, readPos, buffered, prefillReached, fracPos := 0, 0, 0, false, 0.0;
      stream, taken := [], 0;
    }

    /** Moves the target, and neither the queue nor the cursor; what the new target then does
        to the fill is FillReachesTarget. */
    method SetTarget(frames: Option<int>)
      requires Valid()
      modifies this`targetBufferFrames
      ensures Valid() && targetBufferFrames == TargetOf(frames)
      ensures Queue() == old(Queue()) && Now() == old(Now())
      ensures forall ns |
        Fed(Now(), targetBufferFrames, ns) && Sum(ns) >= 1_000_000 * ErrorOf(Now(), targetBufferFrames) ::
        SteadyBlocks(Now(), targetBufferFrames, ns).Buffered() == targetBufferFrames
    {
      targetBufferFrames := TargetOf(frames);
      forall ns | Fed(Now(), targetBufferFrames, ns) && Sum(ns) >= 1_000_000 * ErrorOf(Now(), targetBufferFrames)
        ensures SteadyBlocks(Now(), targetBufferFrames, ns).Buffered() == targetBufferFrames
      {
        FillReachesTarget(Now(), targetBufferFrames, ns);
      }
    }

    method Skip(frames: nat)
      requires Valid()
      modifies this`readPos, this`buffered, this`taken
      ensures Valid() && Queue() == old(Queue())[Min(frames, |old(Queue())|)..]
    {
      var skip := Min(frames, buffered);
      SlotMoves(taken, skip);
      HeldFrom(stream, taken, taken + skip);
      hide Slot, Held;
      readPos := (readPos + skip) % CAP;
      buffered := buffered - skip;
      ghost var was := taken;
      taken := taken + skip;
      DropTwice(stream, was, skip);
    }

    /** One render quantum. Before the prefill is reached everything is silent and
        nothing moves; from then on output i is the queued frame under the read
        cursor after i outputs, or silence once the queue is exhausted. */
    method Process(outL: array<real>, outR: array<real>)
      requires Valid() && outL.Length == outR.Length
      requires {outL, outR} !! {ringL, ringR}
      modifies this`readPos, this`buffered, this`fracPos, this`taken, outL, outR
      ensures Valid() && old(taken) <= |stream|
      ensures !prefillReached ==>
        ReadCursor() == old(ReadCursor()) && forall i | 0 <= i < outL.Length :: outL[i] == outR[i] == 0.0
      ensures prefillReached ==> 0.0 <= Rate(old(buffered), targetBufferFrames)
      ensures prefillReached ==>
        ReadCursor() == CursorAfter(old(ReadCursor()), |stream|, Rate(old(buffered), targetBufferFrames), outL.Length)
      ensures prefillReached ==> forall i | 0 <= i < outL.Length ::
        Output(old(ReadCursor()), Rate(old(buffered), targetBufferFrames), i, outL, outR)
    {
      if !prefillReached {
        for i := 0 to outL.Length
          invariant forall k | 0 <= k < i :: outL[k] == outR[k] == 0.0
          invariant Valid() && ReadCursor() == old(ReadCursor())
        {
          outL[i], outR[i] := 0.0, 0.0;
        }
      } else {
        RateBounds(buffered, targetBufferFrames);
        hide Rate;
        Play(Rate(buffered, targetBufferFrames), outL, outR);
      }
    }

    method Play(rate: real, outL: array<real>, outR: array<real>)
      requires Valid() && outL.Length == outR.Length && rate >= 0.0
      requires {outL, outR} !! {ringL, ringR}
      modifies this`readPos, this`buffered, this`fracPos, this`taken, outL, outR
      ensures Valid() && old(taken) <= |stream|
      ensures ReadCursor() == CursorAfter(old(ReadCursor()), |stream|, rate, outL.Length)
      ensures forall i | 0 <= i < outL.Length :: Output(old(ReadCursor()), rate, i, outL, outR)
    {
      hide Advance;
      ghost var c := ReadCursor();
      for i := 0 to outL.Length
        invariant Valid() && ReadCursor() == CursorAfter(c, |stream|, rate, i)
        invariant forall k | 0 <= k < i :: Output(c, rate, k, outL, outR)
      {
        label before:
        Emit(i, rate, outL, outR);
        assert Output(c, rate, i, outL, outR);
        forall k | 0 <= k < i ensures Output(c, rate, k, outL, outR) {
          assert old@before(Output(c, rate, k, outL, outR));
          assert outL[k] == old@before(outL[k]) && outR[k] == old@before(outR[k]);
        }
      }
    }

    /** The loop body of process. */
    method Emit(i: nat, rate: real, outL: array<real>, outR: array<real>)
      requires Valid() && i < outL.Length == outR.Length && {outL, outR} !! {ringL, ringR} && rate >= 0.0
      modifies this`readPos, this`buffered, this`fracPos, this`taken, outL, outR
      ensures Valid() && old(taken) <= |stream|
      ensures ReadCursor() == Advance(old(ReadCursor()), |stream|, rate)
      ensures outR[i] == (if old(taken) < |stream| then stream[old(taken)].1 else 0.0)
      ensures outL != outR ==> outL[i] == (if old(taken) < |stream| then stream[old(taken)].0 else 0.0)
      ensures forall k | 0 <= k < outL.Length && k != i :: outL[k] == old(outL[k]) && outR[k] == old(outR[k])
    {
      if buffered > 0 {
        outL[i] := ringL[readPos];
        outR[i] := ringR[readPos];
        MoveOn(rate);
      } else {
        outL[i] := 0.0;
        outR[i] := 0.0;
      }
    }

    method MoveOn(rate: real)
      requires Valid() && buffered > 0 && rate >= 0.0
      modifies this`readPos, this`buffered, this`fracPos, this`taken
      ensures Valid() && ReadCursor() == Advance(old(ReadCursor()), |stream|, rate)
    {
      fracPos := fracPos + rate;
      var advance := fracPos.Floor;
      fracPos := fracPos - advance as real;
      var actualAdvance := Min(advance, buffered);
      SlotMoves(taken, actualAdvance);
      HeldFrom(stream, taken, taken + actualAdvance);
      hide Slot, Held;
      readPos := (readPos + actualAdvance) % CAP;
      buffered := buffered - actualAdvance;
      taken := taken + actualAdvance;
    }

    ghost predicate Output(c: Cursor, rate: real, i: nat, outL: array<real>, outR: array<real>)
      requires c.taken <= |stream| && 0.0 <= c.frac < 1.0 && 0.0 <= rate
      requires i < outL.Length == outR.Length
      reads this, outL, outR
    {
      var at := CursorAfter(c, |stream|, rate, i).taken;
      && outR[i] == (if at < |stream| then stream[at].1 else 0.0)
      && (outL != outR ==> outL[i] == if at < |stream| then stream[at].0 else 0.0)
    }
  }

  // ---- Which messages fit, over every run ---------------------------------------------

  // What happens to the fill: a message arrives, or frames are consumed.
  datatype Event = Message(len: nat) | Consume(n: nat)

  function FillAfter(buffered: nat, e: Event): nat {
    match e
    case Message(len) => if buffered > HIGH_WATER then buffered else buffered + len
    case Consume(n) => buffered - Min(n, buffered)
  }

  function Fill(es: seq<Event>): nat {
    if es == [] then 0 else FillAfter(Fill(es[..|es| - 1]), es[|es| - 1])
  }

  /** No message is longer than bound. */
  predicate UpTo(es: seq<Event>, bound: nat) {
    forall i | 0 <= i < |es| && es[i].Message? :: es[i].len <= bound
  }

  /** The ring never overflows, from reset on and whatever is consumed in between, if and
      only if no message has more than 19200 frames. */
  lemma NeverOverflowsIff(bound: nat)
    ensures (forall es | UpTo(es, bound) :: Fill(es) <= CAP) <==> bound <= 19200
  {
    if bound <= 19200 {
      forall es | UpTo(es, bound) ensures Fill(es) <= CAP { ShortMessagesFit(es, bound); }
    } else {
      ToHighWater(9);
      var start := Repeated(9);
      var es := start + [Message(bound)];
      assert es[..|es| - 1] == start;
      assert Fill(es) == HIGH_WATER + bound;
      assert UpTo(es, bound);
    }
  }

  lemma {:induction false} ShortMessagesFit(es: seq<Event>, bound: nat)
    requires UpTo(es, bound) && bound <= 19200
    ensures Fill(es) <= CAP
  {
    if es != [] { ShortMessagesFit(es[..|es| - 1], bound); }
  }

  /** Messages of 19200 frames. */
  function Repeated(n: nat): seq<Event> { seq(n, _ => Message(19200)) }

  lemma {:induction false} ToHighWater(n: nat)
    requires n <= 9
    ensures Fill(Repeated(n)) == 19200 * n
  {
    if n > 0 {
      ToHighWater(n - 1);
      assert Repeated(n)[..n - 1] == Repeated(n - 1);
    }
  }
}
