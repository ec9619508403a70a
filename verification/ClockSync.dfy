// The four-timestamp clock offset of linux-rx and its smoothing: section 8 of
// RFC 5905. Doubles are reals; 64-bit wrap-around and truncation are explicit.

module ClockSync {
  import opened Bits
  import opened Common
  import opened Words

  const TWO_64: nat := 0x1_0000_0000_0000_0000
  const TWO_63: int := 0x8000_0000_0000_0000
  const TWO_62: int := 0x4000_0000_0000_0000
  const MAX_RTT_NS := 500_000_000
  const SYNC_MARKER := 0x7D

  /** Reading an unsigned 64-bit difference as int64_t. */
  function Signed64(x: int): int {
    var u := x % TWO_64;
    if u >= TWO_63 then u - TWO_64 else u
  }

  /** C integer division by two, towards zero. */
  function Half(x: int): int {
    if x >= 0 then x / 2 else -((-x) / 2)
  }

  datatype State = State(offset: int, pings: nat)

  function Smooth(prev: int, offset: int, alpha: real): int {
    Truncate(prev as real * (1.0 - alpha) + offset as real * alpha)
  }

  function Offset(t1: nat, t2: nat, t3: nat, t4: nat): int {
    Half(Signed64(t2 - t1) + Signed64(t3 - t4))
  }

  function Rtt(t1: nat, t2: nat, t3: nat, t4: nat): int {
    Signed64(t4 - t1) - Signed64(t3 - t2)
  }

  predicate Accepted(t1: nat, t2: nat, t3: nat, t4: nat) {
    t2 != 0 && t3 != 0 && 0 <= Rtt(t1, t2, t3, t4) <= MAX_RTT_NS
  }

  function OnTimestamps(s: State, t1: nat, t2: nat, t3: nat, t4: nat): State {
    if !Accepted(t1, t2, t3, t4) then s
    else
      var offset := Offset(t1, t2, t3, t4);
      var count := (s.pings + 1) % 0x1_0000_0000;
      State(if count == 1 then offset
            else if count <= 10 then Smooth(s.offset, offset, 0.3)
            else Smooth(s.offset, offset, 0.1), count)
  }

  /** memcpy of a little-endian uint64_t. */
  function LeU64(p: seq<Byte>, i: nat, n: nat): nat
    requires i + n <= |p|
    decreases n
  {
    if n == 0 then 0 else p[i] as int + 256 * LeU64(p, i + 1, n - 1)
  }

  /** What a datagram received at t4 does. */
  function OnDatagram(s: State, data: seq<Byte>, t4: nat): State {
    if |data| < 25 || data[0] != SYNC_MARKER then s
    else OnTimestamps(s, LeU64(data, 1, 8), LeU64(data, 9, 8), LeU64(data, 17, 8), t4)
  }

  /** g_clock_offset_ns and g_sync_ping_count. */
  class ClockSync {
    var clockOffsetNs: int
    var syncPingCount: nat

    function Value(): State
      reads this
    {
      State(clockOffsetNs, syncPingCount)
    }

    constructor ()
      ensures Value() == State(0, 0)
    {
      clockOffsetNs, syncPingCount := 0, 0;
    }

    /** handle_sync_pong; t4 is the local clock at the call. */
    method HandleSyncPong(data: seq<Byte>, t4: nat)
      modifies this
      ensures Value() == OnDatagram(old(Value()), data, t4)
    {
      hide LeU64, Smooth, Signed64, Half, Truncate;
      if |data| < 25 || data[0] != 0x7D { return; }
      var t1: int, t2: int, t3: int := LeU64(data, 1, 8), LeU64(data, 9, 8), LeU64(data, 17, 8);
      if t2 == 0 || t3 == 0 { return; }
      var offset := Half(Signed64(t2 - t1) + Signed64(t3 - t4));
      var rtt := Signed64(t4 - t1) - Signed64(t3 - t2);
      if rtt < 0 || rtt > 500_000_000 { return; }
      var prev := clockOffsetNs;
      syncPingCount := (syncPingCount + 1) % 0x1_0000_0000;
      if syncPingCount == 1 {
        clockOffsetNs := offset;
      } else if syncPingCount <= 10 {
        clockOffsetNs := Smooth(prev, offset, 0.3);
      } else {
        clockOffsetNs := Smooth(prev, offset, 0.1);
      }
    }
  }

  // ---- On the wire -----------------------------------------------------------------

  /** memcpy of a uint64_t on a little-endian host. */
  function LeBytes(x: nat, n: nat): (b: seq<Byte>)
    ensures |b| == n
  {
    if n == 0 then [] else [x % 256] + LeBytes(x / 256, n - 1)
  }

  /** send_sync_ping */
  function Ping(t1: nat): seq<Byte> { [0x7D] + LeBytes(t1, 8) + LeBytes(0, 16) }

  /** handle_sync_packet, the relay's side. */
  function Pong(data: seq<Byte>, t2: nat, t3: nat): Option<seq<Byte>> {
    if |data| < 25 || data[0] != 0x7D then None
    else Some(data[..9] + LeBytes(t2, 8) + LeBytes(t3, 8))
  }

  lemma {:induction false} LeRoundTrip(p: seq<Byte>, i: nat, x: nat, n: nat)
    requires i + n <= |p| && x < Pow2(8 * n) && forall k | 0 <= k < n :: p[i + k] == LeBytes(x, n)[k]
    ensures LeU64(p, i, n) == x
    decreases n
  {
    if n > 0 {
      Pow2Add(8, 8 * (n - 1));
      Pow2Of8();
      var rest := LeBytes(x / 256, n - 1);
      assert LeBytes(x, n) == [x % 256] + rest;
      hide Pow2;
      assert p[i + 0] == LeBytes(x, n)[0] == x % 256;
      forall k | 0 <= k < n - 1 ensures p[i + 1 + k] == rest[k] { assert p[i + (k + 1)] == LeBytes(x, n)[k + 1]; }
      LeRoundTrip(p, i + 1, x / 256, n - 1);
    }
  }

  lemma Pow2Of8()
    ensures Pow2(8) == 256
  {
    assert Pow2(4) == 16;
    Pow2Add(4, 4);
  }

  lemma Pow2Of64()
    ensures Pow2(64) == TWO_64
  {
    Pow2Of32();
    Pow2Add(32, 32);
  }

  /** A ping that the relay answers brings the four timestamps to the receiver. */
  lemma PingPong(s: State, t1: nat, t2: nat, t3: nat, t4: nat)
    requires t1 < TWO_64 && t2 < TWO_64 && t3 < TWO_64
    ensures |Ping(t1)| == 25 && OnDatagram(s, Ping(t1), t4) == s
    ensures Pong(Ping(t1), t2, t3).Some? && |Pong(Ping(t1), t2, t3).value| == 25
    ensures OnDatagram(s, Pong(Ping(t1), t2, t3).value, t4) == OnTimestamps(s, t1, t2, t3, t4)
  {
    hide LeBytes, LeU64, OnTimestamps, Pow2;
    var p := Pong(Ping(t1), t2, t3).value;
    Pow2Of64();
    LeRoundTrip(p, 1, t1, 8);
    LeRoundTrip(p, 9, t2, 8);
    LeRoundTrip(p, 17, t3, 8);
    Unanswered(s, t1, t4);
  }

  /** A ping that comes back as it was sent is ignored. */
  lemma Unanswered(s: State, t1: nat, t4: nat)
    ensures OnDatagram(s, Ping(t1), t4) == s
  {
    hide Pow2, Smooth, LeU64;
    var p := Ping(t1);
    forall k | 0 <= k < 8 ensures p[9 + k] == LeBytes(0, 8)[k] {
      LeZeros(8, k);
      LeZeros(16, k);
      assert p[9 + k] == LeBytes(0, 16)[k];
    }
    Pow2Of64();
    LeRoundTrip(p, 9, 0, 8);
  }

  lemma {:induction false} LeZeros(n: nat, k: nat)
    requires k < n
    ensures LeBytes(0, n)[k] == 0
  {
    if k > 0 { LeZeros(n - 1, k - 1); }
  }

  // ---- The physics -------------------------------------------------------------

  // One exchange: sent at true local time `sent`, `up` on the way, `held` at the
  // relay, `down` on the way back.
  datatype Exchange = Exchange(sent: nat, up: nat, held: nat, down: nat)

  /** The four 64-bit timestamps when the relay's clock is `theta` ahead. */
  function T1(e: Exchange): nat { e.sent % TWO_64 }
  function T2(e: Exchange, theta: int): nat { (e.sent + e.up + theta) % TWO_64 }
  function T3(e: Exchange, theta: int): nat { (e.sent + e.up + e.held + theta) % TWO_64 }
  function T4(e: Exchange): nat { (e.sent + e.up + e.held + e.down) % TWO_64 }

  /** The intervals fit the 64-bit arithmetic, so that no sum overflows. */
  predicate Representable(e: Exchange, theta: int) {
    && -TWO_62 <= theta - e.down && theta + e.up < TWO_62
    && e.up + e.held + e.down < TWO_63
  }

  lemma SignedDifference(x: int, y: int)
    requires -TWO_63 <= x - y < TWO_63
    ensures Signed64(x % TWO_64 - y % TWO_64) == x - y
  {
    var k := (x - y) - (x % TWO_64 - y % TWO_64);
    assert k == TWO_64 * (x / TWO_64 - y / TWO_64);
    assert (x % TWO_64 - y % TWO_64) % TWO_64 == (x - y) % TWO_64;
  }

  /** A measurement is within half its round trip of the truth, rounded up to
      whole nanoseconds because the division by two truncates. */
  lemma MeasurementWithinHalfRtt(e: Exchange, theta: int)
    requires Representable(e, theta)
    ensures
      var t1, t2, t3, t4 := T1(e), T2(e, theta), T3(e, theta), T4(e);
      && Rtt(t1, t2, t3, t4) == e.up + e.down
      && -(e.up + e.down + 1) <= 2 * (Offset(t1, t2, t3, t4) - theta) <= e.up + e.down + 1
  {
    hide Signed64, Half, T1, T2, T3, T4;
    Differences(e, theta);
    HalfBetween(2 * theta + e.up - e.down, theta, e.up + e.down);
  }

  /** The four differences the code forms, free of wrap-around. */
  lemma Differences(e: Exchange, theta: int)
    requires Representable(e, theta)
    ensures Signed64(T2(e, theta) - T1(e)) == theta + e.up
    ensures Signed64(T3(e, theta) - T4(e)) == theta - e.down
    ensures Signed64(T4(e) - T1(e)) == e.up + e.held + e.down
    ensures Signed64(T3(e, theta) - T2(e, theta)) == e.held
  {
    hide Signed64;
    SignedDifference(e.sent + e.up + theta, e.sent);
    SignedDifference(e.sent + e.up + e.held + theta, e.sent + e.up + e.held + e.down);
    SignedDifference(e.sent + e.up + e.held + e.down, e.sent);
    SignedDifference(e.sent + e.up + e.held + theta, e.sent + e.up + theta);
  }

  /** Halving drops the half, on either side of zero. */
  lemma HalfTowardsZero(x: int)
    ensures 0 <= x ==> 0 <= 2 * Half(x) <= x <= 2 * Half(x) + 1
    ensures x <= 0 ==> 2 * Half(x) - 1 <= x <= 2 * Half(x) <= 0
  {}

  lemma HalfBetween(x: int, theta: int, rtt: int)
    requires 2 * theta - rtt <= x <= 2 * theta + rtt
    ensures -(rtt + 1) <= 2 * (Half(x) - theta) <= rtt + 1
  {}

  /** A truncated smoothing step stays between any integers that bound both values. */
  lemma SmoothStaysInHull(prev: int, offset: int, alpha: real, lo: int, hi: int)
    requires alpha == 0.3 || alpha == 0.1
    requires lo <= prev <= hi && lo <= offset <= hi
    ensures lo <= Smooth(prev, offset, alpha) <= hi
  {
    var p, o := prev as real, offset as real;
    if alpha == 0.3 {
      TruncateStaysInHull(p * 0.7 + o * 0.3, lo, hi);
    } else {
      TruncateStaysInHull(p * 0.9 + o * 0.1, lo, hi);
    }
  }

  /** The smoothed offset moves three tenths, or one tenth, of the way to the measurement,
      truncated to a nanosecond. */
  lemma SmoothingGain(prev: int, offset: int)
    ensures -10 <= 10 * (Smooth(prev, offset, 0.3) - prev) - 3 * (offset - prev) <= 10
    ensures -10 <= 10 * (Smooth(prev, offset, 0.1) - prev) - (offset - prev) <= 10
  {
    var p, o := prev as real, offset as real;
    TruncateIsNear(p * 0.7 + o * 0.3);
    TruncateIsNear(p * 0.9 + o * 0.1);
    hide Truncate;
  }

  lemma TruncateIsNear(r: real)
    ensures r - 1.0 < Truncate(r) as real < r + 1.0
  {}

  /** What the k-th accepted pong does to the offset: the first sets it, the next nine move it
      three tenths of the way to the measurement, the later ones one tenth. */
  lemma PongMovesOffset(s: State, t1: nat, t2: nat, t3: nat, t4: nat)
    requires Accepted(t1, t2, t3, t4)
    ensures
      var k, m := (s.pings + 1) % 0x1_0000_0000, Offset(t1, t2, t3, t4);
      var t := OnTimestamps(s, t1, t2, t3, t4);
      var moved, error := t.offset - s.offset, m - s.offset;
      && t.pings == k
      && (k == 1 ==> t.offset == m)
      && (k != 1 && k <= 10 ==> -10 <= 10 * moved - 3 * error <= 10)
      && (k > 10 ==> -10 <= 10 * moved - error <= 10)
  {
    hide Offset, Rtt, Smooth;
    SmoothingGain(s.offset, Offset(t1, t2, t3, t4));
  }

  // ---- Runs ------------------------------------------------------------------------

  function Step(s: State, e: Exchange, theta: int): State {
    OnTimestamps(s, T1(e), T2(e, theta), T3(e, theta), T4(e))
  }

  predicate Counts(e: Exchange, theta: int) {
    Accepted(T1(e), T2(e, theta), T3(e, theta), T4(e))
  }

  function Run(s: State, es: seq<Exchange>, theta: int): State {
    if es == [] then s else Step(Run(s, es[..|es| - 1], theta), es[|es| - 1], theta)
  }

  /** What the four timestamps of an exchange give for the offset. */
  function Measured(e: Exchange, theta: int): int { Offset(T1(e), T2(e, theta), T3(e, theta), T4(e)) }

  /** An accepted pong replaces the offset by the measurement, the first one always, or
      smooths it; others change nothing. */
  lemma StepCases(s: State, e: Exchange, theta: int)
    ensures !Counts(e, theta) ==> Step(s, e, theta) == s
    ensures Counts(e, theta) ==>
      var next, o := Step(s, e, theta).offset, Measured(e, theta);
      next == o || (s.pings > 0 && (next == Smooth(s.offset, o, 0.3) || next == Smooth(s.offset, o, 0.1)))
  {
    hide Offset, Rtt, Smooth, T1, T2, T3, T4;
  }

  lemma MeasurementNear(e: Exchange, theta: int, h: nat)
    requires Representable(e, theta) && e.up + e.down <= 2 * h
    ensures theta - h <= Measured(e, theta) <= theta + h
  {
    MeasurementWithinHalfRtt(e, theta);
    hide Offset, Rtt, T1, T2, T3, T4, Representable;
  }

  /** What the limit on round trips says about the delays. */
  lemma AcceptedDelays(e: Exchange, theta: int)
    requires Representable(e, theta) && Counts(e, theta)
    ensures e.up + e.down <= 500_000_000
  {
    MeasurementWithinHalfRtt(e, theta);
    hide Offset, Rtt, T1, T2, T3, T4, Representable;
  }

  lemma StepBound(s: State, e: Exchange, theta: int, had: bool)
    requires Representable(e, theta)
    requires had ==> theta - 250_000_000 <= s.offset <= theta + 250_000_000
    requires !had ==> s.pings == 0
    ensures Counts(e, theta) || had ==> theta - 250_000_000 <= Step(s, e, theta).offset <= theta + 250_000_000
    ensures !Counts(e, theta) ==> Step(s, e, theta) == s
  {
    hide *;
    StepCases(s, e, theta);
    if Counts(e, theta) {
      AcceptedDelays(e, theta);
      var o, lo, hi := Measured(e, theta), theta - 250_000_000, theta + 250_000_000;
      MeasurementNear(e, theta, 250_000_000);
      if had {
        SmoothStaysInHull(s.offset, o, 0.3, lo, hi);
        SmoothStaysInHull(s.offset, o, 0.1, lo, hi);
      }
    }
  }

  /** For a constant true offset and any delays: after any run in which at least one
      pong was accepted, the smoothed offset is within 250 ms of the truth. */
  lemma {:induction false} SmoothedOffsetBound(es: seq<Exchange>, theta: int)
    requires forall e | e in es :: Representable(e, theta)
    ensures (exists e :: e in es && Counts(e, theta)) ==>
      theta - 250_000_000 <= Run(State(0, 0), es, theta).offset <= theta + 250_000_000
    ensures !(exists e :: e in es && Counts(e, theta)) ==> Run(State(0, 0), es, theta) == State(0, 0)
  {
    if es != [] {
      var before, last := es[..|es| - 1], es[|es| - 1];
      SmoothedOffsetBound(before, theta);
      var had := exists e :: e in before && Counts(e, theta);
      hide Counts, Step, Representable;
      StepBound(Run(State(0, 0), before, theta), last, theta, had);
      assert es == before + [last];
    }
  }

  /** Distance of a value from the interval [theta - h, theta + h]. */
  function Beyond(offset: int, theta: int, h: nat): nat {
    if offset > theta + h then offset - (theta + h)
    else if offset < theta - h then theta - h - offset
    else 0
  }

  /** Steady-state convergence: a pong whose round trip is at most 2h takes the
      distance from [theta - h, theta + h] down to nine tenths, plus at most one
      nanosecond of truncation. */
  lemma ConvergesToDelayBound(s: State, e: Exchange, theta: int, h: nat)
    requires Representable(e, theta) && Counts(e, theta) && e.up + e.down <= 2 * h
    ensures 10 * Beyond(Step(s, e, theta).offset, theta, h) <= 9 * Beyond(s.offset, theta, h) + 10
  {
    hide Step, Smooth, Representable, Counts;
    StepCases(s, e, theta);
    MeasurementNear(e, theta, h);
    SmoothContracts(s.offset, Measured(e, theta), 0.3, theta, h);
    SmoothContracts(s.offset, Measured(e, theta), 0.1, theta, h);
  }

  lemma SmoothContracts(prev: int, offset: int, alpha: real, theta: int, h: nat)
    requires alpha == 0.3 || alpha == 0.1
    requires Beyond(offset, theta, h) == 0
    ensures 10 * Beyond(Smooth(prev, offset, alpha), theta, h) <= 9 * Beyond(prev, theta, h) + 10
  {
    var p, o := prev as real, offset as real;
    if alpha == 0.3 {
      TruncatedContracts(p * 0.7 + o * 0.3, prev, offset, theta, h);
    } else {
      TruncatedContracts(p * 0.9 + o * 0.1, prev, offset, theta, h);
    }
  }

  lemma TruncatedContracts(r: real, prev: int, offset: int, theta: int, h: nat)
    requires Beyond(offset, theta, h) == 0
    requires
      var d := 0.9 * Beyond(prev, theta, h) as real;
      (theta - h) as real - d <= r <= (theta + h) as real + d
    ensures 10 * Beyond(Truncate(r), theta, h) <= 9 * Beyond(prev, theta, h) + 10
  {
    var t := Truncate(r);
    assert r - 1.0 <= t as real <= r + 1.0;
  }

  /** The accepted pongs of a run. */
  function Count(es: seq<Exchange>, theta: int): nat {
    if es == [] then 0 else Count(es[..|es| - 1], theta) + if Counts(es[|es| - 1], theta) then 1 else 0
  }

  /** Every accepted pong has a round trip of at most 2h. */
  predicate Quick(es: seq<Exchange>, theta: int, h: nat) {
    forall e | e in es :: Representable(e, theta) && (Counts(e, theta) ==> e.up + e.down <= 2 * h)
  }

  /** The most nanoseconds beyond the last ten that n steps take away. */
  function Cleared(n: nat): nat { if n == 0 then 0 else (10 * Cleared(n - 1) + 9) / 9 }

  /** Seven steps halve the distance. */
  lemma {:induction false} SevenHalve(k: nat)
    ensures Cleared(7 * k) >= Pow2(k) - 1
  {
    if k > 0 {
      SevenHalve(k - 1);
      PowDoubles(k);
      hide Pow2, Cleared;
      SevenSteps(7 * (k - 1));
    }
  }

  lemma SevenSteps(n: nat)
    ensures Cleared(n + 7) >= 2 * Cleared(n) + 1
  {
    hide Cleared;
    ClearsTenth(n);
    ClearsTenth(n + 1);
    ClearsTenth(n + 2);
    ClearsTenth(n + 3);
    ClearsTenth(n + 4);
    ClearsTenth(n + 5);
    ClearsTenth(n + 6);
  }

  lemma PowDoubles(k: nat)
    requires k > 0
    ensures Pow2(k) == 2 * Pow2(k - 1)
  {}

  lemma ClearsTenth(n: nat)
    ensures 9 * Cleared(n + 1) >= 10 * Cleared(n) + 1
  {}

  lemma {:induction false} ClearedGrows(n: nat, m: nat)
    requires n <= m
    ensures Cleared(n) <= Cleared(m)
    decreases m
  {
    if n < m {
      ClearedGrows(n, m - 1);
      ClearsTenth(m - 1);
    }
  }

  lemma OneMoreCleared(before: nat, after: nat, n: nat)
    requires 10 * after <= 9 * before + 10 && before <= 10 + Cleared(n)
    ensures after <= 10 + Cleared(if n > 0 then n - 1 else 0)
  {}

  lemma StepClears(s: State, e: Exchange, theta: int, h: nat, n: nat)
    requires Representable(e, theta) && (Counts(e, theta) ==> e.up + e.down <= 2 * h)
    requires Beyond(s.offset, theta, h) <= 10 + Cleared(n)
    ensures
      Beyond(Step(s, e, theta).offset, theta, h) <= 10 + Cleared(if Counts(e, theta) && n > 0 then n - 1 else n)
  {
    hide *;
    StepCases(s, e, theta);
    if Counts(e, theta) {
      ConvergesToDelayBound(s, e, theta, h);
      OneMoreCleared(Beyond(s.offset, theta, h), Beyond(Step(s, e, theta).offset, theta, h), n);
    }
  }

  /** After as many quick pongs as it takes, and for good: h + 10 ns. */
  lemma {:induction false} RunClears(s: State, es: seq<Exchange>, theta: int, h: nat, n: nat)
    requires Quick(es, theta, h) && Beyond(s.offset, theta, h) <= 10 + Cleared(n)
    ensures
      var c := Count(es, theta);
      Beyond(Run(s, es, theta).offset, theta, h) <= 10 + Cleared(if c < n then n - c else 0)
    decreases |es|
  {
    if es != [] {
      var before, e := es[..|es| - 1], es[|es| - 1];
      QuickSplits(es, theta, h);
      hide Step, Counts, Cleared, Beyond, Representable, Quick;
      RunClears(s, before, theta, h, n);
      var c := Count(before, theta);
      StepClears(Run(s, before, theta), e, theta, h, if c < n then n - c else 0);
    }
  }

  lemma QuickSplits(es: seq<Exchange>, theta: int, h: nat)
    requires es != [] && Quick(es, theta, h)
    ensures
      var e := es[|es| - 1];
      && Quick(es[..|es| - 1], theta, h)
      && Representable(e, theta) && (Counts(e, theta) ==> e.up + e.down <= 2 * h)
  {
    hide Counts, Representable;
    assert es[|es| - 1] in es && forall x | x in es[..|es| - 1] :: x in es;
  }

  /** Convergence from anywhere: an offset less than 2^k ns beyond h + 10 of the truth is
      within that after 7k accepted pongs of round trips of at most 2h, and stays there. */
  lemma SettlesWithinDelayBound(s: State, es: seq<Exchange>, theta: int, h: nat, k: nat)
    requires Quick(es, theta, h) && Count(es, theta) >= 7 * k
    requires Beyond(s.offset, theta, h) < 10 + Pow2(k)
    ensures theta - (h + 10) <= Run(s, es, theta).offset <= theta + (h + 10)
  {
    hide Quick, Count, Run, Pow2, Cleared;
    SevenHalve(k);
    RunClears(s, es, theta, h, 7 * k);
    assert Cleared(0) == 0 by { NoneCleared(); }
  }

  lemma NoneCleared()
    ensures Cleared(0) == 0
  {}

  lemma {:induction false} RunConcat(s: State, es: seq<Exchange>, fs: seq<Exchange>, theta: int)
    ensures Run(s, es + fs, theta) == Run(Run(s, es, theta), fs, theta)
    decreases |fs|
  {
    if fs == [] {
      assert es + fs == es;
    } else {
      var before := fs[..|fs| - 1];
      hide Step;
      RunConcat(s, es, before, theta);
      assert (es + fs)[..|es + fs| - 1] == es + before;
    }
  }

  /** From the start, whatever the network did before: 196 accepted pongs with round trips of
      at most 2h bring the offset within h + 10 ns of the truth. */
  lemma SettlesAfter196(es: seq<Exchange>, fs: seq<Exchange>, theta: int, h: nat)
    requires forall e | e in es :: Representable(e, theta)
    requires Quick(fs, theta, h) && Count(fs, theta) >= 196
    requires exists e :: e in es && Counts(e, theta)
    ensures theta - (h + 10) <= Run(State(0, 0), es + fs, theta).offset <= theta + (h + 10)
  {
    hide Run, Quick, Count, Counts, Representable, Pow2;
    SmoothedOffsetBound(es, theta);
    RunConcat(State(0, 0), es, fs, theta);
    Pow2Of28();
    SettlesWithinDelayBound(Run(State(0, 0), es, theta), fs, theta, h, 28);
  }

  lemma Pow2Of28()
    ensures Pow2(28) == 0x1000_0000
  {
    assert Pow2(4) == 16;
    Pow2Add(4, 4);
    Pow2Add(8, 4);
    Pow2Add(12, 12);
    Pow2Add(24, 4);
  }

  /** A pong is accepted exactly when its round trip takes at most half a second (and neither
      of the relay's clocks reads zero). */
  lemma AcceptedIffQuick(e: Exchange, theta: int)
    requires Representable(e, theta)
    ensures Counts(e, theta) <==> e.up + e.down <= 500_000_000 && T2(e, theta) != 0 && T3(e, theta) != 0
  {
    MeasurementWithinHalfRtt(e, theta);
    hide Offset, Rtt, T1, T2, T3, T4, Representable;
  }

  lemma {:induction false} PingsAreCounted(es: seq<Exchange>, theta: int)
    ensures Run(State(0, 0), es, theta).pings == Count(es, theta) % 0x1_0000_0000
    decreases |es|
  {
    if es != [] {
      var before, e := es[..|es| - 1], es[|es| - 1];
      PingsAreCounted(before, theta);
      hide Offset, Rtt, Smooth, T1, T2, T3, T4;
      OneMoreCounted(Count(before, theta));
    }
  }

  lemma OneMoreCounted(n: nat)
    ensures (n % 0x1_0000_0000 + 1) % 0x1_0000_0000 == (n + 1) % 0x1_0000_0000
  {}

  /** From the eleventh accepted pong on (until the 32-bit count wraps), a measurement that is
      `error` off the offset moves it by a tenth of that, up to a nanosecond: one outlier
      never throws a settled offset. */
  lemma OutlierIsDamped(es: seq<Exchange>, e: Exchange, theta: int)
    requires Counts(e, theta) && 10 <= Count(es, theta) < 0xFFFF_FFFF
    ensures
      var p := Run(State(0, 0), es, theta).offset;
      var moved, error := Run(State(0, 0), es + [e], theta).offset - p, Measured(e, theta) - p;
      -10 <= 10 * moved - error <= 10
  {
    hide Run, Count, Counts, Step, Measured;
    PingsAreCounted(es, theta);
    RunOneMore(State(0, 0), es, e, theta);
    LatePongMoves(Run(State(0, 0), es, theta), e, theta);
  }

  lemma RunOneMore(s: State, es: seq<Exchange>, e: Exchange, theta: int)
    ensures Run(s, es + [e], theta) == Step(Run(s, es, theta), e, theta)
  {
    hide Step;
    assert (es + [e])[..|es|] == es;
  }

  lemma LatePongMoves(s: State, e: Exchange, theta: int)
    requires Counts(e, theta) && 10 <= s.pings < 0xFFFF_FFFF
    ensures -10 <= 10 * (Step(s, e, theta).offset - s.offset) - (Measured(e, theta) - s.offset) <= 10
  {
    hide Offset, Rtt, Smooth, T1, T2, T3, T4, OnTimestamps;
    PongMovesOffset(s, T1(e), T2(e, theta), T3(e, theta), T4(e));
  }
}
