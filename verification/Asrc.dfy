// The daemon's asynchronous rate converter: how many frames each playback
// callback asks of the ring, and the Catmull-Rom interpolation that fits them
// to the device. Doubles are reals; the drift loop's ratio is an input.

module Asrc {
  import opened Interleaved

  // One playback callback: frames the device wants, frames in the ring when the
  // fill was measured and when it was read, the target fill, and the drift
  // loop's ratio.
  datatype Callback = Callback(frameCount: nat, avail: nat, present: nat, target: nat, ratio: real)

  function Ceil(r: real): int { -((-r).Floor) }

  function DeadZone(x: real): real {
    if -0.05 < x < 0.05 then 0.0 else if x > 0.0 then x - 0.05 else x + 0.05
  }

  /** Drift correction plus the buffer-level proportional term. */
  function Correction(c: Callback): real
    requires c.target > 0
  {
    (c.ratio - 1.0) * c.frameCount as real
    + DeadZone((c.avail as real - c.target as real) / c.target as real) * 0.01
  }

  predicate Active(c: Callback) { c.avail >= c.frameCount && c.target > 0 }

  function Clamp4(x: real): real { if x < -4.0 then -4.0 else if x > 4.0 then 4.0 else x }

  /** The whole frames taken out of the accumulator. */
  function Whole(x: real): int {
    if x <= -1.0 then x.Floor else if x >= 1.0 then Ceil(x) else 0
  }

  function NextFrac(frac: real, c: Callback): real {
    if Active(c) then
      var x := Clamp4(frac + Correction(c));
      x - Whole(x) as real
    else frac
  }

  function Want(frac: real, c: Callback): int {
    if Active(c) then
      var adj := Whole(Clamp4(frac + Correction(c)));
      if adj < 0 && c.frameCount + adj < 1 then 1 else c.frameCount + adj
    else c.frameCount
  }

  /** asrc_frac, kept across callbacks. */
  class Accumulator {
    var frac: real

    constructor ()
      ensures frac == 0.0
    {
      frac := 0.0;
    }

    method Callback(c: Callback) returns (want: int)
      modifies this
      ensures frac == NextFrac(old(frac), c) && want == Want(old(frac), c)
    {
      want := c.frameCount;
      if c.avail >= c.frameCount && c.target > 0 {
        var driftAdj := (c.ratio - 1.0) * c.frameCount as real;
        var error := c.avail as real - c.target as real;
        var normError := error / c.target as real;
        if normError > -0.05 && normError < 0.05 {
          normError := 0.0;
        } else if normError > 0.0 {
          normError := normError - 0.05;
        } else {
          normError := normError + 0.05;
        }
        var bufAdj := normError * 0.01;
        assert driftAdj + bufAdj == Correction(c);
        hide Correction;
        frac := frac + (driftAdj + bufAdj);
        want := TakeWhole(c.frameCount);
      }
    }

    /** Clamp to four frames, then extract the whole ones. */
    method TakeWhole(frameCount: nat) returns (want: int)
      modifies this
      ensures
        var x := Clamp4(old(frac));
        && frac == x - Whole(x) as real
        && want == if Whole(x) < 0 && frameCount + Whole(x) < 1 then 1 else frameCount + Whole(x)
    {
      want := frameCount;
      if frac < -4.0 { frac := -4.0; }
      if frac > 4.0 { frac := 4.0; }
      if frac <= -1.0 {
        var adj := frac.Floor;
        if adj < -4 { adj := -4; }
        want := if frameCount + adj > 1 then frameCount + adj else 1;
        frac := frac - adj as real;
      } else if frac >= 1.0 {
        var adj := Ceil(frac);
        if adj > 4 { adj := 4; }
        want := frameCount + adj;
        frac := frac - adj as real;
      }
    }
  }

  lemma WholeLeavesFraction(x: real)
    requires -4.0 <= x <= 4.0
    ensures -4 <= Whole(x) <= 4 && -1.0 < x - Whole(x) as real < 1.0
  {
    if x <= -1.0 {
      assert x.Floor as real <= x < x.Floor as real + 1.0;
    } else if x >= 1.0 {
      var n := (-x).Floor;
      assert n as real <= -x < n as real + 1.0;
    }
  }

  /** After every callback the accumulator is a proper fraction and the request is
      within four frames of the device's. */
  lemma EveryCallback(frac: real, c: Callback)
    requires -1.0 < frac < 1.0
    ensures -1.0 < NextFrac(frac, c) < 1.0
    ensures -4 <= Want(frac, c) - c.frameCount <= 4
  {
    if Active(c) { WholeLeavesFraction(Clamp4(frac + Correction(c))); }
    hide Correction, Whole;
  }

  /** The accumulator, cut to four frames, gives all its whole frames at once, rounded away
      from zero, and nothing while it holds less than one. */
  lemma RequestRoundsAway(frac: real, c: Callback)
    requires Active(c)
    ensures
      var x, n := frac + Asked(c), Want(frac, c) - c.frameCount;
      && (-1.0 < x < 1.0 ==> n == 0 && NextFrac(frac, c) == x)
      && (1.0 <= x <= 4.0 ==> x <= n as real < x + 1.0)
      && (x >= 4.0 ==> n == 4)
      && (-4.0 <= x <= -1.0 && c.frameCount >= 5 ==> x - 1.0 < n as real <= x)
      && (x <= -4.0 && c.frameCount >= 5 ==> n == -4)
  {
    var x := Clamp4(frac + Correction(c));
    hide Correction;
    if x >= 1.0 { CeilIs(x); }
  }

  lemma CeilIs(x: real)
    ensures x <= Ceil(x) as real < x + 1.0
  {
    var n := (-x).Floor;
    assert n as real <= -x < n as real + 1.0;
  }

  /** What the fill of the ring asks for, beyond the drift: nothing within five percent of the
      target, and a hundredth of the relative error beyond that, towards the target. */
  lemma FillAsks(c: Callback)
    requires Active(c)
    ensures
      var fill, target := c.avail as real, c.target as real;
      var asked := Asked(c) - (c.ratio - 1.0) * c.frameCount as real;
      && (-target < 20.0 * (fill - target) < target ==> asked == 0.0)
      && (20.0 * (fill - target) >= target ==> asked == (fill - target - target / 20.0) / (100.0 * target) >= 0.0)
      && (20.0 * (fill - target) <= -target ==> asked == (fill - target + target / 20.0) / (100.0 * target) <= 0.0)
  {
    var e, t := c.avail as real - c.target as real, c.target as real;
    RelativeError(e, t);
    var d := (c.ratio - 1.0) * c.frameCount as real;
    assert Asked(c) == d + DeadZone(e / t) * 0.01;
  }

  lemma RelativeError(e: real, t: real)
    requires t > 0.0
    ensures e / t > -0.05 <==> 20.0 * e > -t
    ensures e / t < 0.05 <==> 20.0 * e < t
    ensures (e / t - 0.05) * 0.01 == (e - t / 20.0) / (100.0 * t)
    ensures (e / t + 0.05) * 0.01 == (e + t / 20.0) / (100.0 * t)
    ensures 20.0 * e >= t ==> (e - t / 20.0) / (100.0 * t) >= 0.0
    ensures 20.0 * e <= -t ==> (e + t / 20.0) / (100.0 * t) <= 0.0
  {
    var q := e / t;
    assert q * t == e;
    Scaled(q, t);
    Quotient(e - t / 20.0, q - 0.05, t);
    Quotient(e + t / 20.0, q + 0.05, t);
  }

  lemma Scaled(q: real, t: real)
    requires t > 0.0
    ensures q > -0.05 <==> 20.0 * (q * t) > -t
    ensures q < 0.05 <==> 20.0 * (q * t) < t
  {
    assert q * t + 0.05 * t == (q + 0.05) * t;
    assert q * t - 0.05 * t == (q - 0.05) * t;
    PositiveProduct(q + 0.05, t);
    PositiveProduct(0.05 - q, t);
    assert (0.05 - q) * t == 0.05 * t - q * t;
  }

  lemma PositiveProduct(a: real, t: real)
    requires t > 0.0
    ensures a * t > 0.0 <==> a > 0.0
  {}

  lemma Quotient(n: real, q: real, t: real)
    requires t > 0.0 && n == q * t
    ensures n / (100.0 * t) == q * 0.01 && (n >= 0.0 <==> q >= 0.0)
  {
    assert q * 0.01 * (100.0 * t) == n;
    PositiveProduct(q, t);
    PositiveProduct(-q, t);
  }

  // ---- Runs: what is diffused is not lost ------------------------------------------

  function RunFrac(frac: real, cs: seq<Callback>): real {
    if cs == [] then frac else NextFrac(RunFrac(frac, cs[..|cs| - 1]), cs[|cs| - 1])
  }

  function Asked(c: Callback): real { if Active(c) then Correction(c) else 0.0 }

  function TotalAsked(cs: seq<Callback>): real {
    if cs == [] then 0.0 else TotalAsked(cs[..|cs| - 1]) + Asked(cs[|cs| - 1])
  }

  /** Frames requested beyond the device's, over a run. */
  function TotalExtra(frac: real, cs: seq<Callback>): int {
    if cs == [] then 0
    else
      var before, last := cs[..|cs| - 1], cs[|cs| - 1];
      TotalExtra(frac, before) + Want(RunFrac(frac, before), last) - last.frameCount
  }

  /** The request did not run into its floor of one frame. */
  predicate AboveFloor(frac: real, c: Callback) {
    Active(c) ==> c.frameCount + Whole(Clamp4(frac + Correction(c))) >= 1 || Whole(Clamp4(frac + Correction(c))) >= 0
  }

  /** The accumulator was not cut to four frames. */
  predicate Unclamped(frac: real, c: Callback) {
    Active(c) ==> -4.0 <= frac + Correction(c) <= 4.0
  }

  /** What the clamp cut off the accumulator. */
  function Cut(frac: real, c: Callback): real {
    if Active(c) then frac + Correction(c) - Clamp4(frac + Correction(c)) else 0.0
  }

  /** Frames that the floor added to the request. */
  function Added(frac: real, c: Callback): (n: nat)
    ensures n == 0 <==> AboveFloor(frac, c)
  {
    if AboveFloor(frac, c) then 0 else 1 - (c.frameCount + Whole(Clamp4(frac + Correction(c))))
  }

  /** One callback's balance. */
  lemma StepBalances(frac: real, c: Callback)
    ensures (Want(frac, c) - c.frameCount) as real
         == frac + Asked(c) - NextFrac(frac, c) - Cut(frac, c) + Added(frac, c) as real
  {
    hide Correction, Whole, Clamp4;
  }

  /** One callback moves exactly its correction from the accumulator to the ring if and
      only if neither the clamp nor the floor cut anything: they never make up for
      each other. */
  lemma StepConserves(frac: real, c: Callback)
    requires -1.0 < frac < 1.0
    ensures (Want(frac, c) - c.frameCount) as real == frac + Asked(c) - NextFrac(frac, c)
       <==> Unclamped(frac, c) && AboveFloor(frac, c)
  {
    StepBalances(frac, c);
    hide Correction, Want, NextFrac;
    if Active(c) && Added(frac, c) > 0 { WholeLeavesFraction(Clamp4(frac + Correction(c))); }
  }

  lemma {:induction false} RunStaysFraction(frac: real, cs: seq<Callback>)
    requires -1.0 < frac < 1.0
    ensures -1.0 < RunFrac(frac, cs) < 1.0
  {
    hide NextFrac, Want;
    if cs != [] {
      RunStaysFraction(frac, cs[..|cs| - 1]);
      EveryCallback(RunFrac(frac, cs[..|cs| - 1]), cs[|cs| - 1]);
    }
  }

  function TotalCut(frac: real, cs: seq<Callback>): real {
    if cs == [] then 0.0
    else
      var before, last := cs[..|cs| - 1], cs[|cs| - 1];
      TotalCut(frac, before) + Cut(RunFrac(frac, before), last)
  }

  function TotalAdded(frac: real, cs: seq<Callback>): nat {
    if cs == [] then 0
    else
      var before, last := cs[..|cs| - 1], cs[|cs| - 1];
      TotalAdded(frac, before) + Added(RunFrac(frac, before), last)
  }

  predicate AllUnclamped(frac: real, cs: seq<Callback>) {
    if cs == [] then true
    else
      var before, last := cs[..|cs| - 1], cs[|cs| - 1];
      AllUnclamped(frac, before) && Unclamped(RunFrac(frac, before), last)
  }

  predicate AllAboveFloor(frac: real, cs: seq<Callback>) {
    if cs == [] then true
    else
      var before, last := cs[..|cs| - 1], cs[|cs| - 1];
      AllAboveFloor(frac, before) && AboveFloor(RunFrac(frac, before), last)
  }

  /** The balance of every run: nothing but the clamp and the floor comes between the
      corrections and the frames requested. */
  lemma {:induction false} RunBalances(frac: real, cs: seq<Callback>)
    ensures TotalExtra(frac, cs) as real
         == frac + TotalAsked(cs) - RunFrac(frac, cs) - TotalCut(frac, cs) + TotalAdded(frac, cs) as real
    ensures AllUnclamped(frac, cs) ==> TotalCut(frac, cs) == 0.0
    ensures TotalAdded(frac, cs) == 0 <==> AllAboveFloor(frac, cs)
  {
    hide Asked, NextFrac, Want, AboveFloor, Added;
    if cs != [] {
      RunBalances(frac, cs[..|cs| - 1]);
      StepBalances(RunFrac(frac, cs[..|cs| - 1]), cs[|cs| - 1]);
    }
  }

  /** Corrections of magnitude at most three never reach the clamp. */
  lemma {:induction false} SmallCorrectionsAreUnclamped(frac: real, cs: seq<Callback>)
    requires -1.0 < frac < 1.0 && forall c | c in cs :: -3.0 <= Asked(c) <= 3.0
    ensures AllUnclamped(frac, cs)
  {
    if cs != [] {
      var before, last := cs[..|cs| - 1], cs[|cs| - 1];
      SmallCorrectionsAreUnclamped(frac, before);
      RunStaysFraction(frac, before);
      assert last in cs;
      hide Correction;
    }
  }

  /** Over any run of corrections of magnitude at most three the frames requested beyond
      the device's are the corrections but for the fraction still held, if and only if no
      callback was so short that its request ran into the floor; and they are within a
      frame of the corrections unless the floor added a frame that the fraction does not
      make up for. */
  lemma RequestsDiffuseCorrections(cs: seq<Callback>)
    requires forall c | c in cs :: -3.0 <= Asked(c) <= 3.0
    ensures TotalExtra(0.0, cs) as real == TotalAsked(cs) - RunFrac(0.0, cs) <==> AllAboveFloor(0.0, cs)
    ensures -1.0 < TotalExtra(0.0, cs) as real - TotalAsked(cs) < 1.0
       <==> AllAboveFloor(0.0, cs) || (TotalAdded(0.0, cs) == 1 && RunFrac(0.0, cs) > 0.0)
  {
    RunStaysFraction(0.0, cs);
    SmallCorrectionsAreUnclamped(0.0, cs);
    RunBalances(0.0, cs);
    hide RunFrac, TotalAsked, TotalExtra, TotalAdded, AllAboveFloor;
  }

  predicate Overfull(c: Callback) { Active(c) && c.ratio == 1.0 && 20 * c.avail > 21 * c.target }

  predicate Underfull(c: Callback) { Active(c) && c.ratio == 1.0 && 20 * c.avail < 19 * c.target }

  lemma FillAsksSign(c: Callback)
    ensures Overfull(c) ==> Asked(c) > 0.0
    ensures Underfull(c) ==> -0.01 < Asked(c) < 0.0
  {
    hide Asked, Correction;
    if Overfull(c) || Underfull(c) {
      FillAsks(c);
      NoDrift(c);
      var e, t := c.avail as real - c.target as real, c.target as real;
      hide *;
      if 20.0 * e > t { ShareOf(e - t / 20.0, t); }
      if 20.0 * e < -t { ShareOf(e + t / 20.0, t); }
    }
  }

  lemma NoDrift(c: Callback)
    ensures c.ratio == 1.0 ==> (c.ratio - 1.0) * c.frameCount as real == 0.0
  {}

  /** A hundredth of x over t has the sign of x, and is above -0.01 if x is above -t. */
  lemma ShareOf(x: real, t: real)
    requires t > 0.0
    ensures x > 0.0 ==> x / (100.0 * t) > 0.0
    ensures -t < x < 0.0 ==> -0.01 < x / (100.0 * t) < 0.0
  {
    var q := x / t;
    assert q * t == x;
    Quotient(x, q, t);
    PositiveProduct(q, t);
    PositiveProduct(-q, t);
    OneMore(q, t);
    PositiveProduct(q + 1.0, t);
  }

  lemma OneMore(q: real, t: real)
    ensures (q + 1.0) * t == q * t + t
  {}

  /** Without drift, a ring above 105 percent of its target is drained: no callback requests
      fewer frames than the device asked for, and together they request what the fills ask
      for, but for the fraction held and what the clamp cut off. */
  lemma {:induction false} OverfullDrains(frac: real, cs: seq<Callback>)
    requires -1.0 < frac < 1.0 && forall c | c in cs :: Overfull(c)
    ensures TotalExtra(frac, cs) >= 0 && (cs != [] ==> TotalAsked(cs) > 0.0)
    ensures TotalExtra(frac, cs) as real == frac + TotalAsked(cs) - RunFrac(frac, cs) - TotalCut(frac, cs)
  {
    if cs != [] {
      var before, last := cs[..|cs| - 1], cs[|cs| - 1];
      assert last in cs && forall c | c in before :: c in cs;
      OverfullDrains(frac, before);
      RunStaysFraction(frac, before);
      OneOverfull(RunFrac(frac, before), last);
      hide Want, NextFrac, Asked, Overfull, Cut;
    }
  }

  lemma OneOverfull(frac: real, c: Callback)
    requires -1.0 < frac < 1.0 && Overfull(c)
    ensures Asked(c) > 0.0 && Want(frac, c) >= c.frameCount
    ensures (Want(frac, c) - c.frameCount) as real == frac + Asked(c) - NextFrac(frac, c) - Cut(frac, c)
  {
    FillAsksSign(c);
    StepBalances(frac, c);
    hide Correction;
  }

  /** One below 95 percent is filled, but for the frames the floor added. */
  lemma {:induction false} UnderfullFills(frac: real, cs: seq<Callback>)
    requires -1.0 < frac < 1.0 && forall c | c in cs :: Underfull(c) && c.frameCount >= 1
    ensures TotalExtra(frac, cs) <= 0 && (cs != [] ==> TotalAsked(cs) < 0.0)
    ensures TotalExtra(frac, cs) as real
         == frac + TotalAsked(cs) - RunFrac(frac, cs) + TotalAdded(frac, cs) as real
  {
    if cs != [] {
      var before, last := cs[..|cs| - 1], cs[|cs| - 1];
      assert last in cs && forall c | c in before :: c in cs;
      UnderfullFills(frac, before);
      RunStaysFraction(frac, before);
      OneUnderfull(RunFrac(frac, before), last);
      hide Want, NextFrac, Asked, Underfull, Added;
    }
  }

  lemma OneUnderfull(frac: real, c: Callback)
    requires -1.0 < frac < 1.0 && Underfull(c) && c.frameCount >= 1
    ensures Asked(c) < 0.0 && Want(frac, c) <= c.frameCount
    ensures (Want(frac, c) - c.frameCount) as real == frac + Asked(c) - NextFrac(frac, c) + Added(frac, c) as real
  {
    FillAsksSign(c);
    StepBalances(frac, c);
    hide Correction;
  }

  /** Callbacks of at least five frames never run into the floor. */
  lemma {:induction false} LongCallbacksStayAboveFloor(frac: real, cs: seq<Callback>)
    requires -1.0 < frac < 1.0 && forall c | c in cs :: c.frameCount >= 5
    ensures AllAboveFloor(frac, cs)
  {
    if cs != [] {
      var before, last := cs[..|cs| - 1], cs[|cs| - 1];
      LongCallbacksStayAboveFloor(frac, before);
      RunStaysFraction(frac, before);
      assert last in cs;
      WholeLeavesFraction(Clamp4(RunFrac(frac, before) + if last.target > 0 then Correction(last) else 0.0));
      hide Correction, Whole;
    }
  }

  /** A one-frame callback cannot give three frames back. */
  lemma FloorExample()
    ensures
      var c := Callback(1, 1, 1, 1, -2.0);
      && Asked(c) == -3.0 && Want(0.0, c) == 1 && !AboveFloor(0.0, c)
      && TotalExtra(0.0, [c]) == 0 && TotalAsked([c]) == -3.0
  {
    var c := Callback(1, 1, 1, 1, -2.0);
    assert Correction(c) == -3.0;
    assert (-3.0 as real).Floor == -3;
    assert [c][..0] == [];
    assert TotalExtra(0.0, [c]) == TotalExtra(0.0, []) + Want(RunFrac(0.0, []), c) - 1;
    assert TotalAsked([c]) == TotalAsked([]) + Asked(c);
  }

  // ---- What the ring really delivers -------------------------------------------------

  /** ring.read(want), skipped on underrun. */
  function Read(frac: real, c: Callback): int {
    if c.avail < c.frameCount then 0
    else if Want(frac, c) <= c.present then Want(frac, c) else c.present
  }

  function TotalExtraRead(frac: real, cs: seq<Callback>): int {
    if cs == [] then 0
    else
      var before, last := cs[..|cs| - 1], cs[|cs| - 1];
      TotalExtraRead(frac, before) + Read(RunFrac(frac, before), last) - last.frameCount
  }

  /** No callback found the ring empty, and each found in it what it asked for. */
  predicate Covered(frac: real, cs: seq<Callback>) {
    if cs == [] then true
    else
      var before, last := cs[..|cs| - 1], cs[|cs| - 1];
      Covered(frac, before) && last.avail >= last.frameCount && Want(RunFrac(frac, before), last) <= last.present
  }

  lemma {:induction false} ReadsNeverExceedRequests(frac: real, cs: seq<Callback>)
    ensures TotalExtraRead(frac, cs) <= TotalExtra(frac, cs)
    ensures TotalExtraRead(frac, cs) == TotalExtra(frac, cs) <==> Covered(frac, cs)
  {
    if cs != [] {
      var before, last := cs[..|cs| - 1], cs[|cs| - 1];
      ReadsNeverExceedRequests(frac, before);
      WantIsPositive(RunFrac(frac, before), last);
      hide Want, NextFrac;
    }
  }

  lemma WantIsPositive(frac: real, c: Callback)
    ensures Want(frac, c) >= 0 && (c.frameCount > 0 ==> Want(frac, c) > 0)
  {
    hide Correction, Whole;
  }

  /** The accumulator is charged for the request, not for the delivery. Let `added` be the
      frames the floor added and `missed` the frames requested and not read: what was read
      is within a frame of the corrections if and only if the two are equal, or differ by
      one and the fraction held makes up for it. */
  lemma ReadsDiffuseCorrectionsIff(cs: seq<Callback>)
    requires forall c | c in cs :: -3.0 <= Asked(c) <= 3.0
    ensures
      var missed, added := TotalExtra(0.0, cs) - TotalExtraRead(0.0, cs), TotalAdded(0.0, cs);
      var held := RunFrac(0.0, cs);
      && missed >= 0 && (missed == 0 <==> Covered(0.0, cs)) && (added == 0 <==> AllAboveFloor(0.0, cs))
      && TotalExtraRead(0.0, cs) as real == TotalAsked(cs) - held - missed as real + added as real
      && (-1.0 < TotalExtraRead(0.0, cs) as real - TotalAsked(cs) < 1.0
          <==> missed == added || (missed == added + 1 && held < 0.0) || (added == missed + 1 && held > 0.0))
  {
    RunStaysFraction(0.0, cs);
    SmallCorrectionsAreUnclamped(0.0, cs);
    RunBalances(0.0, cs);
    ReadsNeverExceedRequests(0.0, cs);
    hide RunFrac, TotalAsked, TotalExtra, TotalExtraRead, TotalAdded, AllAboveFloor, Covered;
  }

  /** A ring that holds just the device's frames falls short of a larger request. */
  lemma ShortReadExample()
    ensures
      var c := Callback(480, 480, 480, 480, 1.005);
      Active(c) && Want(0.0, c) == 483 && Read(0.0, c) == 480 && TotalExtraRead(0.0, [c]) == 0
      && TotalAsked([c]) == 2.4
  {
    var c := Callback(480, 480, 480, 480, 1.005);
    assert Correction(c) == 2.4;
    assert (-2.4 as real).Floor == -3;
    assert [c][..0] == [];
    assert TotalExtraRead(0.0, [c]) == TotalExtraRead(0.0, []) + Read(RunFrac(0.0, []), c) - 480;
    assert TotalAsked([c]) == TotalAsked([]) + Asked(c);
  }

  // ---- Catmull-Rom interpolation -------------------------------------------------------

  function CatmullRom(y0: real, y1: real, y2: real, y3: real, t: real): real {
    var c1 := 0.5 * (y2 - y0);
    var c2 := y0 - 2.5 * y1 + 2.0 * y2 - 0.5 * y3;
    var c3 := 0.5 * (y3 - y0) + 1.5 * (y1 - y2);
    ((c3 * t + c2) * t + c1) * t + y1
  }

  function Clip(v: real): real { if v > 1.0 then 1.0 else if v < -1.0 then -1.0 else v }

  /** The four-point interpolation at a position, indices clamped to the block. */
  function Interpolated(src: seq<real>, pos: real): real
    requires |src| >= 2 && 0.0 <= pos <= (|src| - 1) as real
  {
    var n, si := |src|, pos.Floor;
    var i0 := if si > 0 then si - 1 else 0;
    var i2 := if si + 1 < n then si + 1 else n - 1;
    var i3 := if si + 2 < n then si + 2 else n - 1;
    CatmullRom(src[i0], src[si], src[i2], src[i3], pos - si as real)
  }

  function SampleAt(src: seq<real>, pos: real): real
    requires |src| >= 2 && 0.0 <= pos <= (|src| - 1) as real
  {
    Clip(Interpolated(src, pos))
  }

  function Position(f: nat, read: nat, frameCount: nat): real
    requires read >= 2 && frameCount >= 2
  {
    f as real * ((read - 1) as real / (frameCount - 1) as real)
  }

  lemma PositionInBlock(f: nat, read: nat, frameCount: nat)
    requires read >= 2 && frameCount >= 2 && f < frameCount
    ensures 0.0 <= Position(f, read, frameCount) <= (read - 1) as real
    ensures Position(0, read, frameCount) == 0.0
    ensures Position(frameCount - 1, read, frameCount) == (read - 1) as real
  {
    var ratio, n := (read - 1) as real / (frameCount - 1) as real, (frameCount - 1) as real;
    assert n * ratio == (read - 1) as real;
    Product(f as real, n, ratio);
  }

  lemma Product(a: real, b: real, c: real)
    requires 0.0 <= a <= b && c >= 0.0
    ensures 0.0 <= a * c <= b * c
  {}

  /** One channel, stretched over the device's frames. */
  function Resampled(x: seq<real>, frameCount: nat): (y: seq<real>)
    requires |x| >= 2 && frameCount >= 2
    ensures |y| == frameCount
  {
    seq(frameCount, f requires 0 <= f < frameCount =>
      PositionInBlock(f, |x|, frameCount);
      SampleAt(x, Position(f, |x|, frameCount)))
  }

  /** The interpolation branch of the callback: `read` interleaved frames over frameCount. */
  method Resample(src: array<real>, read: nat, buffer: array<real>, frameCount: nat, channels: nat)
    requires Fits(src.Length, read, channels) && Fits(buffer.Length, frameCount, channels) && src != buffer
    requires read >= 2 && frameCount >= 2
    modifies buffer
    ensures forall c: nat | c < channels ::
      Channel(buffer[..], frameCount, channels, c) == Resampled(Channel(src[..], read, channels, c), frameCount)
  {
    hide Channel, Fits, SampleAt, Position;
    var ratio := (read - 1) as real / (frameCount - 1) as real;
    for f := 0 to frameCount
      invariant forall c: nat, g: nat | c < channels && g < f ::
        Channel(buffer[..], frameCount, channels, c)[g] == Resampled(Channel(src[..], read, channels, c), frameCount)[g]
    {
      ResampleFrame(src, read, buffer, frameCount, channels, f, ratio);
    }
  }

  method ResampleFrame(src: array<real>, read: nat, buffer: array<real>, frameCount: nat, channels: nat, f: nat,
      ratio: real)
    requires Fits(src.Length, read, channels) && Fits(buffer.Length, frameCount, channels) && src != buffer
    requires read >= 2 && frameCount >= 2 && f < frameCount
    requires ratio == (read - 1) as real / (frameCount - 1) as real
    modifies buffer
    ensures forall c: nat | c < channels ::
      Channel(buffer[..], frameCount, channels, c) ==
        Channel(old(buffer[..]), frameCount, channels, c)
          [f := Resampled(Channel(src[..], read, channels, c), frameCount)[f]]
  {
    PositionInBlock(f, read, frameCount);
    var srcPos := f as real * ratio;
    assert srcPos == Position(f, read, frameCount);
    hide Channel, Fits, Position, Interpolated;
    for ch := 0 to channels
      invariant forall c: nat | c < ch ::
        Channel(buffer[..], frameCount, channels, c) ==
          Channel(old(buffer[..]), frameCount, channels, c)
            [f := Resampled(Channel(src[..], read, channels, c), frameCount)[f]]
      invariant forall c: nat | ch <= c < channels ::
        Channel(buffer[..], frameCount, channels, c) == Channel(old(buffer[..]), frameCount, channels, c)
    {
      var v := Interpolate(src, read, channels, ch, srcPos);
      if v > 1.0 { v := 1.0; } else if v < -1.0 { v := -1.0; }
      PutFrame(buffer, frameCount, channels, ch, f, v);
    }
  }

  method Interpolate(src: array<real>, read: nat, channels: nat, ch: nat, srcPos: real) returns (v: real)
    requires ch < channels && Fits(src.Length, read, channels) && read >= 2 && 0.0 <= srcPos <= (read - 1) as real
    ensures v == Interpolated(Channel(src[..], read, channels, ch), srcPos)
  {
    hide Channel, Fits, CatmullRom;
    var si := srcPos.Floor;
    var frac := srcPos - si as real;
    var i0 := if si > 0 then si - 1 else 0;
    var i2 := if si + 1 < read then si + 1 else read - 1;
    var i3 := if si + 2 < read then si + 2 else read - 1;
    ChannelElement(src[..], read, channels, ch, i0);
    ChannelElement(src[..], read, channels, ch, si);
    ChannelElement(src[..], read, channels, ch, i2);
    ChannelElement(src[..], read, channels, ch, i3);
    v := CatmullRom(src[i0 * channels + ch], src[si * channels + ch],
                    src[i2 * channels + ch], src[i3 * channels + ch], frac);
  }

  /** The weights of the four samples, factored: the curve through the middle two whose slope
      at either is half the difference of its neighbours. */
  lemma CatmullRomWeights(y0: real, y1: real, y2: real, y3: real, t: real)
    ensures
      var u := 1.0 - t;
      2.0 * CatmullRom(y0, y1, y2, y3, t) ==
        y1 * (u * (2.0 + 2.0 * t - 3.0 * (t * t))) + y2 * (t * (1.0 + 4.0 * t - 3.0 * (t * t)))
        - y0 * (t * (u * u)) - y3 * (u * (t * t))
  {}

  /** Parabolas are reproduced. */
  lemma ParabolasAreExact(a: real, b: real, c: real, t: real)
    ensures CatmullRom(a - b + c, a, a + b + c, a + 2.0 * b + 4.0 * c, t) == a + b * t + c * (t * t)
  {}

  /** The positions divide the block evenly. */
  lemma PositionsAreEven(f: nat, read: nat, frameCount: nat)
    requires read >= 2 && frameCount >= 2
    ensures Position(f, read, frameCount) * (frameCount - 1) as real == f as real * (read - 1) as real
  {
    var n, r := (frameCount - 1) as real, (read - 1) as real;
    var ratio := r / n;
    assert n * ratio == r;
    assert f as real * ratio * n == f as real * (n * ratio);
  }

  /** Every output lies in [-1, 1], and is the interpolation itself if that does. */
  lemma OutputInRange(src: seq<real>, pos: real)
    requires |src| >= 2 && 0.0 <= pos <= (|src| - 1) as real
    ensures -1.0 <= SampleAt(src, pos) <= 1.0
    ensures -1.0 <= Interpolated(src, pos) <= 1.0 ==> SampleAt(src, pos) == Interpolated(src, pos)
    ensures Interpolated(src, pos) > 1.0 ==> SampleAt(src, pos) == 1.0
    ensures Interpolated(src, pos) < -1.0 ==> SampleAt(src, pos) == -1.0
  {}

  /** No discontinuity at block boundaries: first and last output are first and last input. */
  lemma EndsAreExact(src: seq<real>, frameCount: nat)
    requires |src| >= 2 && frameCount >= 2
    ensures Position(0, |src|, frameCount) == 0.0 && SampleAt(src, 0.0) == Clip(src[0])
    ensures Position(frameCount - 1, |src|, frameCount) == (|src| - 1) as real
    ensures SampleAt(src, (|src| - 1) as real) == Clip(src[|src| - 1])
  {
    PositionInBlock(0, |src|, frameCount);
  }

  /** A straight line is reproduced exactly between its samples if and only if it is flat
      or the position lies in an inner interval of the block: in the first and the last one
      a neighbour is missing. (A block of two samples misses one on either side, and the
      errors cancel half way.) */
  lemma AffineIsExactIff(src: seq<real>, a: real, b: real, pos: real)
    requires |src| >= 2 && 0.0 <= pos <= (|src| - 1) as real
    requires forall i | 0 <= i < |src| :: src[i] == a + b * i as real
    ensures
      var si, t := pos.Floor, pos - pos.Floor as real;
      Interpolated(src, pos) == a + b * pos
      <==> b == 0.0 || t == 0.0 || (si >= 1 && si + 2 < |src|) || (|src| == 2 && t == 0.5)
  {
    var n, si := |src|, pos.Floor;
    var t := pos - si as real;
    var y := src[si];
    assert 0.0 <= t < 1.0;
    OnTheLine(src, a, b, pos);
    var y0 := if si > 0 then y - b else y;
    var y2 := if si + 1 < n then y + b else y;
    var y3 := if si + 2 < n then y + 2.0 * b else if si + 1 < n then y + b else y;
    assert Interpolated(src, pos) == CatmullRom(y0, y, y2, y3, t) by { hide CatmullRom; }
    if si + 1 == n {
      assert t == 0.0;
      CatmullRomAtZero(y0, y, y2, y3);
    } else if si > 0 {
      if si + 2 < n { AffineCatmullRom(y, b, t); } else { LastInterval(y, b, t); }
    } else if n > 2 {
      FirstInterval(y, b, t);
    } else {
      OnlyInterval(y, b, t);
    }
  }

  lemma OnTheLine(src: seq<real>, a: real, b: real, pos: real)
    requires |src| >= 2 && 0.0 <= pos <= (|src| - 1) as real
    requires forall i | 0 <= i < |src| :: src[i] == a + b * i as real
    ensures
      var si := pos.Floor;
      && 0 <= si < |src| && a + b * pos == src[si] + b * (pos - si as real)
      && (si > 0 ==> src[si - 1] == src[si] - b) && (si + 1 < |src| ==> src[si + 1] == src[si] + b)
      && (si + 2 < |src| ==> src[si + 2] == src[si] + 2.0 * b)
  {}

  lemma CatmullRomAtZero(y0: real, y1: real, y2: real, y3: real)
    ensures CatmullRom(y0, y1, y2, y3, 0.0) == y1
  {}

  lemma AffineCatmullRom(y: real, b: real, t: real)
    ensures CatmullRom(y - b, y, y + b, y + 2.0 * b, t) == y + b * t
  {
    var y0, y2, y3 := y - b, y + b, y + 2.0 * b;
    assert 0.5 * (y2 - y0) == b;
    assert y0 - 2.5 * y + 2.0 * y2 - 0.5 * y3 == 0.0;
    assert 0.5 * (y3 - y0) + 1.5 * (y - y2) == 0.0;
  }

  /** A cubic without its constant. */
  function Horner(c1: real, c2: real, c3: real, t: real): real { ((c3 * t + c2) * t + c1) * t }

  lemma FirstInterval(y: real, b: real, t: real)
    requires 0.0 <= t < 1.0
    ensures CatmullRom(y, y, y + b, y + 2.0 * b, t) == y + b * t <==> b == 0.0 || t == 0.0
  {
    hide CatmullRom, Horner;
    Cubic(0.5 * b, b, -0.5 * b, y, y + b, y + 2.0 * b, y, t);
    FirstEdge(b, t, b * t);
  }

  lemma LastInterval(y: real, b: real, t: real)
    requires 0.0 <= t < 1.0
    ensures CatmullRom(y - b, y, y + b, y + b, t) == y + b * t <==> b == 0.0 || t == 0.0
  {
    hide CatmullRom, Horner;
    Cubic(b, 0.5 * b, -0.5 * b, y - b, y + b, y + b, y, t);
    LastEdge(b, t, b * t);
  }

  lemma OnlyInterval(y: real, b: real, t: real)
    requires 0.0 <= t < 1.0
    ensures CatmullRom(y, y, y + b, y + b, t) == y + b * t <==> b == 0.0 || t == 0.0 || t == 0.5
  {
    hide CatmullRom, Horner;
    Cubic(0.5 * b, 1.5 * b, -1.0 * b, y, y + b, y + b, y, t);
    OnlyEdge(b, t, b * t);
  }

  /** The interpolation as a cubic with the given coefficients. */
  lemma Cubic(c1: real, c2: real, c3: real, y0: real, y2: real, y3: real, y: real, t: real)
    requires c1 == 0.5 * (y2 - y0) && c2 == y0 - 2.5 * y + 2.0 * y2 - 0.5 * y3
    requires c3 == 0.5 * (y3 - y0) + 1.5 * (y - y2)
    ensures CatmullRom(y0, y, y2, y3, t) == Horner(c1, c2, c3, t) + y
  {}

  // The errors at the edges, factored.

  lemma FirstEdge(b: real, t: real, bt: real)
    requires 0.0 <= t < 1.0 && bt == b * t
    ensures Horner(0.5 * b, b, -0.5 * b, t) == bt <==> b == 0.0 || t == 0.0
  {
    var u := 1.0 - t;
    assert Horner(0.5 * b, b, -0.5 * b, t) - bt == -0.5 * (bt * (u * u));
    ZeroProduct(u, u);
    ZeroProduct(bt, u * u);
    ZeroProduct(b, t);
  }

  lemma LastEdge(b: real, t: real, bt: real)
    requires 0.0 <= t < 1.0 && bt == b * t
    ensures Horner(b, 0.5 * b, -0.5 * b, t) == bt <==> b == 0.0 || t == 0.0
  {
    var u := 1.0 - t;
    assert Horner(b, 0.5 * b, -0.5 * b, t) - bt == 0.5 * (bt * (t * u));
    ZeroProduct(t, u);
    ZeroProduct(bt, t * u);
    ZeroProduct(b, t);
  }

  lemma OnlyEdge(b: real, t: real, bt: real)
    requires 0.0 <= t < 1.0 && bt == b * t
    ensures Horner(0.5 * b, 1.5 * b, -1.0 * b, t) == bt <==> b == 0.0 || t == 0.0 || t == 0.5
  {
    var u := 1.0 - t;
    assert Horner(0.5 * b, 1.5 * b, -1.0 * b, t) - bt == bt * (u * (t - 0.5));
    ZeroProduct(u, t - 0.5);
    ZeroProduct(bt, u * (t - 0.5));
    ZeroProduct(b, t);
  }

  lemma ZeroProduct(x: real, y: real)
    ensures x * y == 0.0 <==> x == 0.0 || y == 0.0
  {}
}
