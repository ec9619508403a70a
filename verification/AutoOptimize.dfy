// The auto-tuner of tools/auto_optimize.py: one metric at a time it relaxes or
// tightens the receiver's parameters.

module AutoOptimize {
  import opened Common

  // One metrics message; fields may be absent.
  datatype Metrics = Metrics(lossPct: Option<real>, clicks: Option<int>, dropouts: Option<int>,
                             underruns: Option<int>, pktsRx: Option<int>)
  {
    function Loss(): real { lossPct.Or(0.0) }
  }

  datatype Tuning = Tuning(bufMs: int, sigma: real, cfFrames: int, cfThresh: real,
                           fec: bool, nack: bool, wsolaPlc: bool)

  datatype State = State(t: Tuning, stable: nat, adjustments: nat, warned: bool, history: seq<Metrics>)

  const START := Tuning(20, 6.0, 16, 0.02, true, true, true)

  function MinReal(a: real, b: real): real { if a <= b then a else b }
  function MaxReal(a: real, b: real): real { if a >= b then a else b }

  // ---- One metric -----------------------------------------------------------------------

  /** clicks / max(pkts, 1) < 0.5 */
  predicate RealClicks(m: Metrics) { 2 * m.clicks.Or(0) < Max(m.pktsRx.Or(1), 1) }

  function Score(m: Metrics): nat {
    (if m.Loss() > 1.0 then 30 else if m.Loss() > 0.1 then 10 else 0)
    + (if RealClicks(m) then if m.clicks.Or(0) > 5 then 20 else if m.clicks.Or(0) > 0 then 5 else 0 else 0)
    + (if m.dropouts.Or(0) > 0 then 25 else 0)
    + (if m.underruns.Or(0) > 0 then 15 else 0)
  }

  // The four fixes, in the order they are applied.

  function ForLoss(t: Tuning, m: Metrics): Tuning {
    if m.Loss() > 0.5 then t.(bufMs := Min(t.bufMs + 5, 200), fec := true, nack := true) else t
  }

  function ForClicks(t: Tuning, m: Metrics): Tuning {
    if m.clicks.Or(0) > 0 then
      t.(sigma := if t.sigma > 2.0 then MaxReal(t.sigma - 1.0, 2.0) else t.sigma,
         cfFrames := if t.cfFrames < 64 then Min(t.cfFrames + 8, 64) else t.cfFrames,
         cfThresh := if t.cfThresh > 0.005 then MaxReal(t.cfThresh - 0.005, 0.005) else t.cfThresh)
    else t
  }

  function ForDropouts(t: Tuning, m: Metrics): Tuning {
    if m.dropouts.Or(0) > 0 then t.(bufMs := Min(t.bufMs + 10, 200), wsolaPlc := true) else t
  }

  function ForUnderruns(t: Tuning, m: Metrics): Tuning {
    if m.underruns.Or(0) > 0 then t.(bufMs := Min(t.bufMs + 3, 200)) else t
  }

  function Tightened(t: Tuning, m: Metrics): Tuning {
    ForUnderruns(ForDropouts(ForClicks(ForLoss(t, m), m), m), m)
  }

  /** b is at least as cautious as a in every parameter. */
  predicate Stricter(a: Tuning, b: Tuning) {
    && a.bufMs <= b.bufMs && b.sigma <= a.sigma && a.cfFrames <= b.cfFrames && b.cfThresh <= a.cfThresh
    && (a.fec ==> b.fec) && (a.nack ==> b.nack) && (a.wsolaPlc ==> b.wsolaPlc)
  }

  lemma FixesAreStricter(t: Tuning, m: Metrics)
    requires t.bufMs <= 200
    ensures ForLoss(t, m).bufMs <= 200 && ForClicks(t, m).bufMs <= 200 && ForDropouts(t, m).bufMs <= 200
    ensures Stricter(t, ForLoss(t, m)) && Stricter(t, ForClicks(t, m))
    ensures Stricter(t, ForDropouts(t, m)) && Stricter(t, ForUnderruns(t, m))
  {}

  /** No fix takes back what another did. */
  lemma AnyFixShows(t: Tuning, m: Metrics)
    requires InBounds(t)
    ensures
      var t1 := ForLoss(t, m);
      var t2 := ForClicks(t1, m);
      var t3 := ForDropouts(t2, m);
      var t4 := ForUnderruns(t3, m);
      t4 == Tightened(t, m) && (t1 != t || t2 != t1 || t3 != t2 || t4 != t3 <==> t4 != t)
  {
    var t1 := ForLoss(t, m);
    var t2 := ForClicks(t1, m);
    var t3 := ForDropouts(t2, m);
    FixesAreStricter(t, m);
    FixesAreStricter(t1, m);
    FixesAreStricter(t2, m);
    FixesAreStricter(t3, m);
    hide ForLoss, ForClicks, ForDropouts, ForUnderruns;
  }

  function Relaxed(t: Tuning): Tuning {
    t.(bufMs := if t.bufMs > 10 then Max(t.bufMs - 2, 10) else t.bufMs,
       sigma := if t.sigma < 6.0 then MinReal(t.sigma + 0.5, 6.0) else t.sigma,
       cfFrames := if t.cfFrames > 16 then Max(t.cfFrames - 4, 16) else t.cfFrames)
  }

  function Recorded(history: seq<Metrics>, m: Metrics): seq<Metrics> {
    if |history| + 1 > 20 then (history + [m])[1..] else history + [m]
  }

  predicate HighLoss(history: seq<Metrics>) {
    |history| >= 5 && forall i | |history| - 5 <= i < |history| :: history[i].Loss() > 30.0
  }

  function Step(s: State, m: Metrics): State {
    var h := Recorded(s.history, m);
    if Score(m) == 0 then
      var t := if s.stable + 1 >= 6 then Relaxed(s.t) else s.t;
      if t != s.t then State(t, 0, s.adjustments + 1, s.warned, h)
      else s.(stable := s.stable + 1, history := h)
    else
      var t := Tightened(s.t, m);
      State(t, 0, if t != s.t then s.adjustments + 1 else s.adjustments,
            s.warned || (m.Loss() > 30.0 && HighLoss(h)), h)
  }

  function Run(s: State, ms: seq<Metrics>): State {
    if ms == [] then s else Step(Run(s, ms[..|ms| - 1]), ms[|ms| - 1])
  }

  // ---- The daemon's side ------------------------------------------------------------------

  datatype Command = SetBuffer(ms: int) | SetSigma(s: real) | SetCrossfadeFrames(n: int) | SetCrossfadeThresh(x: real)
                   | EnableFec | EnableNack | EnableWsolaPlc

  function Obeyed(t: Tuning, c: Command): Tuning {
    match c
    case SetBuffer(ms) => t.(bufMs := ms)
    case SetSigma(s) => t.(sigma := s)
    case SetCrossfadeFrames(n) => t.(cfFrames := n)
    case SetCrossfadeThresh(x) => t.(cfThresh := x)
    case EnableFec => t.(fec := true)
    case EnableNack => t.(nack := true)
    case EnableWsolaPlc => t.(wsolaPlc := true)
  }

  function AllObeyed(t: Tuning, cs: seq<Command>): Tuning {
    if cs == [] then t else Obeyed(AllObeyed(t, cs[..|cs| - 1]), cs[|cs| - 1])
  }

  predicate InBounds(t: Tuning) {
    10 <= t.bufMs <= 200 && 2.0 <= t.sigma <= 6.0 && 16 <= t.cfFrames <= 64 && 0.005 <= t.cfThresh
  }

  // ---- The program ----------------------------------------------------------------------------

  class Optimizer {
    var bufMs: int
    var sigma: real
    var cfFrames: int
    var cfThresh: real
    var fec: bool
    var nack: bool
    var wsolaPlc: bool
    var stableCount: nat
    var adjustments: nat
    var highLossWarned: bool
    var history: seq<Metrics>

    // The commands sent through the controller, oldest first.
    var sent: seq<Command>

    function Now(): Tuning
      reads this
    {
      Tuning(bufMs, sigma, cfFrames, cfThresh, fec, nack, wsolaPlc)
    }

    function Value(): State
      reads this
    {
      State(Now(), stableCount, adjustments, highLossWarned, history)
    }

    /** In bounds, and the same as at a daemon that started alike and obeyed every command. */
    ghost predicate Valid()
      reads this
    {
      InBounds(Now()) && AllObeyed(START, sent) == Now()
    }

    constructor ()
      ensures Valid() && Value() == State(START, 0, 0, false, [])
    {
      bufMs, sigma, cfFrames, cfThresh := 20, 6.0, 16, 0.02;
      fec, nack, wsolaPlc := true, true, true;
      stableCount, adjustments, highLossWarned := 0, 0, false;
      history, sent := [], [];
    }

    method ProcessMetrics(m: Metrics)
      requires Valid()
      modifies this
      ensures Valid() && Value() == Step(old(Value()), m)
    {
      history := history + [m];
      if |history| > 20 { history := history[1..]; }
      var score := ScoreOf(m);
      hide Score, Tightened, Relaxed, AllObeyed, InBounds;
      if score == 0 {
        stableCount := stableCount + 1;
        if stableCount >= 6 { TryRelax(); }
      } else {
        stableCount := 0;
        ApplyFixes(m);
      }
    }

    method ScoreOf(m: Metrics) returns (score: nat)
      ensures score == Score(m)
    {
      var loss, clicks := m.Loss(), m.clicks.Or(0);
      var dropouts, underruns := m.dropouts.Or(0), m.underruns.Or(0);
      score := 0;
      if loss > 1.0 {
        score := score + 30;
      } else if loss > 0.1 {
        score := score + 10;
      }
      if 2 * clicks < Max(m.pktsRx.Or(1), 1) {
        if clicks > 5 {
          score := score + 20;
        } else if clicks > 0 {
          score := score + 5;
        }
      }
      if dropouts > 0 { score := score + 25; }
      if underruns > 0 { score := score + 15; }
    }

    /** Sends a command; obeying it is what the daemon does last. */
    method Send(c: Command)
      modifies this`sent
      ensures sent == old(sent) + [c] && AllObeyed(START, sent) == Obeyed(old(AllObeyed(START, sent)), c)
    {
      sent := sent + [c];
      assert sent[..|sent| - 1] == old(sent);
    }

    /** set_buffer clamps what it sends to 5 .. 2000 ms, which no buffer in bounds notices. */
    method SetBuffer(ms: int)
      modifies this`sent
      ensures AllObeyed(START, sent) == Obeyed(old(AllObeyed(START, sent)), Command.SetBuffer(Max(5, Min(2000, ms))))
    {
      Send(Command.SetBuffer(Max(5, Min(2000, ms))));
    }

    method RaiseBuffer(step: nat) returns (changed: bool)
      requires Valid()
      modifies this`bufMs, this`sent
      ensures Valid() && bufMs == Min(old(bufMs) + step, 200) && changed == (bufMs != old(bufMs))
    {
      hide AllObeyed;
      var newBuf := Min(bufMs + step, 200);
      changed := newBuf != bufMs;
      if changed {
        bufMs := newBuf;
        SetBuffer(bufMs);
      }
    }

    method FixLoss(m: Metrics) returns (changed: bool)
      requires Valid()
      modifies this`bufMs, this`fec, this`nack, this`sent
      ensures Valid() && Now() == ForLoss(old(Now()), m) && changed == (Now() != old(Now()))
    {
      hide AllObeyed;
      changed := false;
      if m.Loss() > 0.5 {
        changed := RaiseBuffer(5);
        if !fec {
          fec := true;
          Send(EnableFec);
          changed := true;
        }
        if !nack {
          nack := true;
          Send(EnableNack);
          changed := true;
        }
      }
    }

    method FixClicks(m: Metrics) returns (changed: bool)
      requires Valid()
      modifies this`sigma, this`cfFrames, this`cfThresh, this`sent
      ensures Valid() && Now() == ForClicks(old(Now()), m) && changed == (Now() != old(Now()))
    {
      hide AllObeyed;
      changed := false;
      if m.clicks.Or(0) > 0 {
        if sigma > 2.0 {
          sigma := MaxReal(sigma - 1.0, 2.0);
          Send(SetSigma(sigma));
          changed := true;
        }
        if cfFrames < 64 {
          cfFrames := Min(cfFrames + 8, 64);
          Send(SetCrossfadeFrames(cfFrames));
          changed := true;
        }
        if cfThresh > 0.005 {
          cfThresh := MaxReal(cfThresh - 0.005, 0.005);
          Send(SetCrossfadeThresh(cfThresh));
          changed := true;
        }
      }
    }

    method FixDropouts(m: Metrics) returns (changed: bool)
      requires Valid()
      modifies this`bufMs, this`wsolaPlc, this`sent
      ensures Valid() && Now() == ForDropouts(old(Now()), m) && changed == (Now() != old(Now()))
    {
      hide AllObeyed;
      changed := false;
      if m.dropouts.Or(0) > 0 {
        changed := RaiseBuffer(10);
        if !wsolaPlc {
          wsolaPlc := true;
          Send(EnableWsolaPlc);
          changed := true;
        }
      }
    }

    method FixUnderruns(m: Metrics) returns (changed: bool)
      requires Valid()
      modifies this`bufMs, this`sent
      ensures Valid() && Now() == ForUnderruns(old(Now()), m) && changed == (Now() != old(Now()))
    {
      hide AllObeyed;
      changed := false;
      if m.underruns.Or(0) > 0 { changed := RaiseBuffer(3); }
    }

    method ApplyFixes(m: Metrics)
      requires Valid() && |history| > 0 && history[|history| - 1] == m
      modifies this`bufMs, this`sigma, this`cfFrames, this`cfThresh, this`fec, this`nack, this`wsolaPlc,
               this`adjustments, this`highLossWarned, this`sent
      ensures Valid() && Now() == Tightened(old(Now()), m)
      ensures adjustments == old(adjustments) + if Now() != old(Now()) then 1 else 0
      ensures highLossWarned == (old(highLossWarned) || (m.Loss() > 30.0 && HighLoss(history)))
    {
      hide AllObeyed, InBounds, ForLoss, ForClicks, ForDropouts, ForUnderruns, Stricter, HighLoss;
      AnyFixShows(Now(), m);
      var byLoss := FixLoss(m);
      var byClicks := FixClicks(m);
      var byDropouts := FixDropouts(m);
      var byUnderruns := FixUnderruns(m);
      WarnOfHighLoss(m);
      if byLoss || byClicks || byDropouts || byUnderruns { adjustments := adjustments + 1; }
    }

    method WarnOfHighLoss(m: Metrics)
      modifies this`highLossWarned
      ensures highLossWarned == (old(highLossWarned) || (m.Loss() > 30.0 && HighLoss(history)))
    {
      if m.Loss() > 30.0 && |history| >= 5 {
        if forall i | |history| - 5 <= i < |history| :: history[i].Loss() > 30.0 { highLossWarned := true; }
      }
    }

    method LowerBuffer() returns (changed: bool)
      requires Valid()
      modifies this`bufMs, this`sent
      ensures Valid() && bufMs == Relaxed(old(Now())).bufMs && changed == (bufMs != old(bufMs))
    {
      hide AllObeyed;
      changed := bufMs > 10;
      if changed {
        bufMs := Max(bufMs - 2, 10);
        SetBuffer(bufMs);
      }
    }

    method RaiseSigma() returns (changed: bool)
      requires Valid()
      modifies this`sigma, this`sent
      ensures Valid() && sigma == Relaxed(old(Now())).sigma && changed == (sigma != old(sigma))
    {
      hide AllObeyed;
      changed := sigma < 6.0;
      if changed {
        sigma := MinReal(sigma + 0.5, 6.0);
        Send(SetSigma(sigma));
      }
    }

    method TryRelax()
      requires Valid()
      modifies this`bufMs, this`sigma, this`cfFrames, this`stableCount, this`adjustments, this`sent
      ensures Valid() && Now() == Relaxed(old(Now()))
      ensures if Now() != old(Now()) then stableCount == 0 && adjustments == old(adjustments) + 1
              else stableCount == old(stableCount) && adjustments == old(adjustments)
    {
      hide AllObeyed;
      var lower := LowerBuffer();
      var higher := RaiseSigma();
      var changed := lower || higher;
      if cfFrames > 16 {
        cfFrames := Max(cfFrames - 4, 16);
        Send(SetCrossfadeFrames(cfFrames));
        changed := true;
      }
      if changed {
        stableCount := 0;
        adjustments := adjustments + 1;
      }
    }
  }

  // ---- Safety over every stream ------------------------------------------------------------------

  lemma StepKeepsBounds(s: State, m: Metrics)
    requires InBounds(s.t) && |s.history| <= 20
    ensures InBounds(Step(s, m).t) && Step(s, m).t.cfThresh <= s.t.cfThresh && |Step(s, m).history| <= 20
    ensures Step(s, m).history == Recorded(s.history, m)
    ensures s.adjustments <= Step(s, m).adjustments <= s.adjustments + 1
  {}

  /** Whatever the metrics, the parameters stay in their ranges, the crossfade threshold
      never rises, and the history is the newest twenty. */
  lemma {:induction false} RunStaysInBounds(s: State, ms: seq<Metrics>)
    requires InBounds(s.t) && s.history == []
    ensures InBounds(Run(s, ms).t) && Run(s, ms).t.cfThresh <= s.t.cfThresh
    ensures Run(s, ms).history == ms[|ms| - Min(|ms|, 20)..]
    ensures Run(s, ms).adjustments <= s.adjustments + |ms|
  {
    if ms != [] {
      var before := ms[..|ms| - 1];
      RunStep(s, ms);
      hide Run, Step, InBounds, Recorded, Min;
      RunStaysInBounds(s, before);
      StepKeepsBounds(Run(s, before), ms[|ms| - 1]);
      NewestTwenty(before, ms[|ms| - 1], ms);
    }
  }

  lemma NewestTwenty(before: seq<Metrics>, m: Metrics, ms: seq<Metrics>)
    requires ms != [] && before == ms[..|ms| - 1] && m == ms[|ms| - 1]
    ensures Recorded(before[|before| - Min(|before|, 20)..], m) == ms[|ms| - Min(|ms|, 20)..]
  {
    assert before + [m] == ms;
  }

  // ---- Convergence -----------------------------------------------------------------------------------

  predicate Clean(ms: seq<Metrics>) { forall i | 0 <= i < |ms| :: Score(ms[i]) == 0 }

  /** The least demanding parameters. */
  predicate AtRest(t: Tuning) { t.bufMs == 10 && t.sigma == 6.0 && t.cfFrames == 16 }

  /** At most k relaxations away from rest. */
  predicate Near(t: Tuning, k: nat) {
    10 <= t.bufMs <= 10 + 2 * k && 6.0 - 0.5 * k as real <= t.sigma <= 6.0 && 16 <= t.cfFrames <= 16 + 4 * k
  }

  /** Clean metrics that suffice for k relaxations. */
  function Enough(stable: nat, k: nat): nat {
    if k == 0 then 0 else 6 * (k - 1) + if stable >= 5 then 1 else 6 - stable
  }

  lemma RelaxComesNearer(t: Tuning, k: nat)
    requires Near(t, k)
    ensures if Relaxed(t) == t then AtRest(t) else k > 0 && Near(Relaxed(t), k - 1)
  {}

  lemma {:induction false} CleanRunRests(s: State, ms: seq<Metrics>, k: nat)
    requires Near(s.t, k) && Clean(ms) && |ms| >= Enough(s.stable, k)
    ensures AtRest(Run(s, ms).t)
    decreases |ms|
  {
    if |ms| > 0 {
      RunFromFront(s, ms);
      var s1 := Step(s, ms[0]);
      RelaxComesNearer(s.t, k);
      hide Relaxed, Tightened, Score, Run;
      assert Score(ms[0]) == 0;
      assert s1.t == s.t || s1.t == Relaxed(s.t);
      if s1.t == s.t {
        if s.stable + 1 >= 6 {
          RestIsNearest(s.t);
          CleanRunRests(s1, ms[1..], 0);
        } else {
          CleanRunRests(s1, ms[1..], k);
        }
      } else {
        CleanRunRests(s1, ms[1..], k - 1);
      }
    } else {
      RestIsNearest(s.t);
    }
  }

  lemma RestIsNearest(t: Tuning)
    ensures AtRest(t) <==> Near(t, 0)
  {}

  lemma {:induction false} RunFromFront(s: State, ms: seq<Metrics>)
    requires |ms| > 0
    ensures Run(s, ms) == Run(Step(s, ms[0]), ms[1..])
    decreases |ms|
  {
    hide Step;
    if |ms| > 1 {
      assert ms[..|ms| - 1][1..] == ms[1..][..|ms| - 2];
      RunFromFront(s, ms[..|ms| - 1]);
    } else {
      assert ms[..0] == [] && ms[1..] == [];
    }
  }

  /** From every state in bounds 570 clean metrics in a row bring buffer, sigma and
      crossfade to rest, and every further one leaves them there. */
  lemma ConvergesIn570(s: State, ms: seq<Metrics>)
    requires InBounds(s.t) && Clean(ms) && |ms| >= 570
    ensures AtRest(Run(s, ms).t)
  {
    assert Near(s.t, 95);
    CleanRunRests(s, ms, 95);
  }

  // ---- No smaller number will do -------------------------------------------------------------------------

  lemma {:induction false} QuietWhileCounting(s: State, ms: seq<Metrics>)
    requires Clean(ms) && s.stable + |ms| < 6
    ensures Run(s, ms).t == s.t && Run(s, ms).stable == s.stable + |ms|
  {
    if ms != [] {
      QuietWhileCounting(s, ms[..|ms| - 1]);
      assert Score(ms[|ms| - 1]) == 0;
      hide Score, Tightened, Relaxed;
    }
  }

  lemma {:induction false} RunConcat(s: State, a: seq<Metrics>, b: seq<Metrics>)
    ensures Run(s, a + b) == Run(Run(s, a), b)
    decreases |b|
  {
    hide Step;
    if b == [] {
      assert a + b == a;
    } else {
      assert (a + b)[..|a + b| - 1] == a + b[..|b| - 1];
      RunConcat(s, a, b[..|b| - 1]);
    }
  }

  /** Six clean metrics after a change are one relaxation. */
  lemma SixCleanRelaxOnce(s: State, ms: seq<Metrics>)
    requires Clean(ms) && |ms| == 6 && s.stable == 0 && Relaxed(s.t) != s.t
    ensures Run(s, ms).t == Relaxed(s.t) && Run(s, ms).stable == 0
  {
    QuietWhileCounting(s, ms[..5]);
    assert Score(ms[5]) == 0;
  }

  lemma {:induction false} BufferAfter(s: State, ms: seq<Metrics>, k: nat)
    requires Clean(ms) && |ms| == 6 * k && k <= 95 && s.t.bufMs == 200 && s.stable == 0
    ensures Run(s, ms).t.bufMs == 200 - 2 * k && Run(s, ms).stable == 0
    decreases k
  {
    if k > 0 {
      var a, b := ms[..6 * (k - 1)], ms[6 * (k - 1)..];
      assert ms == a + b;
      RunConcat(s, a, b);
      BufferAfter(s, a, k - 1);
      hide Run, Score;
      assert Clean(b) by {
        forall i | 0 <= i < |b| ensures Score(b[i]) == 0 { assert b[i] == ms[6 * (k - 1) + i]; }
      }
      SixCleanRelaxOnce(Run(s, a), b);
    }
  }

  /** A state that lossy metrics reach still lacks one relaxation after 569 clean ones. */
  lemma Needs570(ms: seq<Metrics>)
    requires Clean(ms) && |ms| == 569
    ensures
      var start := State(START, 0, 0, false, []);
      var lossy := seq(36, _ => Metrics(Some(1.0), None, None, None, None));
      Run(Run(start, lossy), ms).t.bufMs == 12
  {
    var start := State(START, 0, 0, false, []);
    var lossy := seq(36, _ => Metrics(Some(1.0), None, None, None, None));
    LossyRun(start, 36);
    var s := Run(start, lossy);
    var a, b := ms[..564], ms[564..];
    assert ms == a + b;
    RunConcat(s, a, b);
    BufferAfter(s, a, 94);
    hide Run, Score;
    assert Clean(b) by {
      forall i | 0 <= i < |b| ensures Score(b[i]) == 0 { assert b[i] == ms[564 + i]; }
    }
    QuietWhileCounting(Run(s, a), b);
  }

  lemma {:induction false} LossyRun(s: State, k: nat)
    requires 0 < k <= 36 && s.t.bufMs == 20
    ensures
      var r := Run(s, seq(k, _ => Metrics(Some(1.0), None, None, None, None)));
      r.t.bufMs == 20 + 5 * k && r.stable == 0
    decreases k
  {
    var m := Metrics(Some(1.0), None, None, None, None);
    var ms := seq(k, _ => m);
    assert ms[..k - 1] == seq(k - 1, _ => m);
    assert Score(m) == 10;
    if k > 1 { LossyRun(s, k - 1); }
  }

  // ---- What the score says --------------------------------------------------------------------------

  const CLEAN := Metrics(None, None, None, None, None)

  /** The troubles of a metric add up. */
  lemma ScoreAddsUp(m: Metrics)
    ensures Score(m) ==
      Score(CLEAN.(lossPct := m.lossPct)) + Score(CLEAN.(clicks := m.clicks, pktsRx := m.pktsRx))
      + Score(CLEAN.(dropouts := m.dropouts)) + Score(CLEAN.(underruns := m.underruns))
  {}

  /** Each by itself: loss from a tenth of a percent on, clicks that are fewer than half of the
      packets, dropouts and underruns. */
  lemma ScoreOfEach(loss: real, n: int, pkts: int)
    ensures Score(CLEAN) == 0 && Clean([CLEAN])
    ensures Score(CLEAN.(lossPct := Some(loss))) == if loss > 1.0 then 30 else if loss > 0.1 then 10 else 0
    ensures Score(CLEAN.(dropouts := Some(n))) == if n > 0 then 25 else 0
    ensures Score(CLEAN.(underruns := Some(n))) == if n > 0 then 15 else 0
    ensures Score(CLEAN.(clicks := Some(n), pktsRx := Some(pkts))) ==
      if pkts < 1 || 2 * n >= pkts || n <= 0 then 0 else if n > 5 then 20 else 5
    ensures Score(CLEAN.(clicks := Some(n))) == 0
  {}

  // ---- What a fix and a relaxation do ----------------------------------------------------------------

  /** All fixes at once: the buffer grows by 5, 10 and 3 ms for loss, dropouts and underruns,
      up to 200; clicks tighten the detection to 2 sigma, 64 frames and 0.005. */
  lemma TightenedIs(t: Tuning, m: Metrics)
    requires InBounds(t)
    ensures
      var loss, clicks := m.Loss() > 0.5, m.clicks.Or(0) > 0;
      var dropouts, underruns := m.dropouts.Or(0) > 0, m.underruns.Or(0) > 0;
      Tightened(t, m) == Tuning(
        Min(200, t.bufMs + (if loss then 5 else 0) + (if dropouts then 10 else 0) + if underruns then 3 else 0),
        if clicks then MaxReal(2.0, t.sigma - 1.0) else t.sigma,
        if clicks then Min(64, t.cfFrames + 8) else t.cfFrames,
        if clicks then MaxReal(0.005, t.cfThresh - 0.005) else t.cfThresh,
        t.fec || loss, t.nack || loss, t.wsolaPlc || dropouts)
  {}

  function RelaxedTimes(t: Tuning, k: nat): Tuning { if k == 0 then t else Relaxed(RelaxedTimes(t, k - 1)) }

  /** k relaxations: 2 ms, half a sigma and 4 frames each, down to 10 ms, 6 sigma and 16 frames. */
  lemma {:induction false} RelaxedTimesIs(t: Tuning, k: nat)
    requires InBounds(t)
    ensures RelaxedTimes(t, k) == t.(
      bufMs := Max(10, t.bufMs - 2 * k), sigma := MinReal(6.0, t.sigma + 0.5 * k as real),
      cfFrames := Max(16, t.cfFrames - 4 * k))
  {
    if k > 0 { RelaxedTimesIs(t, k - 1); }
  }

  /** From the start 30 clean metrics are enough, and change the buffer alone. */
  lemma StartRelaxesBufferOnly(ms: seq<Metrics>)
    requires Clean(ms) && |ms| == 30
    ensures Run(State(START, 0, 0, false, []), ms).t == Tuning(10, 6.0, 16, 0.02, true, true, true)
  {
    FiveRelaxations(State(START, 0, 0, false, []), ms, 5);
  }

  lemma {:induction false} FiveRelaxations(s: State, ms: seq<Metrics>, k: nat)
    requires Clean(ms) && |ms| == 6 * k && k <= 5 && s.t == START && s.stable == 0
    ensures Run(s, ms).t == START.(bufMs := 20 - 2 * k) && Run(s, ms).stable == 0
    decreases k
  {
    if k > 0 {
      var a, b := ms[..6 * (k - 1)], ms[6 * (k - 1)..];
      assert ms == a + b;
      RunConcat(s, a, b);
      assert Clean(a);
      FiveRelaxations(s, a, k - 1);
      hide Run, Score;
      assert Clean(b) by {
        forall i | 0 <= i < |b| ensures Score(b[i]) == 0 { assert b[i] == ms[6 * (k - 1) + i]; }
      }
      SixCleanRelaxOnce(Run(s, a), b);
    }
  }

  /** Five metrics in a row that end with the k-th lost more than thirty percent each. */
  predicate LossyStretch(ms: seq<Metrics>, k: nat) {
    5 <= k <= |ms| && forall i | k - 5 <= i < k :: ms[i].Loss() > 30.0
  }

  /** The advice is given exactly when there was such a stretch. */
  lemma {:induction false} WarnedIff(s: State, ms: seq<Metrics>)
    requires s.history == [] && !s.warned && InBounds(s.t)
    ensures Run(s, ms).warned <==> exists k: nat :: LossyStretch(ms, k)
    decreases |ms|
  {
    if ms != [] {
      var before := ms[..|ms| - 1];
      WarnedIff(s, before);
      WarnedAgain(s, ms);
      LongerStretch(before, ms[|ms| - 1], ms);
      hide Run, LossyStretch, InBounds;
    }
  }

  lemma WarnedAgain(s: State, ms: seq<Metrics>)
    requires s.history == [] && InBounds(s.t) && ms != []
    ensures Run(s, ms).warned <==> Run(s, ms[..|ms| - 1]).warned || LossyStretch(ms, |ms|)
  {
    hide Run, Step, Recorded, InBounds, HighLoss, LossyStretch;
    HistoryIs(s, ms);
    RunStep(s, ms);
    WarnedStep(Run(s, ms[..|ms| - 1]), ms[|ms| - 1]);
    NewestAre(ms, Run(s, ms).history);
  }

  lemma HistoryIs(s: State, ms: seq<Metrics>)
    requires s.history == [] && InBounds(s.t)
    ensures Run(s, ms).history == ms[|ms| - Min(|ms|, 20)..]
  {
    hide Run, InBounds;
    RunStaysInBounds(s, ms);
  }

  lemma RunStep(s: State, ms: seq<Metrics>)
    requires ms != []
    ensures Run(s, ms) == Step(Run(s, ms[..|ms| - 1]), ms[|ms| - 1])
  {}

  lemma WarnedStep(s: State, m: Metrics)
    ensures Step(s, m).warned <==> s.warned || (m.Loss() > 30.0 && HighLoss(Step(s, m).history))
  {
    hide HighLoss, Tightened, Relaxed, Recorded;
  }

  lemma NewestAre(ms: seq<Metrics>, history: seq<Metrics>)
    requires ms != [] && history == ms[|ms| - Min(|ms|, 20)..]
    ensures ms[|ms| - 1].Loss() > 30.0 && HighLoss(history) <==> LossyStretch(ms, |ms|)
  {
    var from := |ms| - Min(|ms|, 20);
    assert forall i | 0 <= i < |history| :: history[i] == ms[from + i];
    if LossyStretch(ms, |ms|) {
      forall i | |history| - 5 <= i < |history| ensures history[i].Loss() > 30.0 { assert history[i] == ms[from + i]; }
    }
    if ms[|ms| - 1].Loss() > 30.0 && HighLoss(history) {
      forall i | |ms| - 5 <= i < |ms| ensures ms[i].Loss() > 30.0 { assert history[i - from] == ms[i]; }
    }
  }

  lemma LongerStretch(before: seq<Metrics>, m: Metrics, ms: seq<Metrics>)
    requires ms == before + [m]
    ensures (exists k: nat :: LossyStretch(ms, k)) <==>
      (exists k: nat :: LossyStretch(before, k)) || LossyStretch(ms, |ms|)
  {
    forall k: nat | k < |ms| ensures LossyStretch(ms, k) <==> LossyStretch(before, k) {
      assert forall i | 0 <= i < |before| :: ms[i] == before[i];
    }
  }

  /** The k-th metric changed a parameter. */
  predicate Changes(s: State, ms: seq<Metrics>, k: nat) {
    0 < k <= |ms| && Run(s, ms[..k]).t != Run(s, ms[..k - 1]).t
  }

  function Changing(s: State, ms: seq<Metrics>): set<nat> {
    set k | 1 <= k <= |ms| && Changes(s, ms, k)
  }

  /** An adjustment is a metric that changed some parameter, however many it changed. */
  lemma {:induction false} AdjustmentsAreCounted(s: State, ms: seq<Metrics>)
    ensures Run(s, ms).adjustments == s.adjustments + |Changing(s, ms)|
    decreases |ms|
  {
    hide Step, Changing;
    ChangingSplits(s, ms);
    if ms != [] {
      var before := ms[..|ms| - 1];
      AdjustmentsAreCounted(s, before);
      OneMoreCounted(Run(s, before), ms[|ms| - 1]);
      assert ms[..|ms|] == ms;
    }
  }

  lemma ChangingSplits(s: State, ms: seq<Metrics>)
    ensures ms == [] ==> Changing(s, ms) == {}
    ensures ms != [] ==>
      var n := |ms|;
      && n !in Changing(s, ms[..n - 1])
      && Changing(s, ms) == Changing(s, ms[..n - 1]) + if Changes(s, ms, n) then {n} else {}
  {
    hide Run;
    if ms != [] {
      var n := |ms|;
      var before := ms[..n - 1];
      forall k: nat | 1 <= k < n ensures Changes(s, before, k) <==> Changes(s, ms, k) {
        assert before[..k] == ms[..k] && before[..k - 1] == ms[..k - 1];
      }
    }
  }

  lemma OneMoreCounted(s: State, m: Metrics)
    ensures Step(s, m).adjustments == s.adjustments + if Step(s, m).t != s.t then 1 else 0
  {
    hide Tightened, Relaxed, Recorded, HighLoss, Score;
  }
}
