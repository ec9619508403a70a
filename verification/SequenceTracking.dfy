// The Windows receiver's sequence accounting across 16-bit wrap-around, and the
// NACKs it sends (apps/win-rx/main.cpp).

module SequenceTracking {
  import opened LossRecovery
  import opened Words

  // last_seq (-1 before the first packet), total_rx, total_drop, g_nack_sent, and
  // every number NACKed so far in the order of sending.
  datatype Track = Track(last: int, rx: nat, drop: nat, nacked: set<U16>, sent: seq<U16>)

  const Start := Track(-1, 0, 0, {}, [])

  function SendNack(t: Track, missing: U16): Track {
    if missing in t.nacked then t
    else t.(nacked := t.nacked + {missing}, sent := t.sent + [missing])
  }

  lemma LastStays(t: Track, missing: U16)
    ensures SendNack(t, missing).last == t.last
  {}

  /** send_nack for gaps 1 .. n behind `last`. */
  function NackGap(t: Track, last: int, n: nat): Track
    requires 0 <= last < 0x1_0000
  {
    if n == 0 then t else SendNack(NackGap(t, last, n - 1), (last + n) % 0x1_0000)
  }

  function OnPacket(t: Track, sequence: U16, relayMode: bool): Track
    requires -1 <= t.last < 0x1_0000
  {
    if t.last < 0 then t.(last := sequence, rx := t.rx + 1)
    else
      var diff := (sequence - t.last) % 0x1_0000;
      if diff == 0 then t
      else
        var t1 := if 1 < diff < 100 then t.(drop := t.drop + diff - 1) else t;
        var t2 := if 1 < diff < 100 && relayMode then NackGap(t1, t.last, diff - 1) else t1;
        t2.(last := sequence, rx := t2.rx + 1)
  }

  class Receiver {
    var lastSeq: int
    var totalRx: nat
    var totalDrop: nat
    var nackSent: set<U16>
    var datagrams: seq<seq<Byte>>   // sent to relay_addr, port + 1
    ghost var numbers: seq<U16>

    ghost predicate Valid()
      reads this
    {
      && -1 <= lastSeq < 0x1_0000 && |datagrams| == |numbers|
      && forall i | 0 <= i < |numbers| :: datagrams[i] == NackBytes(numbers[i])
    }

    ghost function Value(): Track
      reads this
    {
      Track(lastSeq, totalRx, totalDrop, nackSent, numbers)
    }

    constructor ()
      ensures Valid() && Value() == Start
    {
      lastSeq, totalRx, totalDrop, nackSent, datagrams, numbers := -1, 0, 0, {}, [], [];
    }

    method SendNackTo(missing: U16)
      requires Valid()
      modifies this
      ensures Valid() && Value() == SendNack(old(Value()), missing)
    {
      if missing in nackSent { return; }
      nackSent := nackSent + {missing};
      var buf := [0x4E, 0x41, 0, 0, missing / 256, missing % 256];
      datagrams := datagrams + [buf];
      numbers := numbers + [missing];
    }

    /** One for every number between the last and the one diff later. */
    method SendNacks(diff: nat)
      requires Valid() && lastSeq >= 0 && diff >= 1
      modifies this
      ensures Valid() && Value() == NackGap(old(Value()), old(lastSeq), diff - 1) && lastSeq == old(lastSeq)
    {
      hide SendNack;
      for gap := 1 to diff
        invariant Valid() && lastSeq == old(lastSeq) && Value() == NackGap(old(Value()), old(lastSeq), gap - 1)
      {
        LastStays(Value(), (lastSeq + gap) % 0x1_0000);
        SendNackTo((lastSeq + gap) % 0x1_0000);
      }
    }

    /** The sequence-tracking block of the receive loop; the result says whether the
        packet goes on to be played. */
    method Receive(sequence: U16, relayMode: bool) returns (isNew: bool)
      requires Valid()
      modifies this
      ensures Valid() && Value() == OnPacket(old(Value()), sequence, relayMode)
      ensures isNew == (old(lastSeq) != sequence)
    {
      hide NackGap, SendNack;
      if lastSeq >= 0 {
        var diff := (sequence - lastSeq) % 0x1_0000;
        if diff == 0 { return false; }
        if diff > 1 && diff < 100 {
          totalDrop := totalDrop + diff - 1;
          if relayMode { SendNacks(diff); }
        }
      }
      lastSeq := sequence;
      totalRx := totalRx + 1;
      isNew := true;
    }
  }

  // ---- Runs over unwrapped numbers -------------------------------------------------

  /** Arrivals at unwrapped numbers us, in order, each step below 2^16. */
  predicate InOrder(us: seq<nat>) {
    forall k | 0 < k < |us| :: us[k - 1] <= us[k] < us[k - 1] + 0x1_0000
  }

  predicate SmallGaps(us: seq<nat>) {
    forall k | 0 < k < |us| :: us[k] < us[k - 1] + 100
  }

  function Run(us: seq<nat>, relayMode: bool): (t: Track)
    ensures -1 <= t.last < 0x1_0000
  {
    if us == [] then Start
    else OnPacket(Run(us[..|us| - 1], relayMode), us[|us| - 1] % 0x1_0000, relayMode)
  }

  /** The numbers strictly between a and a + n + 1. */
  function Between(a: nat, n: nat): (g: seq<nat>)
    ensures |g| == n && forall i | 0 <= i < n :: g[i] == a + 1 + i
  {
    seq(n, i => a + 1 + i)
  }

  /** The numbers a run skipped, oldest first. */
  function Missing(us: seq<nat>): seq<nat> {
    if |us| < 2 then []
    else
      var a, b := us[|us| - 2], us[|us| - 1];
      Missing(us[..|us| - 1]) + (if b > a then Between(a, b - a - 1) else [])
  }

  /** Those of them that the receiver asks for: it takes a gap of 100 or more for a restart. */
  function AskedFor(us: seq<nat>): seq<nat> {
    if |us| < 2 then []
    else
      var a, b := us[|us| - 2], us[|us| - 1];
      AskedFor(us[..|us| - 1]) + (if a < b < a + 100 then Between(a, b - a - 1) else [])
  }

  /** What send_nack lets through of a list of numbers: the first of every residue. */
  function Dedup(ms: seq<nat>): seq<U16> {
    if ms == [] then []
    else
      var before, r := Dedup(ms[..|ms| - 1]), ms[|ms| - 1] % 0x1_0000;
      if r in before then before else before + [r]
  }

  lemma WrappedDiff(a: nat, b: nat)
    requires a <= b < a + 0x1_0000
    ensures (b % 0x1_0000 - a % 0x1_0000) % 0x1_0000 == b - a
  {}

  lemma GapNumber(a: nat, n: nat)
    ensures (a % 0x1_0000 + n) % 0x1_0000 == (a + n) % 0x1_0000
  {}

  ghost predicate NacksAre(t: Track, ms: seq<nat>) {
    t.sent == Dedup(ms) && forall r: U16 :: r in t.nacked <==> r in t.sent
  }

  lemma OneNack(t: Track, ms: seq<nat>, m: nat)
    requires NacksAre(t, ms)
    ensures NacksAre(SendNack(t, m % 0x1_0000), ms + [m])
  {
    assert (ms + [m])[..|ms|] == ms;
  }

  lemma {:induction false} GapNacks(t: Track, a: nat, n: nat, ms: seq<nat>)
    requires NacksAre(t, ms)
    ensures NacksAre(NackGap(t, a % 0x1_0000, n), ms + Between(a, n))
  {
    hide NacksAre, SendNack;
    if n == 0 {
      assert ms + Between(a, 0) == ms;
    } else {
      GapNacks(t, a, n - 1, ms);
      GapNumber(a, n);
      OneNack(NackGap(t, a % 0x1_0000, n - 1), ms + Between(a, n - 1), a + n);
      assert ms + Between(a, n) == ms + Between(a, n - 1) + [a + n];
    }
  }

  lemma {:induction false} GapKeepsCounts(t: Track, last: int, n: nat)
    requires 0 <= last < 0x1_0000
    ensures var t' := NackGap(t, last, n); t'.last == t.last && t'.rx == t.rx && t'.drop == t.drop
  {
    if n > 0 { GapKeepsCounts(t, last, n - 1); }
  }

  /** One arrival, in unwrapped numbers. */
  lemma OneArrival(t: Track, a: nat, b: nat, relayMode: bool)
    requires a <= b < a + 0x1_0000 && t.last == a % 0x1_0000
    ensures
      var t' := OnPacket(t, b % 0x1_0000, relayMode);
      && t'.last == b % 0x1_0000
      && t'.rx + t'.drop == t.rx + t.drop + (if b - a < 100 then b - a else 1)
  {
    WrappedDiff(a, b);
    if 1 < b - a < 100 {
      GapKeepsCounts(t.(drop := t.drop + (b - a) - 1), t.last, b - a - 1);
    }
    hide NackGap;
  }

  lemma ArrivalNacks(t: Track, a: nat, b: nat, ms: seq<nat>)
    requires a <= b < a + 0x1_0000 && t.last == a % 0x1_0000 && NacksAre(t, ms)
    ensures NacksAre(OnPacket(t, b % 0x1_0000, true), ms + (if a < b < a + 100 then Between(a, b - a - 1) else []))
  {
    hide OnPacket, NackGap, NacksAre;
    PacketCases(t, a, b);
    if a + 1 < b < a + 100 {
      var counted := t.(drop := t.drop + (b - a) - 1);
      SameNacks(t, counted, ms);
      GapNacks(counted, a, b - a - 1, ms);
      SameNacks(NackGap(counted, t.last, b - a - 1), OnPacket(t, b % 0x1_0000, true), ms + Between(a, b - a - 1));
    } else {
      assert ms + [] == ms;
      assert b == a + 1 ==> Between(a, 0) == [];
      SameNacks(t, OnPacket(t, b % 0x1_0000, true), ms);
    }
  }

  lemma PacketCases(t: Track, a: nat, b: nat)
    requires a <= b < a + 0x1_0000 && t.last == a % 0x1_0000
    ensures
      var t' := OnPacket(t, b % 0x1_0000, true);
      var u := if a + 1 < b < a + 100 then NackGap(t.(drop := t.drop + (b - a) - 1), t.last, b - a - 1) else t;
      t'.sent == u.sent && t'.nacked == u.nacked
  {
    WrappedDiff(a, b);
    hide NackGap;
  }

  lemma SameNacks(t: Track, u: Track, ms: seq<nat>)
    requires NacksAre(t, ms) && t.sent == u.sent && t.nacked == u.nacked
    ensures NacksAre(u, ms)
  {
    hide Dedup;
  }

  lemma Prefix(us: seq<nat>)
    requires |us| >= 2 && InOrder(us)
    ensures
      var n := |us| - 1;
      && InOrder(us[..n]) && us[..n] != [] && us[..n][0] == us[0] && us[..n][n - 1] == us[n - 1]
      && us[n - 1] <= us[n] < us[n - 1] + 0x1_0000
      && (SmallGaps(us) <==> SmallGaps(us[..n]) && us[n] < us[n - 1] + 100)
  {}

  /** Received plus dropped is the unwrapped span plus one, exactly when no gap
      reaches 100; larger gaps are counted as a single step. */
  lemma {:induction false} AccountingIsExactIff(us: seq<nat>, relayMode: bool)
    requires us != [] && InOrder(us)
    ensures
      var t := Run(us, relayMode);
      && t.last == us[|us| - 1] % 0x1_0000
      && us[0] + t.rx + t.drop <= us[|us| - 1] + 1
      && (us[0] + t.rx + t.drop == us[|us| - 1] + 1 <==> SmallGaps(us))
    decreases |us|
  {
    var n := |us| - 1;
    if n == 0 {
      assert Run(us[..0], relayMode) == Start;
    } else {
      Prefix(us);
      hide InOrder, SmallGaps, OnPacket;
      AccountingIsExactIff(us[..n], relayMode);
      OneArrival(Run(us[..n], relayMode), us[n - 1], us[n], relayMode);
    }
  }

  /** The arrivals that are not a repetition of the one before. */
  function Arrivals(us: seq<nat>): nat {
    if |us| < 2 then |us|
    else Arrivals(us[..|us| - 1]) + if us[|us| - 1] != us[|us| - 2] then 1 else 0
  }

  /** The two counters, each by itself: every arrival but repetitions is received, and the
      dropped packets are the missing ones of all gaps below 100. */
  lemma {:induction false} CountersAre(us: seq<nat>, relayMode: bool)
    requires us != [] && InOrder(us)
    ensures Run(us, relayMode).rx == Arrivals(us) && Run(us, relayMode).drop == |AskedFor(us)|
    decreases |us|
  {
    var n := |us| - 1;
    if n == 0 {
      assert Run(us[..0], relayMode) == Start;
    } else {
      Prefix(us);
      AccountingIsExactIff(us[..n], relayMode);
      CountersAre(us[..n], relayMode);
      OneArrivalCounts(Run(us[..n], relayMode), us[n - 1], us[n], relayMode);
      hide InOrder, SmallGaps, OnPacket;
    }
  }

  lemma OneArrivalCounts(t: Track, a: nat, b: nat, relayMode: bool)
    requires a <= b < a + 0x1_0000 && t.last == a % 0x1_0000
    ensures
      var t' := OnPacket(t, b % 0x1_0000, relayMode);
      && t'.rx == t.rx + (if a != b then 1 else 0)
      && t'.drop == t.drop + (if a < b < a + 100 then b - a - 1 else 0)
  {
    WrappedDiff(a, b);
    if 1 < b - a < 100 {
      GapKeepsCounts(t.(drop := t.drop + (b - a) - 1), t.last, b - a - 1);
    }
    hide NackGap;
  }

  /** Without a relay nothing is asked for. */
  lemma {:induction false} SilentWithoutRelay(us: seq<nat>)
    ensures Run(us, false).sent == [] && Run(us, false).nacked == {}
    decreases |us|
  {
    if us != [] { SilentWithoutRelay(us[..|us| - 1]); }
  }

  lemma LastArrival(us: seq<nat>)
    requires |us| >= 2
    ensures
      var n := |us| - 1;
      var a, b := us[n - 1], us[n];
      && Run(us, true) == OnPacket(Run(us[..n], true), b % 0x1_0000, true)
      && AskedFor(us) == AskedFor(us[..n]) + (if a < b < a + 100 then Between(a, b - a - 1) else [])
  {}

  /** In relay mode the NACKed numbers are the missing ones of all gaps below 100, in order,
      each 16-bit number once in the receiver's lifetime. */
  lemma {:induction false} NacksAreAskedFor(us: seq<nat>)
    requires InOrder(us)
    ensures NacksAre(Run(us, true), AskedFor(us))
    decreases |us|
  {
    if |us| < 2 {
      if us != [] { assert Run(us[..0], true) == Start; }
    } else {
      var n := |us| - 1;
      Prefix(us);
      AccountingIsExactIff(us[..n], true);
      LastArrival(us);
      NacksAreAskedFor(us[..n]);
      hide *;
      ArrivalNacks(Run(us[..n], true), us[n - 1], us[n], AskedFor(us[..n]));
    }
  }

  /** Everything missing is asked for exactly when no gap reaches 100. */
  lemma {:induction false} AskedForIsMissingIff(us: seq<nat>)
    requires InOrder(us)
    ensures if SmallGaps(us) then AskedFor(us) == Missing(us) else |AskedFor(us)| < |Missing(us)|
    decreases |us|
  {
    if |us| >= 2 {
      Prefix(us);
      hide InOrder, SmallGaps;
      AskedForIsMissingIff(us[..|us| - 1]);
    }
  }

  predicate DistinctResidues(ms: seq<nat>) {
    forall i, j | 0 <= i < j < |ms| :: ms[i] % 0x1_0000 != ms[j] % 0x1_0000
  }

  function Residues(ms: seq<nat>): (rs: seq<U16>)
    ensures |rs| == |ms| && forall i | 0 <= i < |ms| :: rs[i] == ms[i] % 0x1_0000
  {
    seq(|ms|, i requires 0 <= i < |ms| => ms[i] % 0x1_0000)
  }

  lemma {:induction false} DedupMembers(ms: seq<nat>, r: U16)
    ensures |Dedup(ms)| <= |ms|
    ensures r in Dedup(ms) <==> r in Residues(ms)
    decreases |ms|
  {
    if ms != [] {
      var n := |ms| - 1;
      DedupMembers(ms[..n], r);
      DedupMembers(ms[..n], ms[n] % 0x1_0000);
      assert Residues(ms) == Residues(ms[..n]) + [ms[n] % 0x1_0000];
    }
  }

  lemma {:induction false} DedupIsAllIffDistinct(ms: seq<nat>)
    ensures Dedup(ms) == Residues(ms) <==> DistinctResidues(ms)
    ensures DistinctResidues(ms) || |Dedup(ms)| < |ms|
    decreases |ms|
  {
    if ms != [] {
      var n := |ms| - 1;
      var before, r := ms[..n], ms[n] % 0x1_0000;
      DedupIsAllIffDistinct(before);
      DedupMembers(before, r);
      DistinctPrefix(ms);
      assert Residues(ms) == Residues(before) + [r];
      assert Residues(ms)[..n] == Residues(before);
      hide DistinctResidues, Residues;
      if r !in Dedup(before) && Dedup(before) + [r] == Residues(ms) {
        assert Dedup(before) == Residues(ms)[..|Dedup(before)|];
      }
    }
  }

  lemma DistinctPrefix(ms: seq<nat>)
    requires ms != []
    ensures
      var n := |ms| - 1;
      DistinctResidues(ms) <==> DistinctResidues(ms[..n]) && ms[n] % 0x1_0000 !in Residues(ms[..n])
  {
    var n := |ms| - 1;
    var before, r := ms[..n], ms[n] % 0x1_0000;
    if r in Residues(before) {
      var i :| 0 <= i < n && Residues(before)[i] == r;
      assert ms[i] % 0x1_0000 == ms[n] % 0x1_0000;
    } else {
      forall i | 0 <= i < n ensures ms[i] % 0x1_0000 != r { assert Residues(before)[i] != r; }
      assert forall i, j | 0 <= i < j < n :: before[i] == ms[i] && before[j] == ms[j];
    }
    if DistinctResidues(ms) {
      forall i, j | 0 <= i < j < n ensures before[i] % 0x1_0000 != before[j] % 0x1_0000 {
        assert ms[i] % 0x1_0000 != ms[j] % 0x1_0000;
      }
    }
  }

  /** The NACKed numbers are exactly the missing ones, each once, if and only if no gap
      reaches 100 and no two missing packets share their 16 bits. */
  lemma NacksCoverMissingIff(us: seq<nat>)
    requires InOrder(us)
    ensures Run(us, true).sent == Residues(Missing(us)) <==> SmallGaps(us) && DistinctResidues(Missing(us))
  {
    NacksAreAskedFor(us);
    AskedForIsMissingIff(us);
    DedupIsAllIffDistinct(AskedFor(us));
    if !SmallGaps(us) { DedupMembers(AskedFor(us), 0); }
  }

  lemma {:induction false} MissingWithin(us: seq<nat>)
    requires us != [] && InOrder(us)
    ensures forall m | m in Missing(us) :: us[0] < m < us[|us| - 1]
    ensures forall i, j | 0 <= i < j < |Missing(us)| :: Missing(us)[i] < Missing(us)[j]
    ensures us[0] <= us[|us| - 1]
    decreases |us|
  {
    if |us| >= 2 {
      var n := |us| - 1;
      var before, a, b := us[..n], us[n - 1], us[n];
      MissingWithin(before);
      assert before[0] == us[0] && before[|before| - 1] == a;
      var earlier, more := Missing(before), if b > a then Between(a, b - a - 1) else [];
      forall m | m in Missing(us) ensures us[0] < m < b {
        if m in earlier {} else { assert m in more; }
      }
      forall i, j | 0 <= i < j < |Missing(us)| ensures Missing(us)[i] < Missing(us)[j] {
        if i < |earlier| && j >= |earlier| {
          assert earlier[i] in earlier;
        }
      }
    }
  }

  /** Over every span below 65536 only the gaps decide. */
  lemma NacksAreExactOverShortSpansIff(us: seq<nat>)
    requires us != [] && InOrder(us) && us[|us| - 1] < us[0] + 0x1_0000
    ensures Run(us, true).sent == Residues(Missing(us)) <==> SmallGaps(us)
  {
    MissingWithin(us);
    var ms := Missing(us);
    forall i, j | 0 <= i < j < |ms| ensures ms[i] % 0x1_0000 != ms[j] % 0x1_0000 {
      assert ms[i] in ms && ms[j] in ms;
      SpanSeparates(ms[i], ms[j]);
    }
    NacksCoverMissingIff(us);
  }

  lemma SpanSeparates(a: nat, b: nat)
    requires a < b < a + 0x1_0000
    ensures a % 0x1_0000 != b % 0x1_0000
  {}

  // ---- A retransmission arrives --------------------------------------------------------

  /** Two packets after a run up to number a: a late one, u, and then the next one, b. The
      late packet counts as received and moves last_seq back, so the way from u to b is
      counted once more, and nothing is ever taken off the dropped packets. Received plus
      dropped grows by as much as the span only in one accident: u lies so far back that
      the gap up to b is taken for a restart, and exactly one packet is missing before b. */
  lemma LatePacketAccounts(t: Track, a: nat, u: nat, b: nat, relayMode: bool)
    requires t.last == a % 0x1_0000 && u < a < b && a - u <= 0x1_0000 - 100 && b - u < 0x1_0000
    ensures
      var t' := OnPacket(OnPacket(t, u % 0x1_0000, relayMode), b % 0x1_0000, relayMode);
      && t'.rx == t.rx + 2
      && t'.drop == t.drop + (if b - u < 100 then b - u - 1 else 0)
      && (t'.rx + t'.drop == t.rx + t.drop + (b - a) <==> b - u >= 100 && b == a + 2)
  {
    WrappedBack(a, u);
    WrappedDiff(u, b);
    var late := OnPacket(t, u % 0x1_0000, relayMode);
    assert late.rx == t.rx + 1 && late.drop == t.drop && late.last == u % 0x1_0000;
    if 1 < b - u < 100 { GapKeepsCounts(late.(drop := late.drop + (b - u) - 1), late.last, b - u - 1); }
    hide NackGap;
  }

  lemma WrappedBack(a: nat, u: nat)
    requires u < a <= u + 0x1_0000
    ensures (u % 0x1_0000 - a % 0x1_0000) % 0x1_0000 == 0x1_0000 - (a - u) || a == u + 0x1_0000
  {}

  /** The shortest case: the packet after the last one is lost, asked for, sent again and
      received between its two successors. Then nothing is missing, two packets count as
      dropped, and one that was received has been asked for. */
  lemma RetransmissionCountsTwice(t: Track)
    requires 0 <= t.last < 0xFFFD && t.last + 1 !in t.nacked && t.last + 2 !in t.nacked
    ensures
      var a := t.last;
      var t' := OnPacket(OnPacket(OnPacket(t, a + 2, true), a + 1, true), a + 3, true);
      t'.last == a + 3 && t'.rx == t.rx + 3 && t'.drop == t.drop + 2 && t'.sent == t.sent + [a + 1, a + 2]
  {
    hide OnPacket;
    var t2 := OnPacket(t, t.last + 2, true);
    OneLost(t);
    OneLate(t2, t.last + 1);
    OneLost(OnPacket(t2, t.last + 1, true));
    assert t.sent + [t.last + 1] + [t.last + 2] == t.sent + [t.last + 1, t.last + 2];
  }

  lemma OneLost(t: Track)
    requires 0 <= t.last < 0xFFFE && t.last + 1 !in t.nacked
    ensures OnPacket(t, t.last + 2, true)
         == Track(t.last + 2, t.rx + 1, t.drop + 1, t.nacked + {t.last + 1}, t.sent + [t.last + 1])
  {
    var t1 := t.(drop := t.drop + 1);
    assert NackGap(t1, t.last, 0) == t1;
    assert NackGap(t1, t.last, 1) == SendNack(t1, t.last + 1);
    hide NackGap;
  }

  lemma OneLate(t: Track, u: U16)
    requires u < t.last <= u + 1000 && t.last < 0x1_0000
    ensures OnPacket(t, u, true) == t.(last := u, rx := t.rx + 1)
  {}
}
