// What every call of the concurrent ring came to: the calls and the loads of a run are read
// off its labels, and the log and the stored samples are their outcomes, call by call.

module SpscHistory {
  import opened Common
  import opened RingGeometry
  import opened SpscProtocol

  datatype Request = ReadOf(frames: nat) | DiscardOf(frames: nat)

  datatype Store = Store(data: seq<Sample>, frames: nat)

  // ---- The history of a run ----------------------------------------------------------

  /** The calls of read and discard, in order: those made while the consumer was idle. */
  function Requests(g: Geometry, s: State, labels: seq<Label>): seq<Request>
    requires TypeOk(g, s)
    decreases |labels|
  {
    if labels == [] then []
    else
      var before, l := labels[..|labels| - 1], labels[|labels| - 1];
      Requests(g, s, before) + NewRequest(Run(g, s, before), l)
  }

  function NewRequest(t: State, l: Label): seq<Request> {
    if l.CallRead? && t.c.CIdle? then [ReadOf(l.frames)]
    else if l.CallDiscard? && t.c.CIdle? then [DiscardOf(l.frames)]
    else []
  }

  /** The frames queued each time read or discard loaded write_pos. */
  function Queued(g: Geometry, s: State, labels: seq<Label>): seq<int>
    requires TypeOk(g, s)
    decreases |labels|
  {
    if labels == [] then []
    else
      var before, l := labels[..|labels| - 1], labels[|labels| - 1];
      Queued(g, s, before) + NewQueued(Run(g, s, before), l)
  }

  function NewQueued(t: State, l: Label): seq<int> {
    if l.ConsumerStep? && (t.c.RLoaded? || t.c.DLoaded?) then [t.pub - t.taken] else []
  }

  /** The calls of write, in order. */
  function Stores(g: Geometry, s: State, labels: seq<Label>): seq<Store>
    requires TypeOk(g, s)
    decreases |labels|
  {
    if labels == [] then []
    else
      var before, l := labels[..|labels| - 1], labels[|labels| - 1];
      Stores(g, s, before) + NewStore(g, Run(g, s, before), l)
  }

  function NewStore(g: Geometry, t: State, l: Label): seq<Store> {
    if l.CallWrite? && t.p.PIdle? && g.Extent(l.frames) <= |l.data| then [Store(l.data, l.frames)] else []
  }

  /** The frames free each time write loaded read_pos. */
  function Free(g: Geometry, s: State, labels: seq<Label>): seq<int>
    requires TypeOk(g, s)
    decreases |labels|
  {
    if labels == [] then []
    else
      var before, l := labels[..|labels| - 1], labels[|labels| - 1];
      Free(g, s, before) + NewFree(g, Run(g, s, before), l)
  }

  function NewFree(g: Geometry, t: State, l: Label): seq<int> {
    if l.ProducerStep? && t.p.PLoaded? then [g.Capacity() - (t.pub - t.taken)] else []
  }

  // ---- Their outcomes --------------------------------------------------------------------

  /** A read delivers, a discard drops, each the minimum of the frames asked for and queued. */
  predicate Outcome(r: Request, queued: int, e: Event) {
    (r.ReadOf? <==> e.Delivered?) && e.frames == Min(r.frames, queued)
  }

  /** What a write with so many frames free stores of its data. */
  function Stored(g: Geometry, w: Store, free: int): seq<Sample> {
    var n := g.Extent(Max(0, Min(w.frames, free)));
    if n <= |w.data| then w.data[..n] else w.data
  }

  function AllStored(g: Geometry, ws: seq<Store>, free: seq<int>, n: nat): seq<Sample>
    requires n <= |ws| && n <= |free|
  {
    if n == 0 then [] else AllStored(g, ws, free, n - 1) + Stored(g, ws[n - 1], free[n - 1])
  }

  lemma {:induction false} AllStoredPrefix(g: Geometry, ws: seq<Store>, free: seq<int>, w: seq<Store>, f: seq<int>,
      n: nat)
    requires n <= |ws| && n <= |free|
    ensures AllStored(g, ws + w, free + f, n) == AllStored(g, ws, free, n)
  {
    if n > 0 { AllStoredPrefix(g, ws, free, w, f, n - 1); }
  }

  // ---- The consumer ------------------------------------------------------------------------

  predicate ConsumerHistory(t: State, rs: seq<Request>, qs: seq<int>) {
    var n := |t.log|;
    && n <= |rs| && n <= |qs| && (forall k | 0 <= k < n :: Outcome(rs[k], qs[k], t.log[k]))
    && match t.c
       case RCalled(frames) => |rs| == n + 1 && |qs| == n && rs[n] == ReadOf(frames)
       case RLoaded(frames, _) => |rs| == n + 1 && |qs| == n && rs[n] == ReadOf(frames)
       case RCopy(_, toRead, _) => |rs| == |qs| == n + 1 && rs[n].ReadOf? && toRead == Min(rs[n].frames, qs[n])
       case DCalled(frames) => |rs| == n + 1 && |qs| == n && rs[n] == DiscardOf(frames)
       case DLoaded(frames, _) => |rs| == n + 1 && |qs| == n && rs[n] == DiscardOf(frames)
       case DReady(_, toDiscard) =>
         |rs| == |qs| == n + 1 && rs[n].DiscardOf? && toDiscard == Min(rs[n].frames, qs[n])
       case _ => |rs| == |qs| == n
  }

  lemma ConsumerHistoryStep(g: Geometry, t: State, l: Label, rs: seq<Request>, qs: seq<int>)
    requires Inv(g, t) && ConsumerHistory(t, rs, qs)
    ensures ConsumerHistory(Next(g, t, l), rs + NewRequest(t, l), qs + NewQueued(t, l))
  {
    hide Inv, Geometry.Extent, Geometry.Slot;
    if l.ConsumerStep? && (t.c.RLoaded? || t.c.DLoaded?) { ConsumerReservation(g, t); }
    hide Wrap, Geometry.Capacity;
  }

  // ---- The producer ------------------------------------------------------------------------

  /** The writes that are finished. */
  function Finished(t: State, ws: seq<Store>): int { if t.p.PIdle? then |ws| else |ws| - 1 }

  predicate ProducerHistory(g: Geometry, t: State, ws: seq<Store>, free: seq<int>) {
    var n := Finished(t, ws);
    && 0 <= n <= |free| && t.written == AllStored(g, ws, free, n)
    && match t.p
       case PIdle => |free| == n
       case PCalled(data, frames) => |free| == n && ws[n] == Store(data, frames)
       case PLoaded(data, frames, _) => |free| == n && ws[n] == Store(data, frames)
       case PCopy(data, frames, avail, _, _) =>
         |free| == n + 1 && ws[n] == Store(data, frames) && free[n] == avail
  }

  /** The steps before the last leave the finished writes alone. */
  lemma ProducerHistoryStep(g: Geometry, t: State, l: Label, ws: seq<Store>, free: seq<int>)
    requires Inv(g, t) && ProducerHistory(g, t, ws, free)
    ensures ProducerHistory(g, Next(g, t, l), ws + NewStore(g, t, l), free + NewFree(g, t, l))
  {
    hide Inv, Geometry.Extent, Geometry.Slot, Geometry.Capacity, AllStored;
    AllStoredPrefix(g, ws, free, NewStore(g, t, l), NewFree(g, t, l), Finished(t, ws));
    assert ws + [] == ws && free + [] == free;
    if l.ProducerStep? && t.p.PCopy? {
      PublishedIsStored(g, t, ws, free);
      hide ProducerHistory, ProducerNext;
    } else if l.ProducerStep? && t.p.PLoaded? {
      Reservation(g, t);
      hide ProducerNext;
    }
    hide Wrap;
  }

  lemma PublishedIsStored(g: Geometry, t: State, ws: seq<Store>, free: seq<int>)
    requires Inv(g, t) && ProducerHistory(g, t, ws, free) && t.p.PCopy?
    ensures ProducerHistory(g, ProducerNext(g, t), ws, free)
  {
    assert TypeOk(g, t);
    hide Inv, Geometry.Extent, Geometry.Slot, Geometry.Capacity, Wrap;
    if t.p.j == g.Extent(t.p.ToWrite()) {
      var n := Finished(t, ws);
      assert AllStored(g, ws, free, n + 1) == AllStored(g, ws, free, n) + Stored(g, ws[n], free[n]);
    }
  }

  // ---- Main results ----------------------------------------------------------------------------

  lemma {:induction false} HistoryHolds(g: Geometry, s: State, labels: seq<Label>)
    requires Initial(g, s)
    ensures ConsumerHistory(Run(g, s, labels), Requests(g, s, labels), Queued(g, s, labels))
    ensures ProducerHistory(g, Run(g, s, labels), Stores(g, s, labels), Free(g, s, labels))
    decreases |labels|
  {
    if labels != [] {
      hide ConsumerHistory, ProducerHistory, Next;
      var before, l := labels[..|labels| - 1], labels[|labels| - 1];
      HistoryHolds(g, s, before);
      RunInv(g, s, before);
      var t := Run(g, s, before);
      ConsumerHistoryStep(g, t, l, Requests(g, s, before), Queued(g, s, before));
      ProducerHistoryStep(g, t, l, Stores(g, s, before), Free(g, s, before));
    }
  }

  /** Under every interleaving: the k-th event of the log is the outcome of the k-th call of
      read or discard. Read hands out and discard drops the minimum of the frames asked for
      and those queued at its load of write_pos, and an idle consumer owes no outcome. */
  lemma EveryRequestIsAnswered(g: Geometry, s: State, labels: seq<Label>)
    requires Initial(g, s)
    ensures
      var t, rs, qs := Run(g, s, labels), Requests(g, s, labels), Queued(g, s, labels);
      && |t.log| <= |rs| <= |t.log| + 1 && |t.log| <= |qs| && (t.c.CIdle? ==> |rs| == |t.log|)
      && forall k | 0 <= k < |t.log| :: Outcome(rs[k], qs[k], t.log[k])
  {
    HistoryHolds(g, s, labels);
    hide Run, Requests, Queued, Outcome, ProducerHistory;
  }

  /** Under every interleaving: what was stored is, write by write, the first frames of the
      caller's data, as many as were asked for and free at the load of read_pos. Every write
      but one in progress is finished. */
  lemma EveryStoreIsKept(g: Geometry, s: State, labels: seq<Label>)
    requires Initial(g, s)
    ensures
      var t, ws, free := Run(g, s, labels), Stores(g, s, labels), Free(g, s, labels);
      var n := Finished(t, ws);
      0 <= n <= |free| && t.written == AllStored(g, ws, free, n)
  {
    HistoryHolds(g, s, labels);
    hide Run, Stores, Free, AllStored, Geometry.Extent, ConsumerHistory;
  }

  /** available_read, uninterrupted, answers with what is queued. */
  lemma AvailableIsQueued(g: Geometry, s: State)
    requires Inv(g, s) && s.c.CIdle?
    ensures Run(g, s, [CallAvailable, ConsumerStep, ConsumerStep]).c == AAnswers(s.pub - s.taken)
  {
    var called := s.(c := ACalled);
    var loaded := s.(c := ALoaded(s.writePos, s.pub));
    var labels := [CallAvailable, ConsumerStep, ConsumerStep];
    hide Geometry.Slot, Geometry.Extent, Geometry.Cell;
    NextInv(g, s, CallAvailable);
    NextInv(g, called, ConsumerStep);
    AvailableAnswer(g, loaded);
    hide Inv;
    assert labels[..2][..1] == [CallAvailable] && labels[..2] == [CallAvailable, ConsumerStep];
    assert [CallAvailable][..0] == [];
    assert Run(g, s, [CallAvailable]) == called;
    assert Run(g, s, [CallAvailable, ConsumerStep]) == loaded;
  }
}
