// The lock-free single-producer single-consumer ring as two threads. Every
// atomic load, every atomic store and every copy of one sample is a step of its
// own, and a run is any sequence of such steps. The fields `pub`, `taken`,
// `written`, `log` and `seen` record history; no step reads them.

module SpscProtocol {
  import opened Bits
  import opened Common
  import opened RingGeometry

  type Sample = int

  // What the consumer did, in order: frames handed to the caller of read, and
  // the number of frames dropped by discard.
  datatype Event = Delivered(samples: seq<Sample>, frames: nat) | Dropped(frames: nat)

  // Program counters of write, and of read, discard and available_read.
  datatype Producer =
    | PIdle
    | PCalled(data: seq<Sample>, frames: nat)
    | PLoaded(data: seq<Sample>, frames: nat, wr: nat)
    | PCopy(data: seq<Sample>, frames: nat, avail: nat, wr: nat, j: nat)
  {
    // The frames that this call of write takes.
    function ToWrite(): nat
      requires PCopy?
    {
      Min(frames, avail)
    }
  }

  datatype Consumer =
    | CIdle
    | RCalled(frames: nat)
    | RLoaded(frames: nat, rd: nat)
    | RCopy(rd: nat, toRead: nat, out: seq<Sample>)
    | DCalled(frames: nat)
    | DLoaded(frames: nat, rd: nat)
    | DReady(rd: nat, toDiscard: nat)
    | ACalled
    | ALoaded(wr: nat, seen: nat)
    | AAnswers(answer: nat)

  datatype State = State(
    buf: seq<Sample>, writePos: nat, readPos: nat, p: Producer, c: Consumer,
    pub: nat, taken: nat, written: seq<Sample>, log: seq<Event>)

  datatype Label = CallWrite(data: seq<Sample>, frames: nat) | CallRead(frames: nat) | CallDiscard(frames: nat)
                 | CallAvailable | ProducerStep | ConsumerStep

  predicate TypeOk(g: Geometry, s: State) {
    && g.Valid()
    && |s.buf| == g.BufferLength()
    && s.writePos < SIZE_MAX_PLUS_1 && s.readPos < SIZE_MAX_PLUS_1
    && (s.p.PCalled? || s.p.PLoaded? ==> g.Extent(s.p.frames) <= |s.p.data|)
    && (s.p.PLoaded? || s.p.PCopy? ==> s.p.wr < SIZE_MAX_PLUS_1)
    && (s.p.PCopy? ==> s.p.j <= g.Extent(s.p.ToWrite()) <= |s.p.data|)
    && (s.c.RLoaded? || s.c.RCopy? || s.c.DLoaded? || s.c.DReady? ==> s.c.rd < SIZE_MAX_PLUS_1)
    && (s.c.RCopy? ==> |s.c.out| <= g.Extent(s.c.toRead))
  }

  lemma SlotInBuffer(g: Geometry, pos: nat, j: nat)
    requires g.Valid() && pos < SIZE_MAX_PLUS_1
    ensures g.Slot(pos, j) < g.BufferLength()
  {
    hide Geometry.Slot, Geometry.Cell, Geometry.Extent, Pow2, And;
    SlotIsCell(g, pos, j);
  }

  function ProducerNext(g: Geometry, s: State): (t: State)
    requires TypeOk(g, s)
    ensures TypeOk(g, t)
  {
    match s.p
    case PIdle => s
    case PCalled(data, frames) => s.(p := PLoaded(data, frames, s.writePos))
    case PLoaded(data, frames, wr) =>
      var avail := Wrap(g.Capacity() - Wrap(wr - s.readPos));
      ExtentMonotone(g, Min(frames, avail), frames);
      s.(p := PCopy(data, frames, avail, wr, 0))
    case PCopy(data, frames, avail, wr, j) =>
      var toWrite := Min(frames, avail);
      var n := g.Extent(toWrite);
      if j < n then
        SlotInBuffer(g, wr, j);
        s.(buf := s.buf[g.Slot(wr, j) := data[j]], p := PCopy(data, frames, avail, wr, j + 1))
      else
        s.(writePos := Wrap(wr + toWrite), p := PIdle,
           pub := s.pub + toWrite, written := s.written + data[..n])
  }

  function ConsumerNext(g: Geometry, s: State): (t: State)
    requires TypeOk(g, s)
    ensures TypeOk(g, t)
  {
    match s.c
    case CIdle => s
    case RCalled(frames) => s.(c := RLoaded(frames, s.readPos))
    case RLoaded(frames, rd) => s.(c := RCopy(rd, Min(frames, Wrap(s.writePos - rd)), []))
    case RCopy(rd, toRead, out) =>
      if |out| < g.Extent(toRead) then
        SlotInBuffer(g, rd, |out|);
        s.(c := RCopy(rd, toRead, out + [s.buf[g.Slot(rd, |out|)]]))
      else
        s.(readPos := Wrap(rd + toRead), c := CIdle,
           taken := s.taken + toRead, log := s.log + [Delivered(out, toRead)])
    case DCalled(frames) => s.(c := DLoaded(frames, s.readPos))
    case DLoaded(frames, rd) => s.(c := DReady(rd, Min(frames, Wrap(s.writePos - rd))))
    case DReady(rd, toDiscard) =>
      s.(readPos := Wrap(rd + toDiscard), c := CIdle,
         taken := s.taken + toDiscard, log := s.log + [Dropped(toDiscard)])
    case ACalled => s.(c := ALoaded(s.writePos, s.pub))
    case ALoaded(wr, _) => s.(c := AAnswers(Wrap(wr - s.readPos)))
    case AAnswers(_) => s.(c := CIdle)
  }

  /** One step of the system; a call made while its thread is busy, or with fewer
      samples than it announces, does nothing. */
  function Next(g: Geometry, s: State, l: Label): (t: State)
    requires TypeOk(g, s)
    ensures TypeOk(g, t)
  {
    match l
    case CallWrite(data, frames) =>
      if s.p.PIdle? && g.Extent(frames) <= |data| then s.(p := PCalled(data, frames)) else s
    case CallRead(frames) => if s.c.CIdle? then s.(c := RCalled(frames)) else s
    case CallDiscard(frames) => if s.c.CIdle? then s.(c := DCalled(frames)) else s
    case CallAvailable => if s.c.CIdle? then s.(c := ACalled) else s
    case ProducerStep => ProducerNext(g, s)
    case ConsumerStep => ConsumerNext(g, s)
  }

  predicate Initial(g: Geometry, s: State) {
    && TypeOk(g, s)
    && s.writePos == s.readPos == s.pub == s.taken == 0
    && s.p.PIdle? && s.c.CIdle? && s.written == [] && s.log == []
  }

  function Run(g: Geometry, s: State, labels: seq<Label>): (t: State)
    requires TypeOk(g, s)
    ensures TypeOk(g, t)
    decreases |labels|
  {
    if labels == [] then s
    else Next(g, Run(g, s, labels[..|labels| - 1]), labels[|labels| - 1])
  }

  // ---- What is promised ------------------------------------------------------

  function TotalFrames(log: seq<Event>): nat {
    if log == [] then 0 else TotalFrames(log[..|log| - 1]) + log[|log| - 1].frames
  }

  /** Each delivery is the stretch of `written` that starts where all earlier
      deliveries and drops together ended. */
  predicate InOrder(g: Geometry, log: seq<Event>, written: seq<Sample>) {
    if log == [] then true
    else
      var before, e := log[..|log| - 1], log[|log| - 1];
      var from, to := g.Extent(TotalFrames(before)), g.Extent(TotalFrames(log));
      && InOrder(g, before, written)
      && from <= to <= |written|
      && (e.Delivered? ==> e.samples == written[from..to])
  }

  /** The FIFO queue the ring stands for: published and not yet taken. */
  function Queue(g: Geometry, s: State): seq<Sample>
    requires g.Extent(s.taken) <= |s.written|
  {
    s.written[g.Extent(s.taken)..]
  }

  ghost predicate Held(g: Geometry, s: State)
    requires TypeOk(g, s) && g.Extent(s.pub) <= |s.written| && g.BufferLength() >= 1
  {
    forall i: nat | g.Extent(s.taken) <= i < g.Extent(s.pub) :: s.buf[g.Cell(i)] == s.written[i]
  }

  ghost predicate ProducerOk(g: Geometry, s: State)
    requires TypeOk(g, s) && g.BufferLength() >= 1
  {
    && (s.p.PLoaded? || s.p.PCopy? ==> s.p.wr == s.writePos)
    && (s.p.PCopy? ==>
          && s.pub + s.p.avail <= s.taken + g.Capacity()
          && forall i: nat | i < s.p.j :: s.buf[g.Cell(g.Extent(s.pub) + i)] == s.p.data[i])
  }

  ghost predicate ConsumerOk(g: Geometry, s: State)
    requires TypeOk(g, s) && g.Extent(s.pub) <= |s.written|
  {
    && (s.c.RLoaded? || s.c.RCopy? || s.c.DLoaded? || s.c.DReady? ==> s.c.rd == s.readPos)
    && (s.c.DReady? ==> s.taken + s.c.toDiscard <= s.pub)
    && (s.c.ALoaded? ==> s.taken <= s.c.seen <= s.pub && s.c.wr == Wrap(s.c.seen))
    && (s.c.AAnswers? ==> s.taken + s.c.answer <= s.pub)
    && (s.c.RCopy? ==>
          && s.taken + s.c.toRead <= s.pub
          && g.Extent(s.taken) + |s.c.out| <= |s.written|
          && s.c.out == s.written[g.Extent(s.taken)..g.Extent(s.taken) + |s.c.out|])
  }

  ghost predicate Inv(g: Geometry, s: State) {
    && TypeOk(g, s) && g.BufferLength() >= 1
    && s.taken <= s.pub <= s.taken + g.Capacity()
    && s.writePos == Wrap(s.pub) && s.readPos == Wrap(s.taken)
    && |s.written| == g.Extent(s.pub)
    && Held(g, s)
    && ProducerOk(g, s)
    && ConsumerOk(g, s)
    && InOrder(g, s.log, s.written)
    && TotalFrames(s.log) == s.taken
  }

  // ---- Proof -----------------------------------------------------------------

  lemma {:induction false} InOrderExtends(g: Geometry, log: seq<Event>, written: seq<Sample>, more: seq<Sample>)
    requires InOrder(g, log, written)
    ensures InOrder(g, log, written + more)
  {
    if log != [] {
      var before := log[..|log| - 1];
      InOrderExtends(g, before, written, more);
      var from, to := g.Extent(TotalFrames(before)), g.Extent(TotalFrames(log));
      assert (written + more)[from..to] == written[from..to];
    }
  }

  lemma InOrderAppend(g: Geometry, log: seq<Event>, written: seq<Sample>, e: Event, from: nat, to: nat)
    requires InOrder(g, log, written)
    requires from == g.Extent(TotalFrames(log)) && to == g.Extent(TotalFrames(log) + e.frames)
    requires from <= to <= |written|
    requires e.Delivered? ==> e.samples == written[from..to]
    ensures InOrder(g, log + [e], written) && TotalFrames(log + [e]) == TotalFrames(log) + e.frames
  {
    var log' := log + [e];
    assert log'[..|log'| - 1] == log && log'[|log'| - 1] == e;
    assert TotalFrames(log') == TotalFrames(log) + e.frames;
  }

  lemma Extents(g: Geometry, a: nat, b: nat, n: nat)
    requires a + n <= b
    ensures g.Extent(a + n) == g.Extent(a) + g.Extent(n) <= g.Extent(b)
  {
    ExtentAdds(g, a, n);
    ExtentMonotone(g, a + n, b);
  }

  lemma Bounds(g: Geometry, s: State)
    requires Inv(g, s)
    ensures g.Extent(s.taken) <= g.Extent(s.pub) <= g.Extent(s.taken) + g.BufferLength()
    ensures s.p.PCopy? ==> g.Extent(s.pub) + g.Extent(s.p.ToWrite()) <= g.Extent(s.taken) + g.BufferLength()
    ensures s.c.RCopy? ==> g.Extent(s.taken) + g.Extent(s.c.toRead) <= g.Extent(s.pub)
  {
    hide Geometry.Slot, Geometry.Cell, Geometry.Extent, Pow2, And, Held, InOrder, TotalFrames;
    Extents(g, s.taken, s.pub, 0);
    Extents(g, s.taken, s.taken + g.Capacity(), g.Capacity());
    Extents(g, s.pub, s.taken + g.Capacity(), 0);
    if s.p.PCopy? { Extents(g, s.pub, s.taken + g.Capacity(), s.p.ToWrite()); }
    if s.c.RCopy? { Extents(g, s.taken, s.pub, s.c.toRead); }
  }

  lemma InitialInv(g: Geometry, s: State)
    requires Initial(g, s)
    ensures Inv(g, s)
  {
    BufferNonEmpty(g);
  }

  lemma ProducerMoves(g: Geometry, s: State, p': Producer)
    requires Inv(g, s) && TypeOk(g, s.(p := p')) && ProducerOk(g, s.(p := p'))
    ensures Inv(g, s.(p := p'))
  {
    hide Geometry.Slot, Geometry.Cell, Geometry.Extent, Pow2, And;
    var t := s.(p := p');
    assert Held(g, t);
    assert ConsumerOk(g, t);
  }

  /** write reserves min(frames, free) where free is exact at the moment it loads read_pos. */
  lemma Reservation(g: Geometry, s: State)
    requires Inv(g, s) && s.p.PLoaded?
    ensures ProducerNext(g, s) ==
      s.(p := PCopy(s.p.data, s.p.frames, g.Capacity() - (s.pub - s.taken), s.p.wr, 0))
    ensures Inv(g, ProducerNext(g, s))
  {
    hide Geometry.Slot, Geometry.Cell, Geometry.Extent, Pow2, And;
    CounterDifference(g, s.pub, s.taken);
    var t := ProducerNext(g, s);
    assert ProducerOk(g, t);
    ProducerMoves(g, s, t.p);
  }

  lemma ProducerCopies(g: Geometry, s: State)
    requires Inv(g, s) && s.p.PCopy? && s.p.j < g.Extent(s.p.ToWrite())
    ensures Inv(g, ProducerNext(g, s))
  {
    hide Geometry.Slot, Geometry.Cell, Geometry.Extent, Pow2, And;
    var t := ProducerNext(g, s);
    var a, b, j := g.Extent(s.taken), g.Extent(s.pub), s.p.j;
    Bounds(g, s);
    SlotIsCell(g, s.pub, j);
    assert t.buf == s.buf[g.Cell(b + j) := s.p.data[j]];
    forall i: nat | a <= i < b ensures t.buf[g.Cell(i)] == t.written[i] {
      DistinctCells(g, i, b + j);
    }
    forall i: nat | i < t.p.j ensures t.buf[g.Cell(b + i)] == t.p.data[i] {
      if i < j { DistinctCells(g, b + i, b + j); }
    }
  }

  lemma ProducerPublishes(g: Geometry, s: State)
    requires Inv(g, s) && s.p.PCopy? && s.p.j == g.Extent(s.p.ToWrite())
    ensures Inv(g, ProducerNext(g, s))
  {
    hide Geometry.Slot, Geometry.Cell, Geometry.Extent, Pow2, And, Held, InOrder, TotalFrames;
    Bounds(g, s);
    Extents(g, s.pub, s.pub + s.p.ToWrite(), s.p.ToWrite());
    ModShift(s.pub, s.p.ToWrite(), SIZE_MAX_PLUS_1);
    InOrderExtends(g, s.log, s.written, s.p.data[..s.p.j]);
    PublishedIsHeld(g, s);
  }

  lemma PublishedIsHeld(g: Geometry, s: State)
    requires Inv(g, s) && s.p.PCopy? && s.p.j == g.Extent(s.p.ToWrite())
    requires g.Extent(s.pub + s.p.ToWrite()) == g.Extent(s.pub) + s.p.j
    ensures Held(g, ProducerNext(g, s))
  {
    hide Geometry.Slot, Geometry.Cell, Geometry.Extent, Pow2, And, InOrder, TotalFrames, ConsumerOk;
    var t := ProducerNext(g, s);
    var a, b, m := g.Extent(s.taken), g.Extent(s.pub), s.p.j;
    forall i: nat | a <= i < b + m ensures t.buf[g.Cell(i)] == t.written[i] {
      if i >= b { assert s.buf[g.Cell(b + (i - b))] == s.p.data[i - b]; }
    }
  }

  lemma ProducerInv(g: Geometry, s: State)
    requires Inv(g, s)
    ensures Inv(g, ProducerNext(g, s))
  {
    hide Geometry.Slot, Geometry.Cell, Geometry.Extent, Pow2, And;
    match s.p
    case PIdle =>
    case PCalled(_, _) =>
    case PLoaded(_, _, _) => Reservation(g, s);
    case PCopy(_, _, _, _, j) =>
      if j < g.Extent(s.p.ToWrite()) { ProducerCopies(g, s); } else { ProducerPublishes(g, s); }
  }

  lemma ConsumerMoves(g: Geometry, s: State, c': Consumer)
    requires Inv(g, s) && TypeOk(g, s.(c := c')) && ConsumerOk(g, s.(c := c'))
    ensures Inv(g, s.(c := c'))
  {
    hide Geometry.Slot, Geometry.Cell, Geometry.Extent, Pow2, And;
    var t := s.(c := c');
    assert Held(g, t);
    assert ProducerOk(g, t);
  }

  lemma ConsumerCopies(g: Geometry, s: State)
    requires Inv(g, s) && s.c.RCopy? && |s.c.out| < g.Extent(s.c.toRead)
    ensures Inv(g, ConsumerNext(g, s))
  {
    hide Geometry.Slot, Geometry.Cell, Geometry.Extent, Pow2, And;
    var t := ConsumerNext(g, s);
    var a, j := g.Extent(s.taken), |s.c.out|;
    Bounds(g, s);
    SlotIsCell(g, s.taken, j);
    assert s.buf[g.Cell(a + j)] == s.written[a + j];
    assert s.written[a..a + j + 1] == s.written[a..a + j] + [s.written[a + j]];
    assert ConsumerOk(g, t);
    ConsumerMoves(g, s, t.c);
  }

  lemma ConsumerReserves(g: Geometry, s: State)
    requires Inv(g, s) && (s.c.RLoaded? || s.c.DLoaded?)
    ensures Inv(g, ConsumerNext(g, s))
  {
    hide Geometry.Slot, Geometry.Cell, Geometry.Extent, Pow2, And;
    Bounds(g, s);
    CounterDifference(g, s.pub, s.taken);
    assert s.written[g.Extent(s.taken)..g.Extent(s.taken) + 0] == [];
    ConsumerMoves(g, s, ConsumerNext(g, s).c);
  }

  /** available_read answers with the frames that were queued when it loaded write_pos. */
  lemma AvailableAnswer(g: Geometry, s: State)
    requires Inv(g, s) && s.c.ALoaded?
    ensures ConsumerNext(g, s) == s.(c := AAnswers(s.c.seen - s.taken))
    ensures Inv(g, ConsumerNext(g, s))
  {
    hide Geometry.Slot, Geometry.Cell, Geometry.Extent, Pow2, And;
    CounterDifference(g, s.c.seen, s.taken);
    ConsumerMoves(g, s, ConsumerNext(g, s).c);
  }

  function Take(s: State, n: nat, e: Event): State {
    s.(readPos := Wrap(s.readPos + n), c := CIdle, taken := s.taken + n, log := s.log + [e])
  }

  lemma TakeKeepsData(g: Geometry, s: State, n: nat, e: Event)
    requires Inv(g, s) && s.taken + n <= s.pub
    ensures TypeOk(g, Take(s, n, e)) && Held(g, Take(s, n, e)) && ProducerOk(g, Take(s, n, e))
    ensures Take(s, n, e).readPos == Wrap(s.taken + n)
  {
    hide Geometry.Slot, Geometry.Cell, Geometry.Extent, Pow2, And;
    Extents(g, s.taken, s.pub, n);
    ModShift(s.taken, n, SIZE_MAX_PLUS_1);
  }

  lemma ConsumerTakes(g: Geometry, s: State, n: nat, e: Event)
    requires Inv(g, s) && s.taken + n <= s.pub && e.frames == n
    requires g.Extent(s.taken) + g.Extent(n) <= |s.written|
    requires e.Delivered? ==> e.samples == s.written[g.Extent(s.taken)..g.Extent(s.taken) + g.Extent(n)]
    ensures Inv(g, Take(s, n, e))
  {
    hide Geometry.Slot, Geometry.Cell, Geometry.Extent, Pow2, And;
    Extents(g, s.taken, s.pub, n);
    TakeKeepsData(g, s, n, e);
    InOrderAppend(g, s.log, s.written, e, g.Extent(s.taken), g.Extent(s.taken + n));
    assert ConsumerOk(g, Take(s, n, e));
  }

  lemma ConsumerFinishes(g: Geometry, s: State)
    requires Inv(g, s)
    requires s.c.DReady? || (s.c.RCopy? && |s.c.out| == g.Extent(s.c.toRead))
    ensures Inv(g, ConsumerNext(g, s))
  {
    hide Inv, Geometry.Extent;
    if s.c.RCopy? { ConsumerDelivers(g, s); } else { ConsumerDrops(g, s); }
  }

  lemma ConsumerDelivers(g: Geometry, s: State)
    requires Inv(g, s) && s.c.RCopy? && |s.c.out| == g.Extent(s.c.toRead)
    ensures ConsumerNext(g, s) == Take(s, s.c.toRead, Delivered(s.c.out, s.c.toRead))
    ensures Inv(g, ConsumerNext(g, s))
  {
    hide Geometry.Slot, Geometry.Cell, Geometry.Extent, Pow2, And, Held, InOrder, TotalFrames, ProducerOk;
    Bounds(g, s);
    ConsumerTakes(g, s, s.c.toRead, Delivered(s.c.out, s.c.toRead));
  }

  lemma ConsumerDrops(g: Geometry, s: State)
    requires Inv(g, s) && s.c.DReady?
    ensures ConsumerNext(g, s) == Take(s, s.c.toDiscard, Dropped(s.c.toDiscard))
    ensures Inv(g, ConsumerNext(g, s))
  {
    hide Geometry.Slot, Geometry.Cell, Geometry.Extent, Pow2, And, Held, InOrder, TotalFrames, ProducerOk;
    Bounds(g, s);
    Extents(g, s.taken, s.pub, s.c.toDiscard);
    ConsumerTakes(g, s, s.c.toDiscard, Dropped(s.c.toDiscard));
  }

  lemma ConsumerInv(g: Geometry, s: State)
    requires Inv(g, s)
    ensures Inv(g, ConsumerNext(g, s))
  {
    hide Geometry.Slot, Geometry.Cell, Geometry.Extent, Pow2, And;
    match s.c
    case CIdle =>
    case RCalled(_) => ConsumerMoves(g, s, ConsumerNext(g, s).c);
    case DCalled(_) => ConsumerMoves(g, s, ConsumerNext(g, s).c);
    case RLoaded(_, _) => ConsumerReserves(g, s);
    case DLoaded(_, _) => ConsumerReserves(g, s);
    case RCopy(_, toRead, out) =>
      if |out| < g.Extent(toRead) { ConsumerCopies(g, s); } else { ConsumerFinishes(g, s); }
    case DReady(_, _) => ConsumerFinishes(g, s);
    case ACalled => ConsumerMoves(g, s, ConsumerNext(g, s).c);
    case ALoaded(_, _) => AvailableAnswer(g, s);
    case AAnswers(_) => ConsumerMoves(g, s, ConsumerNext(g, s).c);
  }

  lemma NextInv(g: Geometry, s: State, l: Label)
    requires Inv(g, s)
    ensures Inv(g, Next(g, s, l))
  {
    hide Inv, ProducerNext, ConsumerNext, TypeOk;
    match l
    case ProducerStep => ProducerInv(g, s);
    case ConsumerStep => ConsumerInv(g, s);
    case _ => CallInv(g, s, l);
  }

  lemma CallInv(g: Geometry, s: State, l: Label)
    requires Inv(g, s) && !l.ProducerStep? && !l.ConsumerStep?
    ensures Inv(g, Next(g, s, l))
  {
    hide Geometry.Slot, Geometry.Cell, Geometry.Extent, Pow2, And, Held, InOrder, TotalFrames;
    if l.CallWrite? {
      ProducerMoves(g, s, Next(g, s, l).p);
    } else {
      ConsumerMoves(g, s, Next(g, s, l).c);
    }
  }

  // ---- Main results ------------------------------------------------------------

  lemma {:induction false} RunInv(g: Geometry, s: State, labels: seq<Label>)
    requires Initial(g, s)
    ensures Inv(g, Run(g, s, labels))
    decreases |labels|
  {
    if labels == [] {
      InitialInv(g, s);
    } else {
      RunInv(g, s, labels[..|labels| - 1]);
      NextInv(g, Run(g, s, labels[..|labels| - 1]), labels[|labels| - 1]);
    }
  }

  /** Under every interleaving: what was read is a gap-free, in-order tiling,
      together with what was discarded, of a prefix of what was written; and the
      two counters never lie more than one capacity apart. */
  lemma EveryInterleavingIsFifo(g: Geometry, s: State, labels: seq<Label>)
    requires Initial(g, s)
    ensures
      var t := Run(g, s, labels);
      && InOrder(g, t.log, t.written)
      && g.Extent(TotalFrames(t.log)) <= |t.written|
      && 0 <= Wrap(t.writePos - t.readPos) <= g.Capacity()
      && g.Extent(Wrap(t.writePos - t.readPos)) == |t.written| - g.Extent(TotalFrames(t.log))
  {
    hide Inv, InOrder, TotalFrames, Wrap, TypeOk, Geometry.Extent, Run, Queue;
    RunInv(g, s, labels);
    Accounts(g, Run(g, s, labels));
  }

  lemma Accounts(g: Geometry, t: State)
    requires Inv(g, t)
    ensures InOrder(g, t.log, t.written) && g.Extent(TotalFrames(t.log)) <= |t.written|
    ensures 0 <= Wrap(t.writePos - t.readPos) <= g.Capacity()
    ensures g.Extent(Wrap(t.writePos - t.readPos)) == |t.written| - g.Extent(TotalFrames(t.log))
  {
    hide Geometry.Slot, Geometry.Cell, Geometry.Extent, Pow2, And, Held, InOrder, TotalFrames, ProducerOk, ConsumerOk;
    CounterDifference(g, t.pub, t.taken);
    Extents(g, t.taken, t.pub, t.pub - t.taken);
  }

  /** No buffer element is about to be written by one thread while the other is
      about to read it, nor anywhere in the stretches the two have reserved. */
  lemma NoSlotIsSharedWhileInUse(g: Geometry, s: State, labels: seq<Label>)
    requires Initial(g, s)
    ensures StretchesAreDisjoint(g, Run(g, s, labels))
  {
    RunInv(g, s, labels);
    var t := Run(g, s, labels);
    hide Run, Initial;
    if t.p.PCopy? && t.c.RCopy? {
      forall j: nat, i: nat | j < g.Extent(t.p.ToWrite()) && i < g.Extent(t.c.toRead)
        ensures g.Slot(t.p.wr, j) != g.Slot(t.c.rd, i)
      {
        SlotsDiffer(g, t, j, i);
      }
    }
  }

  ghost predicate StretchesAreDisjoint(g: Geometry, t: State)
    requires TypeOk(g, t)
  {
    t.p.PCopy? && t.c.RCopy? ==>
      forall j: nat, i: nat | j < g.Extent(t.p.ToWrite()) && i < g.Extent(t.c.toRead) ::
        g.Slot(t.p.wr, j) != g.Slot(t.c.rd, i)
  }

  lemma SlotsDiffer(g: Geometry, t: State, j: nat, i: nat)
    requires Inv(g, t) && t.p.PCopy? && t.c.RCopy?
    requires j < g.Extent(t.p.ToWrite()) && i < g.Extent(t.c.toRead)
    ensures g.Slot(t.p.wr, j) != g.Slot(t.c.rd, i)
  {
    hide Geometry.Slot, Geometry.Cell, Geometry.Extent, Pow2, And, Held, InOrder, TotalFrames;
    Bounds(g, t);
    SlotIsCell(g, t.pub, j);
    SlotIsCell(g, t.taken, i);
    DistinctCells(g, g.Extent(t.taken) + i, g.Extent(t.pub) + j);
  }

  /** read and discard reserve min(frames, queued), exact at the moment they load write_pos. */
  lemma ConsumerReservation(g: Geometry, s: State)
    requires Inv(g, s) && (s.c.RLoaded? || s.c.DLoaded?)
    ensures
      var n := Min(s.c.frames, s.pub - s.taken);
      ConsumerNext(g, s) == s.(c := if s.c.RLoaded? then RCopy(s.c.rd, n, []) else DReady(s.c.rd, n))
  {
    hide Geometry.Slot, Geometry.Cell, Geometry.Extent, Pow2, And;
    CounterDifference(g, s.pub, s.taken);
  }

  predicate Publishes(g: Geometry, s: State, l: Label) {
    l.ProducerStep? && s.p.PCopy? && s.p.j == g.Extent(s.p.ToWrite())
  }

  predicate Delivers(g: Geometry, s: State, l: Label) {
    l.ConsumerStep? && s.c.RCopy? && |s.c.out| == g.Extent(s.c.toRead)
  }

  predicate Drops(s: State, l: Label) { l.ConsumerStep? && s.c.DReady? }

  /** The specification the ring refines, a bounded queue. The last step of a write appends
      the first min(frames, avail) frames of its caller's data, the last step of a read or a
      discard takes its frames from the front, and no other step is seen. */
  ghost predicate QueueStep(g: Geometry, s: State, l: Label, t: State)
    requires g.Extent(s.taken) <= |s.written| && g.Extent(t.taken) <= |t.written|
  {
    var q, q' := Queue(g, s), Queue(g, t);
    if Publishes(g, s, l) then
      var n := g.Extent(Min(s.p.frames, s.p.avail));
      && n <= |s.p.data| && q' == q + s.p.data[..n] && |q'| <= g.BufferLength()
      && t.log == s.log
    else if Delivers(g, s, l) then
      var n := g.Extent(s.c.toRead);
      && n <= |q| && q' == q[n..]
      && t.log == s.log + [Delivered(q[..n], s.c.toRead)]
    else if Drops(s, l) then
      var n := g.Extent(s.c.toDiscard);
      && n <= |q| && q' == q[n..]
      && t.log == s.log + [Dropped(s.c.toDiscard)]
    else q' == q && t.log == s.log
  }

  lemma TakenPublished(g: Geometry, s: State)
    requires Inv(g, s)
    ensures g.Extent(s.taken) <= |s.written|
  {
    Bounds(g, s);
  }

  lemma PublishingEnqueues(g: Geometry, s: State)
    requires Inv(g, s) && Publishes(g, s, ProducerStep)
    ensures
      var t := ProducerNext(g, s);
      && g.Extent(s.taken) <= |s.written| <= |t.written|
      && QueueStep(g, s, ProducerStep, t)
  {
    hide Geometry.Slot, Geometry.Cell, Geometry.Extent, Pow2, And, Held, InOrder, TotalFrames;
    var t := ProducerNext(g, s);
    Bounds(g, s);
    assert t.written == s.written + s.p.data[..s.p.j];
    assert Queue(g, t) == Queue(g, s) + s.p.data[..s.p.j];
  }

  lemma TakingDequeues(g: Geometry, s: State, n: nat)
    requires Inv(g, s)
    requires Delivers(g, s, ConsumerStep) || Drops(s, ConsumerStep)
    requires n == if s.c.RCopy? then s.c.toRead else s.c.toDiscard
    ensures
      var t := ConsumerNext(g, s);
      && t.written == s.written && t.taken == s.taken + n
      && g.Extent(s.taken) + g.Extent(n) == g.Extent(s.taken + n) <= |s.written|
      && QueueStep(g, s, ConsumerStep, t)
  {
    hide Geometry.Slot, Geometry.Cell, Geometry.Extent, Pow2, And, Held, InOrder, TotalFrames, ProducerOk;
    Extents(g, s.taken, s.pub, n);
    var a, m := g.Extent(s.taken), g.Extent(n);
    assert Queue(g, s)[..m] == s.written[a..a + m];
    assert s.written[a + m..] == Queue(g, s)[m..];
  }

  lemma ProducerIsQueueStep(g: Geometry, s: State)
    requires Inv(g, s)
    ensures
      var t := ProducerNext(g, s);
      && Inv(g, t) && g.Extent(s.taken) <= |s.written| && g.Extent(t.taken) <= |t.written|
      && QueueStep(g, s, ProducerStep, t)
  {
    hide Geometry.Slot, Geometry.Cell, Geometry.Extent, Pow2, And, Held, InOrder, TotalFrames, ProducerOk, ConsumerOk;
    ProducerInv(g, s);
    TakenPublished(g, s);
    TakenPublished(g, ProducerNext(g, s));
    if Publishes(g, s, ProducerStep) { PublishingEnqueues(g, s); }
  }

  lemma ConsumerIsQueueStep(g: Geometry, s: State)
    requires Inv(g, s)
    ensures
      var t := ConsumerNext(g, s);
      && Inv(g, t) && g.Extent(s.taken) <= |s.written| && g.Extent(t.taken) <= |t.written|
      && QueueStep(g, s, ConsumerStep, t)
  {
    hide Geometry.Slot, Geometry.Cell, Geometry.Extent, Pow2, And, Held, InOrder, TotalFrames, ProducerOk, ConsumerOk;
    ConsumerInv(g, s);
    TakenPublished(g, s);
    TakenPublished(g, ConsumerNext(g, s));
    if Delivers(g, s, ConsumerStep) {
      TakingDequeues(g, s, s.c.toRead);
    } else if Drops(s, ConsumerStep) {
      TakingDequeues(g, s, s.c.toDiscard);
    }
  }

  /** Refinement: every atomic step of either thread, and every call, is a step of the
      bounded queue. */
  lemma EveryStepIsAQueueStep(g: Geometry, s: State, l: Label)
    requires Inv(g, s)
    ensures Inv(g, Next(g, s, l))
    ensures g.Extent(s.taken) <= |s.written|
    ensures g.Extent(Next(g, s, l).taken) <= |Next(g, s, l).written|
    ensures QueueStep(g, s, l, Next(g, s, l))
  {
    hide Inv, ProducerNext, ConsumerNext, Geometry.Extent, TypeOk, QueueStep;
    match l
    case ProducerStep => ProducerIsQueueStep(g, s);
    case ConsumerStep => ConsumerIsQueueStep(g, s);
    case _ => CallIsQueueStep(g, s, l);
  }

  lemma CallIsQueueStep(g: Geometry, s: State, l: Label)
    requires Inv(g, s) && !l.ProducerStep? && !l.ConsumerStep?
    ensures Inv(g, Next(g, s, l))
    ensures g.Extent(s.taken) <= |s.written|
    ensures g.Extent(Next(g, s, l).taken) <= |Next(g, s, l).written|
    ensures QueueStep(g, s, l, Next(g, s, l))
  {
    hide Geometry.Slot, Geometry.Cell, Geometry.Extent, Pow2, And, Held, InOrder, TotalFrames, ProducerOk, ConsumerOk;
    NextInv(g, s, l);
    TakenPublished(g, s);
  }

  /** The answer of available_read is never too large: however the producer goes on, at least
      so many frames are queued until the consumer's next call. */
  lemma AvailableNeverOverstates(g: Geometry, s: State, labels: seq<Label>)
    requires Initial(g, s)
    ensures
      var t := Run(g, s, labels);
      && g.Extent(t.taken) <= |t.written|
      && (t.c.AAnswers? ==> g.Extent(t.c.answer) <= |Queue(g, t)|)
  {
    hide Inv, InOrder, TotalFrames, Wrap, TypeOk, Geometry.Extent, Run, Queue;
    RunInv(g, s, labels);
    AnswerIsQueued(g, Run(g, s, labels));
  }

  lemma AnswerIsQueued(g: Geometry, t: State)
    requires Inv(g, t)
    ensures g.Extent(t.taken) <= |t.written| && (t.c.AAnswers? ==> g.Extent(t.c.answer) <= |Queue(g, t)|)
  {
    hide Geometry.Slot, Geometry.Cell, Geometry.Extent, Pow2, And, Held, InOrder, TotalFrames, ProducerOk;
    Bounds(g, t);
    if t.c.AAnswers? { Extents(g, t.taken, t.pub, t.c.answer); }
  }
}
