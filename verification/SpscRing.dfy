// The ring buffer class as the receivers use it from one thread at a time:
// write, read, discard, and the receive loop's overflow path, which makes room
// by discarding from the producer's side.

module SpscRing {
  import opened Bits
  import opened Common
  import opened RingGeometry

  class SpscRingBuffer {
    const g: Geometry
    const buf: array<int>
    var writePos: nat
    var readPos: nat

    // Frames ever written and ever removed, and every sample ever written.
    ghost var pub: nat
    ghost var taken: nat
    ghost var stream: seq<int>

    ghost predicate Valid()
      reads this, buf
    {
      && g.Valid() && g.BufferLength() >= 1 && buf.Length == g.BufferLength()
      && taken <= pub <= taken + g.Capacity()
      && writePos == Wrap(pub) && readPos == Wrap(taken)
      && |stream| == g.Extent(pub) && g.Extent(taken) <= g.Extent(pub)
      && Held(stream, g.Extent(taken), g.Extent(pub))
    }

    /** The buffer holds samples a to b of s. */
    ghost predicate Held(s: seq<int>, a: nat, b: nat)
      reads buf
    {
      && g.BufferLength() >= 1 && buf.Length == g.BufferLength() && b <= |s|
      && forall i: nat | a <= i < b :: buf[g.Cell(i)] == s[i]
    }

    lemma HeldFrom(s: seq<int>, a: nat, later: nat, b: nat)
      requires Held(s, a, b) && a <= later
      ensures Held(s, later, b)
    {}

    /** The queued samples, oldest first. */
    ghost function Contents(): seq<int>
      requires Valid()
      reads this, buf
    {
      stream[g.Extent(taken)..]
    }

    /** Frames queued. */
    ghost function Frames(): nat
      requires Valid()
      reads this, buf
    {
      pub - taken
    }

    constructor (capacityFrames: nat, channels: nat)
      requires 1 <= capacityFrames <= 0x1_0000_0000 && channels >= 1
      ensures Valid() && Contents() == [] && Frames() == 0 && fresh(buf)
      ensures g.channels == channels && g.Capacity() == NextPow2(capacityFrames)
    {
      ghost var k := GeometryOf(capacityFrames, channels);
      BufferNonEmpty(k);
      var log2 := Log2(NextPow2(capacityFrames), k.log2cap);
      var shape := Geometry(channels, log2);
      g := shape;
      buf := new int[shape.BufferLength()];
      writePos, readPos, pub, taken, stream := 0, 0, 0, 0, [];
    }

    method Write(data: seq<int>, frames: nat) returns (n: nat)
      requires Valid() && g.Extent(frames) <= |data|
      modifies this, buf
      ensures Valid() && n == Min(frames, g.Capacity() - old(Frames()))
      ensures g.Extent(n) <= |data| && Contents() == old(Contents()) + data[..g.Extent(n)]
      ensures Frames() == old(Frames()) + n
    {
      hide Geometry.Slot, Geometry.Cell, Geometry.Extent, Pow2, And;
      var wr: int, rd: int := writePos, readPos;
      WrapLaws(g, pub, taken);
      var avail := Wrap(g.Capacity() - Wrap(wr - rd));
      var toWrite := Min(frames, avail);
      ExtentMonotone(g, toWrite, frames);
      ExtentAdds(g, pub, toWrite);
      hide Held, Wrap;
      CopyIn(data, wr, toWrite);
      hide Valid;
      Publish(data, wr, toWrite);
      n := toWrite;
    }

    /** write_pos_.store(wr + n): the first n frames of data are queued. */
    method Publish(data: seq<int>, wr: nat, n: nat)
      requires Valid() && wr == writePos && Frames() + n <= g.Capacity() && g.Extent(n) <= |data|
      requires Held(stream + data[..g.Extent(n)], g.Extent(taken), g.Extent(pub) + g.Extent(n))
      modifies this`writePos, this`stream, this`pub
      ensures Valid() && Frames() == old(Frames()) + n
      ensures Contents() == old(Contents()) + data[..g.Extent(n)]
    {
      hide Geometry.Slot, Geometry.Cell, Geometry.Extent, Pow2, And, Held, Wrap;
      ExtentAdds(g, pub, n);
      WrapAdvances(pub, n);
      DropOfAppended(stream, data[..g.Extent(n)], g.Extent(taken));
      writePos := Wrap(wr + n);
      stream, pub := stream + data[..g.Extent(n)], pub + n;
    }

    /** The two nested loops of write. */
    method CopyIn(data: seq<int>, wr: nat, toWrite: nat)
      requires Valid() && wr == writePos && Frames() + toWrite <= g.Capacity() && g.Extent(toWrite) <= |data|
      modifies buf
      ensures Valid()
      ensures Held(stream + data[..g.Extent(toWrite)], g.Extent(taken), g.Extent(pub) + g.Extent(toWrite))
    {
      ghost var a, b, more := g.Extent(taken), g.Extent(pub), stream + data[..g.Extent(toWrite)];
      assert g.Extent(0) == 0;
      hide Geometry.Slot, Geometry.Cell, Geometry.Extent, Pow2, And;
      assert forall i: nat | a <= i < b :: more[i] == stream[i];
      var f := 0;
      while f < toWrite
        modifies buf
        invariant 0 <= f <= toWrite && g.Extent(f) <= g.Extent(toWrite)
        invariant forall i: nat | a <= i < b + g.Extent(f) :: buf[g.Cell(i)] == more[i]
      {
        WriteFrame(data, wr, f, toWrite, more);
        f := f + 1;
        ExtentMonotone(g, f, toWrite);
      }
      forall i: nat | a <= i < b ensures buf[g.Cell(i)] == stream[i] {}
    }

    /** The inner loop of write, for frame f. */
    method WriteFrame(data: seq<int>, wr: nat, f: nat, toWrite: nat, ghost more: seq<int>)
      requires g.Valid() && g.BufferLength() >= 1 && buf.Length == g.BufferLength()
      requires taken <= pub && pub + toWrite <= taken + g.Capacity() && wr == Wrap(pub)
      requires f < toWrite && g.Extent(toWrite) <= |data| && |stream| == g.Extent(pub)
      requires more == stream + data[..g.Extent(toWrite)]
      requires forall i: nat | g.Extent(taken) <= i < g.Extent(pub) + g.Extent(f) ::
        i < |more| && buf[g.Cell(i)] == more[i]
      modifies buf
      ensures forall i: nat | g.Extent(taken) <= i < g.Extent(pub) + g.Extent(f + 1) ::
        i < |more| && buf[g.Cell(i)] == more[i]
    {
      hide Geometry.Slot, Geometry.Cell, Geometry.Extent, Pow2, And;
      ghost var a, b, from := g.Extent(taken), g.Extent(pub), g.Extent(f);
      FrameBounds(f, toWrite);
      var idx := And(Wrap(wr + f), g.Capacity() - 1);
      var ch := 0;
      while ch < g.channels
        modifies buf
        invariant 0 <= ch <= g.channels
        invariant forall i: nat | a <= i < b + from + ch :: buf[g.Cell(i)] == more[i]
      {
        StoreSample(data, wr, f, ch, idx, more, a, b + from + ch);
        ch := ch + 1;
      }
    }

    method StoreSample(data: seq<int>, wr: nat, f: nat, ch: nat, idx: nat, ghost more: seq<int>, ghost a: nat,
        ghost end: nat)
      requires g.Valid() && g.BufferLength() >= 1 && buf.Length == g.BufferLength() && wr == Wrap(pub)
      requires ch < g.channels && g.Extent(f) + ch < |data| && end == g.Extent(pub) + g.Extent(f) + ch
      requires a <= g.Extent(pub) && end < |more| && end < a + g.BufferLength() && more[end] == data[g.Extent(f) + ch]
      requires idx == And(Wrap(wr + f), g.Capacity() - 1)
      requires forall i: nat | a <= i < end :: buf[g.Cell(i)] == more[i]
      modifies buf
      ensures forall i: nat | a <= i < end + 1 :: buf[g.Cell(i)] == more[i]
    {
      SampleSlot(g, pub, f, ch);
      hide Geometry.Slot, Geometry.Cell, Geometry.Extent, Pow2, And;
      WriteKeepsOthers(a, g.Extent(pub), g.Extent(f) + ch);
      assert end == g.Extent(pub) + (g.Extent(f) + ch);
      buf[idx * g.channels + ch] := data[f * g.channels + ch];
    }

    lemma FrameBounds(f: nat, toWrite: nat)
      requires taken <= pub && pub + toWrite <= taken + g.Capacity() && f < toWrite
      ensures g.Extent(f + 1) == g.Extent(f) + g.channels <= g.Extent(toWrite)
      ensures g.Extent(taken) <= g.Extent(pub)
      ensures g.Extent(pub) + g.Extent(toWrite) <= g.Extent(taken) + g.BufferLength()
    {
      ExtentMonotone(g, f + 1, toWrite);
      ExtentMonotone(g, taken, pub);
      ExtentAdds(g, pub, toWrite);
      ExtentMonotone(g, pub + toWrite, taken + g.Capacity());
      ExtentAdds(g, taken, g.Capacity());
    }

    lemma WriteKeepsOthers(a: nat, b: nat, j: nat)
      requires g.BufferLength() >= 1 && a <= b && b + j < a + g.BufferLength()
      ensures forall i: nat | a <= i < b + j :: g.Cell(i) != g.Cell(b + j)
    {
      forall i: nat | a <= i < b + j ensures g.Cell(i) != g.Cell(b + j) {
        DistinctCells(g, i, b + j);
      }
    }

    method Read(out: array<int>, frames: nat) returns (n: nat)
      requires Valid() && out != buf && g.Extent(frames) <= out.Length
      modifies this, out
      ensures Valid() && n == Min(frames, old(Frames()))
      ensures g.Extent(n) <= |old(Contents())| && g.Extent(n) <= out.Length
      ensures out[..g.Extent(n)] == old(Contents())[..g.Extent(n)]
      ensures out[g.Extent(n)..] == old(out[g.Extent(n)..])
      ensures Contents() == old(Contents())[g.Extent(n)..]
      ensures Frames() == old(Frames()) - n
    {
      hide Geometry.Slot, Geometry.Cell, Geometry.Extent, Pow2, And;
      var rd: int, wr: int := readPos, writePos;
      WrapLaws(g, pub, taken);
      var toRead := Min(frames, Wrap(wr - rd));
      ExtentMonotone(g, toRead, frames);
      ExtentAdds(g, taken, toRead);
      ExtentMonotone(g, taken + toRead, pub);
      hide Held, Wrap;
      TakeOfDrop(stream, g.Extent(taken), g.Extent(toRead));
      CopyOut(out, rd, toRead);
      hide Valid;
      Release(rd, toRead);
      n := toRead;
    }

    /** read_pos_.store(rd + n): the oldest n frames are gone. */
    method Release(rd: nat, n: nat)
      requires Valid() && rd == readPos && n <= Frames()
      modifies this`readPos, this`taken
      ensures Valid() && Frames() == old(Frames()) - n
      ensures g.Extent(n) <= |old(Contents())| && Contents() == old(Contents())[g.Extent(n)..]
    {
      hide Geometry.Slot, Geometry.Cell, Geometry.Extent, Pow2, And, Wrap;
      ExtentAdds(g, taken, n);
      ExtentMonotone(g, taken + n, pub);
      WrapAdvances(taken, n);
      HeldFrom(stream, g.Extent(taken), g.Extent(taken + n), g.Extent(pub));
      hide Held;
      DropDrop(stream, g.Extent(taken), g.Extent(n));
      readPos := Wrap(rd + n);
      taken := taken + n;
    }

    /** The two nested loops of read. */
    method CopyOut(out: array<int>, rd: nat, toRead: nat)
      requires Valid() && rd == readPos && toRead <= Frames() && out != buf && g.Extent(toRead) <= out.Length
      requires g.Extent(taken) + g.Extent(toRead) <= |stream|
      modifies out
      ensures out[..g.Extent(toRead)] == stream[g.Extent(taken)..g.Extent(taken) + g.Extent(toRead)]
      ensures out[g.Extent(toRead)..] == old(out[g.Extent(toRead)..])
    {
      hide Geometry.Slot, Geometry.Cell, Geometry.Extent, Pow2, And, Held, Wrap;
      ghost var a := g.Extent(taken);
      ExtentOfNone(g);
      var f := 0;
      while f < toRead
        modifies out
        invariant 0 <= f <= toRead && g.Extent(f) <= g.Extent(toRead)
        invariant forall i: nat | i < g.Extent(f) :: out[i] == stream[a + i]
        invariant forall i: nat | g.Extent(toRead) <= i < out.Length :: out[i] == old(out[i])
      {
        ReadFrame(out, rd, f, toRead);
        f := f + 1;
        ExtentMonotone(g, f, toRead);
      }
    }

    /** The inner loop of read, for frame f. */
    method ReadFrame(out: array<int>, rd: nat, f: nat, toRead: nat)
      requires Valid() && rd == readPos && f < toRead <= Frames() && out != buf && g.Extent(toRead) <= out.Length
      requires g.Extent(f) <= g.Extent(toRead) && g.Extent(taken) + g.Extent(toRead) <= |stream|
      requires forall i: nat | i < g.Extent(f) :: out[i] == stream[g.Extent(taken) + i]
      modifies out
      ensures g.Extent(f + 1) <= g.Extent(toRead)
      ensures forall i: nat | i < g.Extent(f + 1) :: out[i] == stream[g.Extent(taken) + i]
      ensures forall i: nat | g.Extent(toRead) <= i < out.Length :: out[i] == old(out[i])
    {
      hide Geometry.Slot, Geometry.Cell, Geometry.Extent, Pow2, And;
      ghost var a, from := g.Extent(taken), g.Extent(f);
      ExtentMonotone(g, f + 1, toRead);
      ExtentAdds(g, f, 1);
      ExtentOfOne(g);
      var idx := And(Wrap(rd + f), g.Capacity() - 1);
      var ch := 0;
      while ch < g.channels
        modifies out
        invariant 0 <= ch <= g.channels
        invariant forall i: nat | i < from + ch :: out[i] == stream[a + i]
        invariant forall i: nat | g.Extent(toRead) <= i < out.Length :: out[i] == old(out[i])
      {
        CopySample(out, rd, f, ch, idx);
        ch := ch + 1;
      }
    }

    method CopySample(out: array<int>, rd: nat, f: nat, ch: nat, idx: nat)
      requires Valid() && rd == readPos && f < Frames() && ch < g.channels && out != buf
      requires g.Extent(f) + ch < out.Length && g.Extent(taken) + g.Extent(f) + ch < |stream|
      requires idx == And(Wrap(rd + f), g.Capacity() - 1)
      modifies out
      ensures out[g.Extent(f) + ch] == stream[g.Extent(taken) + g.Extent(f) + ch]
      ensures forall i | 0 <= i < out.Length && i != g.Extent(f) + ch :: out[i] == old(out[i])
    {
      SampleSlot(g, taken, f, ch);
      hide Geometry.Slot, Geometry.Cell, Geometry.Extent, Pow2, And;
      ghost var a, at := g.Extent(taken), g.Extent(f) + ch;
      assert buf[g.Cell(a + at)] == stream[a + at];
      out[f * g.channels + ch] := buf[idx * g.channels + ch];
    }

    method Discard(frames: nat)
      requires Valid()
      modifies this
      ensures Valid() && Frames() == old(Frames()) - Min(frames, old(Frames()))
      ensures
        var dropped := g.Extent(Min(frames, old(Frames())));
        dropped <= |old(Contents())| && Contents() == old(Contents())[dropped..]
    {
      hide Geometry.Slot, Geometry.Cell, Geometry.Extent, Pow2, And;
      var rd: int, wr: int := readPos, writePos;
      WrapLaws(g, pub, taken);
      var toDiscard := Min(frames, Wrap(wr - rd));
      hide Valid, Contents;
      Release(rd, toDiscard);
    }

    method AvailableRead() returns (n: nat)
      requires Valid()
      ensures n == Frames()
    {
      WrapLaws(g, pub, taken);
      n := Wrap(writePos - readPos);
    }

    method Reset()
      requires Valid()
      modifies this
      ensures Valid() && Contents() == []
    {
      writePos, readPos, pub, taken, stream := 0, 0, 0, 0, [];
    }

    /** The receive loop: write, and on overflow discard the shortfall and write
        the rest. When the rest fits the ring, the newest capacity frames of
        everything queued and received stay; otherwise the tail of the packet is
        lost and the ring holds the capacity frames that follow the first write. */
    method Receive(data: seq<int>, frames: nat)
      requires Valid() && |data| == g.Extent(frames)
      modifies this, buf
      ensures Valid()
      ensures old(Frames()) <= g.Capacity()
      ensures KeepsNewest(g, old(Contents()), data, frames, g.Capacity() - old(Frames()), Frames(), Contents())
    {
      hide Geometry.Slot, Geometry.Cell, Geometry.Extent, Pow2, And, KeepsNewest, Valid, Held, Contents, Frames;
      ContentsLength();
      ghost var q, free := Contents(), g.Capacity() - Frames();
      ExtentAdds(g, Frames(), free);
      var written := Write(data, frames);
      if written < frames {
        var rest := frames - written;
        ExtentAdds(g, written, rest);
        RefillOnOverflow(data[g.Extent(written)..], rest);
        OverflowKeepsNewest(g, q, data, free, rest);
      } else {
        ContentsLength();
        RoomKeepsAll(g, q, data, frames, free, Frames());
      }
    }

    /** discard, then write the rest, on a full ring. */
    method RefillOnOverflow(rest: seq<int>, frames: nat)
      requires Valid() && Frames() == g.Capacity() && |rest| == g.Extent(frames)
      modifies this, buf
      ensures Valid() && Frames() == g.Capacity()
      ensures
        var m := g.Extent(Min(frames, g.Capacity()));
        m <= |old(Contents())| && m <= |rest| && Contents() == old(Contents())[m..] + rest[..m]
    {
      hide Geometry.Slot, Geometry.Cell, Geometry.Extent, Pow2, And;
      Discard(frames);
      hide Valid, Held, Contents, Frames;
      var more := Write(rest, frames);
      assert more == Min(frames, g.Capacity());
    }

    lemma ContentsLength()
      requires Valid()
      ensures |Contents()| == g.Extent(Frames()) <= g.BufferLength() && Frames() <= g.Capacity() && g.Valid()
    {
      ExtentAdds(g, taken, pub - taken);
      ExtentMonotone(g, pub - taken, g.Capacity());
    }
  }

  /** What the receive loop leaves of `queued`, with `free` frames free, and a packet. */
  ghost predicate KeepsNewest(g: Geometry, queued: seq<int>, data: seq<int>, frames: nat, free: nat, n: nat,
      now: seq<int>)
    requires free <= g.Capacity()
  {
    var cap, all := g.Capacity(), queued + data;
    if frames <= free + cap then
      && n == Min(cap - free + frames, cap)
      && g.Extent(n) <= |all| && now == all[|all| - g.Extent(n)..]
    else
      && g.Extent(free) <= g.Extent(free + cap) <= |data|
      && now == data[g.Extent(free)..g.Extent(free + cap)]
  }

  lemma RoomKeepsAll(g: Geometry, q: seq<int>, data: seq<int>, frames: nat, free: nat, n: nat)
    requires frames <= free <= g.Capacity() && n == g.Capacity() - free + frames
    requires |data| == g.Extent(frames) && |q + data| == g.Extent(n)
    ensures KeepsNewest(g, q, data, frames, free, n, q + data[..g.Extent(frames)])
  {
    hide Geometry.Extent, Pow2;
    assert data[..|data|] == data;
  }

  lemma OverflowKeepsNewest(g: Geometry, q: seq<int>, data: seq<int>, free: nat, rest: nat)
    requires g.Valid() && free <= g.Capacity() && rest > 0
    requires |q| + g.Extent(free) == g.BufferLength()
    requires |data| == g.Extent(free) + g.Extent(rest)
    ensures
      var m := g.Extent(Min(rest, g.Capacity()));
      var full := q + data[..g.Extent(free)];
      && m <= |full| && m <= |data| - g.Extent(free)
      && KeepsNewest(g, q, data, free + rest, free, g.Capacity(), full[m..] + data[g.Extent(free)..][..m])
  {
    hide Geometry.Slot, Geometry.Cell, Geometry.Extent, Pow2, And;
    OverflowContents(g, q, data, free, rest);
  }

  /** What remains after filling the ring, discarding and writing again. */
  lemma OverflowContents(g: Geometry, q: seq<int>, data: seq<int>, free: nat, rest: nat)
    requires g.Valid() && free <= g.Capacity()
    requires |q| + g.Extent(free) == g.BufferLength()
    requires |data| == g.Extent(free) + g.Extent(rest)
    ensures
      var m := Min(rest, g.Capacity());
      var all, full := q + data, q + data[..g.Extent(free)];
      && g.Extent(m) <= |full| && g.Extent(m) <= |data| - g.Extent(free)
      && var now := full[g.Extent(m)..] + data[g.Extent(free)..][..g.Extent(m)];
      if rest <= g.Capacity() then g.BufferLength() <= |all| && now == all[|all| - g.BufferLength()..]
      else g.Extent(free) <= g.Extent(free + g.Capacity()) <= |data|
           && now == data[g.Extent(free)..g.Extent(free + g.Capacity())]
  {
    hide Geometry.Slot, Geometry.Cell, Geometry.Extent, Pow2, And;
    var cap, m := g.Capacity(), Min(rest, g.Capacity());
    ExtentMonotone(g, m, cap);
    ExtentMonotone(g, m, rest);
    ExtentAdds(g, free, cap);
    ExtentMonotone(g, free, free + cap);
    var e := g.Extent(m);
    var now := (q + data[..g.Extent(free)])[e..] + data[g.Extent(free)..][..e];
    if rest <= cap {
      assert now == (q + data)[e..];
    }
  }

  lemma TakeOfDrop(s: seq<int>, a: nat, m: nat)
    requires a + m <= |s|
    ensures s[a..][..m] == s[a..a + m]
  {}

  lemma DropOfAppended(s: seq<int>, t: seq<int>, a: nat)
    requires a <= |s|
    ensures (s + t)[a..] == s[a..] + t
  {}

  lemma DropDrop(s: seq<int>, a: nat, m: nat)
    requires a + m <= |s|
    ensures s[a + m..] == s[a..][m..]
  {}

  /** Slot arithmetic as the nested loops write it. */
  lemma SampleSlot(g: Geometry, count: nat, f: nat, ch: nat)
    requires g.Valid() && ch < g.channels
    ensures f * g.channels == g.Extent(f)
    ensures g.BufferLength() >= 1
    ensures And(Wrap(Wrap(count) + f), g.Capacity() - 1) * g.channels + ch
         == g.Cell(g.Extent(count) + (g.Extent(f) + ch))
  {
    hide Geometry.Cell, Geometry.Extent, Pow2, And;
    ExtentIsProduct(g, f);
    DivModUnique(f * g.channels + ch, g.channels, f, ch);
    SlotIsCell(g, count, f * g.channels + ch);
  }

  lemma ExtentOfNone(g: Geometry)
    ensures g.Extent(0) == 0
  {}

  lemma ExtentOfOne(g: Geometry)
    ensures g.Extent(1) == g.channels
  {
    assert g.Extent(1) == g.Extent(0) + g.channels;
  }

  /** The exponent of a power of two. */
  method Log2(p: nat, ghost k: nat) returns (r: nat)
    requires p == Pow2(k)
    ensures r == k
  {
    r := 0;
    var x := p;
    while x > 1
      invariant r <= k && x == Pow2(k - r)
      decreases x
    {
      assert Pow2(k - r) == 2 * Pow2(k - r - 1);
      x, r := x / 2, r + 1;
    }
  }
}
