// Where the rings of apps/linux-rx, apps/win-rx and apps/win put the samples of
// a transfer. Positions are free-running size_t frame counters; a frame's
// samples lie side by side in the slot (position & mask).

module RingGeometry {
  import opened Bits
  import Cells

  /** channels_ and capacity_ == 2^log2cap, as the constructor leaves them. */
  datatype Geometry = Geometry(channels: nat, log2cap: nat) {
    function Capacity(): (c: nat)
      ensures c >= 1
    {
      Pow2(log2cap)
    }

    /** Samples in n frames, n * channels, in the form of a repeated addition. */
    function Extent(n: nat): nat {
      if n == 0 then 0 else Extent(n - 1) + channels
    }

    function BufferLength(): nat {
      Extent(Capacity())
    }

    /** The cell of running sample number i. */
    function Cell(i: nat): (c: nat)
      requires BufferLength() >= 1
      ensures c < BufferLength()
    {
      Cells.Cell(i, BufferLength())
    }

    predicate Valid() {
      channels >= 1 && log2cap < 64
    }

    /** ((pos + j / channels) & mask) * channels + j % channels */
    function Slot(pos: nat, j: nat): nat
      requires Valid()
    {
      And((pos + j / channels) % SIZE_MAX_PLUS_1, Capacity() - 1) * channels + j % channels
    }
  }

  lemma {:induction false} ExtentIsProduct(g: Geometry, n: nat)
    ensures g.Extent(n) == n * g.channels
  {
    if n > 0 {
      ExtentIsProduct(g, n - 1);
      assert n * g.channels == (n - 1) * g.channels + g.channels;
    }
  }

  lemma {:induction false} ExtentAdds(g: Geometry, a: nat, n: nat)
    ensures g.Extent(a + n) == g.Extent(a) + g.Extent(n)
  {
    if n > 0 { ExtentAdds(g, a, n - 1); }
  }

  lemma ExtentMonotone(g: Geometry, a: nat, b: nat)
    requires a <= b
    ensures g.Extent(a) <= g.Extent(b)
  {
    ExtentAdds(g, a, b - a);
  }

  lemma BufferNonEmpty(g: Geometry)
    requires g.Valid()
    ensures g.BufferLength() >= 1
  {
    ExtentMonotone(g, 1, g.Capacity());
    assert g.Extent(1) == g.Extent(0) + g.channels;
  }

  /** The constructor's geometry: capacity_ is next_pow2 of the frames asked for. */
  lemma GeometryOf(capacityFrames: nat, channels: nat) returns (g: Geometry)
    requires 1 <= capacityFrames <= 0x1_0000_0000 && channels >= 1
    ensures g.Valid() && g.channels == channels
    ensures g.Capacity() == NextPow2(capacityFrames) >= capacityFrames
  {
    var k := NextPow2IsLeast(capacityFrames);
    g := Geometry(channels, k);
  }

  lemma CapacityDividesSizeMax(g: Geometry)
    requires g.Valid()
    ensures SIZE_MAX_PLUS_1 == Pow2(64 - g.log2cap) * g.Capacity()
  {
    Pow2Of32();
    Pow2Add(32, 32);
    assert Pow2(64) == SIZE_MAX_PLUS_1;
    Pow2Add(64 - g.log2cap, g.log2cap);
  }

  lemma ModOfMultiple(a: nat, m: nat, d: nat, c: nat)
    requires c >= 1 && d >= 1 && m == d * c
    ensures m >= 1 && a % m % c == a % c
  {
    MulMonotone(1, d, c);
    var q, r := a / m, a % m;
    var q', r' := r / c, r % c;
    assert a == q * m + r && r == q' * c + r';
    assert q * m == (q * d) * c by { assert q * (d * c) == (q * d) * c; }
    assert a == (q * d + q') * c + r' by { assert (q * d + q') * c == (q * d) * c + q' * c; }
    DivModUnique(a, c, q * d + q', r');
  }

  lemma ModShift(count: nat, f: nat, m: nat)
    requires m >= 1
    ensures (count % m + f) % m == (count + f) % m
  {
    var q, r := (count % m + f) / m, (count % m + f) % m;
    assert count == (count / m) * m + count % m;
    assert count + f == (count / m + q) * m + r by {
      assert (count / m + q) * m == (count / m) * m + q * m;
    }
    DivModUnique(count + f, m, count / m + q, r);
  }

  lemma MulBelow(r: nat, h: nat, c: nat, ch: nat)
    requires r < c && h < ch
    ensures r * ch + h < c * ch
  {
    MulMonotone(r + 1, c, ch);
    assert (r + 1) * ch == r * ch + ch;
  }

  lemma SplitPosition(n: nat, c: nat, ch: nat, h: nat)
    requires c >= 1 && h < ch
    ensures c * ch >= 1 && (n % c) * ch + h == (n * ch + h) % (c * ch) < c * ch
  {
    MulMonotone(1, c, ch);
    var q, r := n / c, n % c;
    MulBelow(r, h, c, ch);
    assert n * ch == q * (c * ch) + r * ch by {
      assert n == q * c + r;
      assert (q * c + r) * ch == (q * c) * ch + r * ch;
      assert (q * c) * ch == q * (c * ch);
    }
    DivModUnique(n * ch + h, c * ch, q, r * ch + h);
  }

  lemma MaskedFrame(g: Geometry, count: nat, f: nat)
    requires g.Valid()
    ensures And((count % SIZE_MAX_PLUS_1 + f) % SIZE_MAX_PLUS_1, g.Capacity() - 1) == (count + f) % g.Capacity()
  {
    ModShift(count, f, SIZE_MAX_PLUS_1);
    AndMaskIsMod((count + f) % SIZE_MAX_PLUS_1, g.log2cap);
    CapacityDividesSizeMax(g);
    ModOfMultiple(count + f, SIZE_MAX_PLUS_1, Pow2(64 - g.log2cap), g.Capacity());
  }

  lemma JoinPosition(count: nat, j: nat, ch: nat)
    requires ch >= 1
    ensures (count + j / ch) * ch + j % ch == count * ch + j
  {
    var f := j / ch;
    assert j == f * ch + j % ch;
    assert (count + f) * ch == count * ch + f * ch;
  }

  /** Masking, counter wrap-around and channel interleaving together: sample j of
      a transfer starting at frame number `count` of the whole run lies at the
      sample's running number modulo the buffer length, although the code only
      ever sees `count` modulo 2^64. */
  lemma SlotIsCell(g: Geometry, count: nat, j: nat)
    requires g.Valid()
    ensures g.BufferLength() >= 1
    ensures g.Slot(count % SIZE_MAX_PLUS_1, j) == g.Cell(g.Extent(count) + j)
  {
    hide Cells.Cell, Pow2, And, Geometry.Extent;
    BufferNonEmpty(g);
    ExtentIsProduct(g, count);
    ExtentIsProduct(g, g.Capacity());
    Cells.CellIsMod(g.Extent(count) + j, g.BufferLength());
    MaskedFrame(g, count, j / g.channels);
    SplitPosition(count + j / g.channels, g.Capacity(), g.channels, j % g.channels);
    JoinPosition(count, j, g.channels);
  }

  /** Two running numbers less than one buffer length apart never share a cell. */
  lemma DistinctCells(g: Geometry, a: nat, b: nat)
    requires g.BufferLength() >= 1 && a < b < a + g.BufferLength()
    ensures g.Cell(a) != g.Cell(b)
  {
    Cells.CellsDiffer(a, b, g.BufferLength());
  }

  lemma WrappedDifference(x: nat, y: nat)
    requires y <= x < y + SIZE_MAX_PLUS_1
    ensures (x % SIZE_MAX_PLUS_1 - y % SIZE_MAX_PLUS_1) % SIZE_MAX_PLUS_1 == x - y
  {}

  /** size_t difference of two counters at most one capacity apart. */
  lemma CounterDifference(g: Geometry, pub: nat, taken: nat)
    requires g.Valid() && taken <= pub <= taken + g.Capacity()
    ensures (pub % SIZE_MAX_PLUS_1 - taken % SIZE_MAX_PLUS_1) % SIZE_MAX_PLUS_1 == pub - taken
    ensures g.Capacity() < SIZE_MAX_PLUS_1
  {
    Pow2Monotone(g.log2cap, 63);
    Pow2Of32();
    Pow2Add(32, 31);
    assert Pow2(31) == 0x8000_0000 by { assert Pow2(32) == 2 * Pow2(31); }
    hide Pow2;
    WrappedDifference(pub, taken);
  }

  /** Arithmetic in size_t. */
  function Wrap(x: int): (w: nat)
    ensures w < SIZE_MAX_PLUS_1
  {
    x % SIZE_MAX_PLUS_1
  }

  lemma WrapLaws(g: Geometry, pub: nat, taken: nat)
    requires g.Valid() && taken <= pub <= taken + g.Capacity()
    ensures Wrap(Wrap(pub) - Wrap(taken)) == pub - taken
    ensures Wrap(g.Capacity() - (pub - taken)) == g.Capacity() - (pub - taken)
  {
    CounterDifference(g, pub, taken);
    hide Geometry.Capacity;
    SmallMod(g.Capacity() - (pub - taken));
  }

  lemma WrapAdvances(count: nat, n: nat)
    ensures Wrap(Wrap(count) + n) == Wrap(count + n)
  {
    ModShift(count, n, SIZE_MAX_PLUS_1);
  }
}
