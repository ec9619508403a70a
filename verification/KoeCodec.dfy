// KoeEncoder::encode: overlapping frames, gains, residual vector quantisation, and
// the packet of packed fields. The MDCT, sqrt, log2 and pow are parameters.

module KoeCodec {
  import Naturals = Bits
  import opened Gf2
  import opened BitStream
  import opened KoeQuantiser

  const HOP := 160

  datatype Tables = Tables(mdct: seq<real> -> seq<real>, sqrt: real -> real, log2: real -> real, exp2: real -> real,
                           books: seq<seq<Book>>)
  {
    // books[m] holds the stages of sub-vector m.
    ghost predicate Valid() {
      && |books| == SUBS
      && (forall m | 0 <= m < SUBS :: |books[m]| == STAGES && AreBooks(books[m]))
      && (forall x :: |mdct(x)| == HOP)
      && (forall x :: exp2(x) > 0.0)
    }
  }

  datatype FrameCode = FrameCode(gains: seq<nat>, indices: seq<seq<nat>>) {
    predicate Valid() {
      && |gains| == SUBS && (forall m | 0 <= m < SUBS :: gains[m] < 64)
      && |indices| == STAGES
      && forall s | 0 <= s < STAGES :: |indices[s]| == SUBS && forall m | 0 <= m < SUBS :: indices[s][m] < CBSIZE
    }
  }

  // ---- One frame ---------------------------------------------------------------------------

  function SumSquares(c: Vector, n: nat): real
    requires n <= |c|
  {
    if n == 0 then 0.00000000000000000001 else SumSquares(c, n - 1) + Square(c[n - 1])
  }

  /** The gain code of one sub-vector. */
  function CodeOf(t: Tables, c: Vector): (code: nat)
    requires |c| == SDIM
    ensures code < 64
  {
    GainCode(t.log2(t.sqrt(SumSquares(c, SDIM) / 40.0) + 0.0000000001))
  }

  /** The gain a code is decoded to. */
  function GainOf(t: Tables, code: nat): real { t.exp2(GainLog(code)) }

  function Scaled(c: Vector, g: real): (v: Vector)
    requires g != 0.0
    ensures |v| == |c|
  {
    seq(|c|, d requires 0 <= d < |c| => c[d] / g)
  }

  function Sub(coeffs: seq<real>, m: nat): (c: Vector)
    requires |coeffs| == HOP && m < SUBS
    ensures |c| == SDIM
  {
    coeffs[SDIM * m..SDIM * m + SDIM]
  }

  /** Sub-vector m of a frame, divided by its decoded gain. */
  function Shape(t: Tables, coeffs: seq<real>, m: nat): (v: Vector)
    requires t.Valid() && |coeffs| == HOP && m < SUBS
    ensures |v| == SDIM
  {
    var c := Sub(coeffs, m);
    Scaled(c, GainOf(t, CodeOf(t, c)))
  }

  function ChoicesOf(t: Tables, coeffs: seq<real>, m: nat): (idx: seq<nat>)
    requires t.Valid() && |coeffs| == HOP && m < SUBS
    ensures |idx| == STAGES && forall s | 0 <= s < STAGES :: idx[s] < CBSIZE
  {
    Choices(Shape(t, coeffs, m), t.books[m], STAGES)
  }

  function CodeFrame(t: Tables, frame: seq<real>): (c: FrameCode)
    requires t.Valid()
    ensures c.Valid()
  {
    var coeffs := t.mdct(frame);
    FrameCode(
      seq(SUBS, m requires 0 <= m < SUBS => CodeOf(t, Sub(coeffs, m))),
      seq(STAGES, s requires 0 <= s < STAGES => seq(SUBS, m requires 0 <= m < SUBS => ChoicesOf(t, coeffs, m)[s])))
  }

  // ---- A stream of frames --------------------------------------------------------------------

  /** The hop before hop f of a stretch of samples that follows the hop prev. */
  function HopBefore(samples: seq<real>, prev: seq<real>, f: nat): seq<real>
    requires HOP * f <= |samples|
  {
    if f == 0 then prev else samples[HOP * (f - 1)..HOP * f]
  }

  /** The 320 samples of frame f. */
  function FrameAt(samples: seq<real>, prev: seq<real>, f: nat): seq<real>
    requires HOP * (f + 1) <= |samples|
  {
    HopBefore(samples, prev, f) + samples[HOP * f..HOP * (f + 1)]
  }

  function Codes(t: Tables, samples: seq<real>, prev: seq<real>, n: nat): (c: seq<FrameCode>)
    requires t.Valid() && HOP * n <= |samples|
    ensures |c| == n && forall f | 0 <= f < n :: c[f].Valid()
  {
    if n == 0 then []
    else
      Codes(t, samples, prev, n - 1) + [CodeFrame(t, FrameAt(samples, prev, n - 1))]
  }

  /** Each frame is a hop and the one before it, in this order: consecutive frames overlap by
      half, and the first begins with what the last call left. */
  lemma FramesOverlap(samples: seq<real>, prev: seq<real>, f: nat)
    requires |prev| == 160 && 160 * (f + 1) <= |samples|
    ensures
      var frame := FrameAt(samples, prev, f);
      && |frame| == 320 && frame[160..] == samples[160 * f..160 * f + 160]
      && frame[..160] == if f == 0 then prev else FrameAt(samples, prev, f - 1)[160..]
  {}

  /** The four sub-vectors are the coefficients, in order. */
  lemma SubsTile(coeffs: seq<real>)
    requires |coeffs| == HOP
    ensures Sub(coeffs, 0) + Sub(coeffs, 1) + Sub(coeffs, 2) + Sub(coeffs, 3) == coeffs
  {}

  lemma {:induction false} EnergyOf(c: Vector, n: nat)
    requires |c| == SDIM && n <= SDIM
    ensures SumSquares(c, n) == 0.00000000000000000001 + DistUpTo(c, Zero(), n)
  {
    if n > 0 { EnergyOf(c, n - 1); }
  }

  /** What a gain code stands for: the root mean square of the forty coefficients, kept off
      zero by two small terms. */
  lemma GainIsRms(t: Tables, c: Vector, rms: real)
    requires |c| == SDIM && rms == t.sqrt((0.00000000000000000001 + Dist(c, Zero())) / 40.0)
    ensures CodeOf(t, c) == GainCode(t.log2(rms + 0.0000000001))
  {
    EnergyOf(c, SDIM);
    hide GainCode, DistUpTo, SumSquares;
  }

  /** The sixteen fields of a frame, in order: the four gains of six bits, then stage by stage
      the four indices of eight. */
  lemma FieldOrder(c: FrameCode, k: nat)
    requires c.Valid() && k < 16
    ensures FrameFields(c)[k] == if k < 4 then Field(c.gains[k], 6) else Field(c.indices[k / 4 - 1][k % 4], 8)
  {}

  /** Index m of stage s is the choice of that stage for sub-vector m. */
  lemma CodesInPlace(t: Tables, frame: seq<real>, s: nat, m: nat)
    requires t.Valid() && s < STAGES && m < SUBS
    ensures CodeFrame(t, frame).gains[m] == CodeOf(t, Sub(t.mdct(frame), m))
    ensures CodeFrame(t, frame).indices[s][m] == ChoicesOf(t, t.mdct(frame), m)[s]
  {
    hide CodeOf, ChoicesOf, Sub;
  }

  /** Packets do not matter: a stream coded in two packets, the overlap carried from the
      first to the second, has the codes of the stream coded at once. */
  lemma {:induction false} CodesSplit(t: Tables, a: seq<real>, b: seq<real>, prev: seq<real>, n: nat, m: nat)
    requires t.Valid() && |a| == HOP * n && HOP * m <= |b|
    ensures Codes(t, a + b, prev, n + m) == Codes(t, a, prev, n) + Codes(t, b, HopBefore(a, prev, n), m)
    decreases m
  {
    hide CodeFrame, FrameAt, HopBefore;
    if m == 0 {
      CodesPrefix(t, a, b, prev, n);
    } else {
      CodesSplit(t, a, b, prev, n, m - 1);
      FrameShift(a, b, prev, n, m - 1);
    }
  }

  lemma FrameShift(a: seq<real>, b: seq<real>, prev: seq<real>, n: nat, f: nat)
    requires |a| == HOP * n && HOP * (f + 1) <= |b|
    ensures FrameAt(a + b, prev, n + f) == FrameAt(b, HopBefore(a, prev, n), f)
  {
    assert (a + b)[HOP * (n + f)..HOP * (n + f + 1)] == b[HOP * f..HOP * (f + 1)];
    if f > 0 {
      assert (a + b)[HOP * (n + f - 1)..HOP * (n + f)] == b[HOP * (f - 1)..HOP * f];
    } else if n > 0 {
      assert (a + b)[HOP * (n - 1)..HOP * n] == a[HOP * (n - 1)..HOP * n];
    }
  }

  lemma {:induction false} CodesPrefix(t: Tables, a: seq<real>, b: seq<real>, prev: seq<real>, n: nat)
    requires t.Valid() && HOP * n <= |a|
    ensures Codes(t, a + b, prev, n) == Codes(t, a, prev, n)
  {
    hide CodeFrame;
    if n > 0 {
      CodesPrefix(t, a, b, prev, n - 1);
      assert (a + b)[HOP * (n - 1)..HOP * n] == a[HOP * (n - 1)..HOP * n];
      assert HopBefore(a + b, prev, n - 1) == HopBefore(a, prev, n - 1);
    }
  }

  /** What is lost: a decoder that adds up the codewords and applies the gain misses each
      sub-vector by the gain times the last residual. */
  lemma DecodedMissesByResidual(t: Tables, coeffs: seq<real>, m: nat, d: nat)
    requires t.Valid() && |coeffs| == HOP && m < SUBS && d < SDIM
    ensures
      var g := GainOf(t, CodeOf(t, Sub(coeffs, m)));
      Sub(coeffs, m)[d] == g * Sum(t.books[m], ChoicesOf(t, coeffs, m))[d]
                         + g * Residual(Shape(t, coeffs, m), t.books[m], STAGES)[d]
  {
    var g, c := GainOf(t, CodeOf(t, Sub(coeffs, m))), Sub(coeffs, m)[d];
    var s := Sum(t.books[m], ChoicesOf(t, coeffs, m))[d];
    var r := Residual(Shape(t, coeffs, m), t.books[m], STAGES)[d];
    assert r == c / g - s;
    assert g * (s + r) == g * s + g * r;
    assert g * (c / g) == c;
  }

  // ---- The packet -----------------------------------------------------------------------------

  function Header(n: nat): seq<Field> {
    [Field(n, 16), Field(STAGES, 4), Field(SUBS, 4), Field(8, 4), Field(6, 4)]
  }

  /** Values of one width. */
  function Row(values: seq<nat>, width: nat): (fs: seq<Field>)
    ensures |fs| == |values|
  {
    seq(|values|, i requires 0 <= i < |values| => Field(values[i], width))
  }

  function FrameFields(c: FrameCode): (fs: seq<Field>)
    requires c.Valid()
    ensures |fs| == 16
  {
    Row(c.gains, 6) + Row(c.indices[0] + c.indices[1] + c.indices[2], 8)
  }

  function AllFrameFields(cs: seq<FrameCode>): seq<Field>
    requires forall f | 0 <= f < |cs| :: cs[f].Valid()
  {
    if cs == [] then [] else AllFrameFields(cs[..|cs| - 1]) + FrameFields(cs[|cs| - 1])
  }

  function Message(n: nat, cs: seq<FrameCode>): Bits
    requires forall f | 0 <= f < |cs| :: cs[f].Valid()
  {
    Pack(Header(n)) + Pack(AllFrameFields(cs))
  }

  function Repeat(width: nat, n: nat): (w: seq<nat>)
    ensures |w| == n
  {
    seq(n, _ => width)
  }

  function HeaderWidths(): seq<nat> { [16] + Repeat(4, 4) }

  function FrameWidths(): (w: seq<nat>)
    ensures |w| == 16
  {
    Repeat(6, 4) + Repeat(8, 12)
  }

  function CodeFromValues(v: seq<nat>): FrameCode
    requires |v| == 16
  {
    FrameCode(v[0..4], [v[4..8], v[8..12], v[12..16]])
  }

  lemma {:induction false} TotalOfRepeat(width: nat, n: nat)
    ensures Total(Repeat(width, n)) == n * width
  {
    if n > 0 {
      TotalOfRepeat(width, n - 1);
      assert Repeat(width, n)[1..] == Repeat(width, n - 1);
    }
  }

  lemma {:induction false} TotalAppend(a: seq<nat>, b: seq<nat>)
    ensures Total(a + b) == Total(a) + Total(b)
  {
    if a == [] {
      assert a + b == b;
    } else {
      assert (a + b)[1..] == a[1..] + b;
      TotalAppend(a[1..], b);
    }
  }

  lemma WidthTotals()
    ensures Total(FrameWidths()) == 120 && Total(HeaderWidths()) == 32
  {
    TotalOfRepeat(6, 4);
    TotalOfRepeat(8, 12);
    TotalOfRepeat(4, 4);
    hide Repeat;
    TotalAppend(Repeat(6, 4), Repeat(8, 12));
    assert HeaderWidths()[1..] == Repeat(4, 4);
  }

  lemma PowersOfTwo()
    ensures Naturals.Pow2(4) == 16 && Naturals.Pow2(6) == 64 && Naturals.Pow2(8) == 256 && Naturals.Pow2(16) == 0x1_0000
  {
    assert Naturals.Pow2(4) == 16;
    assert Naturals.Pow2(6) == 64;
    Naturals.Pow2Add(4, 4);
    Naturals.Pow2Add(8, 8);
  }

  /** A coded frame takes 120 bits, and reading them gives it back. */
  lemma FrameRoundTrip(c: FrameCode, rest: Bits)
    requires c.Valid()
    ensures |Pack(FrameFields(c))| == Total(FrameWidths()) == 120
    ensures CodeFromValues(Read(Pack(FrameFields(c)) + rest, FrameWidths())) == c
  {
    FrameShape(c);
    WidthTotals();
    hide FrameFields, FrameWidths, CodeFromValues, Pack, Read, AllFit, Widths, Values;
    ReadPacked(FrameFields(c), rest);
  }

  lemma FrameShape(c: FrameCode)
    requires c.Valid()
    ensures AllFit(FrameFields(c)) && Widths(FrameFields(c)) == FrameWidths()
    ensures CodeFromValues(Values(FrameFields(c))) == c
  {
    PowersOfTwo();
    var v := Values(FrameFields(c));
    assert v == c.gains + (c.indices[0] + c.indices[1] + c.indices[2]);
    assert v[0..4] == c.gains && v[4..8] == c.indices[0] && v[8..12] == c.indices[1] && v[12..16] == c.indices[2];
  }

  /** The frame count is written modulo 2^16. */
  lemma HeaderRoundTrip(n: nat, rest: Bits)
    ensures |Pack(Header(n))| == Total(HeaderWidths()) == 32
    ensures Read(Pack(Header(n)) + rest, HeaderWidths()) == [n % 0x1_0000, STAGES, SUBS, 8, 6]
  {
    var low := n % 0x1_0000;
    HeaderCount(n);
    HeaderShape(low);
    WidthTotals();
    hide Header, Pack, Read, AllFit, Widths, Values, HeaderWidths;
    ReadPacked(Header(low), rest);
  }

  lemma HeaderCount(n: nat)
    ensures Pack(Header(n)) == Pack(Header(n % 0x1_0000))
  {
    PowersOfTwo();
    MsbOfLowBits(n, 16);
    hide Msb;
    assert Header(n)[1..] == Header(n % 0x1_0000)[1..];
  }

  lemma HeaderShape(n: nat)
    requires n < 0x1_0000
    ensures Widths(Header(n)) == HeaderWidths() && Values(Header(n)) == [n, STAGES, SUBS, 8, 6] && AllFit(Header(n))
  {
    PowersOfTwo();
  }

  // ---- The reader --------------------------------------------------------------------------------

  function ReadFrames(b: Bits, n: nat): seq<FrameCode>
    requires 120 * n <= |b|
  {
    if n == 0 then []
    else
      WidthTotals();
      [CodeFromValues(Read(b, FrameWidths()))] + ReadFrames(b[120..], n - 1)
  }

  lemma {:induction false} FramesFront(c: FrameCode, cs: seq<FrameCode>)
    requires c.Valid() && forall f | 0 <= f < |cs| :: cs[f].Valid()
    ensures AllFrameFields([c] + cs) == FrameFields(c) + AllFrameFields(cs)
    decreases |cs|
  {
    hide FrameFields;
    if cs == [] {
      assert ([c] + cs)[..0] == [];
    } else {
      var n := |cs| - 1;
      assert ([c] + cs)[..|cs|] == [c] + cs[..n];
      FramesFront(c, cs[..n]);
    }
  }

  lemma {:induction false} FramesRoundTrip(cs: seq<FrameCode>)
    requires forall f | 0 <= f < |cs| :: cs[f].Valid()
    ensures |Pack(AllFrameFields(cs))| == 120 * |cs|
    ensures ReadFrames(Pack(AllFrameFields(cs)), |cs|) == cs
  {
    if cs != [] {
      hide FrameFields, FrameWidths, CodeFromValues, Read, Pack;
      var c, more := cs[0], cs[1..];
      assert cs == [c] + more;
      FramesFront(c, more);
      PackAppend(FrameFields(c), AllFrameFields(more));
      FramesRoundTrip(more);
      FrameRoundTrip(c, Pack(AllFrameFields(more)));
      var b := Pack(AllFrameFields(cs));
      assert b == Pack(FrameFields(c)) + Pack(AllFrameFields(more));
      assert b[120..] == Pack(AllFrameFields(more));
    } else {
      assert AllFrameFields([]) == [];
    }
  }

  datatype Packet = Packet(n: nat, stages: nat, subs: nat, indexBits: nat, gainBits: nat, frames: seq<FrameCode>)

  /** A most-significant-bit-first reader of the packet. */
  function Decode(b: Bits): Packet
    requires 32 <= |b|
  {
    WidthTotals();
    var h := Read(b, HeaderWidths());
    Packet(h[0], h[1], h[2], h[3], h[4], ReadFrames(b[32..], (|b| - 32) / 120))
  }

  /** n frames take exactly 32 + 120 n bits, from which every field is read back; the
      frame count is its own from 2^16 frames on no more. */
  lemma PacketRoundTrip(n: nat, cs: seq<FrameCode>)
    requires |cs| == n && forall f | 0 <= f < n :: cs[f].Valid()
    ensures |Message(n, cs)| == 32 + 120 * n
    ensures Decode(Message(n, cs)) == Packet(n % 0x1_0000, STAGES, SUBS, 8, 6, cs)
    ensures Decode(Message(n, cs)).n == n <==> n < 0x1_0000
  {
    hide Header, HeaderWidths, Read, Pack, AllFrameFields, ReadFrames, FrameCode.Valid;
    var head, body := Pack(Header(n)), Pack(AllFrameFields(cs));
    FramesRoundTrip(cs);
    HeaderRoundTrip(n, body);
    assert (head + body)[32..] == body;
  }

  // ---- The encoder ---------------------------------------------------------------------------------

  method QuantiseGain(t: Tables, c: Vector) returns (code: nat)
    requires |c| == SDIM
    ensures code == CodeOf(t, c)
  {
    hide GainCode;
    var ss := 0.00000000000000000001;
    for d := 0 to SDIM
      invariant ss == SumSquares(c, d)
    {
      ss := ss + Square(c[d]);
    }
    code := GainCode(t.log2(t.sqrt(ss / 40.0) + 0.0000000001));
  }

  /** The running state of one sub-vector's quantisation after s stages. */
  ghost predicate Running(t: Tables, norm: Vector, m: nat, s: nat, cum: Vector, residual: Vector)
    requires t.Valid() && m < SUBS && s <= STAGES && |norm| == SDIM
  {
    && cum == Sum(t.books[m], Choices(norm, t.books[m], s))
    && residual == Residual(norm, t.books[m], s)
  }

  lemma RunningStep(t: Tables, norm: Vector, m: nat, s: nat, cum: Vector, residual: Vector)
    requires t.Valid() && m < SUBS && s < STAGES && |norm| == SDIM
    requires Running(t, norm, m, s, cum, residual)
    ensures
      var k := Choose(residual, t.books[m][s]);
      var cum' := Plus(cum, t.books[m][s][k]);
      Choices(norm, t.books[m], s + 1)[s] == k && Running(t, norm, m, s + 1, cum', Minus(norm, cum'))
  {
    hide Choose, Sum, Choices;
    ChoicesStep(norm, t.books[m], s);
    SumStep(t.books[m], Choices(norm, t.books[m], s), Choose(residual, t.books[m][s]));
  }

  lemma {:induction false} EarlierChoicesStay(norm: Vector, books: seq<Book>, s: nat, n: nat)
    requires |norm| == SDIM && AreBooks(books) && s <= n <= |books|
    ensures Choices(norm, books, n)[..s] == Choices(norm, books, s)
  {
    hide Choose, IsBook, Residual;
    if s < n {
      EarlierChoicesStay(norm, books, s, n - 1);
      ChoicesStep(norm, books, n - 1);
    }
  }

  ghost predicate AllRunning(t: Tables, norm: seq<Vector>, s: nat, cum: seq<Vector>, residual: seq<Vector>)
    requires t.Valid() && s <= STAGES && |norm| == SUBS && forall m | 0 <= m < SUBS :: |norm[m]| == SDIM
  {
    && |cum| == |residual| == SUBS
    && forall m | 0 <= m < SUBS :: Running(t, norm[m], m, s, cum[m], residual[m])
  }

  /** The indices of stage s, out of n stages. */
  ghost predicate IsRow(t: Tables, norm: seq<Vector>, s: nat, n: nat, row: seq<nat>)
    requires t.Valid() && s < n <= STAGES && |norm| == SUBS && forall m | 0 <= m < SUBS :: |norm[m]| == SDIM
  {
    |row| == SUBS && forall m | 0 <= m < SUBS :: row[m] == Choices(norm[m], t.books[m], n)[s]
  }

  lemma RowStays(t: Tables, norm: seq<Vector>, s: nat, row: seq<nat>)
    requires t.Valid() && s < STAGES && |norm| == SUBS && forall m | 0 <= m < SUBS :: |norm[m]| == SDIM
    requires IsRow(t, norm, s, s + 1, row)
    ensures IsRow(t, norm, s, STAGES, row)
  {
    hide Choices, IsBook;
    forall m | 0 <= m < SUBS ensures row[m] == Choices(norm[m], t.books[m], STAGES)[s] {
      EarlierChoicesStay(norm[m], t.books[m], s + 1, STAGES);
    }
  }

  lemma NothingChosen(t: Tables, norm: seq<Vector>)
    requires t.Valid() && |norm| == SUBS && forall m | 0 <= m < SUBS :: |norm[m]| == SDIM
    ensures AllRunning(t, norm, 0, seq(SUBS, _ => Zero()), norm)
  {
    hide IsBook;
    forall m | 0 <= m < SUBS ensures Running(t, norm[m], m, 0, Zero(), norm[m]) {
      assert Minus(norm[m], Zero()) == norm[m];
    }
  }

  /** One stage over the four sub-vectors: their indices, and the state moved on. */
  method RunStage(t: Tables, norm: seq<Vector>, s: nat, cum0: seq<Vector>, residual0: seq<Vector>)
    returns (row: seq<nat>, cum: seq<Vector>, residual: seq<Vector>)
    requires t.Valid() && s < STAGES && |norm| == SUBS && forall m | 0 <= m < SUBS :: |norm[m]| == SDIM
    requires AllRunning(t, norm, s, cum0, residual0)
    ensures IsRow(t, norm, s, s + 1, row) && AllRunning(t, norm, s + 1, cum, residual)
  {
    row, cum, residual := [], cum0, residual0;
    hide Running, Choices, Choose, Plus, Minus, IsBook;
    for m := 0 to SUBS
      invariant |row| == m && |cum| == |residual| == SUBS
      invariant forall k | 0 <= k < m ::
        row[k] == Choices(norm[k], t.books[k], s + 1)[s] && Running(t, norm[k], k, s + 1, cum[k], residual[k])
      invariant forall k | m <= k < SUBS :: Running(t, norm[k], k, s, cum[k], residual[k])
    {
      RunningSizes(t, norm[m], m, s, cum[m], residual[m]);
      var best := FindNearest(residual[m], t.books[m][s]);
      RunningStep(t, norm[m], m, s, cum[m], residual[m]);
      row := row + [best];
      cum := cum[m := Plus(cum[m], t.books[m][s][best])];
      residual := residual[m := Minus(norm[m], cum[m])];
    }
  }

  lemma RunningSizes(t: Tables, norm: Vector, m: nat, s: nat, cum: Vector, residual: Vector)
    requires t.Valid() && m < SUBS && s < STAGES && |norm| == SDIM && Running(t, norm, m, s, cum, residual)
    ensures |cum| == |residual| == SDIM && IsBook(t.books[m][s])
    ensures forall i | 0 <= i < CBSIZE :: |t.books[m][s][i]| == SDIM
  {}

  lemma NoFrames(n: nat)
    ensures Message(n, []) == [] + Pack(Header(n))
  {
    hide Header;
    assert Pack(AllFrameFields([])) == [];
  }

  lemma MessageStep(n: nat, cs: seq<FrameCode>, c: FrameCode, cap: nat)
    requires c.Valid() && forall f | 0 <= f < |cs| :: cs[f].Valid()
    ensures Clip(Clip(Message(n, cs), cap) + Pack(FrameFields(c)), cap) == Clip(Message(n, cs + [c]), cap)
  {
    hide FrameFields, Header, Pack, Clip;
    var more := Pack(FrameFields(c));
    ClipAppend(Message(n, cs), more, cap);
    assert (cs + [c])[..|cs|] == cs;
    PackAppend(AllFrameFields(cs), FrameFields(c));
    assert Pack(Header(n)) + (Pack(AllFrameFields(cs)) + more) == Message(n, cs) + more;
  }

  /** A message, cut to a buffer of bytes or not, is a whole number of bytes. */
  lemma WholeBytes(n: nat, cs: seq<FrameCode>, cap: nat)
    requires |cs| == n && cap % 8 == 0 && forall f | 0 <= f < |cs| :: cs[f].Valid()
    ensures |Clip(Message(n, cs), cap)| % 8 == 0
  {
    hide Message, Decode;
    PacketRoundTrip(n, cs);
  }

  class KoeEncoder {
    const t: Tables
    var prevHop: seq<real>

    constructor (t: Tables)
      ensures this.t == t && prevHop == seq(HOP, _ => 0.0)
    {
      this.t := t;
      prevHop := seq(HOP, _ => 0.0);
    }

    method EncodeFrame(frame: seq<real>) returns (c: FrameCode)
      requires t.Valid()
      ensures c == CodeFrame(t, frame)
    {
      var coeffs := t.mdct(frame);
      var gcodes: seq<nat>, norm: seq<Vector> := [], [];
      for m := 0 to SUBS
        invariant |gcodes| == |norm| == m
        invariant forall k | 0 <= k < m :: gcodes[k] == CodeOf(t, Sub(coeffs, k)) && norm[k] == Shape(t, coeffs, k)
      {
        hide GainCode, GainLog;
        var code := QuantiseGain(t, Sub(coeffs, m));
        gcodes := gcodes + [code];
        norm := norm + [Scaled(Sub(coeffs, m), GainOf(t, code))];
      }
      var sidx := ShapeIndices(norm);
      c := FrameCode(gcodes, sidx);
      CodeIsComplete(coeffs, gcodes, norm, sidx);
    }

    lemma CodeIsComplete(coeffs: seq<real>, gcodes: seq<nat>, norm: seq<Vector>, sidx: seq<seq<nat>>)
      requires t.Valid() && |coeffs| == HOP && |gcodes| == |norm| == SUBS && |sidx| == STAGES
      requires forall k | 0 <= k < SUBS :: |norm[k]| == SDIM
      requires forall k | 0 <= k < SUBS :: gcodes[k] == CodeOf(t, Sub(coeffs, k)) && norm[k] == Shape(t, coeffs, k)
      requires forall s | 0 <= s < STAGES :: IsRow(t, norm, s, STAGES, sidx[s])
      ensures forall frame | t.mdct(frame) == coeffs :: FrameCode(gcodes, sidx) == CodeFrame(t, frame)
    {
      hide Choices, CodeOf, Shape, Sub;
      forall frame | t.mdct(frame) == coeffs ensures FrameCode(gcodes, sidx) == CodeFrame(t, frame) {
        var c := CodeFrame(t, frame);
        assert gcodes == c.gains;
        forall s | 0 <= s < STAGES ensures sidx[s] == c.indices[s] {
          forall m | 0 <= m < SUBS ensures sidx[s][m] == c.indices[s][m] {
            assert c.indices[s][m] == ChoicesOf(t, coeffs, m)[s];
          }
        }
        assert sidx == c.indices;
      }
    }

    method ShapeIndices(norm: seq<Vector>) returns (sidx: seq<seq<nat>>)
      requires t.Valid() && |norm| == SUBS && forall m | 0 <= m < SUBS :: |norm[m]| == SDIM
      ensures |sidx| == STAGES && forall s | 0 <= s < STAGES :: IsRow(t, norm, s, STAGES, sidx[s])
    {
      var residual, cum := norm, seq(SUBS, _ => Zero());
      sidx := [];
      NothingChosen(t, norm);
      hide AllRunning, IsRow, IsBook;
      for s := 0 to STAGES
        invariant |sidx| == s && AllRunning(t, norm, s, cum, residual)
        invariant forall k | 0 <= k < s :: IsRow(t, norm, k, STAGES, sidx[k])
      {
        var row: seq<nat>;
        row, cum, residual := RunStage(t, norm, s, cum, residual);
        RowStays(t, norm, s, row);
        sidx := sidx + [row];
      }
    }

    /** Codes a frame and appends its fields to the message cs so far. */
    method PutFrame(w: BitWriter, frame: seq<real>, ghost n: nat, ghost cs: seq<FrameCode>)
      requires t.Valid() && w.Valid() && forall f | 0 <= f < |cs| :: cs[f].Valid()
      requires w.Written() == Clip(Message(n, cs), 8 * w.out.Length)
      modifies w, w.out
      ensures w.Valid() && w.bits >= old(w.bits)
      ensures w.Written() == Clip(Message(n, cs + [CodeFrame(t, frame)]), 8 * w.out.Length)
      ensures forall i | 0 <= i < w.out.Length && w.bits <= 8 * i :: w.out[i] == old(w.out[i])
    {
      hide Stream, Clip, Message, CodeFrame, FrameFields, Pack;
      var c := EncodeFrame(frame);
      PutFields(w, FrameFields(c));
      MessageStep(n, cs, c, 8 * w.out.Length);
    }

    /** The packet is as much of the message as the buffer holds. */
    method Encode(samples: seq<real>, nFrames: int, out: array<Octet>) returns (n: nat)
      requires t.Valid() && HOP * nFrames <= |samples|
      modifies this, out
      ensures nFrames <= 0 ==> n == 0 && prevHop == old(prevHop)
      ensures nFrames > 0 ==> prevHop == samples[HOP * (nFrames - 1)..HOP * nFrames]
      ensures nFrames > 0 ==> n <= out.Length
      ensures nFrames > 0 ==>
        Stream(out[..], 8 * n) == Clip(Message(nFrames, Codes(t, samples, old(prevHop), nFrames)), 8 * out.Length)
      ensures forall i | n <= i < out.Length :: out[i] == old(out[i])
    {
      if nFrames <= 0 { return 0; }
      hide Stream, Clip, Message, Codes, Tables.Valid, FrameCode.Valid;
      var w := new BitWriter(out);
      n := EncodeFrames(w, samples, nFrames);
    }

    method EncodeFrames(w: BitWriter, samples: seq<real>, nFrames: nat) returns (n: nat)
      requires t.Valid() && nFrames > 0 && HOP * nFrames <= |samples| && w.Valid() && w.Written() == []
      modifies this, w, w.out
      ensures n <= w.out.Length && prevHop == samples[HOP * (nFrames - 1)..HOP * nFrames]
      ensures Stream(w.out[..], 8 * n) ==
        Clip(Message(nFrames, Codes(t, samples, old(prevHop), nFrames)), 8 * w.out.Length)
      ensures forall i | n <= i < w.out.Length :: w.out[i] == old(w.out[i])
    {
      hide Stream, Clip, Message, Codes, Header, Pack, Tables.Valid, FrameCode.Valid;
      PutFields(w, Header(nFrames));
      NoFrames(nFrames);
      PutStream(w, samples, nFrames);
      n := (w.bits + 7) / 8;
    }

    method PutStream(w: BitWriter, samples: seq<real>, n: nat)
      requires t.Valid() && HOP * n <= |samples| && w.Valid()
      requires w.Written() == Clip(Message(n, []), 8 * w.out.Length)
      modifies this, w, w.out
      ensures w.Valid() && w.bits >= old(w.bits)
      ensures w.Written() == Clip(Message(n, Codes(t, samples, old(prevHop), n)), 8 * w.out.Length)
      ensures forall i | 0 <= i < w.out.Length && w.bits <= 8 * i :: w.out[i] == old(w.out[i])
      ensures prevHop == HopBefore(samples, old(prevHop), n)
      ensures w.bits % 8 == 0
    {
      hide Stream, Clip, Message, CodeFrame, IsBook;
      for f := 0 to n
        invariant w.Valid() && w.bits >= old(w.bits)
        invariant w.Written() == Clip(Message(n, Codes(t, samples, old(prevHop), f)), 8 * w.out.Length)
        invariant prevHop == HopBefore(samples, old(prevHop), f)
        invariant forall i | 0 <= i < w.out.Length && w.bits <= 8 * i :: w.out[i] == old(w.out[i])
      {
        var hop := samples[HOP * f..HOP * (f + 1)];
        PutFrame(w, prevHop + hop, n, Codes(t, samples, old(prevHop), f));
        prevHop := hop;
      }
      WholeBytes(n, Codes(t, samples, old(prevHop), n), 8 * w.out.Length);
    }
  }

  /** One put per field. */
  method PutFields(w: BitWriter, fields: seq<Field>)
    requires w.Valid()
    modifies w, w.out
    ensures w.Valid() && w.bits >= old(w.bits) && w.Written() == Clip(old(w.Written()) + Pack(fields), 8 * w.out.Length)
    ensures forall i | 0 <= i < w.out.Length && w.bits <= 8 * i :: w.out[i] == old(w.out[i])
  {
    hide Stream, Pack, Clip, BitWriter.Written;
    ghost var a, cap := w.Written(), 8 * w.out.Length;
    NothingPut(a, w, cap);
    for i := 0 to |fields|
      invariant w.Valid() && w.bits >= old(w.bits) && w.Written() == Clip(a + Pack(fields[..i]), cap)
      invariant forall k | 0 <= k < w.out.Length && w.bits <= 8 * k :: w.out[k] == old(w.out[k])
    {
      w.Put(fields[i].value, fields[i].width);
      PutStep(a, fields, i, cap);
    }
    assert fields[..|fields|] == fields;
  }

  lemma NothingPut(a: Bits, w: BitWriter, cap: nat)
    requires w.Valid() && a == w.Written() && cap == 8 * w.out.Length
    ensures Clip(a + Pack([]), cap) == a
  {
    assert a + [] == a;
  }

  lemma PutStep(a: Bits, fields: seq<Field>, i: nat, cap: nat)
    requires i < |fields|
    ensures Clip(Clip(a + Pack(fields[..i]), cap) + Msb(fields[i].value, fields[i].width), cap)
         == Clip(a + Pack(fields[..i + 1]), cap)
  {
    hide Clip, Pack, Msb;
    var f, b := fields[i], Pack(fields[..i]);
    assert fields[..i + 1] == fields[..i] + [f];
    PackOne(fields[..i], f);
    ClipAppend(a + b, Msb(f.value, f.width), cap);
    assert a + b + Msb(f.value, f.width) == a + (b + Msb(f.value, f.width));
  }
}
