// IMA-ADPCM as the two radios encode it and the C++ and web receivers decode it.

module Adpcm {
  import opened Common
  import opened Words

  type Int16 = x: int | -32768 <= x <= 32767

  // ---- Tables: kStepTable and kIndexTable ---------------------------------------

  type Index = x: int | 0 <= x <= 88
  type Nibble = x: int | 0 <= x < 16

  function Step(i: Index): int {
    match i
    case 0 => 7 case 1 => 8 case 2 => 9 case 3 => 10 case 4 => 11 case 5 => 12
    case 6 => 13 case 7 => 14 case 8 => 16 case 9 => 17 case 10 => 19 case 11 => 21
    case 12 => 23 case 13 => 25 case 14 => 28 case 15 => 31 case 16 => 34 case 17 => 37
    case 18 => 41 case 19 => 45 case 20 => 50 case 21 => 55 case 22 => 60 case 23 => 66
    case 24 => 73 case 25 => 80 case 26 => 88 case 27 => 97 case 28 => 107 case 29 => 118
    case 30 => 130 case 31 => 143 case 32 => 157 case 33 => 173 case 34 => 190 case 35 => 209
    case 36 => 230 case 37 => 253 case 38 => 279 case 39 => 307 case 40 => 337 case 41 => 371
    case 42 => 408 case 43 => 449 case 44 => 494 case 45 => 544 case 46 => 598 case 47 => 658
    case 48 => 724 case 49 => 796 case 50 => 876 case 51 => 963 case 52 => 1060 case 53 => 1166
    case 54 => 1282 case 55 => 1411 case 56 => 1552 case 57 => 1707 case 58 => 1878 case 59 => 2066
    case 60 => 2272 case 61 => 2499 case 62 => 2749 case 63 => 3024 case 64 => 3327 case 65 => 3660
    case 66 => 4026 case 67 => 4428 case 68 => 4871 case 69 => 5358 case 70 => 5894 case 71 => 6484
    case 72 => 7132 case 73 => 7845 case 74 => 8630 case 75 => 9493 case 76 => 10442 case 77 => 11487
    case 78 => 12635 case 79 => 13899 case 80 => 15289 case 81 => 16818 case 82 => 18500 case 83 => 20350
    case 84 => 22385 case 85 => 24623 case 86 => 27086 case 87 => 29794
    case _ => 32767
  }

  function IndexDelta(nib: Nibble): int {
    var m := nib % 8;
    if m < 4 then -1 else 2 * (m - 3)
  }

  lemma StepBounds(i: Index)
    ensures 7 <= Step(i) <= 32767
    ensures i > 0 ==> Step(i) / 8 + 2 < Step(i - 1) < Step(i)
  {
    if i < 30 {
      StepsBelow30(i);
    } else if i < 60 {
      StepsBelow60(i);
    } else {
      StepsFrom60(i);
    }
    hide Step;
  }

  lemma StepsBelow30(i: Index)
    requires i < 30
    ensures 7 <= Step(i) <= 32767 && (i > 0 ==> Step(i) / 8 + 2 < Step(i - 1) < Step(i))
  {}

  lemma StepsBelow60(i: Index)
    requires 30 <= i < 60
    ensures 7 <= Step(i) <= 32767 && Step(i) / 8 + 2 < Step(i - 1) < Step(i)
  {}

  lemma StepsFrom60(i: Index)
    requires 60 <= i
    ensures 7 <= Step(i) <= 32767 && Step(i) / 8 + 2 < Step(i - 1) < Step(i)
  {}

  lemma StepEnds()
    ensures Step(0) == 7 && Step(88) == 32767
  {}

  // ---- The recurrence shared by encoder and decoders -----------------------------

  datatype Codec = Codec(valprev: Int16, index: Index)

  function Clamp16(v: int): Int16 {
    if v > 32767 then 32767 else if v < -32768 then -32768 else v
  }

  function ClampIndex(i: int): Index {
    if i < 0 then 0 else if i > 88 then 88 else i
  }

  /** step >> 3, plus step, step >> 1 and step >> 2 for bits 4, 2 and 1 of nib. */
  function Delta(step: int, nib: Nibble): int {
    step / 8 + (if nib / 4 % 2 == 1 then step else 0)
    + (if nib / 2 % 2 == 1 then step / 2 else 0) + (if nib % 2 == 1 then step / 4 else 0)
  }

  lemma NibbleBits(sign: bool, b4: bool, b2: bool, b1: bool)
    ensures
      var nib := (if sign then 8 else 0) + (if b4 then 4 else 0) + (if b2 then 2 else 0) + (if b1 then 1 else 0);
      (nib >= 8) == sign && (nib / 4 % 2 == 1) == b4 && (nib / 2 % 2 == 1) == b2 && (nib % 2 == 1) == b1
  {}

  function DecodeStep(c: Codec, nib: Nibble): Codec {
    var dq := Delta(Step(c.index), nib);
    Codec(Clamp16(if nib >= 8 then c.valprev - dq else c.valprev + dq),
          ClampIndex(c.index + IndexDelta(nib)))
  }

  /** The nibble chosen for a sample: sign, then a three-bit successive approximation. */
  function Quantise(c: Codec, sample: Int16): Nibble {
    var step := Step(c.index);
    var d := if sample < c.valprev then c.valprev - sample else sample - c.valprev;
    var d1 := if d >= step then d - step else d;
    var d2 := if d1 >= step / 2 then d1 - step / 2 else d1;
    (if sample < c.valprev then 8 else 0) + (if d >= step then 4 else 0)
    + (if d1 >= step / 2 then 2 else 0) + (if d2 >= step / 4 then 1 else 0)
  }

  function EncodeStep(c: Codec, sample: Int16): Codec {
    DecodeStep(c, Quantise(c, sample))
  }

  /** The encoder's state after a run of samples. */
  function EncodeRun(c: Codec, samples: seq<Int16>): Codec {
    if samples == [] then c
    else EncodeStep(EncodeRun(c, samples[..|samples| - 1]), samples[|samples| - 1])
  }

  function NibbleFor(c: Codec, samples: seq<Int16>, i: nat): Nibble
    requires i < |samples|
  {
    Quantise(EncodeRun(c, samples[..i]), samples[i])
  }

  // ---- Packets ---------------------------------------------------------------------

  function Header(c: Codec): seq<Byte> {
    [c.valprev % 256, c.valprev / 256 % 256, c.index, 0]
  }

  /** Byte k of the payload after the first `done` samples: two nibbles, low first. */
  function PackedByte(c: Codec, samples: seq<Int16>, done: nat, k: nat): Byte
    requires done <= |samples| && 2 * k < done
  {
    NibbleFor(c, samples, 2 * k) + 16 * (if 2 * k + 1 < done then NibbleFor(c, samples, 2 * k + 1) else 0)
  }

  function PacketBytes(c: Codec, samples: seq<Int16>): (p: seq<Byte>)
    ensures |p| == 4 + (|samples| + 1) / 2
  {
    Header(c) + seq((|samples| + 1) / 2, k requires 0 <= k < (|samples| + 1) / 2 =>
      PackedByte(c, samples, |samples|, k))
  }

  /** AdpcmState with the encoder working on it. */
  class Encoder {
    var valprev: int
    var index: int

    predicate Valid()
      reads this
    {
      -32768 <= valprev <= 32767 && 0 <= index <= 88
    }

    function State(): Codec
      requires Valid()
      reads this
    {
      Codec(valprev, index)
    }

    constructor ()
      ensures Valid() && State() == Codec(0, 0)
    {
      valprev, index := 0, 0;
    }

    /** adpcm_encode_one: choose the nibble, then follow the decoder. */
    method EncodeOne(sample: Int16) returns (nib: Nibble)
      requires Valid()
      modifies this
      ensures Valid() && nib == Quantise(old(State()), sample) && State() == EncodeStep(old(State()), sample)
    {
      var sign, b4, b2, b1 := Approximate(sample);
      nib := (if sign then 8 else 0) + (if b4 then 4 else 0) + (if b2 then 2 else 0) + (if b1 then 1 else 0);
      NibbleBits(sign, b4, b2, b1);
      Follow(nib, sign, b4, b2, b1);
    }

    method Approximate(sample: Int16) returns (sign: bool, b4: bool, b2: bool, b1: bool)
      requires Valid()
      ensures Quantise(State(), sample)
           == (if sign then 8 else 0) + (if b4 then 4 else 0) + (if b2 then 2 else 0) + (if b1 then 1 else 0)
    {
      hide Step;
      sign, b4, b2, b1 := false, false, false, false;
      var step := Step(index);
      var diff := sample - valprev;
      if diff < 0 { sign := true; diff := -diff; }
      if diff >= step { b4 := true; diff := diff - step; }
      if diff >= step / 2 { b2 := true; diff := diff - step / 2; }
      if diff >= step / 4 { b1 := true; }
    }

    method Follow(nib: Nibble, sign: bool, b4: bool, b2: bool, b1: bool)
      requires Valid()
      requires sign == (nib >= 8) && b4 == (nib / 4 % 2 == 1) && b2 == (nib / 2 % 2 == 1) && b1 == (nib % 2 == 1)
      modifies this
      ensures Valid() && State() == DecodeStep(old(State()), nib)
    {
      var dq := Dequantise(nib, b4, b2, b1);
      hide Delta, Step;
      valprev := valprev + (if sign then -dq else dq);
      valprev := if valprev > 32767 then 32767 else valprev;
      valprev := if valprev < -32768 then -32768 else valprev;
      index := index + IndexDelta(nib);
      index := if index < 0 then 0 else index;
      index := if index > 88 then 88 else index;
    }

    method Dequantise(nib: Nibble, b4: bool, b2: bool, b1: bool) returns (dq: int)
      requires Valid()
      requires b4 == (nib / 4 % 2 == 1) && b2 == (nib / 2 % 2 == 1) && b1 == (nib % 2 == 1)
      ensures dq == Delta(Step(index), nib) && dq >= 0
    {
      StepBounds(index);
      hide Step;
      dq := Step(index) / 8;
      if b4 { dq := dq + Step(index); }
      if b2 { dq := dq + Step(index) / 2; }
      if b1 { dq := dq + Step(index) / 4; }
    }

    /** The packet assembly of both radios: header, then nibbles packed in place. */
    method Packetise(samples: seq<Int16>, buf: array<Byte>) returns (size: nat)
      requires Valid() && 4 + (|samples| + 1) / 2 <= buf.Length
      modifies this, buf
      ensures Valid() && State() == EncodeRun(old(State()), samples)
      ensures size == 4 + (|samples| + 1) / 2 && buf[..size] == PacketBytes(old(State()), samples)
      ensures buf[size..] == old(buf[size..])
    {
      ghost var c := State();
      hide Step, Quantise, DecodeStep;
      size := 4 + (|samples| + 1) / 2;
      buf[0] := valprev % 256;
      buf[1] := valprev / 256 % 256;
      buf[2] := index;
      buf[3] := 0;
      assert Partly(c, samples, 0, buf[..size]);
      hide Partly, Header, PackedByte, PacketBytes, NibbleFor;
      for i := 0 to |samples|
        invariant Valid() && State() == EncodeRun(c, samples[..i])
        invariant Partly(c, samples, i, buf[..size])
        invariant buf[size..] == old(buf[size..])
      {
        var nib := EncodeOne(samples[i]);
        assert samples[..i + 1][..i] == samples[..i];
        NibbleIs(c, samples, i);
        Place(c, samples, i, nib, size, buf);
      }
      assert samples[..|samples|] == samples;
      AllPlaced(c, samples, buf[..size]);
    }

    static lemma AllPlaced(c: Codec, samples: seq<Int16>, bytes: seq<Byte>)
      requires Partly(c, samples, |samples|, bytes)
      ensures bytes == PacketBytes(c, samples)
    {
      hide PackedByte, Header;
      var body := PacketBytes(c, samples)[4..];
      forall k | 0 <= k < |body| ensures bytes[4 + k] == body[k] {}
      assert bytes == bytes[..4] + bytes[4..];
      assert bytes[4..] == body;
    }

    /** The first i nibbles are in place. */
    static ghost predicate Partly(c: Codec, samples: seq<Int16>, i: nat, bytes: seq<Byte>)
      requires i <= |samples|
    {
      && |bytes| == 4 + (|samples| + 1) / 2 && bytes[..4] == Header(c)
      && forall k: nat | 2 * k < i :: bytes[4 + k] == PackedByte(c, samples, i, k)
    }

    static method Place(ghost c: Codec, ghost samples: seq<Int16>, i: nat, nib: Nibble, ghost size: nat,
        buf: array<Byte>)
      requires i < |samples| && nib == NibbleFor(c, samples, i)
      requires size <= buf.Length && Partly(c, samples, i, buf[..size])
      modifies buf
      ensures Partly(c, samples, i + 1, buf[..size])
      ensures buf[size..] == old(buf[size..])
    {
      hide NibbleFor, Header;
      ghost var k, was := i / 2, buf[..size];
      assert i % 2 == 1 ==> was[4 + k] == PackedByte(c, samples, i, k) == NibbleFor(c, samples, 2 * k);
      if i % 2 == 1 {
        buf[4 + i / 2] := AddHighNibble(buf[4 + i / 2], nib);
      } else {
        buf[4 + i / 2] := nib;
      }
      assert buf[4 + k] == PackedByte(c, samples, i + 1, k);
      assert buf[..size] == was[4 + k := buf[4 + k]];
      assert was[4 + k := buf[4 + k]][..4] == was[..4];
      forall m: nat | 2 * m < i + 1 ensures buf[..size][4 + m] == PackedByte(c, samples, i + 1, m) {
        if m < k { SettledByte(c, samples, i, m); }
      }
    }
  }

  lemma NibbleIs(c: Codec, samples: seq<Int16>, i: nat)
    requires i < |samples|
    ensures NibbleFor(c, samples, i) == Quantise(EncodeRun(c, samples[..i]), samples[i])
  {}

  /** A byte with both nibbles in place does not change any more. */
  lemma SettledByte(c: Codec, samples: seq<Int16>, i: nat, m: nat)
    requires i < |samples| && 2 * m + 1 < i
    ensures PackedByte(c, samples, i, m) == PackedByte(c, samples, i + 1, m)
  {}

  /** b |= nib << 4 on a byte whose high nibble is clear. */
  function AddHighNibble(b: Byte, nib: Nibble): Byte
    requires b < 16
  {
    b + 16 * nib
  }

  // ---- Decoders --------------------------------------------------------------------

  function HeaderState(p: seq<Byte>): Codec
    requires |p| >= 4
  {
    var u := p[0] as int + 256 * p[1] as int;
    Codec(if u >= 32768 then u - 65536 else u, if p[2] > 88 then 88 else p[2])
  }

  function NibbleAt(p: seq<Byte>, k: nat): Nibble
    requires 4 + k / 2 < |p|
  {
    if k % 2 == 0 then p[4 + k / 2] % 16 else p[4 + k / 2] / 16
  }

  /** The decoder's state after k nibbles of packet p. */
  function DecodedState(p: seq<Byte>, k: nat): Codec
    requires |p| >= 4 && k <= 2 * (|p| - 4)
  {
    if k == 0 then HeaderState(p) else DecodeStep(DecodedState(p, k - 1), NibbleAt(p, k - 1))
  }

  /** (h == 0) ? (b & 0x0F) : ((b >> 4) & 0x0F) */
  function Half(b: Byte, h: nat): Nibble {
    if h == 0 then b % 16 else b / 16 % 16
  }

  lemma HalfIsNibble(p: seq<Byte>, bi: nat, h: nat)
    requires 4 <= bi < |p| && h < 2
    ensures NibbleAt(p, 2 * (bi - 4) + h) == Half(p[bi], h)
  {
    assert (2 * (bi - 4) + h) / 2 == bi - 4 && (2 * (bi - 4) + h) % 2 == h;
  }

  /** adpcm_decode_mono */
  method DecodeMono(p: seq<Byte>, out: array<int>, maxOut: nat) returns (cnt: nat)
    requires maxOut <= out.Length
    modifies out
    ensures cnt == if |p| < 4 then 0 else Min(maxOut, 2 * (|p| - 4))
    ensures |p| >= 4 ==> forall k: nat | k < cnt :: out[k] == 256 * DecodedState(p, k + 1).valprev
    ensures forall k | cnt <= k < out.Length :: out[k] == old(out[k])
  {
    if |p| < 4 { return 0; }
    var u := p[0] as int + 256 * p[1] as int;
    var vp: int := if u >= 32768 then u - 65536 else u;
    var si: int := p[2];
    if si > 88 { si := 88; }
    cnt := DecodeNibbles(p, vp, si, out, maxOut);
  }

  method DecodeNibbles(p: seq<Byte>, vp0: int, si0: int, out: array<int>, maxOut: nat) returns (cnt: nat)
    requires maxOut <= out.Length && At(p, 0, vp0, si0)
    modifies out
    ensures cnt == Min(maxOut, 2 * (|p| - 4))
    ensures forall k: nat | k < cnt :: out[k] == 256 * DecodedState(p, k + 1).valprev
    ensures forall k | cnt <= k < out.Length :: out[k] == old(out[k])
  {
    hide Step, DecodeStep, HeaderState, Half, NibbleAt;
    var vp, si := vp0, si0;
    cnt := 0;
    var bi := 4;
    while bi < |p| && cnt < maxOut
      invariant 4 <= bi <= |p| && cnt == Min(maxOut, 2 * (bi - 4))
      invariant At(p, cnt, vp, si)
      invariant forall k: nat | k < cnt :: out[k] == 256 * DecodedState(p, k + 1).valprev
      invariant forall k | cnt <= k < out.Length :: out[k] == old(out[k])
    {
      var h := 0;
      while h < 2 && cnt < maxOut
        invariant 0 <= h <= 2 && cnt == Min(maxOut, 2 * (bi - 4) + h) && (h < 2 ==> cnt == 2 * (bi - 4) + h)
        invariant At(p, cnt, vp, si)
        invariant forall k: nat | k < cnt :: out[k] == 256 * DecodedState(p, k + 1).valprev
        invariant forall k | cnt <= k < out.Length :: out[k] == old(out[k])
      {
        HalfIsNibble(p, bi, h);
        vp, si := DecodeOne(vp, si, Half(p[bi], h));
        out[cnt] := vp * 256;
        cnt := cnt + 1;
        h := h + 1;
      }
      bi := bi + 1;
    }
  }

  /** The decoder's variables after k nibbles. */
  ghost predicate At(p: seq<Byte>, k: nat, vp: int, si: int) {
    && |p| >= 4 && k <= 2 * (|p| - 4)
    && vp == DecodedState(p, k).valprev && si == DecodedState(p, k).index
  }

  /** The loop body of both decoders. */
  method DecodeOne(valprev: int, index: int, nib: Nibble) returns (vp: int, si: int)
    requires -32768 <= valprev <= 32767 && 0 <= index <= 88
    ensures -32768 <= vp <= 32767 && 0 <= si <= 88
    ensures Codec(vp, si) == DecodeStep(Codec(valprev, index), nib)
  {
    StepBounds(index);
    var step := Step(index);
    var diff := step / 8;
    if nib / 4 % 2 == 1 { diff := diff + step; }
    if nib / 2 % 2 == 1 { diff := diff + step / 2; }
    if nib % 2 == 1 { diff := diff + step / 4; }
    vp := if nib >= 8 then valprev - diff else valprev + diff;
    if vp > 32767 { vp := 32767; }
    if vp < -32768 { vp := -32768; }
    si := index + IndexDelta(nib);
    if si < 0 { si := 0; }
    if si > 88 { si := 88; }
  }

  datatype WebResult = TooShort | StepTableOverrun | Samples(values: seq<real>)

  /** The PT 116 branch of baHandleChunk. It uses the header's index unclamped, so
      an index above 88 reads past the step table. */
  method DecodeWeb(p: seq<Byte>) returns (r: WebResult)
    ensures |p| < 4 <==> r.TooShort?
    ensures r.StepTableOverrun? <==> |p| > 4 && p[2] > 88
    ensures r.Samples? ==> |r.values| == 2 * (|p| - 4)
    ensures r.Samples? ==> forall k: nat | k < |r.values| ::
      r.values[k] == DecodedState(p, k + 1).valprev as real / 32768.0
  {
    if |p| < 4 { return TooShort; }
    var u := p[0] as int + 256 * p[1] as int;
    var vp: int := if u >= 32768 then u - 65536 else u;
    var si: int := p[2];
    if |p| > 4 && si > 88 { return StepTableOverrun; }
    if |p| == 4 { return Samples([]); }
    var values := DecodeWebNibbles(p, vp, si);
    r := Samples(values);
  }

  method DecodeWebNibbles(p: seq<Byte>, vp0: int, si0: int) returns (values: seq<real>)
    requires At(p, 0, vp0, si0)
    ensures |values| == 2 * (|p| - 4)
    ensures forall k: nat | k < |values| :: values[k] == DecodedState(p, k + 1).valprev as real / 32768.0
  {
    hide Step, DecodeStep, HeaderState, Half, NibbleAt;
    var vp, si := vp0, si0;
    values := [];
    for bi := 4 to |p|
      invariant |values| == 2 * (bi - 4)
      invariant At(p, |values|, vp, si)
      invariant forall k: nat | k < |values| :: values[k] == DecodedState(p, k + 1).valprev as real / 32768.0
    {
      for half := 0 to 2
        invariant |values| == 2 * (bi - 4) + half
        invariant At(p, |values|, vp, si)
        invariant forall k: nat | k < |values| :: values[k] == DecodedState(p, k + 1).valprev as real / 32768.0
      {
        HalfIsNibble(p, bi, half);
        vp, si := DecodeOne(vp, si, Half(p[bi], half));
        values := values + [vp as real / 32768.0];
      }
    }
  }

  // ---- Lockstep under packet loss ----------------------------------------------------

  lemma HeaderRoundTrip(c: Codec, rest: seq<Byte>)
    ensures HeaderState(Header(c) + rest) == c
  {
    var v := c.valprev;
    assert v == 256 * (v / 256) + v % 256;
    assert v / 256 % 256 == if v < 0 then v / 256 + 256 else v / 256;
  }

  lemma PackedNibbles(c: Codec, samples: seq<Int16>, k: nat)
    requires k < |samples|
    ensures
      var b := PackedByte(c, samples, |samples|, k / 2);
      NibbleFor(c, samples, k) == if k % 2 == 0 then b % 16 else b / 16
  {
    hide NibbleFor;
    assert k % 2 == 0 ==> k == 2 * (k / 2);
    assert k % 2 == 1 ==> k == 2 * (k / 2) + 1;
  }

  lemma NibbleRoundTrip(c: Codec, samples: seq<Int16>, trailer: seq<Byte>, k: nat)
    requires k < |samples|
    ensures NibbleAt(PacketBytes(c, samples) + trailer, k) == NibbleFor(c, samples, k)
  {
    hide NibbleFor, PackedByte;
    PackedNibbles(c, samples, k);
    var p := PacketBytes(c, samples) + trailer;
    assert p[4 + k / 2] == PackedByte(c, samples, |samples|, k / 2);
  }

  lemma StartsInStep(c: Codec, samples: seq<Int16>, trailer: seq<Byte>)
    ensures HeaderState(PacketBytes(c, samples) + trailer) == c
  {
    var p := PacketBytes(c, samples) + trailer;
    assert p == Header(c) + p[4..];
    HeaderRoundTrip(c, p[4..]);
  }

  /** One packet, whatever bytes follow it, decodes to the encoder's own states. */
  lemma {:induction false} PacketInLockstep(c: Codec, samples: seq<Int16>, trailer: seq<Byte>, k: nat)
    requires k <= |samples|
    ensures DecodedState(PacketBytes(c, samples) + trailer, k) == EncodeRun(c, samples[..k])
  {
    hide Step, DecodeStep, Quantise, PacketBytes, NibbleAt, HeaderState;
    if k == 0 {
      StartsInStep(c, samples, trailer);
    } else {
      PacketInLockstep(c, samples, trailer, k - 1);
      NibbleRoundTrip(c, samples, trailer, k - 1);
      assert samples[..k][..k - 1] == samples[..k - 1];
    }
  }

  function Concat(chunks: seq<seq<Int16>>): seq<Int16> {
    if chunks == [] then [] else Concat(chunks[..|chunks| - 1]) + chunks[|chunks| - 1]
  }

  lemma {:induction false} EncodeRunConcat(c: Codec, a: seq<Int16>, b: seq<Int16>)
    ensures EncodeRun(c, a + b) == EncodeRun(EncodeRun(c, a), b)
    decreases |b|
  {
    if b == [] {
      assert a + b == a;
    } else {
      assert (a + b)[..|a + b| - 1] == a + b[..|b| - 1];
      EncodeRunConcat(c, a, b[..|b| - 1]);
    }
  }

  /** The encoder's state after it has packetised one chunk after the other. */
  function StateAfter(c: Codec, chunks: seq<seq<Int16>>): Codec {
    if chunks == [] then c else EncodeRun(StateAfter(c, chunks[..|chunks| - 1]), chunks[|chunks| - 1])
  }

  lemma {:induction false} StateAfterStream(c: Codec, chunks: seq<seq<Int16>>)
    ensures StateAfter(c, chunks) == EncodeRun(c, Concat(chunks))
  {
    if chunks != [] {
      var before := chunks[..|chunks| - 1];
      StateAfterStream(c, before);
      EncodeRunConcat(c, Concat(before), chunks[|chunks| - 1]);
    }
  }

  /** Packet `n` of a stream, as the encoder sends it after the packets before it. */
  function StreamPacket(c: Codec, chunks: seq<seq<Int16>>, n: nat): seq<Byte>
    requires n < |chunks|
  {
    PacketBytes(StateAfter(c, chunks[..n]), chunks[n])
  }

  /** Any single packet of a stream, decoded from its own header alone and with any
      bytes behind it, gives after each sample exactly the state the encoder had
      after that sample of the whole stream: losing other packets changes nothing. */
  lemma AnySinglePacketDecodesAlone(c: Codec, chunks: seq<seq<Int16>>, n: nat, trailer: seq<Byte>, i: nat)
    requires n < |chunks| && i < |chunks[n]|
    ensures DecodedState(StreamPacket(c, chunks, n) + trailer, i + 1)
         == EncodeRun(c, Concat(chunks[..n]) + chunks[n][..i + 1])
  {
    var before := Concat(chunks[..n]);
    StateAfterStream(c, chunks[..n]);
    PacketInLockstep(EncodeRun(c, before), chunks[n], trailer, i + 1);
    EncodeRunConcat(c, before, chunks[n][..i + 1]);
  }

  /** Where everything is: the predictor in two's complement, low byte first, the index, a zero
      byte, then the nibbles, each byte's low half first. */
  lemma PacketLayout(c: Codec, samples: seq<Int16>, k: nat)
    requires k < |samples|
    ensures
      var p := PacketBytes(c, samples);
      && |p| == 4 + (|samples| + 1) / 2 > 4 + k / 2
      && p[0] as int + 256 * p[1] as int == (if c.valprev < 0 then c.valprev + 0x1_0000 else c.valprev)
      && p[2] == c.index && p[3] == 0
      && (if k % 2 == 0 then p[4 + k / 2] % 16 else p[4 + k / 2] / 16)
           == Quantise(EncodeRun(c, samples[..k]), samples[k])
      && (k == |samples| - 1 && k % 2 == 0 ==> p[4 + k / 2] < 16)
  {
    hide Quantise, EncodeRun;
    StartsInStep(c, samples, []);
    NibbleRoundTrip(c, samples, [], k);
    assert PacketBytes(c, samples) + [] == PacketBytes(c, samples);
  }

  // ---- The step size -----------------------------------------------------------------

  /** The index changes of the sixteen nibbles, as the source tabulates them. */
  lemma IndexTable(nib: Nibble)
    ensures IndexDelta(nib) == [-1, -1, -1, -1, 2, 4, 6, 8, -1, -1, -1, -1, 2, 4, 6, 8][nib]
  {}

  /** From one index to the next the step grows by a tenth, rounded, up to the last. */
  lemma StepsGrowByATenth(i: Index)
    ensures Step(0) == 7 && Step(88) == 32767
    ensures i < 87 ==> -8 <= 10 * Step(i + 1) - 11 * Step(i) <= 8
  {
    if i < 30 {
      GrowthBelow30(i);
    } else if i < 60 {
      GrowthBelow60(i);
    } else if i < 87 {
      GrowthFrom60(i);
    }
    StepEnds();
    hide Step;
  }

  lemma GrowthBelow30(i: Index)
    requires i < 30
    ensures -8 <= 10 * Step(i + 1) - 11 * Step(i) <= 8
  {}

  lemma GrowthBelow60(i: Index)
    requires 30 <= i < 60
    ensures -8 <= 10 * Step(i + 1) - 11 * Step(i) <= 8
  {}

  lemma GrowthFrom60(i: Index)
    requires 60 <= i < 87
    ensures -8 <= 10 * Step(i + 1) - 11 * Step(i) <= 8
  {}

  /** A nibble of magnitude m stands for (2m + 1) / 8 of the step, less what three truncated
      divisions lose; the predictor moves by it, upwards for nibbles below 8, and stops at
      the ends of the range. */
  lemma NibbleMoves(c: Codec, nib: Nibble)
    ensures
      var S, d, m := Step(c.index), Delta(Step(c.index), nib), nib % 8;
      && 0 <= (2 * m + 1) * S - 8 * d <= 17
      && DecodeStep(c, nib).valprev == if nib < 8 then Min(32767, c.valprev + d) else Max(-32768, c.valprev - d)
    ensures DecodeStep(c, nib).index == Max(0, Min(88, c.index + IndexDelta(nib)))
  {
    StepBounds(c.index);
    hide Step, IndexDelta;
    MidpointOf(Step(c.index), nib);
  }

  lemma MidpointOf(S: int, nib: Nibble)
    requires S >= 0
    ensures 0 <= (2 * (nib % 8) + 1) * S - 8 * Delta(S, nib) <= 17 && Delta(S, nib) >= 0
  {
    var b4, b2, b1 := nib / 4 % 2 == 1, nib / 2 % 2 == 1, nib % 2 == 1;
    MagnitudeBits(nib);
    MidpointOfBits(S, S / 8, S / 2, S / 4, b4, b2, b1, nib % 8);
  }

  lemma MagnitudeBits(nib: Nibble)
    ensures nib % 8 ==
      (if nib / 4 % 2 == 1 then 4 else 0) + (if nib / 2 % 2 == 1 then 2 else 0) + if nib % 2 == 1 then 1 else 0
  {}

  lemma MidpointOfBits(S: int, eighth: int, half: int, quarter: int, b4: bool, b2: bool, b1: bool, m: int)
    requires 0 <= S - 8 * eighth <= 7 && 0 <= S - 2 * half <= 1 && 0 <= S - 4 * quarter <= 3
    requires m == (if b4 then 4 else 0) + (if b2 then 2 else 0) + if b1 then 1 else 0
    ensures
      var d := eighth + (if b4 then S else 0) + (if b2 then half else 0) + if b1 then quarter else 0;
      0 <= (2 * m + 1) * S - 8 * d <= 17
  {}

  /** The encoder adapts to the error alone: with d the distance to the sample and S the step,
      the index falls by one below S and otherwise rises by 2, 4, 6 or 8 with the quarters of
      a step that d is above S. */
  lemma EncoderAdapts(c: Codec, sample: Int16)
    ensures
      var S, d := Step(c.index), if sample < c.valprev then c.valprev - sample else sample - c.valprev;
      EncodeStep(c, sample).index == Max(0, Min(88, c.index +
        if d < S then -1
        else if d - S < S / 4 then 2
        else if d - S < S / 2 then 4
        else if d - S < S / 2 + S / 4 then 6
        else 8))
  {
    hide Step, DecodeStep, Quantise, IndexDelta;
    NibbleMoves(c, Quantise(c, sample));
    ChosenIndexDelta(c, sample);
  }

  lemma ChosenIndexDelta(c: Codec, sample: Int16)
    ensures
      var S, d := Step(c.index), if sample < c.valprev then c.valprev - sample else sample - c.valprev;
      IndexDelta(Quantise(c, sample)) ==
        if d < S then -1
        else if d - S < S / 4 then 2
        else if d - S < S / 2 then 4
        else if d - S < S / 2 + S / 4 then 6
        else 8
  {
    StepBounds(c.index);
    hide Step, IndexDelta;
    var S, d := Step(c.index), if sample < c.valprev then c.valprev - sample else sample - c.valprev;
    var d1 := if d >= S then d - S else d;
    var d2 := if d1 >= S / 2 then d1 - S / 2 else d1;
    IndexDeltaOfBits(sample < c.valprev, d >= S, d1 >= S / 2, d2 >= S / 4);
  }

  lemma IndexDeltaOfBits(sign: bool, b4: bool, b2: bool, b1: bool)
    ensures
      var nib := (if sign then 8 else 0) + (if b4 then 4 else 0) + (if b2 then 2 else 0) + (if b1 then 1 else 0);
      IndexDelta(nib) == if !b4 then -1 else 2 + (if b2 then 4 else 0) + if b1 then 2 else 0
  {}

  // ---- Accuracy ------------------------------------------------------------------------

  function Error(c: Codec, sample: Int16): int { sample - c.valprev }

  function Magnitude(x: int): int { if x < 0 then -x else x }

  predicate Overloaded(c: Codec, sample: Int16) {
    Magnitude(Error(c, sample)) >= 2 * Step(c.index)
  }

  /** Outside slope overload one step leaves at most an eighth of the step size. */
  lemma QuantisationError(c: Codec, sample: Int16)
    requires !Overloaded(c, sample)
    ensures Magnitude(Error(EncodeStep(c, sample), sample)) <= Step(c.index) / 8 + 2
  {
    hide Step, Delta, Quantise, Reached, Clamp16;
    StepBounds(c.index);
    QuantisedDelta(c, sample);
    var step, d := Step(c.index), Magnitude(Error(c, sample));
    ReachedIsNear(step, d);
    ClampingHelps(sample, if sample < c.valprev then c.valprev - Reached(step, d) else c.valprev + Reached(step, d));
  }

  /** What the three-bit approximation makes of a distance d. */
  function Reached(step: int, d: int): int {
    var d1 := if d >= step then d - step else d;
    var d2 := if d1 >= step / 2 then d1 - step / 2 else d1;
    step / 8 + (if d >= step then step else 0) + (if d1 >= step / 2 then step / 2 else 0)
    + if d2 >= step / 4 then step / 4 else 0
  }

  lemma QuantisedDelta(c: Codec, sample: Int16)
    ensures Delta(Step(c.index), Quantise(c, sample)) == Reached(Step(c.index), Magnitude(Error(c, sample)))
    ensures Quantise(c, sample) >= 8 <==> sample < c.valprev
  {
    hide Step;
    var step, d := Step(c.index), Magnitude(Error(c, sample));
    var d1 := if d >= step then d - step else d;
    var d2 := if d1 >= step / 2 then d1 - step / 2 else d1;
    NibbleBits(sample < c.valprev, d >= step, d1 >= step / 2, d2 >= step / 4);
  }

  lemma ReachedIsNear(step: int, d: int)
    requires step >= 7 && 0 <= d < 2 * step
    ensures Magnitude(d - Reached(step, d)) <= step / 8 + 2
  {}

  lemma ClampingHelps(sample: Int16, v: int)
    ensures Magnitude(sample - Clamp16(v)) <= Magnitude(sample - v)
  {}

  /** In slope overload the error shrinks by at least 11, keeps its sign, and the
      step index climbs by eight. */
  lemma OverloadProgress(c: Codec, sample: Int16)
    requires Overloaded(c, sample)
    ensures
      var e, e' := Error(c, sample), Error(EncodeStep(c, sample), sample);
      && Magnitude(e') <= Magnitude(e) - 11 && (e > 0 ==> 0 <= e') && (e < 0 ==> e' <= 0)
    ensures EncodeStep(c, sample).index == if c.index + 8 < 88 then c.index + 8 else 88
  {
    StepBounds(c.index);
    hide Step;
  }

  /** The encoder's state after n copies of one sample. */
  function Hold(c: Codec, sample: Int16, n: nat): Codec {
    if n == 0 then c else EncodeStep(Hold(c, sample, n - 1), sample)
  }

  lemma {:induction false} OverloadRun(c: Codec, sample: Int16, n: nat)
    requires forall k: nat | k < n :: Overloaded(Hold(c, sample, k), sample)
    ensures Hold(c, sample, n).index >= (if 8 * n < 88 then 8 * n else 88)
    ensures n > 0 ==> Magnitude(Error(Hold(c, sample, n), sample)) <= 65535 - 11
  {
    hide Step, EncodeStep, Overloaded;
    if n > 0 {
      OverloadRun(c, sample, n - 1);
      OverloadProgress(Hold(c, sample, n - 1), sample);
    }
  }

  lemma HighestStepRarelyOverloads(c: Codec, sample: Int16)
    requires c.index == 88 && Magnitude(Error(c, sample)) <= 65535 - 11
    ensures !Overloaded(c, sample)
  {
    StepEnds();
  }

  /** A constant input leaves slope overload within 11 samples, from any state. */
  lemma LeavesOverload(c: Codec, sample: Int16) returns (n: nat)
    ensures n <= 11 && !Overloaded(Hold(c, sample, n), sample)
  {
    hide Overloaded, Hold, Error;
    n := 0;
    while n < 11 && Overloaded(Hold(c, sample, n), sample)
      invariant 0 <= n <= 11
      invariant forall k: nat | k < n :: Overloaded(Hold(c, sample, k), sample)
    {
      n := n + 1;
    }
    if n == 11 {
      OverloadRun(c, sample, 11);
      HighestStepRarelyOverloads(Hold(c, sample, 11), sample);
    }
  }

  /** The index a state would have after one climb of one. */
  function Above(i: Index): Index { if i < 88 then i + 1 else 88 }

  /** The error is below the step, and within an eighth of the next step up. */
  predicate Tracking(c: Codec, sample: Int16) {
    && Magnitude(Error(c, sample)) < Step(c.index)
    && Magnitude(Error(c, sample)) <= Step(Above(c.index)) / 8 + 2
  }

  lemma {:induction false} StepMonotone(i: Index, j: Index)
    requires i <= j
    ensures Step(i) <= Step(j)
    decreases j
  {
    hide Step;
    if i < j {
      StepBounds(j);
      StepMonotone(i, j - 1);
    }
  }

  lemma IndexAfter(c: Codec, sample: Int16)
    ensures c.index - 1 <= EncodeStep(c, sample).index <= c.index + 8
    ensures Magnitude(Error(c, sample)) < Step(c.index) ==>
      EncodeStep(c, sample).index == if c.index > 0 then c.index - 1 else 0
  {
    hide Step;
  }

  /** The first sample outside overload puts the encoder on track, and it stays there. */
  lemma OnTrackNext(c: Codec, sample: Int16)
    requires !Overloaded(c, sample)
    ensures Tracking(EncodeStep(c, sample), sample)
  {
    var i, j := c.index, EncodeStep(c, sample).index;
    QuantisationError(c, sample);
    IndexAfter(c, sample);
    StepBounds(i);
    StepMonotone(if i > 0 then i - 1 else 0, j);
    StepMonotone(i, Above(j));
    hide Step, EncodeStep;
  }

  lemma {:induction false} StaysOnTrack(c: Codec, sample: Int16, n: nat)
    requires Tracking(c, sample)
    ensures Tracking(Hold(c, sample, n), sample)
    ensures Hold(c, sample, n).index == if c.index > n then c.index - n else 0
  {
    hide Step, EncodeStep, Error;
    if n > 0 {
      StaysOnTrack(c, sample, n - 1);
      var d := Hold(c, sample, n - 1);
      assert !Overloaded(d, sample);
      OnTrackNext(d, sample);
      IndexAfter(d, sample);
    }
  }

  lemma {:induction false} HoldAdds(c: Codec, sample: Int16, a: nat, b: nat)
    ensures Hold(c, sample, a + b) == Hold(Hold(c, sample, a), sample, b)
    decreases b
  {
    hide EncodeStep;
    if b > 0 { HoldAdds(c, sample, a, b - 1); }
  }

  /** From any state, a constant input is tracked from the 12th sample on, and from
      the 101st on it is reproduced to within 2, for ever. */
  lemma ConstantInputConverges(c: Codec, sample: Int16, n: nat)
    requires n >= 12
    ensures Tracking(Hold(c, sample, n), sample)
    ensures n >= 101 ==> Hold(c, sample, n).index == 0 && Magnitude(Error(Hold(c, sample, n), sample)) <= 2
  {
    var k := GetsOnTrack(c, sample);
    hide Step, EncodeStep, Error, Tracking, Hold;
    OnTrackFrom(c, sample, k, n);
    if n >= 101 {
      OnTrackFrom(c, sample, k, n - 1);
      OneMore(c, sample, n);
      MinimumStepError(Hold(c, sample, n - 1), sample);
    }
  }

  lemma OneMore(c: Codec, sample: Int16, n: nat)
    requires n > 0
    ensures Hold(c, sample, n) == EncodeStep(Hold(c, sample, n - 1), sample)
  {}

  lemma GetsOnTrack(c: Codec, sample: Int16) returns (k: nat)
    ensures 1 <= k <= 12 && Tracking(Hold(c, sample, k), sample)
  {
    var j := LeavesOverload(c, sample);
    hide Step, EncodeStep, Error, Tracking;
    OnTrackNext(Hold(c, sample, j), sample);
    k := j + 1;
  }

  lemma OnTrackFrom(c: Codec, sample: Int16, k: nat, n: nat)
    requires k <= n && Tracking(Hold(c, sample, k), sample)
    ensures Tracking(Hold(c, sample, n), sample)
    ensures n >= k + 88 ==> Hold(c, sample, n).index == 0
  {
    hide Step, EncodeStep, Error, Tracking, Hold;
    HoldAdds(c, sample, k, n - k);
    StaysOnTrack(Hold(c, sample, k), sample, n - k);
  }

  lemma MinimumStepError(c: Codec, sample: Int16)
    requires c.index == 0 && Tracking(c, sample)
    ensures EncodeStep(c, sample).index == 0
    ensures Magnitude(Error(EncodeStep(c, sample), sample)) <= 2
  {
    QuantisationError(c, sample);
    StepEnds();
    IndexAfter(c, sample);
    hide Step, EncodeStep;
  }
}
