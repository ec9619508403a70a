// OSTP packets: the byte-level builder of the radios, the receivers' parsers,
// and what the parsers recover. RTP header: section 5.1 of RFC 3550; header
// extension: section 5.3.1 of RFC 3550.

module Ostp {
  import Naturals = Bits
  import opened Common
  import opened Gf2
  import opened Words
  import opened BigEndian
  import opened Crc32
  import opened CrcDivision

  type Int32 = x: int | -0x8000_0000 <= x < 0x8000_0000

  const HEADER_SIZE := 24
  const CRC_SIZE := 4

  datatype Fields = Fields(ssrc: U32, sequence: U16, rtpTs: U32, pt: U8, streamId: U16, seqExt: U16, mediaTs: U32)

  /** The 32-bit CRC as a number. */
  function CrcValue(data: seq<Byte>): U32 {
    WordValueBound(Crc(data));
    ValueOf(Crc(data))
  }

  lemma WordValueBound(w: Bits)
    requires |w| == 32
    ensures ValueOf(w) < 0x1_0000_0000
  {
    hide ValueOf, Doubled;
    NothingDoubled();
    ValueBound(w);
    DoubledEight(0);
    DoubledEight(8);
    DoubledEight(16);
    DoubledEight(24);
  }

  lemma NothingDoubled()
    ensures Doubled(1, 0) == 1
  {}

  function HeaderBytes(f: Fields): (h: seq<Byte>)
    ensures |h| == 24
  {
    [0x90, f.pt % 128] + Be16(f.sequence) + Be32(f.rtpTs) + Be32(f.ssrc)
    + [0x4F, 0x53, 0x00, 0x02]
    + Be16(f.streamId) + Be16(f.seqExt) + Be32(f.mediaTs)
  }

  function PacketOf(f: Fields, payload: seq<Byte>): (p: seq<Byte>)
    ensures |p| == 24 + |payload| + 4
  {
    HeaderBytes(f) + payload + Be32(CrcValue(payload))
  }

  /** build_ostp_packet */
  method BuildOstpPacket(buf: array<Byte>, f: Fields, payload: seq<Byte>) returns (size: nat)
    modifies buf
    ensures size == if buf.Length < 24 + |payload| + 4 then 0 else 24 + |payload| + 4
    ensures size > 0 ==> buf[..size] == PacketOf(f, payload)
    ensures buf[size..] == old(buf[size..])
  {
    var total := HEADER_SIZE + |payload| + CRC_SIZE;
    if buf.Length < total { return 0; }
    WriteHeader(buf, f);
    for i := 0 to |payload|
      invariant buf[..24] == HeaderBytes(f) && buf[24..24 + i] == payload[..i]
      invariant buf[total..] == old(buf[total..])
    {
      ghost var was := buf[..];
      buf[HEADER_SIZE + i] := payload[i];
      assert buf[..24] == was[..24] && buf[24..24 + i] == was[24..24 + i] && buf[total..] == was[total..];
      assert buf[24..24 + i + 1] == buf[24..24 + i] + [payload[i]];
    }
    assert payload[..|payload|] == payload;
    WriteTrailer(buf, f, payload);
    size := total;
  }

  method WriteBe16(buf: array<Byte>, at: nat, x: U16)
    requires at + 2 <= buf.Length
    modifies buf
    ensures buf[at..at + 2] == Be16(x)
    ensures forall i | 0 <= i < buf.Length && !(at <= i < at + 2) :: buf[i] == old(buf[i])
  {
    buf[at] := x / 256 % 256;
    buf[at + 1] := x % 256;
  }

  method WriteBe32(buf: array<Byte>, at: nat, x: U32)
    requires at + 4 <= buf.Length
    modifies buf
    ensures buf[at..at + 4] == Be32(x)
    ensures forall i | 0 <= i < buf.Length && !(at <= i < at + 4) :: buf[i] == old(buf[i])
  {
    buf[at] := x / 0x100_0000 % 256;
    buf[at + 1] := x / 0x1_0000 % 256;
    buf[at + 2] := x / 256 % 256;
    buf[at + 3] := x % 256;
  }

  /** RTP header, then the extension header and the OSTP words behind it. */
  method WriteHeader(buf: array<Byte>, f: Fields)
    requires buf.Length >= 24
    modifies buf
    ensures buf[..24] == HeaderBytes(f) && buf[24..] == old(buf[24..])
  {
    hide Be16, Be32;
    WriteRtpHeader(buf, f);
    ghost var rtp := buf[..12];
    WriteOstpWords(buf, f);
    assert buf[..24] == rtp + buf[12..24];
  }

  method WriteOstpWords(buf: array<Byte>, f: Fields)
    requires buf.Length >= 24
    modifies buf
    ensures buf[12..24] == [0x4F, 0x53, 0x00, 0x02] + Be16(f.streamId) + Be16(f.seqExt) + Be32(f.mediaTs)
    ensures buf[..12] == old(buf[..12]) && buf[24..] == old(buf[24..])
  {
    hide Be16, Be32;
    ExtensionWords();
    WriteBe16(buf, 12, 0x4F53);
    WriteBe16(buf, 14, 2);
    WriteBe16(buf, 16, f.streamId);
    WriteBe16(buf, 18, f.seqExt);
    WriteBe32(buf, 20, f.mediaTs);
    assert buf[12..14] == Be16(0x4F53) && buf[14..16] == Be16(2);
    assert buf[16..18] == Be16(f.streamId) && buf[18..20] == Be16(f.seqExt);
    assert buf[12..24] == buf[12..14] + buf[14..16] + buf[16..18] + buf[18..20] + buf[20..24];
  }

  lemma ExtensionWords()
    ensures Be16(0x4F53) == [0x4F, 0x53] && Be16(2) == [0, 2]
  {}

  method WriteRtpHeader(buf: array<Byte>, f: Fields)
    requires buf.Length >= 24
    modifies buf
    ensures buf[..12] == [0x90, f.pt % 128] + Be16(f.sequence) + Be32(f.rtpTs) + Be32(f.ssrc)
    ensures forall i | 24 <= i < buf.Length :: buf[i] == old(buf[i])
  {
    hide Be16, Be32;
    buf[0] := 0x90;
    buf[1] := f.pt % 128;
    WriteBe16(buf, 2, f.sequence);
    WriteBe32(buf, 4, f.rtpTs);
    WriteBe32(buf, 8, f.ssrc);
    assert buf[..12] == buf[..2] + buf[2..4] + buf[4..8] + buf[8..12];
  }

  method WriteTrailer(buf: array<Byte>, ghost f: Fields, payload: seq<Byte>)
    requires buf.Length >= 24 + |payload| + 4
    requires buf[..24] == HeaderBytes(f) && buf[24..24 + |payload|] == payload
    modifies buf
    ensures buf[..24 + |payload| + 4] == PacketOf(f, payload)
    ensures buf[24 + |payload| + 4..] == old(buf[24 + |payload| + 4..])
  {
    var bits := BitwiseCrc32(payload);
    hide Crc, HeaderBytes, Be32;
    WordValueBound(bits);
    var crc: U32 := ValueOf(bits);
    var at := 24 + |payload|;
    ghost var was := buf[..at];
    WriteBe32(buf, at, crc);
    assert buf[..at] == was == HeaderBytes(f) + payload;
    assert buf[..at + 4] == buf[..at] + buf[at..at + 4];
  }

  // ---- Parsers -----------------------------------------------------------------

  datatype Parsed =
    | SyncPong
    | TextMessage
    | Ignored
    | Rtp(isOstp: bool, payloadOff: nat, sequence: U16, pt: U8, mediaTs: U32)

  /** The receive loop of linux-rx, up to the payload. */
  function ParseLinux(p: seq<Byte>): Parsed {
    var n := |p|;
    if n == 25 && p[0] == 0x7D then SyncPong
    else if n >= 4 && 'A' as int <= p[0] as int <= 'Z' as int then TextMessage
    else if n < 12 then Ignored
    else
      var hasExt := p[0] / 16 % 2 == 1;
      var isOstp := hasExt && n >= 24 && U16At(p, 12) == 0x4F53 && U16At(p, 14) == 2;
      var off := if isOstp then 24 else 12;
      if off >= n then Ignored
      else Rtp(isOstp, off, U16At(p, 2), p[1] % 128, if isOstp then U32At(p, 20) else 0)
  }

  /** recv_thread of the Windows player: modern header first, then legacy magic. */
  function ParseWin(p: seq<Byte>): Parsed {
    var n := |p|;
    if n < 12 then Ignored
    else
      var pt := p[1] % 128;
      if pt == 126 || pt == 127 then Ignored
      else
        var hasExt := p[0] / 16 % 2 == 1;
        var modern := hasExt && n >= 24 && U16At(p, 12) == 0x4F53 && U16At(p, 14) == 2;
        var legacy := !modern && !hasExt && n >= 32 && U32At(p, 12) == 0x4F53_5450;
        var off := if modern then 24 else if legacy then 32 else 12;
        if off >= n then Ignored
        else Rtp(modern || legacy, off, U16At(p, 2), pt,
                 if modern then U32At(p, 20) else if legacy then U32At(p, 28) else 0)
  }

  function Signed(w: U32): Int32 { if w >= 0x8000_0000 then w - 0x1_0000_0000 else w }

  function LeWordAt(p: seq<Byte>, i: nat): Int32
    requires i + 4 <= |p|
  {
    Signed(p[i] as int + 256 * p[i + 1] as int + 0x1_0000 * p[i + 2] as int + 0x100_0000 * p[i + 3] as int)
  }

  function LeWords(p: seq<Byte>, off: nat, count: nat): (w: seq<Int32>)
    requires off + 4 * count <= |p|
    ensures |w| == count
  {
    seq(count, i requires 0 <= i < count => LeWordAt(p, off + 4 * i))
  }

  datatype Listened = Dropped | Decoded(words: seq<Int32>)

  /** Where decodeOSTPPacket finds the payload, if it accepts the packet. */
  function ListenOffset(p: seq<Byte>): int {
    var n := |p|;
    if n < 12 || p[0] / 64 != 2 || p[1] % 128 != 96 then -1
    else if p[0] / 16 % 2 == 1 && n >= 16 then
      var off := 16 + U16At(p, 14) * 4;
      if off >= n then -1 else off
    else 12
  }

  /** decodeOSTPPacket: only PT 96, trailer stripped. Its float samples are these words / 2^23. */
  method DecodeListen(p: seq<Byte>) returns (r: Listened)
    ensures
      var off, end := ListenOffset(p), |p| - 4;
      r == if off < 0 || end <= off || (end - off) / 4 <= 0 then Dropped else Decoded(LeWords(p, off, (end - off) / 4))
  {
    var n := |p|;
    if n < 12 { return Dropped; }
    if p[0] / 64 != 2 { return Dropped; }
    if p[1] % 128 != 96 { return Dropped; }
    var off := 12;
    if p[0] / 16 % 2 != 0 && n >= 16 {
      var extLen := U16At(p, 14) * 4;
      off := 16 + extLen;
      if off >= n { return Dropped; }
    }
    var end := n - 4;
    if end <= off { return Dropped; }
    var sampleCount := (end - off) / 4;
    if sampleCount <= 0 { return Dropped; }
    var words: seq<Int32> := [];
    for i := 0 to sampleCount
      invariant |words| == i && forall k | 0 <= k < i :: words[k] == LeWordAt(p, off + 4 * k)
    {
      words := words + [LeWordAt(p, off + i * 4)];
    }
    r := Decoded(words);
  }

  // ---- Round trips -----------------------------------------------------------------

  /** Every header field is where RFC 3550 and the OSTP extension put it. */
  lemma FieldsRoundTrip(f: Fields, payload: seq<Byte>)
    ensures
      var p := PacketOf(f, payload);
      && p[0] == 0x90 && p[1] == f.pt % 128 && U16At(p, 2) == f.sequence
      && U32At(p, 4) == f.rtpTs && U32At(p, 8) == f.ssrc
      && U16At(p, 12) == 0x4F53 && U16At(p, 14) == 2
      && U16At(p, 16) == f.streamId && U16At(p, 18) == f.seqExt && U32At(p, 20) == f.mediaTs
      && p[24..24 + |payload|] == payload && U32At(p, 24 + |payload|) == CrcValue(payload)
  {
    hide CrcValue;
    var p, h, c := PacketOf(f, payload), HeaderBytes(f), CrcValue(payload);
    assert p[..24] == h && p[24..24 + |payload|] == payload && p[24 + |payload|..] == Be32(c);
    Be32RoundTrip(f.rtpTs);
    Be32RoundTrip(f.ssrc);
    Be32RoundTrip(f.mediaTs);
    Be32RoundTrip(c);
    forall i | 0 <= i < 24 ensures p[i] == h[i] {}
    forall i | 0 <= i < 4 ensures p[24 + |payload| + i] == Be32(c)[i] {}
  }

  /** Every packet built with a payload is recognised, with its own sequence
      number, the low seven bits of the payload type, and the payload in place. */
  lemma ReceiversRecognise(f: Fields, payload: seq<Byte>)
    requires |payload| > 0
    ensures ParseLinux(PacketOf(f, payload)) == Rtp(true, 24, f.sequence, f.pt % 128, f.mediaTs)
    ensures ParseWin(PacketOf(f, payload)) ==
      if f.pt % 128 in {126, 127} then Ignored else Rtp(true, 24, f.sequence, f.pt % 128, f.mediaTs)
  {
    FieldsRoundTrip(f, payload);
    hide PacketOf, CrcValue;
  }

  function Le32(x: Int32): (b: seq<Byte>)
    ensures |b| == 4
  {
    var w := if x < 0 then x + 0x1_0000_0000 else x;
    [w % 256, w / 256 % 256, w / 0x1_0000 % 256, w / 0x100_0000]
  }

  /** memcpy of int32_t samples on a little-endian host. */
  function SampleBytes(words: seq<Int32>): (b: seq<Byte>)
    ensures |b| == 4 * |words|
  {
    if words == [] then [] else SampleBytes(words[..|words| - 1]) + Le32(words[|words| - 1])
  }

  lemma Le32RoundTrip(p: seq<Byte>, i: nat, x: Int32)
    requires i + 4 <= |p| && forall k | 0 <= k < 4 :: p[i + k] == Le32(x)[k]
    ensures LeWordAt(p, i) == x
  {
    var w := if x < 0 then x + 0x1_0000_0000 else x;
    Be32RoundTrip(w);
    assert p[i + 0] == Le32(x)[0] && p[i + 1] == Le32(x)[1] && p[i + 2] == Le32(x)[2] && p[i + 3] == Le32(x)[3];
  }

  lemma {:induction false} SampleByteAt(words: seq<Int32>, i: nat, k: nat)
    requires i < |words| && k < 4
    ensures SampleBytes(words)[4 * i + k] == Le32(words[i])[k]
    decreases |words|
  {
    hide Le32;
    var n := |words| - 1;
    if i < n { SampleByteAt(words[..n], i, k); }
  }

  lemma SamplesRoundTrip(p: seq<Byte>, off: nat, words: seq<Int32>)
    requires off + 4 * |words| <= |p| && p[off..off + 4 * |words|] == SampleBytes(words)
    ensures LeWords(p, off, |words|) == words
  {
    hide SampleBytes, Le32, LeWordAt;
    forall i | 0 <= i < |words| ensures LeWordAt(p, off + 4 * i) == words[i] { SampleRoundTrip(p, off, words, i); }
  }

  lemma SampleRoundTrip(p: seq<Byte>, off: nat, words: seq<Int32>, i: nat)
    requires off + 4 * |words| <= |p| && p[off..off + 4 * |words|] == SampleBytes(words) && i < |words|
    ensures LeWordAt(p, off + 4 * i) == words[i]
  {
    hide SampleBytes, Le32, LeWordAt;
    forall k | 0 <= k < 4 ensures p[off + 4 * i + k] == Le32(words[i])[k] {
      SampleByteAt(words, i, k);
      assert p[off..off + 4 * |words|][4 * i + k] == p[off + 4 * i + k];
    }
    Le32RoundTrip(p, off + 4 * i, words[i]);
  }

  /** The trailer-stripping parser recovers exactly the samples of every PT 96
      packet and drops every other payload type. */
  lemma ListenRecoversSamples(f: Fields, words: seq<Int32>)
    requires |words| > 0
    ensures
      var p := PacketOf(f, SampleBytes(words));
      var off := ListenOffset(p);
      if f.pt % 128 == 96 then off == 24 && (|p| - 4 - off) / 4 == |words| && LeWords(p, off, |words|) == words
      else off == -1
  {
    var p := PacketOf(f, SampleBytes(words));
    FieldsRoundTrip(f, SampleBytes(words));
    hide PacketOf, SampleBytes, CrcValue;
    SamplesRoundTrip(p, 24, words);
    hide LeWords;
  }

  // ---- Packets of other senders ------------------------------------------------------

  /** The twelve bytes of section 5.1 of RFC 3550, without extension; 128 in pt is the marker bit. */
  function PlainHeader(pt: U8, sequence: U16, rtpTs: U32, ssrc: U32): (h: seq<Byte>)
    ensures |h| == 12
  {
    [0x80, pt] + Be16(sequence) + Be32(rtpTs) + Be32(ssrc)
  }

  /** What linux-rx does not take for audio. A packet of RTP version 2 is never a pong or a text,
      and no receiver takes a packet without payload, except that the browser drops a bare
      header only for want of samples. */
  lemma LinuxDispatch(p: seq<Byte>)
    requires p != []
    ensures ParseLinux(p).SyncPong? <==> |p| == 25 && p[0] == 0x7D
    ensures ParseLinux(p).TextMessage? <==> |p| >= 4 && 65 <= p[0] <= 90
    ensures ParseLinux(p).Ignored? ==> |p| <= 24
    ensures p[0] / 64 == 2 ==> ParseLinux(p).Rtp? || ParseLinux(p).Ignored?
    ensures p[0] / 64 == 2 && |p| > 24 ==> ParseLinux(p).Rtp?
    ensures ParseLinux(p).Rtp? ==> 12 <= ParseLinux(p).payloadOff < |p|
    ensures ParseWin(p).Rtp? ==> 12 <= ParseWin(p).payloadOff < |p|
    ensures ListenOffset(p) == -1 || 12 <= ListenOffset(p) < |p| || ListenOffset(p) == |p| == 12
  {}

  /** Every plain RTP packet is taken as such by both receivers, but for the types the Windows
      receiver ignores; that one takes a packet whose payload starts with the sixteen or more
      bytes of the older OSTP header for its own, with the media time at offset 28. */
  lemma PlainRtpRecognised(pt: U8, sequence: U16, rtpTs: U32, ssrc: U32, payload: seq<Byte>)
    requires |payload| > 0
    ensures
      var p := PlainHeader(pt, sequence, rtpTs, ssrc) + payload;
      var legacy := |payload| >= 20 && payload[..4] == [0x4F, 0x53, 0x54, 0x50];
      && ParseLinux(p) == Rtp(false, 12, sequence, pt % 128, 0)
      && (pt % 128 in {126, 127} ==> ParseWin(p) == Ignored)
      && (pt % 128 !in {126, 127} && !legacy ==> ParseWin(p) == Rtp(false, 12, sequence, pt % 128, 0))
      && (pt % 128 !in {126, 127} && |payload| == 20 && legacy ==> ParseWin(p) == Ignored)
      && (pt % 128 !in {126, 127} && |payload| > 20 && legacy ==>
            ParseWin(p) == Rtp(true, 32, sequence, pt % 128, U32At(payload, 16)))
  {
    var p := PlainHeader(pt, sequence, rtpTs, ssrc) + payload;
    PlainFields(pt, sequence, rtpTs, ssrc, payload);
    hide PlainHeader;
    assert forall i | 0 <= i < |payload| :: p[12 + i] == payload[i];
    if |payload| >= 4 { MagicIs(p, payload); }
  }

  lemma PlainFields(pt: U8, sequence: U16, rtpTs: U32, ssrc: U32, payload: seq<Byte>)
    ensures
      var p := PlainHeader(pt, sequence, rtpTs, ssrc) + payload;
      p[0] == 0x80 && p[1] == pt && U16At(p, 2) == sequence
  {
    hide Be32;
  }

  lemma MagicIs(p: seq<Byte>, payload: seq<Byte>)
    requires |p| == 12 + |payload| && |payload| >= 4 && forall i | 0 <= i < |payload| :: p[12 + i] == payload[i]
    ensures U32At(p, 12) == 0x4F53_5450 <==> payload[..4] == [0x4F, 0x53, 0x54, 0x50]
  {
    assert p[12 + 0] == payload[0] && p[12 + 1] == payload[1] && p[12 + 2] == payload[2] && p[12 + 3] == payload[3];
  }

  /** The browser's decoder: version 2 and PT 96 only; behind an extension of any length, or
      at once without one. */
  lemma ListenFindsPayload(h: seq<Byte>, profile: seq<Byte>, ext: seq<Byte>, rest: seq<Byte>, words: U16)
    requires |h| == 12 && |profile| == 2 && |ext| == 4 * words && |rest| >= 4
    ensures h[0] / 64 != 2 || h[1] % 128 != 96 ==>
      ListenOffset(h + rest) == ListenOffset(h + profile + Be16(words) + ext + rest) == -1
    ensures h[0] / 64 == 2 && h[1] % 128 == 96 && h[0] / 16 % 2 == 0 ==> ListenOffset(h + rest) == 12
    ensures h[0] / 64 == 2 && h[1] % 128 == 96 && h[0] / 16 % 2 == 1 ==>
      var p := h + profile + Be16(words) + ext + rest;
      ListenOffset(p) == |p| - |rest|
  {
    var p := h + profile + Be16(words) + ext + rest;
    assert p[0] == h[0] && p[1] == h[1] && p[14] == Be16(words)[0] && p[15] == Be16(words)[1];
  }

  // ---- The C++ receivers' payload, trailer included --------------------------------

  /** linux-rx, PT 96: whole frames of everything after the header, trailer included. */
  function PcmFrames(payloadBytes: nat, channels: nat, maxSamples: nat): int
    requires channels >= 1
  {
    var samples := payloadBytes / (4 * channels) * channels;
    (if samples > maxSamples then maxSamples else samples) / channels
  }

  /** Whole frames of what was received, as many as the buffer holds. */
  lemma PcmFramesAre(payloadBytes: nat, channels: nat, maxSamples: nat)
    requires channels >= 1
    ensures PcmFrames(payloadBytes, channels, maxSamples) == Min(payloadBytes / (4 * channels), maxSamples / channels)
  {
    var f, k := payloadBytes / (4 * channels), maxSamples / channels;
    var r := maxSamples - k * channels;
    assert 0 <= r < channels && maxSamples == k * channels + r;
    Naturals.DivModUnique(f * channels, channels, f, 0);
    if f <= k { Naturals.MulMonotone(f, k, channels); } else { Naturals.MulMonotone(k + 1, f, channels); }
  }

  /** The four trailer bytes are too short for a frame of two or more channels, but for one
      channel they are decoded as one more sample, unless the buffer is full already. */
  lemma TrailerIsAFrameIffMono(frames: nat, channels: nat, maxSamples: nat)
    requires channels >= 1
    ensures
      var sent := 4 * (frames * channels);
      && PcmFrames(sent, channels, maxSamples) == Min(frames, maxSamples / channels)
      && PcmFrames(sent + 4, channels, maxSamples) ==
           Min(frames, maxSamples / channels) + if channels == 1 && frames < maxSamples then 1 else 0
  {
    hide PcmFrames;
    PcmFramesAre(4 * (frames * channels), channels, maxSamples);
    PcmFramesAre(4 * (frames * channels) + 4, channels, maxSamples);
    WholeFrames(frames, channels);
  }

  lemma WholeFrames(frames: nat, channels: nat)
    requires channels >= 1
    ensures 4 * (frames * channels) / (4 * channels) == frames
    ensures (4 * (frames * channels) + 4) / (4 * channels) == frames + if channels == 1 then 1 else 0
  {
    var n := 4 * (frames * channels);
    assert n == frames * (4 * channels);
    Naturals.DivModUnique(n, 4 * channels, frames, 0);
    if channels == 1 {
      Naturals.DivModUnique(n + 4, 4 * channels, frames + 1, 0);
    } else {
      Naturals.DivModUnique(n + 4, 4 * channels, frames, 4);
    }
  }

  // ---- Sequence numbers ----------------------------------------------------------------

  /** The senders' seq and seq_ext: one 32-bit counter in two 16-bit fields. */
  class SequenceCounter {
    var low: U16
    var high: U16

    function Extended(): U32
      reads this
    {
      0x1_0000 * high as int + low as int
    }

    /** seq++; if (seq == 0) seq_ext++; */
    method Advance()
      modifies this
      ensures Extended() == (old(Extended()) + 1) % 0x1_0000_0000
    {
      low := (low + 1) % 0x1_0000;
      if low == 0 { high := (high + 1) % 0x1_0000; }
    }
  }
}
