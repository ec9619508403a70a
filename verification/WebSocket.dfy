// WebSocket frames (sections 5.2 and 5.3 of RFC 6455): the control server's sender
// and parser, and the Python client's masked frames and reply reader.

module WebSocket {
  import opened Common
  import opened Words
  import opened BigEndian
  import opened ByteXor

  function Masked(data: seq<Byte>, mask: seq<Byte>): (m: seq<Byte>)
    requires |mask| == 4
    ensures |m| == |data|
  {
    seq(|data|, i requires 0 <= i < |data| => XorByte(data[i], mask[i % 4]))
  }

  const NO_MASK: seq<Byte> := [0, 0, 0, 0]

  /** Masking with the same key again unmasks; the zero key changes nothing. */
  lemma MaskTwice(data: seq<Byte>, mask: seq<Byte>)
    requires |mask| == 4
    ensures Masked(Masked(data, mask), mask) == data && Masked(data, NO_MASK) == data
  {
    forall i | 0 <= i < |data|
      ensures Masked(Masked(data, mask), mask)[i] == data[i] && Masked(data, NO_MASK)[i] == data[i]
    {
      XorTwice(data[i], mask[i % 4]);
    }
  }

  // ---- Sending ------------------------------------------------------------------------------

  /** A frame header without mask: the shortest of the three length forms. */
  function Header(opcode: Byte, len: nat): (h: seq<Byte>)
    requires len < WORD64
    ensures |h| == if len < 126 then 2 else if len < 65536 then 4 else 10
  {
    [128 + opcode % 128]
    + if len < 126 then [len] else if len < 65536 then [126] + Be16(len) else [127] + Be64(len)
  }

  function Frame(opcode: Byte, data: seq<Byte>): seq<Byte>
    requires |data| < WORD64
  {
    Header(opcode, |data|) + data
  }

  /** send_ws_frame: header bytes, then the data, if any. */
  method SendFrame(opcode: Byte, data: seq<Byte>) returns (wire: seq<Byte>)
    requires |data| < WORD64
    ensures wire == Frame(opcode, data)
  {
    var hdr := new Byte[10];
    var len, hdrLen := |data|, 2;
    hdr[0] := 128 + opcode % 128;
    if len < 126 {
      hdr[1] := len % 256;
    } else if len < 65536 {
      hdr[1] := 126;
      hdr[2] := len / 256 % 256;
      hdr[3] := len % 256;
      hdrLen := 4;
    } else {
      hdr[1] := 127;
      for i := 0 to 8
        invariant hdr[0] == 128 + opcode % 128 && hdr[1] == 127
        invariant forall k | 0 <= k < i :: hdr[2 + k] == Be64(len)[k]
      {
        BeByte(len, 8, i);
        hdr[2 + i] := ShiftBytes(len, 7 - i) % 256;
      }
      hdrLen := 10;
      assert hdr[2..10] == Be64(len);
    }
    assert hdr[..hdrLen] == Header(opcode, len);
    wire := hdr[..hdrLen];
    if len > 0 { wire := wire + data; }
  }

  // ---- Receiving ----------------------------------------------------------------------------------

  datatype Parsed =
    | Incomplete
    | PastEnd                                  // the frame's end is beyond 2^64
    | Received(opcode: nat, payload: seq<Byte>)

  /** The eight length bytes, as the parser accumulates them. */
  function Accumulated(p: seq<Byte>, i: nat): nat
    requires 2 + i <= |p|
  {
    if i == 0 then 0 else (Accumulated(p, i - 1) * 256 + p[2 + i - 1] as int) % WORD64
  }

  /** Length and end of the header, before the mask. */
  function LengthOf(p: seq<Byte>): (r: (nat, nat))
    requires |p| >= 2 && (p[1] % 128 == 126 ==> |p| >= 4) && (p[1] % 128 == 127 ==> |p| >= 10)
    ensures r.1 <= |p|
  {
    if p[1] % 128 == 126 then (U16At(p, 2), 4)
    else if p[1] % 128 == 127 then (Accumulated(p, 8), 10)
    else (p[1] % 128, 2)
  }

  // Where the payload starts, its length, and its mask.
  datatype Head = NoHead | Head(off: nat, len: nat, mask: seq<Byte>)

  function HeadOf(p: seq<Byte>): (h: Head)
    ensures h.Head? ==> h.off <= |p| && |h.mask| == 4
  {
    var n := |p|;
    if n < 2 || (p[1] % 128 == 126 && n < 4) || (p[1] % 128 == 127 && n < 10) then NoHead
    else
      var (len, at) := LengthOf(p);
      if p[1] >= 128 then if n < at + 4 then NoHead else Head(at + 4, len, p[at..at + 4])
      else Head(at, len, NO_MASK)
  }

  /** One pass of the parser over the bytes of one recv. */
  function Parse(p: seq<Byte>): Parsed {
    match HeadOf(p)
    case NoHead => Incomplete
    case Head(off, len, mask) =>
      if |p| < (off + len) % WORD64 then Incomplete
      else if off + len > |p| then PastEnd
      else Received(p[0] % 16, Masked(p[off..off + len], mask))
  }

  /** A frame that is accepted though its end was not received has a length field so
      large that adding the header to it leaves 64 bits; no other frame is. */
  lemma PastEndIffWraps(p: seq<Byte>)
    requires |p| < WORD64
    ensures Parse(p).PastEnd? <==>
      var h := HeadOf(p);
      h.Head? && h.off + h.len >= WORD64
  {
    LengthBound(p);
    hide HeadOf;
  }

  /** A masked text frame of length 2^64 - 1 is one. */
  lemma LongestLengthIsPastEnd(mask: seq<Byte>)
    requires |mask| == 4
    ensures Parse([0x81, 0xFF] + Be64(WORD64 - 1) + mask) == PastEnd
  {
    var p := [0x81, 0xFF] + Be64(WORD64 - 1) + mask;
    Pow256Of8();
    BeRoundTrip(WORD64 - 1, 8);
    hide BeBytes, BeValue, Accumulated, Masked;
    assert p[2..10] == Be64(WORD64 - 1) && p[10..14] == mask;
    AccumulatedIsValue(p, 8);
    assert HeadOf(p) == Head(14, WORD64 - 1, mask);
  }

  lemma LengthBound(p: seq<Byte>)
    requires |p| < WORD64
    ensures HeadOf(p).Head? ==> HeadOf(p).len < WORD64 && HeadOf(p).off <= 14 && HeadOf(p).off <= |p|
  {}

  datatype Reaction = Wait | Close | Reply(wire: seq<Byte>) | Nothing | Text(message: seq<Byte>)
                    | LeavesBuffer     // the unmasking loop would run past the bytes received

  /** What the server does with a frame. */
  function React(f: Parsed): Reaction
    requires f.Received? ==> |f.payload| < WORD64
  {
    match f
    case Incomplete => Wait
    case PastEnd => LeavesBuffer
    case Received(opcode, payload) =>
      if opcode == 8 then Close
      else if opcode == 9 then Reply(Frame(0x0A, payload))
      else if opcode == 1 then Text(payload)
      else Nothing
  }

  /** The body of ws_loop after a recv of n bytes: the payload is unmasked in place. */
  method HandleFrame(buf: array<Byte>, n: nat) returns (r: Reaction)
    requires 0 < n <= buf.Length < WORD64
    modifies buf
    ensures r == React(Parse(old(buf[..n])))
  {
    hide HeadOf, Masked, Frame, Parse;
    ghost var p := buf[..n];
    ParseFollowsHead(p);
    var h := ReadHead(buf, n);
    if h.NoHead? { return Wait; }
    if n < (h.off + h.len) % WORD64 { return Wait; }
    if h.off + h.len > n { return LeavesBuffer; }
    var opcode: Byte := buf[0] % 16;
    PrefixSlice(buf[..], n, h.off, h.off + h.len);
    Unmask(buf, h.off, h.len, h.mask);
    var payload := buf[h.off..h.off + h.len];
    if opcode == 8 { return Close; }
    if opcode == 9 {
      var wire := SendFrame(0x0A, payload);
      return Reply(wire);
    }
    if opcode == 10 { return Nothing; }
    if opcode == 1 { return Text(payload); }
    r := Nothing;
  }

  lemma ParseFollowsHead(p: seq<Byte>)
    ensures
      match HeadOf(p)
      case NoHead => Parse(p) == Incomplete
      case Head(off, len, mask) =>
        && (|p| < (off + len) % WORD64 ==> Parse(p) == Incomplete)
        && (|p| >= (off + len) % WORD64 && off + len > |p| ==> Parse(p) == PastEnd)
        && (|p| >= (off + len) % WORD64 && off + len <= |p| && |p| > 0 ==>
              Parse(p) == Received(p[0] % 16, Masked(p[off..off + len], mask)))
  {
    hide HeadOf, Masked;
  }

  lemma PrefixSlice(s: seq<Byte>, n: nat, i: nat, j: nat)
    requires i <= j <= n <= |s|
    ensures s[i..j] == s[..n][i..j]
  {}

  method ReadHead(buf: array<Byte>, n: nat) returns (h: Head)
    requires n <= buf.Length
    ensures h == HeadOf(buf[..n])
  {
    if n < 2 { return NoHead; }
    hide Accumulated;
    ghost var p := buf[..n];
    var payloadLen: nat := buf[1] % 128;
    var offset := 2;
    if payloadLen == 126 {
      if n < 4 { return NoHead; }
      payloadLen := 256 * buf[2] as int + buf[3] as int;
      offset := 4;
    } else if payloadLen == 127 {
      if n < 10 { return NoHead; }
      payloadLen := ReadLength(buf, n);
      offset := 10;
    }
    assert (payloadLen, offset) == LengthOf(p);
    var mask: seq<Byte> := NO_MASK;
    if buf[1] >= 128 {
      if n < offset + 4 { return NoHead; }
      mask := buf[offset..offset + 4];
      assert mask == p[offset..offset + 4];
      offset := offset + 4;
    }
    h := Head(offset, payloadLen, mask);
  }

  method ReadLength(buf: array<Byte>, n: nat) returns (len: nat)
    requires 10 <= n <= buf.Length
    ensures len == Accumulated(buf[..n], 8)
  {
    len := 0;
    for i := 0 to 8
      invariant len == Accumulated(buf[..n], i)
    {
      len := (len * 256 + buf[2 + i] as int) % WORD64;
    }
  }

  method Unmask(buf: array<Byte>, offset: nat, len: nat, mask: seq<Byte>)
    requires offset + len <= buf.Length && |mask| == 4
    modifies buf
    ensures buf[offset..offset + len] == Masked(old(buf[..])[offset..offset + len], mask)
    ensures forall k | 0 <= k < buf.Length && !(offset <= k < offset + len) :: buf[k] == old(buf[k])
  {
    for i := 0 to len
      invariant forall k | 0 <= k < i :: buf[offset + k] == XorByte(old(buf[offset + k]), mask[k % 4])
      invariant forall k | 0 <= k < buf.Length && !(offset <= k < offset + i) :: buf[k] == old(buf[k])
    {
      buf[offset + i] := XorByte(buf[offset + i], mask[i % 4]);
    }
  }

  // ---- Round trips -----------------------------------------------------------------------------------

  lemma {:induction false} AccumulatedIsValue(p: seq<Byte>, i: nat)
    requires i <= 8 && 2 + i <= |p|
    ensures Accumulated(p, i) == BeValue(p[2..2 + i])
  {
    if i > 0 {
      AccumulatedIsValue(p, i - 1);
      assert p[2..2 + i][..i - 1] == p[2..2 + i - 1];
      BeValueBound(p[2..2 + i]);
      Pow256Of8();
      Pow256Monotone(i, 8);
    }
  }

  lemma {:induction false} Pow256Monotone(a: nat, b: nat)
    requires a <= b
    ensures Pow256(a) <= Pow256(b)
    decreases b
  {
    if a < b { Pow256Monotone(a, b - 1); }
  }

  lemma WholeFrameArrived(p: seq<Byte>, off: nat, len: nat, mask: seq<Byte>)
    requires HeadOf(p) == Head(off, len, mask) && off + len == |p| < WORD64 && off > 0
    ensures Parse(p) == Received(p[0] % 16, Masked(p[off..], mask))
  {
    hide HeadOf, Masked;
    assert p[off..off + len] == p[off..];
  }

  /** The parser inverts the sender in all three length forms, if the whole frame arrived. */
  lemma ServerFrameRoundTrip(opcode: Byte, data: seq<Byte>)
    requires |data| + 10 < WORD64
    ensures Parse(Frame(opcode, data)) == Received(opcode % 16, data)
  {
    MaskTwice(data, NO_MASK);
    HeadOfFrame(opcode, data);
    hide HeadOf, Masked, Parse;
    WholeFrameArrived(Frame(opcode, data), |Header(opcode, |data|)|, |data|, NO_MASK);
    assert Frame(opcode, data)[|Header(opcode, |data|)|..] == data;
    assert Frame(opcode, data)[0] == 128 + opcode % 128;
  }

  lemma HeadOfFrame(opcode: Byte, data: seq<Byte>)
    requires |data| < WORD64
    ensures HeadOf(Frame(opcode, data)) == Head(|Header(opcode, |data|)|, |data|, NO_MASK)
  {
    hide BeBytes, BeValue, Accumulated;
    var p := Frame(opcode, data);
    if |data| >= 65536 {
      assert p[1] == 127 && p[2..10] == Be64(|data|);
      AccumulatedIsValue(p, 8);
      Pow256Of8();
      BeRoundTrip(|data|, 8);
    } else if |data| >= 126 {
      assert p[1] == 126 && p[2..4] == Be16(|data|);
      assert p[2] == Be16(|data|)[0] && p[3] == Be16(|data|)[1];
    } else {
      assert p[1] == |data|;
    }
  }

  /** Lengths need not be in the shortest form: the parser reads all three. */
  lemma LongerFormsAreRead(first: Byte, data: seq<Byte>)
    requires |data| < 65536
    ensures Parse([first, 126] + Be16(|data|) + data) == Received(first % 16, data)
    ensures Parse([first, 127] + Be64(|data|) + data) == Received(first % 16, data)
  {
    MaskTwice(data, NO_MASK);
    LongerHeads(first, data);
    hide HeadOf, Masked, Parse, Be16, Be64;
    var p, q := [first, 126] + Be16(|data|) + data, [first, 127] + Be64(|data|) + data;
    WholeFrameArrived(p, 4, |data|, NO_MASK);
    WholeFrameArrived(q, 10, |data|, NO_MASK);
    assert p[4..] == data && q[10..] == data;
  }

  lemma LongerHeads(first: Byte, data: seq<Byte>)
    requires |data| < 65536
    ensures HeadOf([first, 126] + Be16(|data|) + data) == Head(4, |data|, NO_MASK)
    ensures HeadOf([first, 127] + Be64(|data|) + data) == Head(10, |data|, NO_MASK)
  {
    hide BeBytes, BeValue, Accumulated;
    var p, q := [first, 126] + Be16(|data|) + data, [first, 127] + Be64(|data|) + data;
    assert p[1] == 126 && p[2] == Be16(|data|)[0] && p[3] == Be16(|data|)[1];
    assert q[1] == 127 && q[2..10] == Be64(|data|);
    AccumulatedIsValue(q, 8);
    Pow256Of8();
    BeRoundTrip(|data|, 8);
  }

  /** ws_call: one masked text frame. bytes() rejects a length byte above 255. */
  function ClientFrame(data: seq<Byte>, mask: seq<Byte>): Option<seq<Byte>>
    requires |mask| == 4
  {
    if |data| < 126 then Some([0x81, 128 + |data|] + mask + Masked(data, mask))
    else if |data| / 256 >= 256 then None
    else Some([0x81, 0xFE, |data| / 256, |data| % 256] + mask + Masked(data, mask))
  }

  /** The parser inverts the client for every mask and every payload below 65536 bytes;
      the client frames no others. */
  lemma ClientFrameRoundTrip(data: seq<Byte>, mask: seq<Byte>)
    requires |mask| == 4
    ensures ClientFrame(data, mask).Some? <==> |data| < 65536
    ensures |data| < 65536 ==> Parse(ClientFrame(data, mask).value) == Received(1, data)
  {
    if |data| < 65536 {
      var p := ClientFrame(data, mask).value;
      var off := if |data| < 126 then 6 else 8;
      MaskTwice(data, mask);
      HeadOfClientFrame(data, mask);
      hide HeadOf, Masked, Parse;
      WholeFrameArrived(p, off, |data|, mask);
      assert p[off..] == Masked(data, mask);
      assert p[0] == 0x81;
    }
  }

  lemma HeadOfClientFrame(data: seq<Byte>, mask: seq<Byte>)
    requires |mask| == 4 && |data| < 65536
    ensures HeadOf(ClientFrame(data, mask).value) == Head(if |data| < 126 then 6 else 8, |data|, mask)
  {
    hide Masked, Accumulated;
    var p := ClientFrame(data, mask).value;
    if |data| < 126 {
      assert p[1] == 128 + |data| && p[2..6] == mask;
    } else {
      assert p[1] == 0xFE && p[2] == |data| / 256 && p[3] == |data| % 256 && p[4..8] == mask;
    }
  }

  /** ws_call's reading of the reply: the seven-bit length only. */
  function ClientRead(raw: seq<Byte>): seq<Byte> {
    if |raw| < 4 then []
    else
      var end := 2 + (raw[1] % 128) as int;
      raw[2..if end < |raw| then end else |raw|]
  }

  predicate ShortForm(n: nat) { n < 126 }

  /** The client recovers every reply of n bytes exactly when n is below 126 and not 1. */
  lemma ClientReadsReplyIff(n: nat)
    requires n < WORD64
    ensures (forall data: seq<Byte> | |data| == n :: ClientRead(Frame(1, data)) == data) <==> ShortForm(n) && n != 1
  {
    if n < 126 {
      forall data: seq<Byte> | |data| == n ensures n != 1 <==> ClientRead(Frame(1, data)) == data {
        ReadsShortReply(data);
      }
      var zeros: seq<Byte> := seq(n, _ => 0);
      assert |zeros| == n;
    } else {
      MissesLongReply(n);
    }
  }

  lemma ReadsShortReply(data: seq<Byte>)
    requires |data| < 126
    ensures |data| != 1 <==> ClientRead(Frame(1, data)) == data
  {
    ReadsFirstReply(data, []);
    assert Frame(1, data) + [] == Frame(1, data);
  }

  /** When more bytes arrived with a short reply, the client takes no more than the reply, and
      then recovers one byte as well. */
  lemma ReadsFirstReply(data: seq<Byte>, rest: seq<Byte>)
    requires |data| < 126
    ensures ClientRead(Frame(1, data) + rest) == data <==> |data| != 1 || rest != []
  {
    var p := Frame(1, data) + rest;
    assert p == [129, |data|] + data + rest;
    if |p| >= 4 { assert p[2..2 + |data|] == data; }
  }

  lemma MissesLongReply(n: nat)
    requires 126 <= n < WORD64
    ensures exists data: seq<Byte> | |data| == n :: ClientRead(Frame(1, data)) != data
  {
    hide Be64;
    var zeros: seq<Byte> := seq(n, _ => 0);
    var p := Frame(1, zeros);
    assert p[1] == 126 || p[1] == 127;
    if n < 128 {
      assert p[3] == Be16(n)[1] == n;
      assert ClientRead(p)[1] == p[3];
    } else {
      assert |ClientRead(p)| < n;
    }
  }

  // ---- What the server does ------------------------------------------------------------------------

  /** The first two bytes of a frame the server sends: final, unmasked, and the seven-bit
      length, or 126 or 127 for the longer forms. */
  lemma FrameStarts(opcode: Byte, data: seq<Byte>)
    requires opcode < 16 && |data| < WORD64
    ensures
      var p := Frame(opcode, data);
      && |p| == |data| + (if |data| < 126 then 2 else if |data| < 65536 then 4 else 10)
      && p[0] == 0x80 + opcode
      && p[1] == if |data| < 126 then |data| else if |data| < 65536 then 126 else 127
  {
    hide Be64, Be16;
  }

  /** Sections 5.5.1 to 5.6 as the server keeps them, for every whole frame: a close frame
      ends the connection, a ping is answered by a pong with the same payload, text is passed
      on, and anything else is ignored. */
  lemma ServerReacts(p: seq<Byte>, opcode: nat, payload: seq<Byte>)
    requires Parse(p) == Received(opcode, payload) && |payload| + 10 < WORD64
    ensures
      var r := React(Parse(p));
      && (r.Close? <==> opcode == 8)
      && (r.Reply? <==> opcode == 9)
      && (r.Reply? ==> Parse(r.wire) == Received(10, payload) && r.wire[0] == 0x8A)
      && (r.Text? <==> opcode == 1)
      && (r.Text? ==> r.message == payload)
      && (opcode !in {1, 8, 9} ==> r == Nothing)
  {
    ServerFrameRoundTrip(0x0A, payload);
    FrameStarts(0x0A, payload);
    hide Parse, Frame;
  }
}
