// The SHA-1 driver of the WebSocket handshake: which blocks the transform is
// applied to. The transform itself is a parameter. Section numbers are of RFC 3174.

module Sha1 {
  import opened Words
  import opened BigEndian

  type State = s: seq<U32> | |s| == 5 witness [0, 0, 0, 0, 0]

  const INITIAL: State := [0x6745_2301, 0xEFCD_AB89, 0x98BA_DCFE, 0x1032_5476, 0xC3D2_E1F0]

  // ---- Section 4: padding ---------------------------------------------------------------

  function ZeroBytes(n: nat): (z: seq<Byte>)
    ensures |z| == n && forall i | 0 <= i < n :: z[i] == 0
  {
    seq(n, _ => 0)
  }

  /** The zero bytes between the 0x80 byte and the length of an n-byte message. */
  function Gap(n: nat): nat { if n % 64 < 56 then 55 - n % 64 else 119 - n % 64 }

  /** g zero bytes leave exactly the length's eight bytes of a block. */
  predicate LeavesRoom(n: nat, g: nat) { (n + 1 + g) % 64 == 56 }

  /** The gap is the least that ends 8 bytes before the end of a block. */
  lemma GapIsLeast(n: nat)
    ensures LeavesRoom(n, Gap(n))
    ensures forall g: nat | LeavesRoom(n, g) :: Gap(n) <= g
  {
    hide Gap, LeavesRoom;
    GapLeavesRoom(n);
    forall g: nat | LeavesRoom(n, g) ensures Gap(n) <= g { NoSmallerGap(n, g); }
  }

  lemma GapLeavesRoom(n: nat)
    ensures LeavesRoom(n, Gap(n))
  {
    var q, r := n / 64, n % 64;
    assert n + 1 + Gap(n) == if r < 56 then 64 * q + 56 else 64 * (q + 1) + 56;
  }

  lemma NoSmallerGap(n: nat, g: nat)
    requires LeavesRoom(n, g)
    ensures Gap(n) <= g
  {
    var q, r, k := n / 64, n % 64, (n + 1 + g) / 64;
    assert n + 1 + g == 64 * k + 56 && n == 64 * q + r;
    assert k >= q && (r >= 56 ==> k >= q + 1);
  }

  /** The length in bits as uint64_t computes it; section 4 admits only messages it fits. */
  function BitLength(n: nat): (l: nat)
    ensures l < WORD64
  {
    8 * n % WORD64
  }

  function Padded(m: seq<Byte>): (p: seq<Byte>)
    ensures |p| == |m| + 9 + Gap(|m|)
  {
    m + [0x80] + ZeroBytes(Gap(|m|)) + Be64(BitLength(|m|))
  }

  /** Whole blocks; one more than the message starts exactly when its last block has no
      room for the 0x80 byte and the length. */
  lemma PaddedBlocks(m: seq<Byte>)
    ensures |Padded(m)| == 64 * (|m| / 64) + if |m| % 64 < 56 then 64 else 128
  {}

  // ---- Section 6: the hash ----------------------------------------------------------------

  /** The transform applied to the blocks of p in turn. */
  function Chain(transform: (State, seq<Byte>) -> State, s: State, p: seq<Byte>): State
    decreases |p|
  {
    if |p| < 64 then s else Chain(transform, transform(s, p[..64]), p[64..])
  }

  function Digest(s: State): (d: seq<Byte>)
    ensures |d| == 20
  {
    Be32(s[0]) + Be32(s[1]) + Be32(s[2]) + Be32(s[3]) + Be32(s[4])
  }

  function Hash(transform: (State, seq<Byte>) -> State, m: seq<Byte>): seq<Byte> {
    Digest(Chain(transform, INITIAL, Padded(m)))
  }

  // ---- The program ---------------------------------------------------------------------------

  /** sha1::compute */
  method Compute(transform: (State, seq<Byte>) -> State, data: seq<Byte>, out: array<Byte>)
    requires out.Length == 20 && |data| < WORD64
    modifies out
    ensures out[..] == Hash(transform, data)
  {
    hide Be32, Padded, Hash, Gap;
    ghost var p := Padded(data);
    var state: State := INITIAL;
    var buf := new Byte[64];
    var len := |data|;
    var i := 0;
    while i + 64 <= len
      invariant 0 <= i <= len && i % 64 == 0
      invariant Chain(transform, INITIAL, p) == Chain(transform, state, p[i..])
    {
      BlockInside(data, i);
      state := transform(state, data[i..i + 64]);
      assert p[i..][..64] == data[i..i + 64] && p[i..][64..] == p[i + 64..];
      i := i + 64;
    }
    state := LastBlocks(transform, state, data, i, buf);
    assert Hash(transform, data) == Digest(state) by { HashIs(transform, data); }
    PutState(state, out);
  }

  lemma HashIs(transform: (State, seq<Byte>) -> State, data: seq<Byte>)
    ensures Hash(transform, data) == Digest(Chain(transform, INITIAL, Padded(data)))
  {}

  lemma BlockInside(data: seq<Byte>, i: nat)
    requires i + 64 <= |data|
    ensures i + 64 <= |Padded(data)| && Padded(data)[i..i + 64] == data[i..i + 64]
  {}

  /** The rest of the message, its padding and its length, in one block or two. */
  method LastBlocks(transform: (State, seq<Byte>) -> State, state0: State, data: seq<Byte>, i: nat, buf: array<Byte>)
    returns (state: State)
    requires buf.Length == 64 && i <= |data| < i + 64 && i % 64 == 0 && |data| < WORD64
    modifies buf
    ensures i <= |Padded(data)| && state == Chain(transform, state0, Padded(data)[i..])
  {
    hide Be32, Chain, Gap, BitLength, Padded, Tail, Be64;
    ghost var tail := Tail(data, i);
    TailSize(data, i);
    state := PadBlock(transform, state0, data, i, buf);
    ghost var front := buf[..56];
    CopyTo(buf, 56, Be64(BitLength(|data|)));
    assert buf[..56] == front && buf[..] == front + buf[56..64];
    EndOfTail(tail, front, Be64(BitLength(|data|)));
    ChainTail(transform, state0, data, i);
    state := transform(state, buf[..]);
  }

  lemma EndOfTail(tail: seq<Byte>, front: seq<Byte>, back: seq<Byte>)
    requires |tail| >= 64 && front == tail[|tail| - 64..|tail| - 8] && back == tail[|tail| - 8..]
    ensures front + back == tail[|tail| - 64..]
    ensures |tail| == 64 ==> front + back == tail[..64]
  {}

  /** All but the length: the block that spills over is already gone into the state. */
  method PadBlock(transform: (State, seq<Byte>) -> State, state0: State, data: seq<Byte>, i: nat, buf: array<Byte>)
    returns (state: State)
    requires buf.Length == 64 && i <= |data| < i + 64 && i % 64 == 0
    modifies buf
    ensures
      var t := Tail(data, i);
      && |t| >= 64 && buf[..56] == t[|t| - 64..|t| - 8]
      && state == if |t| == 64 then state0 else transform(state0, t[..64])
  {
    hide Be32, Gap, BitLength, Padded, Tail, Be64;
    state := state0;
    var rem := |data| - i;
    CopyTo(buf, 0, data[i..]);
    buf[rem] := 0x80;
    rem := rem + 1;
    ghost var tail := Tail(data, i);
    TailSize(data, i);
    assert buf[..rem] == data[i..] + [0x80];
    Clear(buf, rem, if rem > 56 then 64 else 56);
    if rem > 56 {
      SpillsOver(data, i);
      assert buf[..] == tail[..64];
      state := transform(state, buf[..]);
      rem := 0;
      Clear(buf, 0, 56);
    } else {
      FitsOneBlock(data, i);
    }
  }

  /** What remains of the padded message after the whole blocks. */
  function Tail(data: seq<Byte>, i: nat): (t: seq<Byte>)
    requires i <= |data| < i + 64 && i % 64 == 0
    ensures |t| == |data| - i + 9 + Gap(|data|)
  {
    data[i..] + [0x80] + ZeroBytes(Gap(|data|)) + Be64(BitLength(|data|))
  }

  lemma TailSize(data: seq<Byte>, i: nat)
    requires i <= |data| < i + 64 && i % 64 == 0
    ensures |Tail(data, i)| == if |data| - i < 56 then 64 else 128
    ensures Tail(data, i)[|Tail(data, i)| - 8..] == Be64(BitLength(|data|))
  {
    hide BitLength, Be64;
  }

  lemma SpillsOver(data: seq<Byte>, i: nat)
    requires i <= |data| < i + 64 && i % 64 == 0 && |data| - i >= 56
    ensures
      var t := Tail(data, i);
      |t| == 128 && t[..64] == data[i..] + [0x80] + ZeroBytes(63 - (|data| - i)) && t[64..120] == ZeroBytes(56)
  {
    hide BitLength, Be64;
  }

  lemma FitsOneBlock(data: seq<Byte>, i: nat)
    requires i <= |data| < i + 64 && i % 64 == 0 && |data| - i < 56
    ensures
      var t := Tail(data, i);
      |t| == 64 && t[..56] == data[i..] + [0x80] + ZeroBytes(55 - (|data| - i))
  {
    hide BitLength, Be64;
  }

  lemma ChainTail(transform: (State, seq<Byte>) -> State, s: State, data: seq<Byte>, i: nat)
    requires i <= |data| < i + 64 && i % 64 == 0
    ensures i <= |Padded(data)| && (|Tail(data, i)| == 64 || |Tail(data, i)| == 128)
    ensures
      var t := Tail(data, i);
      Chain(transform, s, Padded(data)[i..]) ==
        if |t| == 64 then transform(s, t[..64]) else transform(transform(s, t[..64]), t[64..])
  {
    hide Chain;
    TailSize(data, i);
    PaddedTail(data, i);
    hide *;
    ChainShort(transform, s, Tail(data, i));
  }

  lemma PaddedTail(data: seq<Byte>, i: nat)
    requires i <= |data| < i + 64 && i % 64 == 0
    ensures i <= |Padded(data)| && Padded(data)[i..] == Tail(data, i)
  {
    hide Be64, Gap, BitLength;
  }

  lemma ChainShort(transform: (State, seq<Byte>) -> State, s: State, t: seq<Byte>)
    requires |t| == 64 || |t| == 128
    ensures Chain(transform, s, t) ==
      if |t| == 64 then transform(s, t[..64]) else transform(transform(s, t[..64]), t[64..])
  {
    if |t| == 64 {
      assert Chain(transform, transform(s, t[..64]), t[64..]) == transform(s, t[..64]);
    } else {
      var s1 := transform(s, t[..64]);
      assert t[64..][..64] == t[64..] && t[64..][64..] == [];
      assert Chain(transform, s1, t[64..]) == Chain(transform, transform(s1, t[64..]), []);
    }
  }

  method CopyTo(buf: array<Byte>, at: nat, bytes: seq<Byte>)
    requires at + |bytes| <= buf.Length
    modifies buf
    ensures buf[at..at + |bytes|] == bytes
    ensures forall k | 0 <= k < buf.Length && !(at <= k < at + |bytes|) :: buf[k] == old(buf[k])
  {
    for j := 0 to |bytes|
      invariant forall k | 0 <= k < j :: buf[at + k] == bytes[k]
      invariant forall k | 0 <= k < buf.Length && !(at <= k < at + j) :: buf[k] == old(buf[k])
    {
      buf[at + j] := bytes[j];
    }
  }

  method Clear(buf: array<Byte>, from: nat, to: nat)
    requires from <= to <= buf.Length
    modifies buf
    ensures forall k | 0 <= k < buf.Length :: buf[k] == if from <= k < to then 0 else old(buf[k])
  {
    for j := from to to
      invariant forall k | 0 <= k < buf.Length :: buf[k] == if from <= k < j then 0 else old(buf[k])
    {
      buf[j] := 0;
    }
  }

  method PutState(state: State, out: array<Byte>)
    requires out.Length == 20
    modifies out
    ensures out[..] == Digest(state)
  {
    hide Digest;
    for j := 0 to 5
      invariant forall k | 0 <= k < 4 * j :: out[k] == Digest(state)[k]
    {
      DigestAt(state, j);
      out[4 * j] := state[j] / 0x100_0000;
      out[4 * j + 1] := state[j] / 0x1_0000 % 256;
      out[4 * j + 2] := state[j] / 256 % 256;
      out[4 * j + 3] := state[j] % 256;
    }
  }

  lemma DigestAt(s: State, j: nat)
    requires j < 5
    ensures
      var w, d := s[j], Digest(s);
      && d[4 * j] == w / 0x100_0000 && d[4 * j + 1] == w / 0x1_0000 % 256
      && d[4 * j + 2] == w / 256 % 256 && d[4 * j + 3] == w % 256
  {
    var w, d := s[j], Digest(s);
    assert d[4 * j..4 * j + 4] == Be32(w) by { hide Be32; }
    var q := d[4 * j..4 * j + 4];
    assert d[4 * j] == q[0] && d[4 * j + 1] == q[1] && d[4 * j + 2] == q[2] && d[4 * j + 3] == q[3];
  }

  // ---- What the padding is for ----------------------------------------------------------------

  /** The length field is the true length in bits exactly for the messages section 4 admits. */
  lemma LengthFieldIsLengthIff(n: nat)
    ensures BitLength(n) == 8 * n <==> 8 * n < WORD64
  {}

  /** Different admissible messages have different padded forms. */
  lemma PaddingIsInjective(a: seq<Byte>, b: seq<Byte>)
    requires 8 * |a| < WORD64 && 8 * |b| < WORD64 && Padded(a) == Padded(b)
    ensures a == b
  {
    hide Be64, Gap, BitLength, Padded;
    PaddedEnds(a);
    PaddedEnds(b);
    LengthFieldIsLengthIff(|a|);
    LengthFieldIsLengthIff(|b|);
    Be64Injective(8 * |a|, 8 * |b|);
  }

  lemma PaddedEnds(m: seq<Byte>)
    ensures |Padded(m)| >= |m| + 8 && Padded(m)[..|m|] == m && Padded(m)[|Padded(m)| - 8..] == Be64(BitLength(|m|))
  {
    hide Be64, Gap, BitLength;
  }

  /** The padded message is the message, one 1 bit, as few 0 bits as section 4 says, and the
      length in bits. */
  lemma PaddedLayout(m: seq<Byte>)
    requires 8 * |m| < WORD64
    ensures
      var p := Padded(m);
      var n := |p|;
      && n % 64 == 0 && n >= |m| + 9 && n - |m| < 9 + 64
      && p[..|m|] == m && p[|m|] == 0x80 && (forall i | |m| < i < n - 8 :: p[i] == 0)
      && BeValue(p[n - 8..]) == 8 * |m|
  {
    hide Padded, BeBytes, BeValue, Be64, BitLength, Gap, LeavesRoom;
    PaddedSize(m);
    PaddedEnds(m);
    PaddedMiddle(m);
    LengthField(m);
  }

  lemma PaddedSize(m: seq<Byte>)
    ensures |Padded(m)| % 64 == 0 && |m| + 9 <= |Padded(m)| < |m| + 9 + 64
  {
    GapIs(|m|);
    hide Gap, Be64, BitLength;
  }

  lemma GapIs(n: nat)
    ensures (n + 9 + Gap(n)) % 64 == 0 && Gap(n) < 64
  {
    var q, r := n / 64, n % 64;
    assert n + 9 + Gap(n) == if r < 56 then 64 * (q + 1) else 64 * (q + 2);
  }

  lemma PaddedMiddle(m: seq<Byte>)
    ensures |Padded(m)| >= |m| + 9 && Padded(m)[|m|] == 0x80
    ensures forall i | |m| < i < |Padded(m)| - 8 :: Padded(m)[i] == 0
  {
    hide Be64, Gap, BitLength;
  }

  lemma LengthField(m: seq<Byte>)
    requires 8 * |m| < WORD64
    ensures BeValue(Be64(BitLength(|m|))) == 8 * |m|
  {
    hide BeBytes, BeValue;
    Pow256Of8();
    BeRoundTrip(8 * |m|, 8);
    LengthFieldIsLengthIff(|m|);
  }

  /** Section 6.1: the digest that no block would leave. */
  lemma InitialDigest()
    ensures Digest(INITIAL) ==
      [0x67, 0x45, 0x23, 0x01, 0xEF, 0xCD, 0xAB, 0x89, 0x98, 0xBA, 0xDC, 0xFE,
       0x10, 0x32, 0x54, 0x76, 0xC3, 0xD2, 0xE1, 0xF0]
  {}

  /** Blocks are hashed in order, each into the state that those before left. */
  lemma {:induction false} ChainConcat(transform: (State, seq<Byte>) -> State, s: State, p: seq<Byte>, q: seq<Byte>)
    requires |p| % 64 == 0
    ensures Chain(transform, s, p + q) == Chain(transform, Chain(transform, s, p), q)
    decreases |p|
  {
    if p == [] {
      assert p + q == q;
    } else {
      assert (p + q)[..64] == p[..64] && (p + q)[64..] == p[64..] + q;
      ChainConcat(transform, transform(s, p[..64]), p[64..], q);
    }
  }

  /** Word j of the state is bytes 4j to 4j + 3 of the digest, high byte first. */
  lemma DigestWords(s: State, j: nat)
    requires j < 5
    ensures U32At(Digest(s), 4 * j) == s[j]
  {
    DigestAt(s, j);
    Be32RoundTrip(s[j]);
    hide Digest;
  }
}
