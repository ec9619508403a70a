// The browser sender's forward error correction: after every five packets their
// exclusive or is sent, from which any one of them can be rebuilt.

module FecParity {
  import opened Words
  import opened ByteXor

  const GROUP := 5

  type Packet = seq<Byte>

  /** Byte i of a packet, zero past its end. */
  function ByteAt(p: Packet, i: nat): Byte { if i < |p| then p[i] else 0 }

  /** The exclusive or of byte i of all packets. */
  function Column(group: seq<Packet>, i: nat): Byte {
    if group == [] then 0 else XorByte(Column(group[..|group| - 1], i), ByteAt(group[|group| - 1], i))
  }

  function MaxLen(group: seq<Packet>): nat {
    if group == [] then 0
    else
      var m, n := MaxLen(group[..|group| - 1]), |group[|group| - 1]|;
      if n > m then n else m
  }

  function Parity(group: seq<Packet>): (p: Packet)
    ensures |p| == MaxLen(group)
  {
    seq(MaxLen(group), i requires 0 <= i < MaxLen(group) => Column(group, i))
  }

  // ---- Building the parity -----------------------------------------------------------------

  method BuildParity(group: seq<Packet>) returns (parity: Packet)
    ensures parity == Parity(group)
  {
    hide XorByte;
    var maxLen := LongestPacket(group);
    var bytes := new Byte[maxLen](_ => 0);
    for k := 0 to |group|
      invariant forall i | 0 <= i < maxLen :: bytes[i] == Column(group[..k], i)
    {
      Lengths(group, k);
      XorInto(bytes, group[k]);
      assert group[..k + 1][..k] == group[..k];
    }
    assert group[..|group|] == group;
    parity := bytes[..];
  }

  method XorInto(bytes: array<Byte>, pkt: Packet)
    requires |pkt| <= bytes.Length
    modifies bytes
    ensures forall i | 0 <= i < bytes.Length :: bytes[i] == XorByte(old(bytes[i]), ByteAt(pkt, i))
  {
    hide XorByte;
    for i := 0 to |pkt|
      invariant forall k | 0 <= k < i :: bytes[k] == XorByte(old(bytes[k]), pkt[k])
      invariant forall k | i <= k < bytes.Length :: bytes[k] == old(bytes[k])
    {
      bytes[i] := XorByte(bytes[i], pkt[i]);
    }
    forall i | |pkt| <= i < bytes.Length ensures bytes[i] == XorByte(old(bytes[i]), 0) {
      XorTwice(bytes[i], 0);
    }
  }

  method LongestPacket(group: seq<Packet>) returns (n: nat)
    ensures n == MaxLen(group)
  {
    n := 0;
    for k := 0 to |group|
      invariant n == MaxLen(group[..k])
    {
      assert group[..k + 1][..k] == group[..k];
      if |group[k]| > n { n := |group[k]|; }
    }
    assert group[..|group|] == group;
  }

  /** The parity of one packet is that packet. */
  lemma ParityOfOne(p: Packet)
    ensures Parity([p]) == p
  {
    assert [p][..0] == [];
    assert MaxLen([p][..0]) == 0;
    forall i | 0 <= i < |p| ensures Column([p], i) == p[i] {
      XorCommutes(0, p[i]);
      XorTwice(p[i], 0);
      hide XorByte;
      assert Column([p], i) == XorByte(Column([p][..0], i), ByteAt(p, i));
    }
  }

  /** Two equal packets cancel. */
  lemma EqualPacketsCancel(p: Packet)
    ensures Parity([p, p]) == seq(|p|, _ => 0)
  {
    assert [p, p][..1] == [p];
    ParityOfOne(p);
    hide XorByte;
    forall i | 0 <= i < |p| ensures Column([p, p], i) == 0 {
      assert Parity([p])[i] == p[i];
      assert Column([p, p], i) == XorByte(p[i], p[i]);
      XorTwice(0, p[i]);
      XorCommutes(0, p[i]);
      XorTwice(p[i], 0);
      assert XorByte(0, p[i]) == p[i];
    }
  }

  lemma {:induction false} Lengths(group: seq<Packet>, k: nat)
    requires k < |group|
    ensures |group[k]| <= MaxLen(group)
  {
    if k < |group| - 1 { Lengths(group[..|group| - 1], k); }
  }

  // ---- Recovery --------------------------------------------------------------------------------

  /** The group without packet k. */
  function Without(group: seq<Packet>, k: nat): seq<Packet>
    requires k < |group|
  {
    group[..k] + group[k + 1..]
  }

  lemma {:induction false} ColumnSplits(group: seq<Packet>, k: nat, i: nat)
    requires k < |group|
    ensures Column(group, i) == XorByte(Column(Without(group, k), i), ByteAt(group[k], i))
  {
    hide XorByte;
    var n := |group| - 1;
    if k == n {
      assert Without(group, k) == group[..n];
    } else {
      var front := group[..n];
      ColumnSplits(front, k, i);
      assert Without(group, k)[..n - 1] == Without(front, k);
      assert Without(group, k)[n - 1] == group[n];
      var rest, lost, last := Column(Without(front, k), i), ByteAt(group[k], i), ByteAt(group[n], i);
      XorAssociates(rest, lost, last);
      XorCommutes(lost, last);
      XorAssociates(rest, last, lost);
    }
  }

  /** What a receiver rebuilds from the parity and the packets it has. */
  function Rebuilt(parity: Packet, others: seq<Packet>): seq<Byte> {
    seq(|parity|, i requires 0 <= i < |parity| => XorByte(parity[i], Column(others, i)))
  }

  /** Any one packet of a group is rebuilt from the others and the parity, followed by
      zeros up to the longest packet's length. */
  lemma AnyOnePacketIsRebuilt(group: seq<Packet>, k: nat)
    requires k < |group|
    ensures
      var r := Rebuilt(Parity(group), Without(group, k));
      && |group[k]| <= |r| && r[..|group[k]|] == group[k] && forall i | |group[k]| <= i < |r| :: r[i] == 0
  {
    hide XorByte;
    Lengths(group, k);
    var r := Rebuilt(Parity(group), Without(group, k));
    forall i | 0 <= i < |r| ensures r[i] == ByteAt(group[k], i) {
      ColumnSplits(group, k, i);
      var others, lost := Column(Without(group, k), i), ByteAt(group[k], i);
      XorCommutes(others, lost);
      XorTwice(lost, others);
    }
  }

  // ---- The sender's run ----------------------------------------------------------------------------

  /** Parity g belongs to the g-th five packets. */
  ghost predicate Covered(packets: seq<Packet>, parities: seq<Packet>) {
    && GROUP * |parities| <= |packets|
    && forall g: nat | g < |parities| :: parities[g] == Parity(packets[GROUP * g..GROUP * g + GROUP])
  }

  lemma StillCovered(packets: seq<Packet>, parities: seq<Packet>, p: Packet)
    requires Covered(packets, parities)
    ensures Covered(packets + [p], parities)
  {
    hide Parity;
    forall g: nat | g < |parities| ensures parities[g] == Parity((packets + [p])[GROUP * g..GROUP * g + GROUP]) {
      assert (packets + [p])[GROUP * g..GROUP * g + GROUP] == packets[GROUP * g..GROUP * g + GROUP];
    }
  }

  lemma OneMoreCovered(packets: seq<Packet>, parities: seq<Packet>)
    requires Covered(packets, parities) && |packets| == GROUP * |parities| + GROUP
    ensures Covered(packets, parities + [Parity(packets[GROUP * |parities|..])])
  {
    hide Parity;
    assert packets[GROUP * |parities|..] == packets[GROUP * |parities|..GROUP * |parities| + GROUP];
  }

  class FecSender {
    var fecBuf: seq<Packet>
    var fecGroupId: nat

    // Every packet and every parity sent so far.
    ghost var packets: seq<Packet>
    ghost var parities: seq<Packet>

    ghost predicate Valid()
      reads this
    {
      && |fecBuf| < GROUP && |parities| == fecGroupId && |packets| == GROUP * fecGroupId + |fecBuf|
      && fecBuf == packets[GROUP * fecGroupId..]
      && Covered(packets, parities)
    }

    constructor ()
      ensures Valid() && packets == [] && parities == []
    {
      fecBuf, fecGroupId, packets, parities := [], 0, [], [];
    }

    /** _onPcmFrame, after the packet is built: every fifth packet is followed by its
        group's parity. */
    method OnPacket(packet: Packet) returns (wire: seq<Packet>)
      requires Valid()
      modifies this
      ensures Valid() && packets == old(packets) + [packet]
      ensures if |packets| % 5 == 0 then
                parities == old(parities) + [Parity(packets[|packets| - 5..])] &&
                wire == [packet, parities[|parities| - 1]]
              else parities == old(parities) && wire == [packet]
    {
      hide Parity, Covered;
      StillCovered(packets, parities, packet);
      wire := [packet];
      packets := packets + [packet];
      fecBuf := fecBuf + [packet];
      assert fecBuf == packets[GROUP * fecGroupId..];
      if |fecBuf| >= GROUP {
        OneMoreCovered(packets, parities);
        var fecPkt := BuildParity(fecBuf);
        wire := wire + [fecPkt];
        parities := parities + [fecPkt];
        fecBuf := [];
        fecGroupId := fecGroupId + 1;
      }
    }
  }

  /** Every packet of a finished group can be lost alone. */
  lemma EveryLossIsRepaired(packets: seq<Packet>, parities: seq<Packet>, n: nat)
    requires Covered(packets, parities) && n < GROUP * |parities|
    ensures
      var g := n / GROUP;
      var r := Rebuilt(parities[g], Without(packets[GROUP * g..GROUP * g + GROUP], n % GROUP));
      |packets[n]| <= |r| && r[..|packets[n]|] == packets[n]
  {
    var g := n / GROUP;
    hide Rebuilt, Parity, Without;
    AnyOnePacketIsRebuilt(packets[GROUP * g..GROUP * g + GROUP], n % GROUP);
  }
}
