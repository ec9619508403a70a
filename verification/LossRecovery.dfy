// Loss recovery of the Windows pair: the receiver's 16-bit sequence accounting
// and NACKs (apps/win-rx), the sender's circular packet cache and NACK listener
// (apps/win-tx; the daemon's cache has the same shape).

module LossRecovery {
  import opened BigEndian
  import opened Cells
  import opened Common
  import opened Words

  // ---- The transmit cache --------------------------------------------------------

  // A slot never written has no data, which is how find recognises it.
  datatype Slot = Slot(sequence: nat, data: seq<Byte>)

  class TxPacketCache {
    const slots: array<Slot>
    const slotSize: nat
    var writeIdx: nat

    // Everything ever stored, oldest first.
    ghost var stores: seq<Slot>

    ghost predicate Valid()
      reads this, slots
    {
      var n := slots.Length;
      && n >= 1 && writeIdx == |stores|
      && (forall k | 0 <= k < |stores| && |stores| <= k + n :: slots[Cell(k, n)] == Kept(stores[k]))
      && (forall i | |stores| <= i < n :: slots[i].data == [])
    }

    /** What the fixed slot buffer keeps of a packet. */
    function Kept(p: Slot): Slot {
      Slot(p.sequence, p.data[..Min(|p.data|, slotSize)])
    }

    /** The last slots.Length packets stored. */
    ghost function Window(): seq<Slot>
      requires Valid()
      reads this, slots
    {
      stores[|stores| - Min(|stores|, slots.Length)..]
    }

    constructor (cacheSize: nat, slotSize: nat)
      requires cacheSize >= 1 && slotSize >= 1
      ensures Valid() && stores == [] && slots.Length == cacheSize && this.slotSize == slotSize && fresh(slots)
    {
      this.slotSize := slotSize;
      slots := new Slot[cacheSize](_ => Slot(0, []));
      writeIdx, stores := 0, [];
    }

    method Store(sequence: nat, pkt: seq<Byte>)
      requires Valid()
      modifies this, slots
      ensures Valid() && stores == old(stores) + [Slot(sequence, pkt)]
    {
      ghost var n, w := slots.Length, writeIdx;
      CellIsMod(writeIdx, n);
      var copy := if |pkt| < slotSize then |pkt| else slotSize;
      forall k | 0 <= k < w && w < k + n ensures Cell(k, n) != Cell(w, n) { CellsDiffer(k, w, n); }
      slots[writeIdx % slots.Length] := Slot(sequence, pkt[..copy]);
      writeIdx := writeIdx + 1;
      stores := stores + [Slot(sequence, pkt)];
    }

    /** A packet the cache can still serve under this number. */
    ghost predicate Serves(sequence: nat, p: Slot) {
      p.sequence == sequence && p.data != []
    }

    ghost predicate CanServe(sequence: nat)
      requires Valid()
      reads this, slots
    {
      exists p :: p in Window() && Serves(sequence, p)
    }

    /** The bytes are those of a windowed packet with this number, cut to the slot and the buffer. */
    ghost predicate IsReply(sequence: nat, maxLen: nat, bytes: seq<Byte>)
      requires Valid()
      reads this, slots
    {
      exists p :: p in Window() && Serves(sequence, p) && bytes == p.data[..Min(Min(|p.data|, slotSize), maxLen)]
    }

    /** The scan over the slots; maxLen is the caller's buffer. */
    method Find(sequence: nat, maxLen: nat) returns (r: Option<seq<Byte>>)
      requires Valid() && slotSize >= 1
      ensures r.Some? <==> CanServe(sequence)
      ensures r.Some? ==> IsReply(sequence, maxLen, r.value)
    {
      SlotsAreWindow();
      for i := 0 to slots.Length
        invariant forall k | 0 <= k < i :: !(|slots[k].data| > 0 && slots[k].sequence == sequence)
      {
        if |slots[i].data| > 0 && slots[i].sequence == sequence {
          var copy := Min(|slots[i].data|, maxLen);
          ghost var p := Original(i);
          assert p.data[..Min(|p.data|, slotSize)][..copy] == p.data[..copy];
          return Some(slots[i].data[..copy]);
        }
      }
      r := None;
    }

    /** Every windowed packet has its slot. */
    lemma SlotsAreWindow()
      requires Valid()
      ensures forall p | p in Window() :: exists i | 0 <= i < slots.Length :: slots[i] == Kept(p)
    {
      var n, from := slots.Length, |stores| - Min(|stores|, slots.Length);
      forall p | p in Window() ensures exists i | 0 <= i < n :: slots[i] == Kept(p) {
        var k :| 0 <= k < |Window()| && Window()[k] == p;
        assert stores[from + k] == p;
        assert slots[Cell(from + k, n)] == Kept(p);
      }
    }

    /** Every filled slot holds a windowed packet. */
    lemma Original(i: nat) returns (p: Slot)
      requires Valid() && i < slots.Length && slots[i].data != []
      ensures p in Window() && slots[i] == Kept(p) && p.data != []
    {
      var n, k := slots.Length, i;
      if |stores| < n {
        assert Cell(i, n) == i;
      } else {
        k := CellSurjective(i, |stores|, n);
      }
      p := stores[k];
      assert p == Window()[k - (|stores| - Min(|stores|, n))];
    }

    /** Sliding window: when the windowed numbers are distinct, find returns exactly
        the windowed packet of that number, cut to the slot. */
    method FindInWindow(sequence: nat, maxLen: nat, ghost k: nat) returns (r: Option<seq<Byte>>)
      requires Valid() && slotSize >= 1
      requires forall a, b | 0 <= a < b < |Window()| :: Window()[a].sequence != Window()[b].sequence
      ensures k < |Window()| && Window()[k].sequence == sequence ==>
        r == if Window()[k].data == [] then None
             else Some(Window()[k].data[..Min(Min(|Window()[k].data|, slotSize), maxLen)])
      ensures (forall p | p in Window() :: p.sequence != sequence) ==> r == None
    {
      hide Valid, Window, CanServe, IsReply;
      r := Find(sequence, maxLen);
      if k < |Window()| && Window()[k].sequence == sequence { OneInWindow(sequence, maxLen, k); }
      NoneInWindow(sequence);
    }

    lemma OneInWindow(sequence: nat, maxLen: nat, k: nat)
      requires Valid() && k < |Window()| && Window()[k].sequence == sequence
      requires forall a, b | 0 <= a < b < |Window()| :: Window()[a].sequence != Window()[b].sequence
      ensures CanServe(sequence) <==> Window()[k].data != []
      ensures forall bytes | IsReply(sequence, maxLen, bytes) ::
        bytes == Window()[k].data[..Min(Min(|Window()[k].data|, slotSize), maxLen)]
    {
      hide Valid, Window;
      var w := Window();
      assert w[k] in w;
      forall p | p in w && Serves(sequence, p) ensures p == w[k] {
        var j :| 0 <= j < |w| && w[j] == p;
      }
    }

    lemma NoneInWindow(sequence: nat)
      requires Valid()
      ensures (forall p | p in Window() :: p.sequence != sequence) ==> !CanServe(sequence)
    {}
  }

  // ---- The NACK datagram -----------------------------------------------------------

  /** What send_nack puts on the wire. */
  function NackBytes(missing: U16): seq<Byte> {
    [0x4E, 0x41, 0, 0, missing / 256, missing % 256]
  }

  /** Request i of a datagram: a big-endian uint32 of which 16 bits are used. */
  function RequestAt(buf: seq<Byte>, i: nat): U16
    requires 2 + 4 * i + 4 <= |buf|
  {
    256 * buf[2 + 4 * i + 2] as int + buf[2 + 4 * i + 3] as int
  }

  function Requests(buf: seq<Byte>): seq<U16> {
    if |buf| < 2 || buf[0] != 0x4E || buf[1] != 0x41 then []
    else seq((|buf| - 2) / 4, i requires 0 <= i < (|buf| - 2) / 4 => RequestAt(buf, i))
  }

  lemma NackRoundTrip(missing: U16)
    ensures NackBytes(missing) == [0x4E, 0x41] + Be32(missing)
    ensures Requests(NackBytes(missing)) == [missing]
  {}

  lemma LowHalf(b0: Byte, b1: Byte, b2: Byte, b3: Byte)
    ensures (0x100_0000 * b0 as int + 0x1_0000 * b1 as int + 256 * b2 as int + b3 as int) % 0x1_0000 ==
      256 * b2 as int + b3 as int
  {}

  /** The replies to a list of requests: one for each request the cache can serve,
      in order, none for the others. */
  ghost predicate AreReplies(cache: TxPacketCache, requests: seq<U16>, sent: seq<seq<Byte>>)
    requires cache.Valid()
    reads cache, cache.slots
  {
    if requests == [] then sent == []
    else
      var before, q := requests[..|requests| - 1], requests[|requests| - 1];
      if cache.CanServe(q) then
        |sent| > 0 && AreReplies(cache, before, sent[..|sent| - 1]) && cache.IsReply(q, 65536, sent[|sent| - 1])
      else AreReplies(cache, before, sent)
  }

  lemma NoRequests(cache: TxPacketCache)
    requires cache.Valid()
    ensures AreReplies(cache, [], [])
  {}

  /** One round of nack_listener_thread: the packets retransmitted. */
  method AnswerNack(cache: TxPacketCache, buf: seq<Byte>) returns (sent: seq<seq<Byte>>)
    requires cache.Valid() && cache.slotSize == 65536
    ensures AreReplies(cache, Requests(buf), sent)
  {
    hide TxPacketCache.Valid, TxPacketCache.CanServe, TxPacketCache.IsReply, AreReplies, RequestAt;
    sent := [];
    var n := |buf|;
    NoRequests(cache);
    if n < 2 { return; }
    if buf[0] != 0x4E || buf[1] != 0x41 { return; }
    var numSeqs := (n - 2) / 4;
    ghost var rs := Requests(buf);
    for i := 0 to numSeqs
      invariant AreReplies(cache, rs[..i], sent)
    {
      var q := RequestedNumber(buf, i);
      assert q == rs[i];
      var hit := cache.Find(q, 65536);
      if hit.Some? {
        OneMoreReply(cache, rs, i, sent, hit.value);
        sent := sent + [hit.value];
      } else {
        NoReply(cache, rs, i, sent);
      }
    }
    assert rs[..|rs|] == rs;
  }

  method RequestedNumber(buf: seq<Byte>, i: nat) returns (q: U16)
    requires 2 + 4 * i + 4 <= |buf|
    ensures q == RequestAt(buf, i)
  {
    var at := 2 + i * 4;
    var seq32 := 0x100_0000 * buf[at] as int + 0x1_0000 * buf[at + 1] as int
      + 256 * buf[at + 2] as int + buf[at + 3] as int;
    LowHalf(buf[at], buf[at + 1], buf[at + 2], buf[at + 3]);
    q := seq32 % 0x1_0000;
  }

  lemma OneMoreReply(cache: TxPacketCache, rs: seq<U16>, i: nat, sent: seq<seq<Byte>>, bytes: seq<Byte>)
    requires cache.Valid() && i < |rs| && AreReplies(cache, rs[..i], sent)
    requires cache.CanServe(rs[i]) && cache.IsReply(rs[i], 65536, bytes)
    ensures AreReplies(cache, rs[..i + 1], sent + [bytes])
  {
    hide TxPacketCache.Valid, TxPacketCache.CanServe, TxPacketCache.IsReply;
    assert rs[..i + 1][..i] == rs[..i] && (sent + [bytes])[..|sent|] == sent;
  }

  lemma NoReply(cache: TxPacketCache, rs: seq<U16>, i: nat, sent: seq<seq<Byte>>)
    requires cache.Valid() && i < |rs| && AreReplies(cache, rs[..i], sent) && !cache.CanServe(rs[i])
    ensures AreReplies(cache, rs[..i + 1], sent)
  {
    hide TxPacketCache.Valid, TxPacketCache.CanServe, TxPacketCache.IsReply;
    assert rs[..i + 1][..i] == rs[..i];
  }

  /** The sender's run: packets numbered consecutively, modulo 2^16. */
  ghost predicate Consecutive(stores: seq<Slot>, start: nat) {
    forall k | 0 <= k < |stores| :: stores[k].sequence == (start + k) % 0x1_0000
  }

  /** End to end: a receiver's NACK is answered with the original packet if and only
      if that packet is among the last 64 sent. */
  method NackAnsweredIffRecent(cache: TxPacketCache, ghost start: nat, ghost k: nat, missing: U16)
    returns (sent: seq<seq<Byte>>)
    requires cache.Valid() && cache.slots.Length == 64 && cache.slotSize == 65536
    requires Consecutive(cache.stores, start)
    requires forall p | p in cache.stores :: 0 < |p.data| <= 65536
    requires k < |cache.stores| && |cache.stores| <= k + 0x1_0000 && cache.stores[k].sequence == missing
    ensures sent == if |cache.stores| <= k + 64 then [cache.stores[k].data] else []
  {
    hide TxPacketCache.Valid, TxPacketCache.CanServe, TxPacketCache.IsReply, TxPacketCache.Window;
    hide Consecutive, AreReplies, Requests, NackBytes;
    OnlyTheOriginal(cache, start, k, missing);
    NackRoundTrip(missing);
    sent := AnswerNack(cache, NackBytes(missing));
    OneRequest(cache, missing, sent);
  }

  /** Of the windowed packets only the one asked for has its number. */
  lemma OnlyTheOriginal(cache: TxPacketCache, start: nat, k: nat, missing: U16)
    requires cache.Valid() && cache.slots.Length == 64 && cache.slotSize == 65536
    requires Consecutive(cache.stores, start)
    requires forall p | p in cache.stores :: 0 < |p.data| <= 65536
    requires k < |cache.stores| && |cache.stores| <= k + 0x1_0000 && cache.stores[k].sequence == missing
    ensures cache.CanServe(missing) <==> |cache.stores| <= k + 64
    ensures forall bytes | cache.IsReply(missing, 65536, bytes) :: bytes == cache.stores[k].data
  {
    hide TxPacketCache.Valid, TxPacketCache.Window, Consecutive;
    forall p | p in cache.Window() && cache.Serves(missing, p)
      ensures p == cache.stores[k] && |cache.stores| <= k + 64 && p.data[..Min(Min(|p.data|, 65536), 65536)] == p.data
    {
      ServedIsOriginal(cache, start, k, missing, p);
    }
    if |cache.stores| <= k + 64 { OriginalIsServed(cache, k, missing); }
  }

  lemma ServedIsOriginal(cache: TxPacketCache, start: nat, k: nat, missing: U16, p: Slot)
    requires cache.Valid() && cache.slots.Length == 64 && Consecutive(cache.stores, start)
    requires k < |cache.stores| && |cache.stores| <= k + 0x1_0000 && cache.stores[k].sequence == missing
    requires p in cache.Window() && p.sequence == missing
    ensures p == cache.stores[k] && |cache.stores| <= k + 64
  {
    hide TxPacketCache.Valid;
    var from, w := |cache.stores| - Min(|cache.stores|, 64), cache.Window();
    var j :| 0 <= j < |w| && w[j] == p;
    assert w[j] == cache.stores[from + j];
    SameResidue(start + from + j, start + k);
  }

  lemma OriginalIsServed(cache: TxPacketCache, k: nat, missing: U16)
    requires cache.Valid() && cache.slots.Length == 64 && k < |cache.stores| <= k + 64
    requires cache.stores[k].sequence == missing && cache.stores[k].data != []
    ensures cache.stores[k] in cache.Window() && cache.Serves(missing, cache.stores[k])
  {
    hide TxPacketCache.Valid;
    var from := |cache.stores| - Min(|cache.stores|, 64);
    assert cache.Window()[k - from] == cache.stores[k];
  }

  lemma OneRequest(cache: TxPacketCache, q: U16, sent: seq<seq<Byte>>)
    requires cache.Valid() && AreReplies(cache, [q], sent)
    ensures if cache.CanServe(q) then |sent| == 1 && cache.IsReply(q, 65536, sent[0]) else sent == []
  {
    hide TxPacketCache.Valid, TxPacketCache.CanServe, TxPacketCache.IsReply;
    assert [q][..0] == [];
  }

  lemma SameResidue(a: nat, b: nat)
    requires a % 0x1_0000 == b % 0x1_0000 && -0x1_0000 < a - b < 0x1_0000
    ensures a == b
  {}
}
