// The KoeCodec packet as a bit stream: fields of given widths, most significant bit
// first, written into a byte buffer that may be too small, and read back.

module BitStream {
  import Naturals = Bits
  import opened Gf2

  // A byte as its eight bits, most significant first: |= (0x80 >> k) sets bit k.
  type Octet = b: Bits | |b| == 8 witness Zeros(8)

  /** The first n bits of a buffer. */
  function Stream(out: seq<Octet>, n: nat): (b: Bits)
    requires n <= 8 * |out|
    ensures |b| == n
  {
    seq(n, j requires 0 <= j < n => out[j / 8][j % 8])
  }

  /** The low n bits of val, most significant first. */
  function Msb(val: nat, n: nat): (b: Bits)
    ensures |b| == n
  {
    if n == 0 then [] else Msb(val / 2, n - 1) + [val % 2 == 1]
  }

  function Value(b: Bits): nat {
    if b == [] then 0 else 2 * Value(b[..|b| - 1]) + (if b[|b| - 1] then 1 else 0)
  }

  lemma {:induction false} MsbBit(val: nat, n: nat, i: nat)
    requires i < n
    ensures Msb(val, n)[n - 1 - i] == Naturals.Bit(val, i)
  {
    if i > 0 { MsbBit(val / 2, n - 1, i - 1); }
  }

  lemma {:induction false} ValueOfMsb(val: nat, n: nat)
    requires val < Naturals.Pow2(n)
    ensures Value(Msb(val, n)) == val
  {
    if n > 0 {
      ValueOfMsb(val / 2, n - 1);
      assert Msb(val, n)[..n - 1] == Msb(val / 2, n - 1);
    }
  }

  /** Only the low n bits count. */
  lemma {:induction false} MsbOfLowBits(val: nat, n: nat)
    ensures Msb(val, n) == Msb(val % Naturals.Pow2(n), n)
  {
    if n > 0 {
      Naturals.ModHalves(val, Naturals.Pow2(n - 1));
      MsbOfLowBits(val / 2, n - 1);
    }
  }

  /** What fits into cap bits. */
  function Clip(b: Bits, cap: nat): Bits { if |b| <= cap then b else b[..cap] }

  lemma ClipAppend(a: Bits, b: Bits, cap: nat)
    ensures Clip(Clip(a, cap) + b, cap) == Clip(a + b, cap)
  {}

  // ---- Fields of a message ----------------------------------------------------------------

  datatype Field = Field(value: nat, width: nat)

  function Pack(fields: seq<Field>): Bits {
    if fields == [] then [] else Msb(fields[0].value, fields[0].width) + Pack(fields[1..])
  }

  lemma {:induction false} PackAppend(a: seq<Field>, b: seq<Field>)
    ensures Pack(a + b) == Pack(a) + Pack(b)
  {
    if a == [] {
      assert a + b == b;
    } else {
      assert (a + b)[1..] == a[1..] + b && (a + b)[0] == a[0];
      PackAppend(a[1..], b);
    }
  }

  lemma PackOne(a: seq<Field>, f: Field)
    ensures Pack(a + [f]) == Pack(a) + Msb(f.value, f.width)
  {
    PackAppend(a, [f]);
    assert [f][1..] == [];
  }

  function Total(widths: seq<nat>): nat {
    if widths == [] then 0 else widths[0] + Total(widths[1..])
  }

  /** A reader that takes fields of known widths from the front. */
  function Read(b: Bits, widths: seq<nat>): (values: seq<nat>)
    requires Total(widths) <= |b|
    ensures |values| == |widths|
  {
    if widths == [] then [] else [Value(b[..widths[0]])] + Read(b[widths[0]..], widths[1..])
  }

  function Values(fields: seq<Field>): seq<nat> { seq(|fields|, i requires 0 <= i < |fields| => fields[i].value) }

  function Widths(fields: seq<Field>): seq<nat> { seq(|fields|, i requires 0 <= i < |fields| => fields[i].width) }

  predicate AllFit(fields: seq<Field>) {
    forall i | 0 <= i < |fields| :: fields[i].value < Naturals.Pow2(fields[i].width)
  }

  lemma FirstField(fields: seq<Field>)
    requires fields != []
    ensures Widths(fields) == [fields[0].width] + Widths(fields[1..])
    ensures Values(fields) == [fields[0].value] + Values(fields[1..])
    ensures Pack(fields) == Msb(fields[0].value, fields[0].width) + Pack(fields[1..])
  {}

  lemma ReadFirst(first: Bits, rest: Bits, widths: seq<nat>)
    requires Total(widths) <= |rest|
    ensures Total([|first|] + widths) == |first| + Total(widths)
    ensures Read(first + rest, [|first|] + widths) == [Value(first)] + Read(rest, widths)
  {
    var b, w := first + rest, [|first|] + widths;
    assert b[..|first|] == first && b[|first|..] == rest && w[1..] == widths;
  }

  lemma ReadStep(fields: seq<Field>, rest: Bits)
    requires fields != [] && fields[0].value < Naturals.Pow2(fields[0].width)
    requires |Pack(fields[1..])| == Total(Widths(fields[1..]))
    requires Read(Pack(fields[1..]) + rest, Widths(fields[1..])) == Values(fields[1..])
    ensures |Pack(fields)| == Total(Widths(fields))
    ensures Read(Pack(fields) + rest, Widths(fields)) == Values(fields)
  {
    hide *;
    var f, more := fields[0], fields[1..];
    ValueOfMsb(f.value, f.width);
    FirstField(fields);
    var first, later := Msb(f.value, f.width), Pack(more);
    ReadFirst(first, later + rest, Widths(more));
    assert (first + later) + rest == first + (later + rest);
  }

  /** Reading what was packed, whatever follows it, gives the values back. */
  lemma {:induction false} ReadPacked(fields: seq<Field>, rest: Bits)
    requires AllFit(fields)
    ensures |Pack(fields)| == Total(Widths(fields))
    ensures Read(Pack(fields) + rest, Widths(fields)) == Values(fields)
  {
    if fields != [] {
      assert forall i | 0 <= i < |fields| - 1 :: fields[1..][i] == fields[i + 1];
      ReadPacked(fields[1..], rest);
      hide Read, Pack, Total, Msb, Value, Widths, Values;
      ReadStep(fields, rest);
    }
  }

  // ---- The writer ----------------------------------------------------------------------

  class BitWriter {
    const out: array<Octet>
    var bits: nat

    // The byte being filled has no bit set beyond the ones written.
    ghost predicate Valid()
      reads this, out
    {
      && bits <= 8 * out.Length
      && (bits % 8 != 0 ==> forall k | bits % 8 <= k < 8 :: !out[bits / 8][k])
    }

    ghost function Written(): Bits
      requires Valid()
      reads this, out
    {
      Stream(out[..], bits)
    }

    constructor (out: array<Octet>)
      ensures Valid() && this.out == out && Written() == []
    {
      this.out, bits := out, 0;
    }

    method PutBit(b: bool) returns (ok: bool)
      requires Valid()
      modifies this, out
      ensures Valid() && bits >= old(bits) && ok == (old(bits) < 8 * out.Length)
      ensures Written() == if ok then old(Written()) + [b] else old(Written())
      ensures forall i | 0 <= i < out.Length && bits <= 8 * i :: out[i] == old(out[i])
    {
      var bi, bo := bits / 8, bits % 8;
      if bi >= out.Length { return false; }
      if bo == 0 { out[bi] := Zeros(8); }
      if b { out[bi] := out[bi][bo := true]; }
      bits := bits + 1;
      ok := true;
      StreamGrows(old(out[..]), out[..], bi, bo, b);
    }

    /** Bit bo of octet bi is set to b, the bits before it stay. */
    lemma StreamGrows(was: seq<Octet>, now: seq<Octet>, bi: nat, bo: nat, b: bool)
      requires |was| == |now| && bi < |now| && bo < 8 && now[bi][bo] == b
      requires forall i | 0 <= i < bi :: now[i] == was[i]
      requires forall k | 0 <= k < bo :: now[bi][k] == was[bi][k]
      ensures Stream(now, bi * 8 + bo + 1) == Stream(was, bi * 8 + bo) + [b]
    {
      forall j | 0 <= j < bi * 8 + bo ensures now[j / 8][j % 8] == was[j / 8][j % 8] {}
    }

    /** Appends the low nbits bits of val; bits that no longer fit are dropped. */
    method Put(val: nat, nbits: nat)
      requires Valid()
      modifies this, out
      ensures Valid() && bits >= old(bits) && Written() == Clip(old(Written()) + Msb(val, nbits), 8 * out.Length)
      ensures forall i | 0 <= i < out.Length && bits <= 8 * i :: out[i] == old(out[i])
    {
      hide Stream, Msb, Naturals.Shr;
      ghost var image := Msb(val, nbits);
      var i := nbits;
      while i > 0
        invariant 0 <= i <= nbits
        invariant Valid() && bits >= old(bits) && Written() == old(Written()) + Msb(val, nbits)[..nbits - i]
        invariant forall k | 0 <= k < out.Length && bits <= 8 * k :: out[k] == old(out[k])
      {
        i := i - 1;
        MsbBit(val, nbits, i);
        assert image[..nbits - i] == image[..nbits - i - 1] + [image[nbits - 1 - i]];
        var ok := PutBit(Naturals.Shr(val, i) % 2 == 1);
        if !ok { return; }
      }
      assert Msb(val, nbits)[..nbits] == Msb(val, nbits);
    }
  }
}
