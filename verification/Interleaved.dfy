// Interleaved sample buffers: frame f of channel ch lies at f * channels + ch.

module Interleaved {

  /** f * channels + ch, in the form of a repeated addition. */
  function At(f: nat, channels: nat, ch: nat): nat {
    if f == 0 then ch else At(f - 1, channels, ch) + channels
  }

  lemma {:induction false} AtIsIndex(f: nat, channels: nat, ch: nat)
    ensures f * channels + ch == At(f, channels, ch)
  {
    if f > 0 {
      AtIsIndex(f - 1, channels, ch);
      assert f * channels == (f - 1) * channels + channels;
    }
  }

  lemma {:induction false} AtMonotone(f: nat, g: nat, channels: nat, ch: nat)
    requires f <= g
    ensures At(f, channels, ch) <= At(g, channels, ch)
    ensures f < g ==> At(f, channels, ch) + channels <= At(g, channels, ch)
    decreases g
  {
    if f < g { AtMonotone(f, g - 1, channels, ch); }
  }

  lemma {:induction false} AtOffset(f: nat, channels: nat, ch: nat)
    ensures At(f, channels, ch) == At(f, channels, 0) + ch
  {
    if f > 0 { AtOffset(f - 1, channels, ch); }
  }

  /** Different frames or channels never share an index. */
  lemma AtInjective(f: nat, c: nat, g: nat, d: nat, channels: nat)
    requires c < channels && d < channels && (f != g || c != d)
    ensures At(f, channels, c) != At(g, channels, d)
  {
    AtOffset(f, channels, c);
    AtOffset(g, channels, d);
    if f < g {
      AtMonotone(f, g, channels, 0);
    } else if g < f {
      AtMonotone(g, f, channels, 0);
    }
  }

  /** All frames of a buffer of n frames lie inside it. */
  lemma AtInBuffer(f: nat, c: nat, n: nat, channels: nat)
    requires f < n && c < channels
    ensures At(f, channels, c) < At(n, channels, 0)
  {
    AtOffset(f, channels, c);
    AtMonotone(f, n, channels, 0);
  }

  /** The buffer holds n frames. */
  predicate Fits(length: nat, n: nat, channels: nat) { At(n, channels, 0) <= length }

  /** Channel ch of the first n frames. */
  function Channel<T>(buf: seq<T>, n: nat, channels: nat, ch: nat): (x: seq<T>)
    requires ch < channels && Fits(|buf|, n, channels)
    ensures |x| == n
  {
    seq(n, f requires 0 <= f < n => AtInBuffer(f, ch, n, channels); buf[At(f, channels, ch)])
  }

  /** Writing frame f of channel ch changes that channel there, and no other. */
  lemma ChannelUpdate<T>(buf: seq<T>, n: nat, channels: nat, ch: nat, f: nat, v: T)
    requires ch < channels && Fits(|buf|, n, channels) && f < n
    ensures At(f, channels, ch) < |buf|
    ensures Channel(buf[At(f, channels, ch) := v], n, channels, ch) == Channel(buf, n, channels, ch)[f := v]
    ensures forall c: nat | c < channels && c != ch ::
      Channel(buf[At(f, channels, ch) := v], n, channels, c) == Channel(buf, n, channels, c)
  {
    AtInBuffer(f, ch, n, channels);
    var k := At(f, channels, ch);
    var buf' := buf[k := v];
    forall c: nat, g: nat | c < channels && g < n
      ensures Channel(buf', n, channels, c)[g] == if c == ch && g == f then v else Channel(buf, n, channels, c)[g]
    {
      AtInBuffer(g, c, n, channels);
      if g != f || c != ch { AtInjective(g, c, f, ch, channels); }
    }
  }

  lemma ChannelElement<T>(buf: seq<T>, n: nat, channels: nat, ch: nat, f: nat)
    requires ch < channels && Fits(|buf|, n, channels) && f < n
    ensures f * channels + ch < |buf|
    ensures f * channels + ch == At(f, channels, ch) && buf[f * channels + ch] == Channel(buf, n, channels, ch)[f]
  {
    AtInBuffer(f, ch, n, channels);
    AtIsIndex(f, channels, ch);
  }

  /** buf[f * channels + ch] = v */
  method PutFrame<T>(buf: array<T>, n: nat, channels: nat, ch: nat, f: nat, v: T)
    requires ch < channels && Fits(buf.Length, n, channels) && f < n
    modifies buf
    ensures Channel(buf[..], n, channels, ch) == Channel(old(buf[..]), n, channels, ch)[f := v]
    ensures forall c: nat | c < channels && c != ch ::
      Channel(buf[..], n, channels, c) == Channel(old(buf[..]), n, channels, c)
  {
    ghost var was := buf[..];
    ChannelElement(was, n, channels, ch, f);
    ChannelUpdate(was, n, channels, ch, f, v);
    hide Channel, Fits;
    buf[f * channels + ch] := v;
    assert buf[..] == was[At(f, channels, ch) := v];
  }
}
