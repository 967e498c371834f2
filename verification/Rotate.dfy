/** Rotating an image by 180 degrees in place. */
module Rotate {
  import opened Bits
  import opened Images

  /** Pixel p of `t` is the p-th pixel from the end of `s`, with its channels in order. */
  predicate IsReversed(s: seq<byte>, t: seq<byte>, n: nat, channels: nat)
    requires |s| == |t| == n * channels
  {
    forall p, c :: 0 <= p < n && 0 <= c < channels ==>
      Channel(t, n, channels, p, c) == Channel(s, n, channels, n - 1 - p, c)
  }

  /** The pixels before `head` and after `tail` have changed places. */
  predicate Swapped(s: seq<byte>, t: seq<byte>, n: nat, channels: nat, head: nat, tail: int)
    requires |s| == |t| == n * channels
  {
    forall p, c :: 0 <= p < n && 0 <= c < channels ==>
      Channel(t, n, channels, p, c)
      == Channel(s, n, channels, if p < head || p > tail then n - 1 - p else p, c)
  }

  function Other(r: nat, p: nat, q: nat): nat {
    if r == p then q else if r == q then p else r
  }

  /** The first `i` channels of pixels `p` and `q` have changed places. */
  predicate Exchanged(s: seq<byte>, t: seq<byte>, n: nat, channels: nat, p: nat, q: nat, i: nat)
    requires |s| == |t| == n * channels && p < n && q < n
  {
    forall r, c :: 0 <= r < n && 0 <= c < channels ==>
      Channel(t, n, channels, r, c) == Channel(s, n, channels, if c < i then Other(r, p, q) else r, c)
  }

  lemma ExchangeOneMore(s: seq<byte>, t: seq<byte>, n: nat, channels: nat, p: nat, q: nat, i: nat)
    requires |s| == |t| == n * channels && p < n && q < n && p != q && i < channels
    requires Exchanged(s, t, n, channels, p, q, i)
    ensures Flat(p, i, channels) < |t| && Flat(q, i, channels) < |t|
    ensures var u := t[Flat(p, i, channels) := t[Flat(q, i, channels)]][Flat(q, i, channels) := t[Flat(p, i, channels)]];
            Exchanged(s, u, n, channels, p, q, i + 1)
  {
    FlatBound(n, channels, p, i);
    FlatBound(n, channels, q, i);
    var v := t[Flat(p, i, channels) := t[Flat(q, i, channels)]];
    var u := v[Flat(q, i, channels) := t[Flat(p, i, channels)]];
    forall r, c | 0 <= r < n && 0 <= c < channels
      ensures Channel(u, n, channels, r, c) == Channel(s, n, channels, if c < i + 1 then Other(r, p, q) else r, c)
    {
      ChannelUpdate(t, n, channels, p, i, t[Flat(q, i, channels)], r, c);
      ChannelUpdate(v, n, channels, q, i, t[Flat(p, i, channels)], r, c);
      assert Channel(t, n, channels, p, i) == t[Flat(p, i, channels)];
      assert Channel(t, n, channels, q, i) == t[Flat(q, i, channels)];
      hide Flat, Channel;
    }
  }

  /** Swaps two pixels channel by channel. */
  method SwapPixels(data: array<byte>, channels: nat, ghost n: nat, ghost p: nat, ghost q: nat, head: nat, tail: nat)
    requires data.Length == n * channels && p < n && q < n && p != q
    requires head == Flat(p, 0, channels) && tail == Flat(q, 0, channels)
    modifies data
    ensures Exchanged(old(data[..]), data[..], n, channels, p, q, channels)
  {
    ghost var before := data[..];
    for i := 0 to channels
      invariant Exchanged(before, data[..], n, channels, p, q, i)
    {
      ExchangeOneMore(before, data[..], n, channels, p, q, i);
      assert head + i == Flat(p, i, channels) && tail + i == Flat(q, i, channels);
      var temp := data[head + i];
      data[head + i] := data[tail + i];
      data[tail + i] := temp;
    }
  }

  lemma SwapOneMore(s: seq<byte>, t: seq<byte>, u: seq<byte>, n: nat, channels: nat, head: nat, tail: nat)
    requires |s| == |t| == |u| == n * channels && head < tail < n && head + tail == n - 1
    requires Swapped(s, t, n, channels, head, tail)
    requires Exchanged(t, u, n, channels, head, tail, channels)
    ensures Swapped(s, u, n, channels, head + 1, tail - 1)
  {
    hide Channel;
  }

  /** Reverses the order of the pixels, for an odd as for an even number of them. */
  method Rotate180(data: array<byte>, channels: nat, ghost n: nat)
    requires channels >= 1 && data.Length == n * channels
    modifies data
    ensures IsReversed(old(data[..]), data[..], n, channels)
  {
    hide Swapped, IsReversed, Exchanged;
    ghost var before := data[..];
    ghost var p, q := 0, n - 1;
    var head, tail := 0, data.Length - channels;
    assert (n - 1) * channels == n * channels - channels;
    NothingSwapped(before, n, channels);
    while head < tail
      invariant 0 <= p && p + q == n - 1 && p <= q + 2
      invariant head == p * channels && tail == q * channels
      invariant Swapped(before, data[..], n, channels, p, q)
      decreases q - p
    {
      SmallerFactor(p, q, channels);
      ghost var now := data[..];
      SwapPixels(data, channels, n, p, q, head, tail);
      SwapOneMore(before, now, data[..], n, channels, p, q);
      assert (p + 1) * channels == head + channels && (q - 1) * channels == tail - channels;
      p, q := p + 1, q - 1;
      head, tail := head + channels, tail - channels;
    }
    SmallerFactor(p, q, channels);
    AllSwapped(before, data[..], n, channels, p, q);
  }

  lemma NothingSwapped(s: seq<byte>, n: nat, channels: nat)
    requires |s| == n * channels
    ensures Swapped(s, s, n, channels, 0, n - 1)
  {
  }

  lemma AllSwapped(s: seq<byte>, t: seq<byte>, n: nat, channels: nat, head: nat, tail: int)
    requires |s| == |t| == n * channels && head >= tail && head + tail == n - 1
    requires Swapped(s, t, n, channels, head, tail)
    ensures IsReversed(s, t, n, channels)
  {
    hide Channel;
  }

  /** Rotating twice gives back the image. */
  lemma ReversedTwice(s: seq<byte>, t: seq<byte>, u: seq<byte>, n: nat, channels: nat)
    requires |s| == |t| == |u| == n * channels
    requires IsReversed(s, t, n, channels) && IsReversed(t, u, n, channels)
    ensures s == u
  {
    forall p, c | 0 <= p < n && 0 <= c < channels
      ensures Channel(s, n, channels, p, c) == Channel(u, n, channels, p, c)
    {
      assert n - 1 - (n - 1 - p) == p;
      hide Channel;
    }
    SameChannels(s, u, n, channels);
  }

  /** Reversing the pixels of an image is a rotation by 180 degrees: both coordinates turn round. */
  lemma ReversedIsRotated(a: Image, b: Image)
    requires a.Valid() && b.Valid() && a.width == b.width && a.height == b.height && a.channels == b.channels
    requires IsReversed(a.data, b.data, a.width * a.height, a.channels)
    ensures forall x, y, c :: a.Has(x, y, c) ==> b.At(x, y, c) == a.At(a.width - 1 - x, a.height - 1 - y, c)
  {
    forall x, y, c | a.Has(x, y, c)
      ensures b.At(x, y, c) == a.At(a.width - 1 - x, a.height - 1 - y, c)
    {
      RotatedPixel(a.width, a.height, x, y);
      hide Channel, Flat;
    }
  }

  lemma RotatedPixel(width: nat, height: nat, x: nat, y: nat)
    requires x < width && y < height
    ensures 0 <= Flat(y, x, width) < width * height
    ensures Flat(height - 1 - y, width - 1 - x, width) == width * height - 1 - Flat(y, x, width)
  {
    FlatReverse(height, width, y, x);
    PixelBound(width, height, x, y);
  }
}
