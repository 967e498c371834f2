/** Images as flat arrays of channel values: row by row, pixel by pixel. */
module Images {
  import opened Bits

  // ---- numbering the cells of a grid

  /** The place of cell `c` of row `r` in a grid with `size` cells to a row. */
  function Flat(r: nat, c: nat, size: nat): nat {
    r * size + c
  }

  lemma FlatBound(n: nat, size: nat, r: nat, c: nat)
    requires r < n && c < size
    ensures Flat(r, c, size) < n * size
  {
    assert r * size + size == (r + 1) * size;
    assert (r + 1) * size <= n * size;
  }

  lemma FlatInjective(size: nat, r: nat, c: nat, r': nat, c': nat)
    requires c < size && c' < size
    ensures Flat(r, c, size) == Flat(r', c', size) <==> r == r' && c == c'
  {
    DivUnique(Flat(r, c, size), size, r, c);
    DivUnique(Flat(r', c', size), size, r', c');
  }

  lemma FlatCovers(n: nat, size: nat, k: nat) returns (r: nat, c: nat)
    requires k < n * size
    ensures r < n && c < size && k == Flat(r, c, size)
  {
    assert size >= 1;
    r, c := k / size, k % size;
    assert r * size <= k < n * size;
    SmallerFactor(r, n, size);
  }

  lemma ProductMonotone(a: int, b: int, m: nat)
    requires a <= b
    ensures a * m <= b * m
  {
    assert b * m == a * m + (b - a) * m;
  }

  lemma SmallerFactor(a: int, b: int, m: nat)
    requires m >= 1
    ensures a < b <==> a * m < b * m
  {
    if a < b {
      ProductMonotone(a + 1, b, m);
      assert (a + 1) * m == a * m + m;
    } else {
      ProductMonotone(b, a, m);
    }
  }

  /** Counting from the other end reverses both coordinates. */
  lemma FlatReverse(n: nat, size: nat, r: nat, c: nat)
    requires r < n && c < size
    ensures Flat(n - 1 - r, size - 1 - c, size) == n * size - 1 - Flat(r, c, size)
  {
    assert (n - 1 - r) * size == n * size - size - r * size;
  }

  /** Walking the cells in order: along a row, then on to the next. */
  lemma FlatSteps(r: nat, c: nat, size: nat)
    ensures Flat(r, c + 1, size) == Flat(r, c, size) + 1
    ensures Flat(r, size, size) == Flat(r + 1, 0, size)
    ensures Flat(r, 0, size) == r * size
    ensures Flat(0, 0, size) == 0
  {
    assert (r + 1) * size == r * size + size;
  }

  // ---- pixels of a flat array

  /** Channel `c` of the p-th of `n` pixels. */
  function Channel(s: seq<byte>, n: nat, channels: nat, p: nat, c: nat): byte
    requires |s| == n * channels && p < n && c < channels
  {
    FlatBound(n, channels, p, c);
    s[Flat(p, c, channels)]
  }

  lemma SameChannels(s: seq<byte>, t: seq<byte>, n: nat, channels: nat)
    requires |s| == |t| == n * channels
    requires forall p, c :: 0 <= p < n && 0 <= c < channels ==> Channel(s, n, channels, p, c) == Channel(t, n, channels, p, c)
    ensures s == t
  {
    forall k | 0 <= k < |s|
      ensures s[k] == t[k]
    {
      var p, c := FlatCovers(n, channels, k);
      assert Channel(s, n, channels, p, c) == Channel(t, n, channels, p, c);
    }
  }

  /** Writing one channel changes that channel of that pixel and nothing else. */
  lemma ChannelUpdate(s: seq<byte>, n: nat, channels: nat, p: nat, c: nat, v: byte, q: nat, d: nat)
    requires |s| == n * channels && p < n && c < channels && q < n && d < channels
    ensures Flat(p, c, channels) < |s|
    ensures Channel(s[Flat(p, c, channels) := v], n, channels, q, d)
         == if p == q && c == d then v else Channel(s, n, channels, q, d)
  {
    FlatBound(n, channels, p, c);
    FlatBound(n, channels, q, d);
    FlatInjective(channels, p, c, q, d);
    hide Flat;
  }

  // ---- images

  datatype Image = Image(data: seq<byte>, width: nat, height: nat, channels: nat) {
    predicate Valid() {
      channels >= 1 && |data| == width * height * channels
    }

    predicate Has(x: int, y: int, c: int) {
      0 <= x < width && 0 <= y < height && 0 <= c < channels
    }

    function At(x: nat, y: nat, c: nat): byte
      requires Valid() && Has(x, y, c)
    {
      PixelBound(width, height, x, y);
      Channel(data, width * height, channels, Flat(y, x, width), c)
    }

    function Full(): Rect {
      Rect(0, 0, width, height)
    }
  }

  datatype Rect = Rect(x: nat, y: nat, width: nat, height: nat) {
    predicate Inside(i: Image) {
      x + width <= i.width && y + height <= i.height
    }
  }

  lemma PixelBound(width: nat, height: nat, x: nat, y: nat)
    requires x < width && y < height
    ensures Flat(y, x, width) < width * height
  {
    FlatBound(height, width, y, x);
  }

  /** Images of the same size that agree everywhere are the same. */
  lemma SameEverywhere(a: Image, b: Image)
    requires a.Valid() && b.Valid()
    requires a.width == b.width && a.height == b.height && a.channels == b.channels
    requires forall x, y, c :: a.Has(x, y, c) ==> a.At(x, y, c) == b.At(x, y, c)
    ensures a == b
  {
    forall p, c | 0 <= p < a.width * a.height && 0 <= c < a.channels
      ensures Channel(a.data, a.width * a.height, a.channels, p, c) == Channel(b.data, a.width * a.height, a.channels, p, c)
    {
      var y, x := FlatCovers(a.height, a.width, p);
      assert a.At(x, y, c) == b.At(x, y, c);
    }
    SameChannels(a.data, b.data, a.width * a.height, a.channels);
  }

  // ---- overwriting a pixel

  /** `s` with `v` written over it from `at` on. */
  function Overlay(s: seq<byte>, at: nat, v: seq<byte>): (t: seq<byte>)
    requires at + |v| <= |s|
    ensures |t| == |s|
    ensures forall k :: 0 <= k < |s| ==> t[k] == if at <= k < at + |v| then v[k - at] else s[k]
  {
    s[..at] + v + s[at + |v|..]
  }

  /** Typed array `set`. */
  method Set(dst: array<byte>, v: seq<byte>, at: nat)
    requires at + |v| <= dst.Length
    modifies dst
    ensures dst[..] == Overlay(old(dst[..]), at, v)
  {
    for i := 0 to |v|
      invariant dst[..] == Overlay(old(dst[..]), at, v[..i])
    {
      dst[at + i] := v[i];
    }
    assert v[..|v|] == v;
  }

  /** Where the channels of pixel (x, y) begin. */
  function Offset(i: Image, x: nat, y: nat): (at: nat)
    requires i.Valid() && i.Has(x, y, 0)
    ensures at + i.channels <= |i.data|
  {
    PixelBound(i.width, i.height, x, y);
    FlatBound(i.width * i.height, i.channels, Flat(y, x, i.width), i.channels - 1);
    Flat(Flat(y, x, i.width), 0, i.channels)
  }

  function WithPixel(i: Image, x: nat, y: nat, v: seq<byte>): (j: Image)
    requires i.Valid() && i.Has(x, y, 0) && |v| <= i.channels
    ensures j.Valid() && j.width == i.width && j.height == i.height && j.channels == i.channels
  {
    i.(data := Overlay(i.data, Offset(i, x, y), v))
  }

  /** A cell lies in a stretch that begins with pixel `p` only if it is a cell of that pixel. */
  lemma CellInPixel(channels: nat, p: nat, length: nat, q: nat, c: nat)
    requires length <= channels && c < channels
    ensures Flat(q, c, channels) == Flat(q, 0, channels) + c
    ensures (Flat(p, 0, channels) <= Flat(q, c, channels) < Flat(p, 0, channels) + length) <==> (p == q && c < length)
  {
    if p < q {
      ProductMonotone(p + 1, q, channels);
      assert (p + 1) * channels == p * channels + channels;
    } else if q < p {
      ProductMonotone(q + 1, p, channels);
      assert (q + 1) * channels == q * channels + channels;
    }
  }

  /** Overwriting a pixel changes the channels written and no others. */
  lemma WithPixelAt(i: Image, x: nat, y: nat, v: seq<byte>, x': nat, y': nat, c: nat)
    requires i.Valid() && i.Has(x, y, 0) && |v| <= i.channels && i.Has(x', y', c)
    ensures WithPixel(i, x, y, v).At(x', y', c)
         == if x == x' && y == y' && c < |v| then v[c] else i.At(x', y', c)
  {
    var p, q := Flat(y, x, i.width), Flat(y', x', i.width);
    FlatInjective(i.width, y, x, y', x');
    PixelBound(i.width, i.height, x', y');
    FlatBound(i.width * i.height, i.channels, q, c);
    CellInPixel(i.channels, p, |v|, q, c);
    hide Flat;
  }
}
