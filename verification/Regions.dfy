/** Working on a rectangle of an image: cropping, counting and comparing. */
module Regions {
  import opened Wrappers
  import opened Bits
  import opened Images

  const PIXEL_WHITE: byte := 255

  // ---- cropping

  /** `out` shows exactly what `img` shows inside `bounds`. */
  ghost predicate IsCrop(img: Image, bounds: Rect, out: Image)
    requires img.Valid() && bounds.Inside(img)
  {
    && out.Valid()
    && out.width == bounds.width
    && out.height == bounds.height
    && out.channels == img.channels
    && (forall x, y, c :: out.Has(x, y, c) ==> out.At(x, y, c) == img.At(bounds.x + x, bounds.y + y, c))
  }

  /** The first `rows` rows of `bounds` have been copied. */
  ghost predicate RowsCopied(img: Image, bounds: Rect, out: Image, rows: nat)
    requires img.Valid() && out.Valid() && bounds.Inside(img)
    requires out.width == bounds.width && out.height == bounds.height && out.channels == img.channels
  {
    forall x, y, c :: out.Has(x, y, c) && y < rows ==> out.At(x, y, c) == img.At(bounds.x + x, bounds.y + y, c)
  }

  /** Where row y of the rectangle begins. */
  function RowStart(i: Image, r: Rect, y: nat): (start: nat)
    requires i.Valid() && r.Inside(i) && y < r.height
    ensures start + r.width * i.channels <= |i.data|
  {
    RowFits(i, r, y);
    Flat(r.y + y, r.x, i.width) * i.channels
  }

  function Row(i: Image, r: Rect, y: nat): (row: seq<byte>)
    requires i.Valid() && r.Inside(i) && y < r.height
    ensures |row| == r.width * i.channels
  {
    i.data[RowStart(i, r, y)..RowStart(i, r, y) + r.width * i.channels]
  }

  lemma RowFits(i: Image, r: Rect, y: nat)
    requires i.Valid() && r.Inside(i) && y < r.height
    ensures Flat(r.y + y, r.x, i.width) * i.channels + r.width * i.channels
         == (Flat(r.y + y, r.x, i.width) + r.width) * i.channels
         <= |i.data|
  {
    var start := Flat(r.y + y, r.x, i.width);
    assert start + r.width <= i.width * i.height by {
      ProductMonotone(r.y + y + 1, i.height, i.width);
      assert (r.y + y + 1) * i.width == (r.y + y) * i.width + i.width;
    }
    ProductMonotone(start + r.width, i.width * i.height, i.channels);
  }

  /** Pixel x of a row lies x pixels into it. */
  lemma RowShowsPixels(i: Image, r: Rect, x: nat, y: nat, c: nat)
    requires i.Valid() && r.Inside(i) && x < r.width && y < r.height && c < i.channels
    ensures Flat(x, c, i.channels) < r.width * i.channels
    ensures i.At(r.x + x, r.y + y, c) == Row(i, r, y)[Flat(x, c, i.channels)]
    ensures i.At(r.x + x, r.y + y, c) == i.data[RowStart(i, r, y) + Flat(x, c, i.channels)]
  {
    var start, p := Flat(r.y + y, r.x, i.width), Flat(r.y + y, r.x + x, i.width);
    FlatBound(r.width, i.channels, x, c);
    assert p == start + x;
    FlatBound(i.height, i.width, r.y + y, r.x + x);
    FlatBound(i.width * i.height, i.channels, p, c);
    FlatShift(start, x, c, i.channels);
    hide Flat;
  }

  lemma FlatShift(start: nat, x: nat, c: nat, size: nat)
    ensures Flat(start + x, c, size) == start * size + Flat(x, c, size)
  {
  }

  /** Rows of a whole image lie one after the other. */
  lemma RowsInOrder(i: Image, y: nat, y': nat)
    requires i.Valid() && y' < y < i.height
    ensures RowStart(i, i.Full(), y') + i.width * i.channels <= RowStart(i, i.Full(), y)
  {
    ProductMonotone(y' + 1, y, i.width);
    assert (y' + 1) * i.width == y' * i.width + i.width;
    ProductMonotone((y' + 1) * i.width, y * i.width, i.channels);
    assert (y' * i.width + i.width) * i.channels == y' * i.width * i.channels + i.width * i.channels;
  }

  lemma CopyRow(img: Image, bounds: Rect, out: Image, y: nat, out': Image)
    requires img.Valid() && out.Valid() && bounds.Inside(img) && y < bounds.height
    requires out.width == bounds.width && out.height == bounds.height && out.channels == img.channels
    requires RowsCopied(img, bounds, out, y)
    requires out' == out.(data := Overlay(out.data, RowStart(out, out.Full(), y), Row(img, bounds, y)))
    ensures out'.Valid() && RowsCopied(img, bounds, out', y + 1)
  {
    forall x', y', c | out'.Has(x', y', c) && y' < y + 1
      ensures out'.At(x', y', c) == img.At(bounds.x + x', bounds.y + y', c)
    {
      RowShowsPixels(out', out'.Full(), x', y', c);
      RowShowsPixels(img, bounds, x', y', c);
      if y' < y {
        RowShowsPixels(out, out.Full(), x', y', c);
        RowsInOrder(out, y, y');
      }
      hide Flat, Row, Image.At;
    }
  }

  lemma NoRowsCopied(img: Image, bounds: Rect, out: Image)
    requires img.Valid() && out.Valid() && bounds.Inside(img)
    requires out.width == bounds.width && out.height == bounds.height && out.channels == img.channels
    ensures RowsCopied(img, bounds, out, 0)
  {
  }

  lemma AllRowsCopied(img: Image, bounds: Rect, out: Image)
    requires img.Valid() && out.Valid() && bounds.Inside(img)
    requires out.width == bounds.width && out.height == bounds.height && out.channels == img.channels
    requires RowsCopied(img, bounds, out, bounds.height)
    ensures IsCrop(img, bounds, out)
  {
  }

  lemma RowSlice(i: Image, r: Rect, y: nat)
    requires i.Valid() && r.Inside(i) && y < r.height
    ensures var start := (r.y + y) * i.width + r.x;
            && RowStart(i, r, y) == start * i.channels
            && start * i.channels <= (start + r.width) * i.channels <= |i.data|
            && i.data[start * i.channels..(start + r.width) * i.channels] == Row(i, r, y)
  {
    RowFits(i, r, y);
  }

  method Crop(img: Image, bounds: Rect) returns (out: Image)
    requires img.Valid() && bounds.Inside(img)
    ensures IsCrop(img, bounds, out)
  {
    hide RowsCopied, IsCrop, Overlay, Row, RowStart, Flat;
    var channels := img.channels;
    var dst := new byte[bounds.width * bounds.height * channels];
    NoRowsCopied(img, bounds, Image(dst[..], bounds.width, bounds.height, channels));
    for y := 0 to bounds.height
      invariant RowsCopied(img, bounds, Image(dst[..], bounds.width, bounds.height, channels), y)
    {
      ghost var before := Image(dst[..], bounds.width, bounds.height, channels);
      RowSlice(img, bounds, y);
      RowSlice(before, before.Full(), y);
      var srcOffset := (bounds.y + y) * img.width + bounds.x;
      var dstOffset := y * bounds.width;
      Set(dst, img.data[srcOffset * channels..(srcOffset + bounds.width) * channels], dstOffset * channels);
      CopyRow(img, bounds, before, y, Image(dst[..], bounds.width, bounds.height, channels));
    }
    out := Image(dst[..], bounds.width, bounds.height, channels);
    AllRowsCopied(img, bounds, out);
  }

  /** A rectangle of the crop to `outer`, as a rectangle of the whole image. */
  function Translate(outer: Rect, inner: Rect): Rect {
    Rect(outer.x + inner.x, outer.y + inner.y, inner.width, inner.height)
  }

  /** Cropping says everything about the result. */
  lemma CropIsUnique(img: Image, bounds: Rect, a: Image, b: Image)
    requires img.Valid() && bounds.Inside(img)
    requires IsCrop(img, bounds, a) && IsCrop(img, bounds, b)
    ensures a == b
  {
    forall x, y, c | a.Has(x, y, c)
      ensures a.At(x, y, c) == b.At(x, y, c)
    {
      assert b.Has(x, y, c);
    }
    SameEverywhere(a, b);
  }

  /** A crop of a crop is one crop. */
  lemma CropOfCrop(img: Image, outer: Rect, a: Image, inner: Rect, b: Image)
    requires img.Valid() && outer.Inside(img) && IsCrop(img, outer, a)
    requires inner.Inside(a) && IsCrop(a, inner, b)
    ensures Translate(outer, inner).Inside(img)
    ensures IsCrop(img, Translate(outer, inner), b)
  {
    forall x, y, c | b.Has(x, y, c)
      ensures b.At(x, y, c) == img.At(Translate(outer, inner).x + x, Translate(outer, inner).y + y, c)
    {
      assert a.Has(inner.x + x, inner.y + y, c);
    }
  }

  /** Cropping to the whole image changes nothing. */
  lemma CropToFull(img: Image, out: Image)
    requires img.Valid() && IsCrop(img, img.Full(), out)
    ensures out == img
  {
    CropIsUnique(img, img.Full(), out, img);
  }

  // ---- counting

  /** The places in `bounds` whose first channel is `color`. */
  function Matches(img: Image, bounds: Rect, color: int): set<(nat, nat)>
    requires img.Valid() && bounds.Inside(img)
  {
    set x: nat, y: nat | 0 <= x < bounds.width && 0 <= y < bounds.height && img.At(bounds.x + x, bounds.y + y, 0) == color :: (x, y)
  }

  /** Those of `s` that come before (x, y) row by row. */
  function Before(s: set<(nat, nat)>, x: nat, y: nat): set<(nat, nat)> {
    set p <- s | p.1 < y || (p.1 == y && p.0 < x)
  }

  lemma BeforeNext(s: set<(nat, nat)>, x: nat, y: nat)
    ensures |Before(s, x + 1, y)| == |Before(s, x, y)| + if (x, y) in s then 1 else 0
  {
    if (x, y) in s {
      assert Before(s, x + 1, y) == Before(s, x, y) + {(x, y)};
    } else {
      assert Before(s, x + 1, y) == Before(s, x, y);
    }
  }

  method CountPixels(img: Image, color: int, bounds: Rect) returns (count: nat)
    requires img.Valid() && bounds.Inside(img)
    ensures count == |Matches(img, bounds, color)|
    ensures forall x: nat, y: nat :: (x, y) in Matches(img, bounds, color) <==>
              x < bounds.width && y < bounds.height && img.At(bounds.x + x, bounds.y + y, 0) == color
  {
    forall x: nat, y: nat
      ensures (x, y) in Matches(img, bounds, color) <==>
                x < bounds.width && y < bounds.height && img.At(bounds.x + x, bounds.y + y, 0) == color
    {
    }
    hide Matches, Before;
    var data := img.data;
    var channels := img.channels;
    ghost var matches := Matches(img, bounds, color);
    count := 0;
    var y, offset := 0, (bounds.y * img.width + bounds.x) * channels;
    BeforeAll(img, bounds, color);
    while y < bounds.height
      invariant 0 <= y <= bounds.height
      invariant offset == Flat(bounds.y + y, bounds.x, img.width) * channels
      invariant count == |Before(matches, 0, y)|
    {
      ghost var row := offset;
      var x := 0;
      while x < bounds.width
        invariant 0 <= x <= bounds.width
        invariant offset == row + x * channels
        invariant count == |Before(matches, x, y)|
      {
        RowShowsPixels(img, bounds, x, y, 0);
        BeforeNext(matches, x, y);
        MatchesAt(img, bounds, color, x, y);
        if data[offset] == color {
          count := count + 1;
        }
        x, offset := x + 1, offset + channels;
      }
      NextRow(img, bounds, y);
      RowDone(img, bounds, color, y);
      y, offset := y + 1, offset + (img.width - bounds.width) * channels;
    }
  }

  lemma MatchesAt(img: Image, bounds: Rect, color: int, x: nat, y: nat)
    requires img.Valid() && bounds.Inside(img) && x < bounds.width && y < bounds.height
    ensures (x, y) in Matches(img, bounds, color) <==> img.At(bounds.x + x, bounds.y + y, 0) == color
  {
  }

  lemma BeforeAll(img: Image, bounds: Rect, color: int)
    requires img.Valid() && bounds.Inside(img)
    ensures Before(Matches(img, bounds, color), 0, 0) == {}
    ensures Before(Matches(img, bounds, color), 0, bounds.height) == Matches(img, bounds, color)
  {
  }

  lemma NextRow(img: Image, bounds: Rect, y: nat)
    requires img.Valid() && bounds.Inside(img) && y < bounds.height
    ensures Flat(bounds.y + y, bounds.x, img.width) * img.channels + bounds.width * img.channels
            + (img.width - bounds.width) * img.channels
         == Flat(bounds.y + y + 1, bounds.x, img.width) * img.channels
  {
    var row := Flat(bounds.y + y, bounds.x, img.width);
    assert Flat(bounds.y + y + 1, bounds.x, img.width) == row + img.width;
    assert (row + img.width) * img.channels == row * img.channels + img.width * img.channels;
  }

  lemma RowDone(img: Image, bounds: Rect, color: int, y: nat)
    requires img.Valid() && bounds.Inside(img)
    ensures Before(Matches(img, bounds, color), bounds.width, y) == Before(Matches(img, bounds, color), 0, y + 1)
  {
  }

  /** Counting inside bounds is counting in the crop. */
  lemma CountInCrop(img: Image, bounds: Rect, out: Image, color: int)
    requires img.Valid() && bounds.Inside(img) && IsCrop(img, bounds, out)
    ensures |Matches(img, bounds, color)| == |Matches(out, out.Full(), color)|
  {
    var m, m' := Matches(img, bounds, color), Matches(out, out.Full(), color);
    forall x: nat, y: nat
      ensures (x, y) in m <==> (x, y) in m'
    {
      if x < bounds.width && y < bounds.height {
        assert out.Has(x, y, 0);
      }
    }
    assert m == m';
  }

  // ---- comparing

  datatype DiffError = DifferentChannels | DifferentSizes | UnsupportedChannels(count: nat)

  /** How much darker `compare` is, as darkness; the alpha channel is opaque. */
  function Darker(base: byte, compare: byte, c: nat): byte {
    if c < 3 && base > compare then PIXEL_WHITE - (base - compare) else PIXEL_WHITE
  }

  /** `out` compares the two rectangles at each of its places. */
  ghost predicate IsDiff(base: Image, compare: Image, b: Rect, k: Rect, out: Image)
    requires base.Valid() && compare.Valid() && b.Inside(base) && k.Inside(compare)
    requires base.channels == compare.channels && b.width == k.width && b.height == k.height
  {
    && out.Valid()
    && out.width == b.width
    && out.height == b.height
    && out.channels == base.channels
    && Compared(base, compare, b, k, out, b.width * b.height)
  }

  /** The first n places hold their comparison. */
  ghost predicate Compared(base: Image, compare: Image, b: Rect, k: Rect, out: Image, n: int)
    requires base.Valid() && compare.Valid() && b.Inside(base) && k.Inside(compare) && out.Valid()
    requires base.channels == compare.channels && b.width == k.width && b.height == k.height
    requires out.width == b.width && out.height == b.height && out.channels == base.channels
  {
    forall x, y, c :: out.Has(x, y, c) && Flat(y, x, out.width) < n ==>
      out.At(x, y, c) == Darker(base.At(b.x + x, b.y + y, c), compare.At(k.x + x, k.y + y, c), c)
  }

  lemma CompareOneMore(base: Image, compare: Image, b: Rect, k: Rect, out: Image, x: nat, y: nat, v: seq<byte>)
    requires base.Valid() && compare.Valid() && b.Inside(base) && k.Inside(compare) && out.Valid()
    requires base.channels == compare.channels == |v| && b.width == k.width && b.height == k.height
    requires out.width == b.width && out.height == b.height && out.channels == base.channels
    requires out.Has(x, y, 0) && Compared(base, compare, b, k, out, Flat(y, x, out.width))
    requires forall c :: 0 <= c < |v| ==>
      v[c] == Darker(base.data[Offset(base, b.x + x, b.y + y) + c], compare.data[Offset(compare, k.x + x, k.y + y) + c], c)
    ensures Compared(base, compare, b, k, WithPixel(out, x, y, v), Flat(y, x, out.width) + 1)
  {
    var out' := WithPixel(out, x, y, v);
    forall x', y', c | out'.Has(x', y', c) && Flat(y', x', out'.width) < Flat(y, x, out.width) + 1
      ensures out'.At(x', y', c) == Darker(base.At(b.x + x', b.y + y', c), compare.At(k.x + x', k.y + y', c), c)
    {
      WithPixelAt(out, x, y, v, x', y', c);
      FlatInjective(out.width, y, x, y', x');
      OffsetAt(base, b.x + x, b.y + y, c);
      OffsetAt(compare, k.x + x, k.y + y, c);
      hide WithPixel, Flat, Darker, Offset, Image.At;
    }
  }

  lemma NoneCompared(base: Image, compare: Image, b: Rect, k: Rect, out: Image)
    requires base.Valid() && compare.Valid() && b.Inside(base) && k.Inside(compare) && out.Valid()
    requires base.channels == compare.channels && b.width == k.width && b.height == k.height
    requires out.width == b.width && out.height == b.height && out.channels == base.channels
    ensures Compared(base, compare, b, k, out, 0)
  {
  }

  lemma AllCompared(base: Image, compare: Image, b: Rect, k: Rect, out: Image)
    requires base.Valid() && compare.Valid() && b.Inside(base) && k.Inside(compare) && out.Valid()
    requires base.channels == compare.channels && b.width == k.width && b.height == k.height
    requires out.width == b.width && out.height == b.height && out.channels == base.channels
    requires Compared(base, compare, b, k, out, Flat(b.height, 0, b.width))
    ensures IsDiff(base, compare, b, k, out)
  {
  }

  lemma OffsetAt(i: Image, x: nat, y: nat, c: nat)
    requires i.Valid() && i.Has(x, y, c)
    ensures Offset(i, x, y) == (x + y * i.width) * i.channels
    ensures i.At(x, y, c) == i.data[Offset(i, x, y) + c]
  {
  }

  method Diff(base: Image, compare: Image, baseBounds: Rect, compareBounds: Rect) returns (r: Result<Image, DiffError>)
    requires base.Valid() && compare.Valid() && baseBounds.Inside(base) && compareBounds.Inside(compare)
    ensures
      match r
      case Err(DifferentChannels) => base.channels != compare.channels
      case Err(DifferentSizes) =>
        && base.channels == compare.channels
        && (baseBounds.width != compareBounds.width || baseBounds.height != compareBounds.height)
      case Err(UnsupportedChannels(count)) =>
        && count == base.channels == compare.channels && count !in {1, 4}
        && baseBounds.width == compareBounds.width && baseBounds.height == compareBounds.height
      case Ok(out) =>
        && base.channels == compare.channels && base.channels in {1, 4}
        && baseBounds.width == compareBounds.width && baseBounds.height == compareBounds.height
        && IsDiff(base, compare, baseBounds, compareBounds, out)
  {
    hide Compared, IsDiff, Flat, Image.At, Offset, Overlay;
    if base.channels != compare.channels {
      return Err(DifferentChannels);
    }
    if baseBounds.width != compareBounds.width || baseBounds.height != compareBounds.height {
      return Err(DifferentSizes);
    }
    var w, h, channels := baseBounds.width, baseBounds.height, base.channels;
    if channels != 1 && channels != 4 {
      return Err(UnsupportedChannels(channels));
    }
    var dst := new byte[w * h * channels];
    ghost var out := Image(dst[..], w, h, channels);
    NoneCompared(base, compare, baseBounds, compareBounds, out);
    FlatSteps(0, 0, w);
    for y := 0 to h
      invariant out == Image(dst[..], w, h, channels)
      invariant Compared(base, compare, baseBounds, compareBounds, out, Flat(y, 0, w))
    {
      for x := 0 to w
        invariant out == Image(dst[..], w, h, channels)
        invariant Compared(base, compare, baseBounds, compareBounds, out, Flat(y, x, w))
      {
        var baseOffset := (baseBounds.x + x + (baseBounds.y + y) * base.width) * channels;
        var compareOffset := (compareBounds.x + x + (compareBounds.y + y) * compare.width) * channels;
        var dstOffset := (x + y * w) * channels;
        OffsetAt(base, baseBounds.x + x, baseBounds.y + y, 0);
        OffsetAt(compare, compareBounds.x + x, compareBounds.y + y, 0);
        OffsetAt(out, x, y, 0);
        ghost var v := DiffPixel(dst, base, compare, channels, baseOffset, compareOffset, dstOffset);
        CompareOneMore(base, compare, baseBounds, compareBounds, out, x, y, v);
        out := WithPixel(out, x, y, v);
        FlatSteps(y, x, w);
      }
      FlatSteps(y, 0, w);
    }
    AllCompared(base, compare, baseBounds, compareBounds, out);
    return Ok(Image(dst[..], w, h, channels));
  }

  /** Writes the comparison of one pixel, channel by channel. */
  method DiffPixel(dst: array<byte>, base: Image, compare: Image, channels: nat,
                   baseOffset: nat, compareOffset: nat, dstOffset: nat) returns (ghost v: seq<byte>)
    requires channels == 1 || channels == 4
    requires baseOffset + channels <= |base.data| && compareOffset + channels <= |compare.data|
    requires dstOffset + channels <= dst.Length
    modifies dst
    ensures |v| == channels && dst[..] == Overlay(old(dst[..]), dstOffset, v)
    ensures forall c :: 0 <= c < channels ==> v[c] == Darker(base.data[baseOffset + c], compare.data[compareOffset + c], c)
  {
    if channels == 4 {
      var rDiff := (base.data[baseOffset] as int) - (compare.data[compareOffset] as int);
      var gDiff := (base.data[baseOffset + 1] as int) - (compare.data[compareOffset + 1] as int);
      var bDiff := (base.data[baseOffset + 2] as int) - (compare.data[compareOffset + 2] as int);
      dst[dstOffset] := PIXEL_WHITE - Max(rDiff, 0);
      dst[dstOffset + 1] := PIXEL_WHITE - Max(gDiff, 0);
      dst[dstOffset + 2] := PIXEL_WHITE - Max(bDiff, 0);
      dst[dstOffset + 3] := 255;
    } else {
      var lumDiff := (base.data[baseOffset] as int) - (compare.data[compareOffset] as int);
      dst[dstOffset] := PIXEL_WHITE - Max(lumDiff, 0);
    }
    v := dst[dstOffset..dstOffset + channels];
  }

  function Max(a: int, b: int): int {
    if a >= b then a else b
  }

  /** Each colour of the comparison is white less what the second image is darker by; the fourth channel is opaque. */
  lemma DiffShows(base: Image, compare: Image, b: Rect, k: Rect, out: Image, x: nat, y: nat, c: nat)
    requires base.Valid() && compare.Valid() && b.Inside(base) && k.Inside(compare)
    requires base.channels == compare.channels && base.channels <= 4 && b.width == k.width && b.height == k.height
    requires IsDiff(base, compare, b, k, out) && out.Has(x, y, c)
    ensures var before: int, after: int := base.At(b.x + x, b.y + y, c), compare.At(k.x + x, k.y + y, c);
            if c == 3 then out.At(x, y, c) == 255
            else if after < before then out.At(x, y, c) + (before - after) == 255
            else out.At(x, y, c) == 255
  {
    PixelBound(out.width, out.height, x, y);
  }

  /** Comparing inside bounds is comparing the two crops. */
  lemma DiffOfCrops(base: Image, compare: Image, b: Rect, k: Rect, croppedBase: Image, croppedCompare: Image, out: Image)
    requires base.Valid() && compare.Valid() && b.Inside(base) && k.Inside(compare)
    requires base.channels == compare.channels && b.width == k.width && b.height == k.height
    requires IsCrop(base, b, croppedBase) && IsCrop(compare, k, croppedCompare)
    ensures IsDiff(base, compare, b, k, out)
       <==> IsDiff(croppedBase, croppedCompare, croppedBase.Full(), croppedCompare.Full(), out)
  {
    if out.Valid() && out.width == b.width && out.height == b.height && out.channels == base.channels {
      forall x, y, c | out.Has(x, y, c)
        ensures croppedBase.At(x, y, c) == base.At(b.x + x, b.y + y, c)
        ensures croppedCompare.At(x, y, c) == compare.At(k.x + x, k.y + y, c)
      {
        assert croppedBase.Has(x, y, c) && croppedCompare.Has(x, y, c);
      }
      hide Image.At;
    }
  }

  /** The comparison is determined by the two rectangles. */
  lemma DiffIsUnique(base: Image, compare: Image, b: Rect, k: Rect, out: Image, out': Image)
    requires base.Valid() && compare.Valid() && b.Inside(base) && k.Inside(compare)
    requires base.channels == compare.channels && b.width == k.width && b.height == k.height
    requires IsDiff(base, compare, b, k, out) && IsDiff(base, compare, b, k, out')
    ensures out == out'
  {
    forall x, y, c | out.Has(x, y, c)
      ensures out.At(x, y, c) == out'.At(x, y, c)
    {
      PixelBound(out.width, out.height, x, y);
      assert out'.Has(x, y, c);
    }
    SameEverywhere(out, out');
  }
}
