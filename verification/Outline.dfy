/** Outlining the pixels of one colour: the loop scatters, the meaning gathers. */
module Outline {
  import opened Bits
  import opened Images

  type Place = (nat, nat)

  /** A number stored in a clamped byte array. */
  function Clamped(v: int): byte {
    if v < 0 then 0 else if v > 255 then 255 else v
  }

  function PixelOf(channels: nat, color: int): (v: seq<byte>)
    requires channels >= 1
    ensures 1 <= |v| <= channels
  {
    if channels == 4 then [Clamped(color), Clamped(color), Clamped(color), 255] else [Clamped(color)]
  }

  /** (x, y) is a pixel of the colour among the first n pixels. */
  predicate Colored(img: Image, color: int, x: int, y: int, n: nat)
    requires img.Valid()
  {
    img.Has(x, y, 0) && Flat(y, x, img.width) < n && img.At(x, y, 0) == color
  }

  /** One of the four neighbours of (x, y) has the colour. */
  predicate Touched(img: Image, color: int, x: nat, y: nat, n: nat)
    requires img.Valid()
  {
    || Colored(img, color, x, y + 1, n)
    || Colored(img, color, x, y - 1, n)
    || Colored(img, color, x + 1, y, n)
    || Colored(img, color, x - 1, y, n)
  }

  /** `out` is the image with the pixels in `painted` overwritten. */
  ghost predicate Painted(img: Image, color: int, out: Image, painted: set<Place>)
    requires img.Valid()
  {
    && out.Valid() && out.width == img.width && out.height == img.height && out.channels == img.channels
    && (forall x, y, c :: out.Has(x, y, c) ==>
      out.At(x, y, c)
      == if (x, y) in painted && c < |PixelOf(img.channels, color)| then PixelOf(img.channels, color)[c]
         else img.At(x, y, c))
  }

  lemma PaintOneMore(img: Image, color: int, out: Image, painted: set<Place>, x: nat, y: nat)
    requires img.Valid() && Painted(img, color, out, painted) && img.Has(x, y, 0)
    ensures Painted(img, color, WithPixel(out, x, y, PixelOf(img.channels, color)), painted + {(x, y)})
  {
    var v := PixelOf(img.channels, color);
    var out' := WithPixel(out, x, y, v);
    forall x', y', c | out'.Has(x', y', c)
      ensures out'.At(x', y', c)
           == if (x', y') in painted + {(x, y)} && c < |v| then v[c] else img.At(x', y', c)
    {
      WithPixelAt(out, x, y, v, x', y', c);
      assert out.Has(x', y', c);
      hide WithPixel, Image.At, PixelOf;
    }
  }

  /** Writes `v` over the pixel (x, y) of the picture being made. */
  method Paint(dst: array<byte>, img: Image, color: int, ghost painted: set<Place>, ghost x: nat, ghost y: nat, at: nat)
    requires img.Valid() && img.Has(x, y, 0) && at == Offset(img, x, y)
    requires Painted(img, color, img.(data := dst[..]), painted)
    modifies dst
    ensures Painted(img, color, img.(data := dst[..]), painted + {(x, y)})
  {
    hide Painted;
    PaintedSize(img, color, img.(data := dst[..]), painted);
    PaintOneMore(img, color, img.(data := dst[..]), painted, x, y);
    Set(dst, PixelOf(img.channels, color), at);
  }

  lemma PaintedSize(img: Image, color: int, out: Image, painted: set<Place>)
    requires img.Valid() && Painted(img, color, out, painted)
    ensures out.Valid() && |out.data| == |img.data|
  {
  }

  /** The pixels touched by the first n pixels. */
  function TouchedSet(img: Image, color: int, n: nat): set<Place>
    requires img.Valid()
  {
    set x: nat, y: nat | 0 <= x < img.width && 0 <= y < img.height && Touched(img, color, x, y, n) :: (x, y)
  }

  /** The neighbours of (x, y) inside the image. */
  function Neighbours(img: Image, x: nat, y: nat): set<Place> {
    (if y > 0 then {(x, y - 1)} else {})
    + (if y < img.height - 1 then {(x, y + 1)} else {})
    + (if x > 0 then {(x - 1, y)} else {})
    + (if x < img.width - 1 then {(x + 1, y)} else {})
  }

  /** Gathering up to the next pixel is gathering up to this one and adding what it touches. */
  lemma TouchOneMore(img: Image, color: int, x: nat, y: nat)
    requires img.Valid() && img.Has(x, y, 0)
    ensures TouchedSet(img, color, Flat(y, x, img.width) + 1)
         == TouchedSet(img, color, Flat(y, x, img.width))
            + if img.At(x, y, 0) == color then Neighbours(img, x, y) else {}
  {
    hide Image.At;
    var n := Flat(y, x, img.width);
    forall x', y' | img.Has(x', y', 0)
      ensures Colored(img, color, x', y', n + 1)
         <==> Colored(img, color, x', y', n) || (x' == x && y' == y && img.At(x, y, 0) == color)
    {
      FlatInjective(img.width, y, x, y', x');
    }
    forall x', y'
      ensures Colored(img, color, x', y', n + 1)
         <==> Colored(img, color, x', y', n) || (x' == x && y' == y && img.At(x, y, 0) == color)
    {
    }
    hide Colored, Flat;
  }

  /** A neighbour inside the image has the colour. */
  predicate HasNeighbour(img: Image, color: int, x: nat, y: nat)
    requires img.Valid()
  {
    exists p :: p in Neighbours(img, x, y) && img.Has(p.0, p.1, 0) && img.At(p.0, p.1, 0) == color
  }

  /**
   Each pixel takes the colour exactly when a neighbour in the source has it, and else keeps its
   value: with four channels opaque in that shade of gray, and otherwise in its first channel.
   */
  ghost predicate Outlined(img: Image, color: int, out: Image)
    requires img.Valid()
  {
    && out.Valid() && out.width == img.width && out.height == img.height && out.channels == img.channels
    && (forall x, y, c :: out.Has(x, y, c) ==>
      if !HasNeighbour(img, color, x, y) then out.At(x, y, c) == img.At(x, y, c)
      else if c == 0 then out.At(x, y, c) == color
      else if img.channels != 4 then out.At(x, y, c) == img.At(x, y, c)
      else out.At(x, y, c) as int == if c == 3 then 255 else color)
  }

  method OutlineImage(img: Image, color: int) returns (out: Image)
    requires img.Valid()
    ensures Outlined(img, color, out)
  {
    hide Painted, TouchedSet, Flat, Image.At, PixelOf, Outlined;
    var width, height, channels, src := img.width, img.height, img.channels, img.data;
    var dst := new byte[|src|](i requires 0 <= i < |src| => src[i]);
    assert dst[..] == src;
    var v1px, h1px := width * channels, channels;
    NothingTouched(img, color);
    for y := 0 to height
      invariant Painted(img, color, img.(data := dst[..]), TouchedSet(img, color, Flat(y, 0, width)))
    {
      for x := 0 to width
        invariant Painted(img, color, img.(data := dst[..]), TouchedSet(img, color, Flat(y, x, width)))
      {
        var offset := (y * width + x) * channels;
        ghost var p := TouchedSet(img, color, Flat(y, x, width));
        FirstChannel(img, x, y);
        TouchOneMore(img, color, x, y);
        NeighbourOffsets(img, x, y);
        if src[offset] == color {
          if y > 0 {
            Paint(dst, img, color, p, x, y - 1, offset - v1px);
            p := p + {(x, y - 1)};
          }
          if y < height - 1 {
            Paint(dst, img, color, p, x, y + 1, offset + v1px);
            p := p + {(x, y + 1)};
          }
          if x > 0 {
            Paint(dst, img, color, p, x - 1, y, offset - h1px);
            p := p + {(x - 1, y)};
          }
          if x < width - 1 {
            Paint(dst, img, color, p, x + 1, y, offset + h1px);
            p := p + {(x + 1, y)};
          }
        }
        assert p == TouchedSet(img, color, Flat(y, x, width) + 1);
        FlatSteps(y, x, width);
      }
      FlatSteps(y, 0, width);
    }
    FlatSteps(height, 0, width);
    out := img.(data := dst[..]);
    ScatterIsGather(img, color, out);
  }

  lemma NothingTouched(img: Image, color: int)
    requires img.Valid()
    ensures Painted(img, color, img, TouchedSet(img, color, Flat(0, 0, img.width)))
  {
  }

  lemma FirstChannel(img: Image, x: nat, y: nat)
    requires img.Valid() && img.Has(x, y, 0)
    ensures Offset(img, x, y) == (y * img.width + x) * img.channels
    ensures img.At(x, y, 0) == img.data[Offset(img, x, y)]
  {
  }

  /** A row is `width * channels` cells away, a column `channels` cells. */
  lemma NeighbourOffsets(img: Image, x: nat, y: nat)
    requires img.Valid() && img.Has(x, y, 0)
    ensures y > 0 ==> Offset(img, x, y - 1) == Offset(img, x, y) - img.width * img.channels
    ensures y < img.height - 1 ==> Offset(img, x, y + 1) == Offset(img, x, y) + img.width * img.channels
    ensures x > 0 ==> Offset(img, x - 1, y) == Offset(img, x, y) - img.channels
    ensures x < img.width - 1 ==> Offset(img, x + 1, y) == Offset(img, x, y) + img.channels
  {
    var at, w := Flat(y, x, img.width), img.width;
    assert y > 0 ==> Flat(y - 1, x, w) == at - w by { assert (y - 1) * w == y * w - w; }
    assert Flat(y + 1, x, w) == at + w by { assert (y + 1) * w == y * w + w; }
    FlatDistributes(at, w, img.channels);
    FlatDistributes(at, 1, img.channels);
    hide Flat;
  }

  lemma FlatDistributes(at: nat, d: nat, size: nat)
    ensures Flat(at + d, 0, size) == Flat(at, 0, size) + d * size
    ensures d <= at ==> Flat(at - d, 0, size) == Flat(at, 0, size) - d * size
  {
  }

  lemma TouchedByNeighbour(img: Image, color: int, x: nat, y: nat)
    requires img.Valid() && img.Has(x, y, 0)
    ensures Touched(img, color, x, y, img.width * img.height) <==> HasNeighbour(img, color, x, y)
  {
    forall x', y'
      ensures Colored(img, color, x', y', img.width * img.height) <==> img.Has(x', y', 0) && img.At(x', y', 0) == color
    {
      if img.Has(x', y', 0) {
        PixelBound(img.width, img.height, x', y');
      }
    }
    assert (x, y - 1) in Neighbours(img, x, y) <==> y > 0;
    assert (x - 1, y) in Neighbours(img, x, y) <==> x > 0;
    assert (x, y + 1) in Neighbours(img, x, y) <==> y < img.height - 1;
    assert (x + 1, y) in Neighbours(img, x, y) <==> x < img.width - 1;
    hide Colored, Image.At;
  }

  lemma NeighbourIsByte(img: Image, color: int, x: nat, y: nat)
    requires img.Valid() && HasNeighbour(img, color, x, y)
    ensures 0 <= color < 256
  {
  }

  /** Painting what each pixel touches, one after the other, outlines the image. */
  lemma ScatterIsGather(img: Image, color: int, out: Image)
    requires img.Valid()
    requires Painted(img, color, out, TouchedSet(img, color, img.width * img.height))
    ensures Outlined(img, color, out)
  {
    hide Touched, HasNeighbour, Image.At;
    forall x, y, c | out.Has(x, y, c)
      ensures (x, y) in TouchedSet(img, color, img.width * img.height) <==> HasNeighbour(img, color, x, y)
      ensures HasNeighbour(img, color, x, y) ==> Clamped(color) == color
    {
      if HasNeighbour(img, color, x, y) {
        NeighbourIsByte(img, color, x, y);
      }
      TouchedByNeighbour(img, color, x, y);
    }
  }

  /** The outlined colour grows by exactly the neighbours of where it was. */
  lemma OutlineGrows(img: Image, color: int, out: Image, x: nat, y: nat)
    requires img.Valid() && img.Has(x, y, 0) && 0 <= color < 256
    requires Outlined(img, color, out)
    ensures out.Valid() && out.Has(x, y, 0)
    ensures out.At(x, y, 0) == color <==> img.At(x, y, 0) == color || HasNeighbour(img, color, x, y)
  {
    hide HasNeighbour, Image.At;
    assert out.Has(x, y, 0);
  }

  /** Outlining says everything about the result. */
  lemma OutlineIsUnique(img: Image, color: int, a: Image, b: Image)
    requires img.Valid() && Outlined(img, color, a) && Outlined(img, color, b)
    ensures a == b
  {
    hide HasNeighbour, PixelOf, Image.At;
    forall x, y, c | a.Has(x, y, c)
      ensures a.At(x, y, c) == b.At(x, y, c)
    {
      assert b.Has(x, y, c);
    }
    SameEverywhere(a, b);
  }
}
