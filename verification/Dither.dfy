/** Floyd-Steinberg dithering of a grayscale image, over exact reals. */
module Dither {
  import opened Bits
  import opened Images

  datatype Gray = Gray(data: seq<byte>, width: nat, height: nat, threshold: real) {
    predicate Valid() {
      width >= 1 && |data| == width * height
    }
  }

  // ---- what each pixel becomes, gathered from the pixels before it

  predicate InLastColumn(g: Gray, o: nat)
    requires g.Valid()
  {
    o % g.width == g.width - 1
  }

  predicate InFirstColumn(g: Gray, o: nat)
    requires g.Valid()
  {
    o % g.width == 0
  }

  /** The value at `o` once every error pushed to it has arrived. */
  function Pixel(g: Gray, o: nat): real
    requires g.Valid() && o < |g.data|
    decreases o, 1
  {
    g.data[o] as real + Received(g, o, o)
  }

  function NewPixel(g: Gray, o: nat): (p: byte)
    requires g.Valid() && o < |g.data|
    ensures p == 0 || p == 255
    decreases o, 2
  {
    if Pixel(g, o) < g.threshold then 0 else 255
  }

  function Error(g: Gray, o: nat): real
    requires g.Valid() && o < |g.data|
    decreases o, 3
  {
    Pixel(g, o) - NewPixel(g, o) as real
  }

  function Sixteenths(g: Gray, o: nat, k: real): real
    requires g.Valid() && o < |g.data|
    decreases o, 4
  {
    Error(g, o) / 16.0 * k
  }

  /** What `j` receives from the pixels before `n`: each share comes from one place. */
  function Received(g: Gray, j: nat, n: nat): real
    requires g.Valid() && n <= j < |g.data|
    decreases j, 0
  {
    var left, aboveRight, above, aboveLeft := j - 1, j - g.width + 1, j - g.width, j - g.width - 1;
    (if 0 <= left < n && !InLastColumn(g, left) then Sixteenths(g, left, 7.0) else 0.0)
    + (if 0 <= aboveRight < n && !InFirstColumn(g, aboveRight) then Sixteenths(g, aboveRight, 3.0) else 0.0)
    + (if 0 <= above < n then Sixteenths(g, above, 5.0) else 0.0)
    + (if 0 <= aboveLeft < n then Sixteenths(g, aboveLeft, 1.0) else 0.0)
  }

  /** The share of the error at `o` that falls outside the image. The last share of a pixel in the
      last column is not lost: it lands at the start of the row after the next, if there is one. */
  function Dropped(g: Gray, o: nat): real
    requires g.Valid() && o < |g.data|
  {
    (if InLastColumn(g, o) then Sixteenths(g, o, 7.0) else 0.0)
    + (if InFirstColumn(g, o) || o + g.width - 1 >= |g.data| then Sixteenths(g, o, 3.0) else 0.0)
    + (if o + g.width >= |g.data| then Sixteenths(g, o, 5.0) else 0.0)
    + (if o + g.width + 1 >= |g.data| then Sixteenths(g, o, 1.0) else 0.0)
  }

  /** What `(x, y)` receives when the error of the pixel at `o` comes with weight `k`, in sixteenths. */
  function From(g: Gray, given: bool, x: int, y: int, k: real): real
    requires g.Valid() && (given ==> 0 <= x < g.width && 0 <= y && Flat(y, x, g.width) < |g.data|)
  {
    if given then k / 16.0 * Error(g, Flat(y, x, g.width)) else 0.0
  }

  /**
   Floyd and Steinberg's weights: 7/16 from the left, 3/16 from above right, 5/16 from above and 1/16
   from above left. Only in the first column the last comes from the end of the row before the one above.
   */
  lemma FloydSteinberg(g: Gray, x: nat, y: nat)
    requires g.Valid() && x < g.width && y < g.height
    ensures Flat(y, x, g.width) < |g.data|
    ensures x > 0 ==> Flat(y, x - 1, g.width) < |g.data|
    ensures y > 0 ==> Flat(y - 1, x, g.width) < |g.data|
    ensures y > 0 && x < g.width - 1 ==> Flat(y - 1, x + 1, g.width) < |g.data|
    ensures y > 0 && x > 0 ==> Flat(y - 1, x - 1, g.width) < |g.data|
    ensures y > 1 ==> Flat(y - 2, g.width - 1, g.width) < |g.data|
    ensures Pixel(g, Flat(y, x, g.width))
         == g.data[Flat(y, x, g.width)] as real
            + From(g, x > 0, x - 1, y, 7.0) + From(g, y > 0 && x < g.width - 1, x + 1, y - 1, 3.0)
            + From(g, y > 0, x, y - 1, 5.0) + From(g, y > 0 && x > 0, x - 1, y - 1, 1.0)
            + From(g, x == 0 && y > 1, g.width - 1, y - 2, 1.0)
  {
    var w, o := g.width, Flat(y, x, g.width);
    InLastRow(w, g.height, x, y);
    PlacesAround(w, x, y);
    hide Error, Sixteenths, From, Flat;
    FromIs(g, x > 0, x - 1, y, 7.0);
    FromIs(g, y > 0 && x < w - 1, x + 1, y - 1, 3.0);
    FromIs(g, y > 0, x, y - 1, 5.0);
    FromIs(g, y > 0 && x > 0, x - 1, y - 1, 1.0);
    FromIs(g, x == 0 && y > 1, w - 1, y - 2, 1.0);
    ReceivedAround(g, x, y);
    hide Received;
  }

  /** The same in terms of offsets. */
  lemma ReceivedAround(g: Gray, x: nat, y: nat)
    requires g.Valid() && x < g.width && Flat(y, x, g.width) < |g.data|
    ensures var w, o := g.width, Flat(y, x, g.width);
            && (y > 0 ==> o >= w) && ((y > 0 && x > 0) || y > 1 ==> o >= w + 1)
            && Received(g, o, o)
               == (if x > 0 then Sixteenths(g, o - 1, 7.0) else 0.0)
                  + (if y > 0 && x < w - 1 then Sixteenths(g, o - w + 1, 3.0) else 0.0)
                  + (if y > 0 then Sixteenths(g, o - w, 5.0) else 0.0)
                  + (if (y > 0 && x > 0) || (x == 0 && y > 1) then Sixteenths(g, o - w - 1, 1.0) else 0.0)
  {
    hide Sixteenths, Flat;
    PlacesAround(g.width, x, y);
  }

  lemma FromIs(g: Gray, given: bool, x: int, y: int, k: real)
    requires g.Valid() && (given ==> 0 <= x < g.width && 0 <= y && Flat(y, x, g.width) < |g.data|)
    ensures From(g, given, x, y, k) == if given then Sixteenths(g, Flat(y, x, g.width), k) else 0.0
  {
    hide Error;
  }

  lemma ColumnOf(w: nat, x: nat, y: nat)
    requires x < w
    ensures Flat(y, x, w) % w == x
  {
    DivUnique(Flat(y, x, w), w, y, x);
  }

  lemma RowAbove(w: nat, x: nat, y: nat)
    requires y > 0
    ensures Flat(y - 1, x, w) + w == Flat(y, x, w)
  {
    assert (y - 1) * w == y * w - w;
  }

  lemma AlongRow(w: nat, x: nat, y: nat)
    ensures x > 0 ==> Flat(y, x - 1, w) + 1 == Flat(y, x, w)
    ensures x == w - 1 ==> Flat(y, x, w) + 1 == Flat(y + 1, 0, w)
    ensures Flat(0, x, w) == x && Flat(y, x, w) == Flat(y, 0, w) + x
  {
    FlatSteps(y, x, w);
    FlatSteps(y, w, w);
  }

  /** Where the neighbours of `(x, y)` that come before it lie, and which of them are in the same or a next column. */
  lemma PlacesAround(w: nat, x: nat, y: nat)
    requires x < w
    ensures var o := Flat(y, x, w);
            && (x > 0 ==> Flat(y, x - 1, w) == o - 1 && (o - 1) % w != w - 1)
            && (x == 0 && o > 0 ==> (o - 1) % w == w - 1)
            && (y > 0 ==> Flat(y - 1, x, w) == o - w) && (y == 0 ==> o < w)
            && (y > 0 && x < w - 1 ==> Flat(y - 1, x + 1, w) == o - w + 1 && (o - w + 1) % w != 0)
            && (y > 0 && x == w - 1 ==> (o - w + 1) % w == 0)
            && (y == 0 && x < w - 1 ==> o - w + 1 < 0) && (y == 0 && x == w - 1 ==> o - w + 1 == 0)
            && (y > 0 && x > 0 ==> Flat(y - 1, x - 1, w) == o - w - 1)
            && (y > 1 && x == 0 ==> Flat(y - 2, w - 1, w) == o - w - 1)
            && (y == 1 && x == 0 ==> o == w) && (y > 0 ==> o >= w + x) && (y > 1 ==> o > w) && o >= x
  {
    hide Flat;
    AlongRow(w, x, y);
    if x > 0 {
      ColumnOf(w, x - 1, y);
    } else if y > 0 {
      AlongRow(w, w - 1, y - 1);
      ColumnOf(w, w - 1, y - 1);
    }
    if y > 0 {
      RowAbove(w, x, y);
      AlongRow(w, x, y - 1);
      if x < w - 1 {
        AlongRow(w, x + 1, y - 1);
        ColumnOf(w, x + 1, y - 1);
      } else {
        ColumnOf(w, 0, y);
      }
    }
    if y > 1 {
      AlongRow(w, w - 1, y - 2);
      RowAbove(w, 0, y - 1);
    }
  }

  // ---- pushing errors forward

  /** Writes outside the array are ignored. */
  function Add(s: seq<real>, j: int, e: real): (t: seq<real>)
    ensures |t| == |s|
  {
    if 0 <= j < |s| then s[j := s[j] + e] else s
  }

  function AddIf(s: seq<real>, given: bool, j: int, e: real): (t: seq<real>)
    ensures |t| == |s|
  {
    if given then Add(s, j, e) else s
  }

  function Scatter(g: Gray, s: seq<real>, o: nat): (t: seq<real>)
    requires g.Valid() && |s| == |g.data| && o < |s|
    ensures |t| == |s|
  {
    var s1 := AddIf(s, !InLastColumn(g, o), o + 1, Sixteenths(g, o, 7.0));
    var s2 := AddIf(s1, !InFirstColumn(g, o), o + g.width - 1, Sixteenths(g, o, 3.0));
    var s3 := AddIf(s2, true, o + g.width, Sixteenths(g, o, 5.0));
    AddIf(s3, true, o + g.width + 1, Sixteenths(g, o, 1.0))
  }

  /** The image after the first `n` pixels: those final, the others as the errors have left them. */
  function Level(g: Gray, n: nat): (s: seq<real>)
    requires g.Valid() && n <= |g.data|
    ensures |s| == |g.data|
  {
    seq(|g.data|, j requires 0 <= j < |g.data| =>
      if j < n then NewPixel(g, j) as real else g.data[j] as real + Received(g, j, n))
  }

  /** What `j` receives from pixel `n`. */
  function Share(g: Gray, n: nat, j: nat): real
    requires g.Valid() && n < |g.data|
  {
    (if j == n + 1 && !InLastColumn(g, n) then Sixteenths(g, n, 7.0) else 0.0)
    + (if j == n + g.width - 1 && !InFirstColumn(g, n) then Sixteenths(g, n, 3.0) else 0.0)
    + (if j == n + g.width then Sixteenths(g, n, 5.0) else 0.0)
    + (if j == n + g.width + 1 then Sixteenths(g, n, 1.0) else 0.0)
  }

  lemma ReceivedStep(g: Gray, j: nat, n: nat)
    requires g.Valid() && n < j < |g.data|
    ensures Received(g, j, n + 1) == Received(g, j, n) + Share(g, n, j)
  {
    hide InLastColumn, InFirstColumn, Sixteenths;
  }

  /** Scattering gives each pixel its share, and none to the pixels up to `n`. */
  lemma ScatterAt(g: Gray, s: seq<real>, n: nat, j: nat)
    requires g.Valid() && |s| == |g.data| && n < |s| && j < |s|
    ensures Scatter(g, s, n)[j] == s[j] + Share(g, n, j)
    ensures j <= n ==> Share(g, n, j) == 0.0
  {
    if g.width == 1 {
      FirstColumnWidth(g, n);
    }
    hide InLastColumn, InFirstColumn, Sixteenths;
  }

  lemma FirstColumnWidth(g: Gray, n: nat)
    requires g.Valid() && g.width == 1
    ensures InFirstColumn(g, n) && InLastColumn(g, n)
  {
  }

  /** Pushing the error of pixel `n` forward is what gathering expects; the pixels up to `n` stay as they are. */
  lemma ScatterIsGather(g: Gray, n: nat)
    requires g.Valid() && n < |g.data|
    ensures Level(g, n + 1) == Scatter(g, Level(g, n)[n := NewPixel(g, n) as real], n)
  {
    hide Scatter, Share, Received, NewPixel;
    var before := Level(g, n)[n := NewPixel(g, n) as real];
    forall j: nat | j < |g.data|
      ensures Level(g, n + 1)[j] == Scatter(g, before, n)[j]
    {
      ScatterAt(g, before, n, j);
      if j > n {
        ReceivedStep(g, j, n);
      }
    }
  }

  // ---- conservation

  function Total(s: seq<real>): real {
    if s == [] then 0.0 else Total(s[..|s| - 1]) + s[|s| - 1]
  }

  lemma {:induction false} TotalUpdate(s: seq<real>, j: nat, v: real)
    requires j < |s|
    ensures Total(s[j := v]) == Total(s) - s[j] + v
  {
    var t := s[j := v];
    if j < |s| - 1 {
      TotalUpdate(s[..|s| - 1], j, v);
      assert t[..|s| - 1] == s[..|s| - 1][j := v];
    } else {
      assert t[..|s| - 1] == s[..|s| - 1];
    }
  }

  lemma TotalAdd(s: seq<real>, j: int, e: real)
    ensures Total(Add(s, j, e)) == Total(s) + (if 0 <= j < |s| then e else 0.0)
  {
    hide Total;
    if 0 <= j < |s| {
      TotalUpdate(s, j, s[j] + e);
    }
  }

  function KeptIf(n: nat, given: bool, j: int, e: real): real {
    if given && 0 <= j < n then e else 0.0
  }

  lemma TotalAddIf(s: seq<real>, given: bool, j: int, e: real)
    ensures Total(AddIf(s, given, j, e)) == Total(s) + KeptIf(|s|, given, j, e)
  {
    TotalAdd(s, j, e);
  }

  /** The share of the error at `o` that stays inside the image. */
  function Kept(g: Gray, o: nat): real
    requires g.Valid() && o < |g.data|
  {
    KeptIf(|g.data|, !InLastColumn(g, o), o + 1, Sixteenths(g, o, 7.0))
    + KeptIf(|g.data|, !InFirstColumn(g, o), o + g.width - 1, Sixteenths(g, o, 3.0))
    + KeptIf(|g.data|, true, o + g.width, Sixteenths(g, o, 5.0))
    + KeptIf(|g.data|, true, o + g.width + 1, Sixteenths(g, o, 1.0))
  }

  lemma KeptOrDropped(g: Gray, o: nat)
    requires g.Valid() && o < |g.data|
    ensures Kept(g, o) + Dropped(g, o) == Error(g, o)
  {
    if !InLastColumn(g, o) {
      RightNeighbour(g, o);
    }
    AllShares(g, o);
    hide Sixteenths, InLastColumn, InFirstColumn, Error;
  }

  lemma TotalScatter(g: Gray, s: seq<real>, o: nat)
    requires g.Valid() && |s| == |g.data| && o < |s|
    ensures Total(Scatter(g, s, o)) == Total(s) + Error(g, o) - Dropped(g, o)
  {
    KeptOrDropped(g, o);
    TotalKept(g, s, o);
    hide *;
  }

  lemma TotalKept(g: Gray, s: seq<real>, o: nat)
    requires g.Valid() && |s| == |g.data| && o < |s|
    ensures Total(Scatter(g, s, o)) == Total(s) + Kept(g, o)
  {
    hide Sixteenths, InLastColumn, InFirstColumn, Total, AddIf, KeptIf;
    var s1 := AddIf(s, !InLastColumn(g, o), o + 1, Sixteenths(g, o, 7.0));
    var s2 := AddIf(s1, !InFirstColumn(g, o), o + g.width - 1, Sixteenths(g, o, 3.0));
    var s3 := AddIf(s2, true, o + g.width, Sixteenths(g, o, 5.0));
    TotalAddIf(s, !InLastColumn(g, o), o + 1, Sixteenths(g, o, 7.0));
    TotalAddIf(s1, !InFirstColumn(g, o), o + g.width - 1, Sixteenths(g, o, 3.0));
    TotalAddIf(s2, true, o + g.width, Sixteenths(g, o, 5.0));
    TotalAddIf(s3, true, o + g.width + 1, Sixteenths(g, o, 1.0));
  }

  lemma AllShares(g: Gray, o: nat)
    requires g.Valid() && o < |g.data|
    ensures Sixteenths(g, o, 7.0) + Sixteenths(g, o, 3.0) + Sixteenths(g, o, 5.0) + Sixteenths(g, o, 1.0) == Error(g, o)
  {
    hide Error;
  }

  lemma RightNeighbour(g: Gray, o: nat)
    requires g.Valid() && o < |g.data| && !InLastColumn(g, o)
    ensures o + 1 < |g.data|
  {
    if o + 1 == |g.data| {
      var q := g.height - 1;
      assert o == q * g.width + (g.width - 1) by {
        assert g.height * g.width == q * g.width + g.width;
      }
      if g.height >= 1 {
        DivUnique(o, g.width, q, g.width - 1);
      }
    }
  }

  function Luminance(g: Gray): seq<real> {
    seq(|g.data|, j requires 0 <= j < |g.data| => g.data[j] as real)
  }

  function Dithered(g: Gray): (s: seq<byte>)
    requires g.Valid()
  {
    seq(|g.data|, j requires 0 <= j < |g.data| => NewPixel(g, j))
  }

  function Losses(g: Gray, n: nat): real
    requires g.Valid() && n <= |g.data|
  {
    if n == 0 then 0.0 else Losses(g, n - 1) + Dropped(g, n - 1)
  }

  lemma {:induction false} LevelTotal(g: Gray, n: nat)
    requires g.Valid() && n <= |g.data|
    ensures Total(Luminance(g)) == Total(Level(g, n)) + Losses(g, n)
  {
    if n == 0 {
      assert Level(g, 0) == Luminance(g) by {
        forall j: nat | j < |g.data|
          ensures Level(g, 0)[j] == Luminance(g)[j]
        {
        }
      }
    } else {
      hide Level, Dropped;
      LevelTotal(g, n - 1);
      LevelStepTotal(g, n - 1);
    }
  }

  lemma LevelStepTotal(g: Gray, k: nat)
    requires g.Valid() && k < |g.data|
    ensures Total(Level(g, k)) == Total(Level(g, k + 1)) + Dropped(g, k)
  {
    ScatterIsGather(g, k);
    assert Level(g, k)[k] == Pixel(g, k);
    hide Level, Scatter, Dropped, Pixel, NewPixel, Total;
    TotalUpdate(Level(g, k), k, NewPixel(g, k) as real);
    TotalScatter(g, Level(g, k)[k := NewPixel(g, k) as real], k);
  }

  /** A pixel becomes black exactly when its value, with the errors it has received, is below the threshold. */
  lemma BlackExactly(g: Gray, o: nat)
    requires g.Valid() && o < |g.data|
    ensures Dithered(g)[o] == 0 <==> Pixel(g, o) < g.threshold
    ensures Dithered(g)[o] == 255 <==> Pixel(g, o) >= g.threshold
    ensures Error(g, o) == Pixel(g, o) - Dithered(g)[o] as real
  {
    hide Pixel;
  }

  /** The luminance of the input is that of the output and the shares dropped at the borders. */
  lemma LuminanceConserved(g: Gray)
    requires g.Valid()
    ensures Total(Luminance(g)) == Total(Luminance(Gray(Dithered(g), g.width, g.height, g.threshold))) + Losses(g, |g.data|)
    ensures forall j :: 0 <= j < |g.data| ==> Dithered(g)[j] == 0 || Dithered(g)[j] == 255
  {
    LevelTotal(g, |g.data|);
    assert Level(g, |g.data|) == Luminance(Gray(Dithered(g), g.width, g.height, g.threshold));
  }

  // ---- the loops

  /** The first `n` pixels are final in `dst`; in `src` the errors have reached the others. */
  ghost predicate Progress(g: Gray, src: seq<real>, dst: seq<byte>, n: nat)
    requires g.Valid()
  {
    && |src| == |dst| == |g.data| && n <= |g.data|
    && (forall j :: 0 <= j < n ==> dst[j] == NewPixel(g, j))
    && (forall j :: n <= j < |g.data| ==> src[j] == Level(g, n)[j])
  }

  lemma Advance(g: Gray, src: seq<real>, dst: seq<byte>, n: nat)
    requires g.Valid() && n < |g.data| && Progress(g, src, dst, n)
    ensures Progress(g, Scatter(g, src, n), dst[n := NewPixel(g, n)], n + 1)
    ensures src[n] == Pixel(g, n)
  {
    hide Scatter, Share, Received, NewPixel;
    ScatterIsGather(g, n);
    forall j | n < j < |g.data|
      ensures Scatter(g, src, n)[j] == Level(g, n + 1)[j]
    {
      ScatterAt(g, src, n, j);
      ScatterAt(g, Level(g, n)[n := NewPixel(g, n) as real], n, j);
    }
    LevelAt(g, n);
  }

  lemma LevelAt(g: Gray, n: nat)
    requires g.Valid() && n < |g.data|
    ensures Level(g, n)[n] == Pixel(g, n)
  {
  }

  /** Pushes the error at (x, y) to the right and to the row below. */
  method PushError(ghost g: Gray, src: array<real>, width: nat, height: nat, x: nat, y: nat, offset: nat, errorDiv16: real)
    requires g.Valid() && src.Length == |g.data| && width == g.width && height == g.height
    requires x < width && y < height && offset == Flat(y, x, width) && offset < src.Length
    requires errorDiv16 == Error(g, offset) / 16.0
    modifies src
    ensures src[..] == Scatter(g, old(src[..]), offset)
  {
    hide Error, Sixteenths, InFirstColumn, InLastColumn;
    PixelShares(g, offset, errorDiv16, x, y);
    InLastRow(width, height, x, y);
    if x < width - 1 {
      src[offset + 1] := src[offset + 1] + errorDiv16 * 7.0;
    }
    if y < height - 1 {
      var nextRowOffset := offset + width;
      if x > 0 {
        src[nextRowOffset - 1] := src[nextRowOffset - 1] + errorDiv16 * 3.0;
      }
      src[nextRowOffset] := src[nextRowOffset] + errorDiv16 * 5.0;
      if nextRowOffset + 1 < src.Length {
        src[nextRowOffset + 1] := src[nextRowOffset + 1] + errorDiv16;
      }
    }
  }

  lemma PixelShares(g: Gray, o: nat, errorDiv16: real, x: nat, y: nat)
    requires g.Valid() && o < |g.data| && errorDiv16 == Error(g, o) / 16.0 && x < g.width && o == Flat(y, x, g.width)
    ensures Sixteenths(g, o, 7.0) == errorDiv16 * 7.0 && Sixteenths(g, o, 3.0) == errorDiv16 * 3.0
    ensures Sixteenths(g, o, 5.0) == errorDiv16 * 5.0 && Sixteenths(g, o, 1.0) == errorDiv16
    ensures InFirstColumn(g, o) <==> x == 0
    ensures InLastColumn(g, o) <==> x == g.width - 1
  {
    hide Error;
    DivUnique(o, g.width, y, x);
  }

  lemma InLastRow(width: nat, height: nat, x: nat, y: nat)
    requires x < width && y < height
    ensures Flat(y, x, width) < width * height
    ensures x < width - 1 ==> Flat(y, x, width) + 1 < width * height
    ensures y < height - 1 <==> Flat(y, x, width) + width < width * height
  {
    if y < height - 1 {
      assert (y + 2) * width <= height * width;
    } else {
      assert y * width + width == height * width;
    }
  }

  method DitherImage(data: array<byte>, width: nat, height: nat, threshold: real) returns (dst: array<byte>)
    requires width >= 1 && data.Length == width * height
    ensures fresh(dst) && dst[..] == Dithered(Gray(data[..], width, height, threshold))
  {
    hide *;
    ghost var g := Gray(data[..], width, height, threshold);
    ValidGray(g);
    FlatSteps(0, 0, width);
    var src := new real[data.Length](i requires 0 <= i < data.Length reads data => data[i] as real);
    dst := new byte[data.Length];
    Outset(g, src[..], dst[..]);
    var offset := 0;
    for y := 0 to height
      invariant g.Valid() && data[..] == g.data
      invariant offset == Flat(y, 0, width) <= data.Length && Progress(g, src[..], dst[..], offset)
    {
      for x := 0 to width
        invariant g.Valid() && data[..] == g.data
        invariant offset == Flat(y, x, width) <= data.Length && Progress(g, src[..], dst[..], offset)
      {
        InLastRow(width, height, x, y);
        Advance(g, src[..], dst[..], offset);
        NewPixelOf(g, offset);
        var oldPixel := src[offset];
        var newPixel: byte := if oldPixel < threshold then 0 else 255;
        var error := oldPixel - newPixel as real;
        dst[offset] := newPixel;
        PushError(g, src, width, height, x, y, offset, error / 16.0);
        FlatSteps(y, x, width);
        offset := offset + 1;
      }
      FlatSteps(y, 0, width);
    }
    FlatSteps(height, 0, width);
    Finished(g, src[..], dst[..]);
  }

  lemma ValidGray(g: Gray)
    requires g.width >= 1 && |g.data| == g.width * g.height
    ensures g.Valid()
  {
  }

  lemma NewPixelOf(g: Gray, o: nat)
    requires g.Valid() && o < |g.data|
    ensures NewPixel(g, o) == if Pixel(g, o) < g.threshold then 0 else 255
    ensures Error(g, o) == Pixel(g, o) - NewPixel(g, o) as real
  {
  }

  lemma Outset(g: Gray, src: seq<real>, dst: seq<byte>)
    requires g.Valid() && |src| == |dst| == |g.data|
    requires forall j :: 0 <= j < |src| ==> src[j] == g.data[j] as real
    ensures Progress(g, src, dst, 0)
  {
  }

  lemma Finished(g: Gray, src: seq<real>, dst: seq<byte>)
    requires g.Valid() && Progress(g, src, dst, |g.data|)
    ensures dst == Dithered(g)
  {
  }
}
