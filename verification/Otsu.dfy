/** Otsu's threshold, over exact reals. */
module Otsu {
  import opened Bits

  const UINT8_MAX := 255

  // ---- the definition

  /** Every `step`-th value, starting with the first. */
  function Sampled(data: seq<byte>, step: nat, n: nat): (pixels: seq<byte>)
    requires step >= 1 && n * step <= |data|
    ensures |pixels| == n
    decreases n
  {
    if n == 0 then []
    else
      assert (n - 1) * step == n * step - step;
      [data[0]] + Sampled(data[step..], step, n - 1)
  }

  predicate InSample(data: seq<byte>, step: nat, i: nat) {
    i * step < |data|
  }

  /** The i-th sample is the value at `i * step`. */
  lemma {:induction false} SampledAt(data: seq<byte>, step: nat, n: nat, i: nat)
    requires step >= 1 && n * step <= |data| && i < n
    ensures InSample(data, step, i) && Sampled(data, step, n)[i] == data[i * step]
  {
    ProductBelow(n, step);
    if i > 0 {
      ProductBelow(i, step);
      SampledAt(data[step..], step, n - 1, i - 1);
    }
    hide InSample;
    InSampleShift(data, step, i);
  }

  lemma InSampleShift(data: seq<byte>, step: nat, i: nat)
    requires step <= |data|
    ensures InSample(data, step, 0) <==> |data| > 0
    ensures i > 0 ==> (InSample(data, step, i) <==> InSample(data[step..], step, i - 1))
    ensures i > 0 && InSample(data, step, i) ==> data[i * step] == data[step..][(i - 1) * step]
  {
    if i > 0 {
      ProductBelow(i, step);
    }
  }

  lemma ProductBelow(n: nat, step: nat)
    requires n > 0
    ensures n * step == (n - 1) * step + step && n * step >= step
  {
    assert n * step == (n - 1) * step + step;
    assert (n - 1) * step >= 0;
  }

  function Sum(pixels: seq<byte>): nat {
    if pixels == [] then 0 else pixels[0] + Sum(pixels[1..])
  }

  lemma SumCons(p: byte, pixels: seq<byte>)
    ensures Sum([p] + pixels) == p + Sum(pixels)
  {
    assert ([p] + pixels)[1..] == pixels;
  }

  function Mean(pixels: seq<byte>): real
    requires pixels != []
  {
    Sum(pixels) as real / |pixels| as real
  }

  /** The pixels up to the threshold. */
  function Low(pixels: seq<byte>, t: int): seq<byte> {
    if pixels == [] then [] else if pixels[0] <= t then [pixels[0]] + Low(pixels[1..], t) else Low(pixels[1..], t)
  }

  /** The pixels above it. */
  function High(pixels: seq<byte>, t: int): seq<byte> {
    if pixels == [] then [] else if pixels[0] > t then [pixels[0]] + High(pixels[1..], t) else High(pixels[1..], t)
  }

  /** The threshold leaves pixels on both sides. */
  predicate Separates(pixels: seq<byte>, t: int) {
    Low(pixels, t) != [] && High(pixels, t) != []
  }

  function Variance(pixels: seq<byte>, t: int): real
    requires Separates(pixels, t)
  {
    var low, high := Low(pixels, t), High(pixels, t);
    var difference := Mean(low) - Mean(high);
    difference * difference * |low| as real * |high| as real
  }

  /** `t` is the largest of the thresholds below `n` that maximise the variance between classes. */
  predicate IsBest(pixels: seq<byte>, n: nat, t: int) {
    && 0 <= t < n && Separates(pixels, t)
    && forall u :: 0 <= u < n && Separates(pixels, u) ==>
         Variance(pixels, u) <= Variance(pixels, t) && (Variance(pixels, u) == Variance(pixels, t) ==> u <= t)
  }

  predicate NoneSeparates(pixels: seq<byte>, n: nat) {
    forall u :: 0 <= u < n ==> !Separates(pixels, u)
  }

  // ---- the running form

  function Count(pixels: seq<byte>, v: int): nat {
    if pixels == [] then 0 else (if pixels[0] == v then 1 else 0) + Count(pixels[1..], v)
  }

  /** One more histogram bin moves exactly its pixels from the high class to the low one. */
  lemma {:induction false} OneMoreBin(pixels: seq<byte>, t: int)
    ensures |Low(pixels, t)| == |Low(pixels, t - 1)| + Count(pixels, t)
    ensures Sum(Low(pixels, t)) == Sum(Low(pixels, t - 1)) + t * Count(pixels, t)
  {
    if pixels != [] {
      hide Sum;
      OneMoreBin(pixels[1..], t);
      SumCons(pixels[0], Low(pixels[1..], t));
      SumCons(pixels[0], Low(pixels[1..], t - 1));
      AddOne(t, Count(pixels[1..], t));
    }
  }

  lemma AddOne(t: int, c: nat)
    ensures t * (1 + c) == t + t * c
  {
  }

  lemma {:induction false} ClassesPartition(pixels: seq<byte>, t: int)
    ensures |Low(pixels, t)| + |High(pixels, t)| == |pixels|
    ensures Sum(Low(pixels, t)) + Sum(High(pixels, t)) == Sum(pixels)
    ensures t >= UINT8_MAX ==> High(pixels, t) == []
    ensures t < 0 ==> Low(pixels, t) == []
  {
    if pixels != [] {
      ClassesPartition(pixels[1..], t);
      SumCons(pixels[0], Low(pixels[1..], t));
      SumCons(pixels[0], High(pixels[1..], t));
    }
  }

  lemma {:induction false} HighShrinks(pixels: seq<byte>, t: int, u: int)
    requires t <= u && High(pixels, t) == []
    ensures High(pixels, u) == []
  {
    if pixels != [] {
      HighShrinks(pixels[1..], t, u);
    }
  }

  function Running(q1: nat, q2: nat, sum: nat, sumB: nat): real
    requires q1 > 0 && q2 > 0 && sum >= sumB
  {
    var m1m2 := sumB as real / q1 as real - (sum - sumB) as real / q2 as real;
    m1m2 * m1m2 * q1 as real * q2 as real
  }

  /** The form the loop computes is the variance as defined. */
  lemma RunningVariance(pixels: seq<byte>, t: int, q1: nat, q2: nat, sum: nat, sumB: nat)
    requires q1 == |Low(pixels, t)| > 0 && q2 == |pixels| - q1 > 0
    requires sum == Sum(pixels) && sumB == Sum(Low(pixels, t))
    ensures Separates(pixels, t) && sum >= sumB
    ensures Running(q1, q2, sum, sumB) == Variance(pixels, t)
  {
    hide Low, High, Sum;
    ClassesPartition(pixels, t);
    var low, high := Low(pixels, t), High(pixels, t);
    assert Mean(low) == sumB as real / q1 as real;
    assert Mean(high) == (sum - sumB) as real / q2 as real;
    hide Mean;
  }

  lemma VarianceNotNegative(pixels: seq<byte>, t: int)
    requires Separates(pixels, t)
    ensures Variance(pixels, t) >= 0.0
  {
    var low, high := Low(pixels, t), High(pixels, t);
    var d := Mean(low) - Mean(high);
    assert d * d >= 0.0;
    assert d * d * |low| as real >= 0.0;
  }

  lemma NextSample(data: seq<byte>, step: nat, ptr: nat, length: nat)
    requires step >= 1 && length > 0 && ptr + length * step == |data|
    ensures ptr + step + (length - 1) * step == |data| && ptr < |data|
    ensures forall v :: Count(Sampled(data[ptr..], step, length), v)
                     == (if data[ptr] == v then 1 else 0) + Count(Sampled(data[ptr + step..], step, length - 1), v)
  {
    ProductBelow(length, step);
    assert (length - 1) * step == length * step - step;
    assert data[ptr..][step..] == data[ptr + step..];
    var rest := Sampled(data[ptr..], step, length);
    assert rest[0] == data[ptr] && rest[1..] == Sampled(data[ptr + step..], step, length - 1);
  }

  lemma NoSample(data: seq<byte>, step: nat, ptr: nat)
    requires step >= 1 && ptr <= |data|
    ensures Sampled(data[ptr..], step, 0) == []
  {
  }

  method Histogram(data: array<byte>, step: nat, numPixels: nat) returns (histogram: array<nat>)
    requires step >= 1 && numPixels * step == data.Length
    ensures fresh(histogram) && histogram.Length == UINT8_MAX + 1
    ensures forall v :: 0 <= v <= UINT8_MAX ==> histogram[v] == Count(Sampled(data[..], step, numPixels), v)
  {
    hide Sampled;
    histogram := new nat[UINT8_MAX + 1](_ => 0);
    ghost var pixels := Sampled(data[..], step, numPixels);
    var ptr, length := 0, numPixels;
    assert data[..][0..] == data[..];
    while length > 0
      invariant 0 <= length <= numPixels && ptr + length * step == data.Length
      invariant forall v :: 0 <= v <= UINT8_MAX ==>
                  histogram[v] + Count(Sampled(data[..][ptr..], step, length), v) == Count(pixels, v)
    {
      NextSample(data[..], step, ptr, length);
      histogram[data[ptr]] := histogram[data[ptr]] + 1;
      length := length - 1;
      ptr := ptr + step;
    }
    NoSample(data[..], step, ptr);
  }

  /**
   The largest threshold that maximises the variance between the two classes of sampled pixels,
   or 0 if no threshold leaves pixels on both sides.
   */
  method FindThreshold(data: array<byte>, step: nat) returns (threshold: byte)
    requires step >= 1 && data.Length % step == 0
    ensures var numPixels := data.Length / step;
            && numPixels * step == data.Length
            && var pixels := Sampled(data[..], step, numPixels);
               && (forall i :: 0 <= i < numPixels ==> InSample(data[..], step, i) && pixels[i] == data[i * step])
               && if NoneSeparates(pixels, UINT8_MAX + 1) then threshold == 0
               else IsBest(pixels, UINT8_MAX + 1, threshold)
  {
    hide Low, High, Count;
    var numPixels := data.Length / step;
    var histogram := Histogram(data, step, numPixels);
    ghost var pixels := Sampled(data[..], step, numPixels);
    var sum := 0;
    ClassesPartition(pixels, -1);
    for i := 0 to UINT8_MAX + 1
      invariant sum == Sum(Low(pixels, i - 1))
      invariant forall v :: 0 <= v <= UINT8_MAX ==> histogram[v] == Count(pixels, v)
    {
      OneMoreBin(pixels, i);
      sum := sum + i * histogram[i];
    }
    ClassesPartition(pixels, UINT8_MAX);
    threshold := FindMaximum(histogram, numPixels, sum, pixels);
    forall i | 0 <= i < numPixels
      ensures InSample(data[..], step, i) && pixels[i] == data[i * step]
    {
      SampledAt(data[..], step, numPixels, i);
    }
  }

  method FindMaximum(histogram: array<nat>, numPixels: nat, sum: nat, ghost pixels: seq<byte>) returns (threshold: byte)
    requires histogram.Length == UINT8_MAX + 1 && numPixels == |pixels| && sum == Sum(pixels)
    requires forall v :: 0 <= v <= UINT8_MAX ==> histogram[v] == Count(pixels, v)
    ensures if NoneSeparates(pixels, UINT8_MAX + 1) then threshold == 0
            else IsBest(pixels, UINT8_MAX + 1, threshold)
  {
    hide Variance, Separates, Running, Low, High, Count, IsBest, NoneSeparates;
    var sumB, q1, max := 0, 0, 0.0;
    threshold := 0;
    ClassesPartition(pixels, -1);
    NothingYet(pixels);
    for i := 0 to UINT8_MAX + 1
      invariant q1 == |Low(pixels, i - 1)| && sumB == Sum(Low(pixels, i - 1))
      invariant if NoneSeparates(pixels, i) then threshold == 0 && max == 0.0
                else IsBest(pixels, i, threshold) && Separates(pixels, threshold) && max == Variance(pixels, threshold)
    {
      OneMoreBin(pixels, i);
      ClassesPartition(pixels, i);
      // The pixels up to i.
      q1 := q1 + histogram[i];
      if q1 == 0 {
        EmptySide(pixels, i);
        SkipOne(pixels, i, threshold);
        continue;
      }
      // The pixels above i.
      var q2 := numPixels - q1;
      if q2 == 0 {
        SkipRest(pixels, i, threshold);
        break;
      }
      sumB := sumB + i * histogram[i];
      RunningVariance(pixels, i, q1, q2, sum, sumB);
      VarianceNotNegative(pixels, i);
      var variance := VarianceOf(q1, q2, sum, sumB);
      Consider(pixels, i, threshold);
      if variance >= max {
        threshold := i;
        max := variance;
      }
    }
  }

  method VarianceOf(q1: nat, q2: nat, sum: nat, sumB: nat) returns (variance: real)
    requires q1 > 0 && q2 > 0 && sum >= sumB
    ensures variance == Running(q1, q2, sum, sumB)
  {
    var m1 := sumB as real / q1 as real;
    var m2 := (sum - sumB) as real / q2 as real;
    var m1m2 := m1 - m2;
    variance := m1m2 * m1m2 * q1 as real * q2 as real;
  }

  lemma NothingYet(pixels: seq<byte>)
    ensures NoneSeparates(pixels, 0)
  {
  }

  lemma EmptySide(pixels: seq<byte>, i: int)
    requires Low(pixels, i) == [] || High(pixels, i) == []
    ensures !Separates(pixels, i)
  {
  }

  /** A threshold that does not separate changes nothing. */
  lemma SkipOne(pixels: seq<byte>, i: nat, t: int)
    requires !Separates(pixels, i)
    ensures NoneSeparates(pixels, i + 1) <==> NoneSeparates(pixels, i)
    ensures IsBest(pixels, i, t) ==> IsBest(pixels, i + 1, t)
  {
    hide Variance, Separates;
  }

  /** Nor do any after the high class has run empty. */
  lemma SkipRest(pixels: seq<byte>, i: nat, t: int)
    requires i <= UINT8_MAX && High(pixels, i) == []
    ensures NoneSeparates(pixels, UINT8_MAX + 1) <==> NoneSeparates(pixels, i)
    ensures IsBest(pixels, i, t) ==> IsBest(pixels, UINT8_MAX + 1, t)
  {
    forall u | i <= u <= UINT8_MAX
      ensures !Separates(pixels, u)
    {
      HighShrinks(pixels, i, u);
    }
    hide Variance, Separates;
  }

  /** A threshold that separates becomes the best so far exactly when it is at least as good. */
  lemma Consider(pixels: seq<byte>, i: nat, t: int)
    requires Separates(pixels, i)
    ensures !NoneSeparates(pixels, i + 1)
    ensures NoneSeparates(pixels, i) ==> IsBest(pixels, i + 1, i)
    ensures !NoneSeparates(pixels, i) && IsBest(pixels, i, t) ==>
              IsBest(pixels, i + 1, if Variance(pixels, i) >= Variance(pixels, t) then i else t)
  {
    hide Variance, Separates;
  }

  // ---- the best threshold leaves the tightest classes

  function Square(x: real): real {
    x * x
  }

  /** The sum of squared distances from `m`. */
  function Deviation(pixels: seq<byte>, m: real): real {
    if pixels == [] then 0.0 else Square(pixels[0] as real - m) + Deviation(pixels[1..], m)
  }

  function Spread(pixels: seq<byte>): real
    requires pixels != []
  {
    Deviation(pixels, Mean(pixels))
  }

  function Squares(pixels: seq<byte>): real {
    if pixels == [] then 0.0 else Square(pixels[0] as real) + Squares(pixels[1..])
  }

  function Expanded(squares: real, sum: real, n: real, m: real): real {
    squares - 2.0 * m * sum + m * m * n
  }

  lemma ExpandedStep(squares: real, sum: real, n: real, m: real, x: real)
    ensures Expanded(0.0, 0.0, 0.0, m) == 0.0
    ensures Expanded(Square(x) + squares, x + sum, 1.0 + n, m) == Square(x - m) + Expanded(squares, sum, n, m)
  {
    assert 2.0 * m * (x + sum) == 2.0 * (m * x) + 2.0 * m * sum;
    assert m * m * (1.0 + n) == m * m + m * m * n;
    assert (x - m) * (x - m) == x * x - 2.0 * (m * x) + m * m;
  }

  lemma {:induction false} DeviationExpands(pixels: seq<byte>, m: real)
    ensures Deviation(pixels, m) == Expanded(Squares(pixels), Sum(pixels) as real, |pixels| as real, m)
  {
    hide Square, Expanded;
    if pixels == [] {
      ExpandedStep(0.0, 0.0, 0.0, m, 0.0);
    } else {
      var rest := pixels[1..];
      DeviationExpands(rest, m);
      ExpandedStep(Squares(rest), Sum(rest) as real, |rest| as real, m, pixels[0] as real);
    }
  }

  lemma SpreadIs(pixels: seq<byte>)
    requires pixels != []
    ensures Sum(pixels) as real == Mean(pixels) * |pixels| as real
    ensures Spread(pixels) == Squares(pixels) - Mean(pixels) * Mean(pixels) * |pixels| as real
  {
    hide Deviation, Squares, Expanded, Sum;
    MeanTimes(Sum(pixels) as real, |pixels| as real, Mean(pixels), Squares(pixels));
    DeviationExpands(pixels, Mean(pixels));
    hide Mean;
  }

  lemma MeanTimes(sum: real, n: real, m: real, squares: real)
    requires n > 0.0 && m == sum / n
    ensures sum == m * n && Expanded(squares, sum, n, m) == squares - m * m * n
  {
    assert sum == m * n;
    assert 2.0 * m * (m * n) == 2.0 * (m * m * n);
  }

  lemma {:induction false} SquaresPartition(pixels: seq<byte>, t: int)
    ensures Squares(Low(pixels, t)) + Squares(High(pixels, t)) == Squares(pixels)
  {
    hide Square;
    if pixels != [] {
      SquaresPartition(pixels[1..], t);
      SquaresCons(pixels[0], Low(pixels[1..], t));
      SquaresCons(pixels[0], High(pixels[1..], t));
    }
  }

  lemma SquaresCons(p: byte, pixels: seq<byte>)
    ensures Squares([p] + pixels) == Square(p as real) + Squares(pixels)
  {
    assert ([p] + pixels)[1..] == pixels;
  }

  /** The variance between the classes, times nothing but the number of pixels, is what separating them takes off the spread. */
  lemma VarianceIsSpreadSaved(pixels: seq<byte>, t: int)
    requires Separates(pixels, t)
    ensures pixels != []
    ensures Variance(pixels, t)
         == |pixels| as real * (Spread(pixels) - Spread(Low(pixels, t)) - Spread(High(pixels, t)))
  {
    hide Low, High, Sum, Mean, Deviation, Squares, Spread;
    var low, high := Low(pixels, t), High(pixels, t);
    ClassesPartition(pixels, t);
    SquaresPartition(pixels, t);
    SpreadIs(pixels);
    SpreadIs(low);
    SpreadIs(high);
    Between(Mean(low), Mean(high), |low| as real, |high| as real, Mean(pixels));
  }

  lemma Between(a: real, b: real, p: real, q: real, m: real)
    requires m * (p + q) == a * p + b * q
    ensures (p + q) * (a * a * p + b * b * q - m * m * (p + q)) == (a - b) * (a - b) * p * q
  {
    var s := a * p + b * q;
    assert (p + q) * (m * m * (p + q)) == (m * (p + q)) * (m * (p + q)) == s * s;
    assert s * s == a * a * p * p + 2.0 * (a * b * p * q) + b * b * q * q;
    assert (p + q) * (a * a * p + b * b * q) == a * a * p * p + a * a * p * q + b * b * p * q + b * b * q * q;
    assert (a - b) * (a - b) * p * q == a * a * p * q - 2.0 * (a * b * p * q) + b * b * p * q;
  }

  /** So no threshold leaves the two classes tighter than the one found. */
  lemma BestIsTightest(pixels: seq<byte>, n: nat, t: int, u: int)
    requires IsBest(pixels, n, t) && 0 <= u < n && Separates(pixels, u)
    ensures Spread(Low(pixels, t)) + Spread(High(pixels, t)) <= Spread(Low(pixels, u)) + Spread(High(pixels, u))
  {
    hide Variance, Spread, Low, High;
    VarianceIsSpreadSaved(pixels, t);
    VarianceIsSpreadSaved(pixels, u);
    var k := |pixels| as real;
    var a := Spread(pixels) - Spread(Low(pixels, t)) - Spread(High(pixels, t));
    var b := Spread(pixels) - Spread(Low(pixels, u)) - Spread(High(pixels, u));
    Smaller(k, b, a);
  }

  lemma Smaller(k: real, a: real, b: real)
    requires k > 0.0 && k * a <= k * b
    ensures a <= b
  {
    assert k * (b - a) == k * b - k * a;
  }
}
