/**
When 64-bit window sums are wide enough: the bilinear method returns the rounded window means exactly
if and only if no window sum wraps. Channels of up to 32 bits never wrap; 64-bit channels can.
*/
module DemosaicExact {
  import opened Grid
  import opened Rounding
  import opened Demosaic
  import opened DemosaicLaws

  // ---------------------------------------------------------------- one source

  /** No rounded window sum of the source leaves 64 bits. */
  ghost predicate NoWrap(src: Image<nat>, p: BayerPattern)
    requires Mosaic(src)
  {
    forall x: nat, y: nat, c: Color | src.Inside(x, y) :: SumFits(src, p, c, x, y)
  }

  predicate SumFits(src: Image<nat>, p: BayerPattern, c: Color, x: nat, y: nat)
    requires Mosaic(src)
  {
    WindowSum(src, p, c, x, y) + WindowCount(src, p, c, x, y) / 2 < U64
  }

  /** One value is the rounded mean of its window exactly when its own sum does not wrap. */
  lemma ValueExactIff(src: Image<nat>, p: BayerPattern, c: Color, max: nat, x: nat, y: nat)
    requires Mosaic(src) && Samples(src, max) && src.Inside(x, y)
    ensures WrappedValue(src, p, c, max, x, y) == BilinearValue(src, p, c, x, y) <==> SumFits(src, p, c, x, y)
  {
    SumBound(src, p, c, max, x, y);
    CountDivides(src, p, c, x, y);
    hide WindowSum, WindowCount, Samples;
    MeanExactIff(WindowSum(src, p, c, x, y), WindowCount(src, p, c, x, y), U64, max);
  }

  lemma SumBound(src: Image<nat>, p: BayerPattern, c: Color, max: nat, x: nat, y: nat)
    requires Samples(src, max)
    ensures WindowSum(src, p, c, x, y) <= WindowCount(src, p, c, x, y) * max
  {
    forall sx: int, sy: int ensures Sample(src, p, c, sx, sy) <= max * Hit(src, p, c, sx, sy) {
      SampleBetween(src, p, c, sx, sy, 0, if Site(src, p, c, sx, sy) then max else 0);
    }
    WeighedWindow(src, p, c, x, y, max);
    hide Sample, Hit;
    assert max * WindowCount(src, p, c, x, y) == WindowCount(src, p, c, x, y) * max;
  }

  /** The whole image is exact if and only if no window sum wraps. */
  lemma ImageExactIff(src: Image<nat>, p: BayerPattern, order: ChannelOrder, max: nat)
    requires Mosaic(src) && Samples(src, max)
    ensures WrappedImage(src, p, order, max) == BilinearImage(src, p, order) <==> NoWrap(src, p)
  {
    hide Samples, SumFits, WrappedValue, BilinearValue;
    var a, b := WrappedImage(src, p, order, max), BilinearImage(src, p, order);
    forall x: nat, y: nat | src.Inside(x, y)
      ensures a.At(x, y) == b.At(x, y) <==> forall c: Color :: SumFits(src, p, c, x, y)
    {
      PixelExactIff(src, p, order, max, x, y);
    }
    if NoWrap(src, p) {
      SameCells(a, b);
    }
  }

  lemma PixelExactIff(src: Image<nat>, p: BayerPattern, order: ChannelOrder, max: nat, x: nat, y: nat)
    requires Mosaic(src) && Samples(src, max) && src.Inside(x, y)
    ensures WrappedPixel(src, p, order, max, x, y) == BilinearPixel(src, p, order, x, y)
            <==> forall c: Color :: SumFits(src, p, c, x, y)
  {
    hide Samples, SumFits, WrappedValue, BilinearValue;
    forall c: Color
      ensures WrappedValue(src, p, c, max, x, y) == BilinearValue(src, p, c, x, y) <==> SumFits(src, p, c, x, y)
    {
      ValueExactIff(src, p, c, max, x, y);
    }
    var a, b := WrappedPixel(src, p, order, max, x, y), BilinearPixel(src, p, order, x, y);
    assert a[ColorChannel(0, order)] == WrappedValue(src, p, 0, max, x, y) && b[ColorChannel(0, order)] == BilinearValue(src, p, 0, x, y);
    assert a[ColorChannel(1, order)] == WrappedValue(src, p, 1, max, x, y) && b[ColorChannel(1, order)] == BilinearValue(src, p, 1, x, y);
    assert a[ColorChannel(2, order)] == WrappedValue(src, p, 2, max, x, y) && b[ColorChannel(2, order)] == BilinearValue(src, p, 2, x, y);
    if forall c: Color :: SumFits(src, p, c, x, y) {
      OrderedUnique(a, b, order);
    }
  }

  // ---------------------------------------------------------------- all sources of a shape

  /** Every sample at its maximum. */
  function White(w: nat, h: nat, max: nat): (src: Image<nat>)
    ensures src.Valid() && src.width == w && src.height == h && Samples(src, max)
    ensures forall x: nat, y: nat | x < w && y < h :: src.At(x, y) == max
  {
    Tabulate(w, h, (_, _) => max)
  }

  lemma WhiteSum(w: nat, h: nat, max: nat, p: BayerPattern, c: Color, x: nat, y: nat)
    ensures var src := White(w, h, max); WindowSum(src, p, c, x, y) == WindowCount(src, p, c, x, y) * max
  {
    var src := White(w, h, max);
    hide ColorAt, Sample, Hit;
    forall sx: int, sy: int ensures Sample(src, p, c, sx, sy) == max * Hit(src, p, c, sx, sy) {
      SampleBetween(src, p, c, sx, sy, max, max);
    }
    WeighedWindow(src, p, c, x, y, max);
    assert max * WindowCount(src, p, c, x, y) == WindowCount(src, p, c, x, y) * max by { hide WindowCount; }
  }

  lemma CountByShape(a: Image<nat>, b: Image<nat>, p: BayerPattern, c: Color, x: nat, y: nat)
    requires a.SameShape(b)
    ensures WindowCount(a, p, c, x, y) == WindowCount(b, p, c, x, y)
  {
    hide ColorAt;
  }

  /** The samples a window of this shape can hold, all at their maximum, fit the sum. */
  ghost predicate WindowsFit(w: nat, h: nat, p: BayerPattern, max: nat) {
    forall x: nat, y: nat, c: Color | x < w && y < h ::
      var n := WindowCount(White(w, h, max), p, c, x, y); n * max + n / 2 < U64
  }

  lemma FitsEverywhere(src: Image<nat>, p: BayerPattern, c: Color, max: nat, x: nat, y: nat)
    requires Mosaic(src) && Samples(src, max) && src.Inside(x, y) && WindowsFit(src.width, src.height, p, max)
    ensures SumFits(src, p, c, x, y)
  {
    SumBound(src, p, c, max, x, y);
    CountByShape(src, White(src.width, src.height, max), p, c, x, y);
    hide WindowSum, WindowCount, Samples;
  }

  /** A window that does not fit, in a source of any uniform brightness. */
  lemma UnfitWindow(w: nat, h: nat, p: BayerPattern, max: nat) returns (c: Color, x: nat, y: nat, n: nat)
    requires w >= 2 && h >= 2 && !WindowsFit(w, h, p, max)
    ensures x < w && y < h && 0 < n <= 9 && n * max + n / 2 >= U64
    ensures forall v: nat :: WindowCount(White(w, h, v), p, c, x, y) == n
  {
    x, y, c :| x < w && y < h && var n := WindowCount(White(w, h, max), p, c, x, y); n * max + n / 2 >= U64;
    n := WindowCount(White(w, h, max), p, c, x, y);
    CountDivides(White(w, h, max), p, c, x, y);
    hide WindowCount;
    forall v: nat ensures WindowCount(White(w, h, v), p, c, x, y) == n {
      CountByShape(White(w, h, v), White(w, h, max), p, c, x, y);
    }
  }

  /** The bilinear method is exact for all sources of a shape and channel type if and only if full windows fit. */
  lemma ShapeExactIff(w: nat, h: nat, p: BayerPattern, order: ChannelOrder, max: nat)
    requires w >= 2 && h >= 2
    ensures (forall src: Image<nat> | Samples(src, max) && src.width == w && src.height == h ::
               WrappedImage(src, p, order, max) == BilinearImage(src, p, order))
            <==> WindowsFit(w, h, p, max)
  {
    var white := White(w, h, max);
    hide WrappedImage, BilinearImage, WindowSum, WindowCount;
    forall x: nat, y: nat, c: Color | x < w && y < h
      ensures SumFits(white, p, c, x, y)
              <==> var n := WindowCount(white, p, c, x, y); n * max + n / 2 < U64
    {
      WhiteSum(w, h, max, p, c, x, y);
    }
    ImageExactIff(white, p, order, max);
    if WindowsFit(w, h, p, max) {
      forall src: Image<nat> | Samples(src, max) && src.width == w && src.height == h
        ensures WrappedImage(src, p, order, max) == BilinearImage(src, p, order)
      {
        forall x: nat, y: nat, c: Color | src.Inside(x, y) ensures SumFits(src, p, c, x, y) {
          FitsEverywhere(src, p, c, max, x, y);
        }
        ImageExactIff(src, p, order, max);
      }
    }
  }

  // ---------------------------------------------------------------- what the returned values promise

  ghost predicate AlwaysBetween(w: nat, h: nat, p: BayerPattern, max: nat)
    requires w >= 2 && h >= 2
  {
    forall src: Image<nat>, c: Color, x: nat, y: nat, lo: nat, hi: nat
      | Samples(src, max) && src.width == w && src.height == h && x < w && y < h && WindowBetween(src, p, c, x, y, lo, hi) ::
      lo <= WrappedValue(src, p, c, max, x, y) <= hi
  }

  /** Returned values stay between bounds of their window, for all sources of a shape, if and only if full windows fit. */
  lemma BetweenIff(w: nat, h: nat, p: BayerPattern, max: nat)
    requires w >= 2 && h >= 2
    ensures AlwaysBetween(w, h, p, max) <==> WindowsFit(w, h, p, max)
  {
    hide WrappedValue, BilinearValue, WindowsFit, SumFits;
    if WindowsFit(w, h, p, max) {
      forall src: Image<nat>, c: Color, x: nat, y: nat, lo: nat, hi: nat
        | Samples(src, max) && src.width == w && src.height == h && x < w && y < h && WindowBetween(src, p, c, x, y, lo, hi)
        ensures lo <= WrappedValue(src, p, c, max, x, y) <= hi
      {
        FitsEverywhere(src, p, c, max, x, y);
        ValueExactIff(src, p, c, max, x, y);
        BilinearBetween(src, p, c, x, y, lo, hi);
        hide WindowBetween, Samples;
      }
    } else {
      var c, x, y := WhiteDarkens(w, h, p, max);
      assert WindowBetween(White(w, h, max), p, c, x, y, max, max);
    }
  }

  /** A white source that does not fit comes back darker somewhere. */
  lemma WhiteDarkens(w: nat, h: nat, p: BayerPattern, max: nat) returns (c: Color, x: nat, y: nat)
    requires w >= 2 && h >= 2 && !WindowsFit(w, h, p, max)
    ensures x < w && y < h && WrappedValue(White(w, h, max), p, c, max, x, y) != max
    ensures WindowSum(White(w, h, max), p, c, x, y) == WindowCount(White(w, h, max), p, c, x, y) * max
    ensures WindowCount(White(w, h, max), p, c, x, y) > 0
  {
    hide WrappedValue, BilinearValue, WindowsFit, WindowSum, WindowCount;
    var n;
    c, x, y, n := UnfitWindow(w, h, p, max);
    var white := White(w, h, max);
    WhiteSum(w, h, max, p, c, x, y);
    ValueExactIff(white, p, c, max, x, y);
    BilinearBetween(white, p, c, x, y, max, max);
  }

  ghost predicate AlwaysNearest(w: nat, h: nat, p: BayerPattern, max: nat)
    requires w >= 2 && h >= 2
  {
    forall src: Image<nat>, c: Color, x: nat, y: nat
      | Samples(src, max) && src.width == w && src.height == h && x < w && y < h ::
      Near(WindowSum(src, p, c, x, y), WindowCount(src, p, c, x, y), WrappedValue(src, p, c, max, x, y))
  }

  /** So do they stay nearest to the window mean. */
  lemma NearestIff(w: nat, h: nat, p: BayerPattern, max: nat)
    requires w >= 2 && h >= 2
    ensures AlwaysNearest(w, h, p, max) <==> WindowsFit(w, h, p, max)
  {
    hide WrappedValue, BilinearValue, WindowsFit, SumFits, WindowSum, WindowCount;
    if WindowsFit(w, h, p, max) {
      forall src: Image<nat>, c: Color, x: nat, y: nat
        | Samples(src, max) && src.width == w && src.height == h && x < w && y < h
        ensures Near(WindowSum(src, p, c, x, y), WindowCount(src, p, c, x, y), WrappedValue(src, p, c, max, x, y))
      {
        FitsEverywhere(src, p, c, max, x, y);
        ValueExactIff(src, p, c, max, x, y);
        BilinearNearest(src, p, c, x, y);
      }
    } else {
      var c, x, y := WhiteDarkens(w, h, p, max);
      var white := White(w, h, max);
      FarOff(WindowCount(white, p, c, x, y), max, WrappedValue(white, p, c, max, x, y));
    }
  }

  ghost predicate Darker(a: Image<nat>, b: Image<nat>)
    requires a.Valid() && b.Valid()
  {
    a.SameShape(b) && forall x: nat, y: nat | a.Inside(x, y) :: a.At(x, y) <= b.At(x, y)
  }

  ghost predicate AlwaysMonotone(w: nat, h: nat, p: BayerPattern, max: nat)
    requires w >= 2 && h >= 2
  {
    forall a: Image<nat>, b: Image<nat>, c: Color, x: nat, y: nat
      | Samples(a, max) && Samples(b, max) && a.width == w && a.height == h && Darker(a, b) && x < w && y < h ::
      WrappedValue(a, p, c, max, x, y) <= WrappedValue(b, p, c, max, x, y)
  }

  /** A brighter source is nowhere darker after demosaicing, for all sources of a shape, if and only if full windows fit. */
  lemma MonotoneIff(w: nat, h: nat, p: BayerPattern, max: nat)
    requires w >= 2 && h >= 2
    ensures AlwaysMonotone(w, h, p, max) <==> WindowsFit(w, h, p, max)
  {
    hide WrappedValue, BilinearValue, WindowsFit, SumFits;
    if WindowsFit(w, h, p, max) {
      forall a: Image<nat>, b: Image<nat>, c: Color, x: nat, y: nat
        | Samples(a, max) && Samples(b, max) && a.width == w && a.height == h && Darker(a, b) && x < w && y < h
        ensures WrappedValue(a, p, c, max, x, y) <= WrappedValue(b, p, c, max, x, y)
      {
        FitsEverywhere(a, p, c, max, x, y);
        FitsEverywhere(b, p, c, max, x, y);
        ValueExactIff(a, p, c, max, x, y);
        ValueExactIff(b, p, c, max, x, y);
        BilinearMonotone(a, b, p, c, x, y);
        hide Samples;
      }
    } else {
      var v, c, x, y := BrighterDarkens(w, h, p, max);
      assert Darker(White(w, h, v - 1), White(w, h, v));
    }
  }

  /** The first uniform brightness whose sum wraps comes back black. */
  lemma BrighterDarkens(w: nat, h: nat, p: BayerPattern, max: nat) returns (v: nat, c: Color, x: nat, y: nat)
    requires w >= 2 && h >= 2 && !WindowsFit(w, h, p, max)
    ensures 0 < v <= max && x < w && y < h
    ensures Samples(White(w, h, v - 1), max) && Samples(White(w, h, v), max)
    ensures WrappedValue(White(w, h, v - 1), p, c, max, x, y) > WrappedValue(White(w, h, v), p, c, max, x, y)
  {
    hide WindowsFit, WindowSum, WindowCount;
    var n;
    c, x, y, n := UnfitWindow(w, h, p, max);
    v := FirstWrap(n, max);
    WhiteSum(w, h, v - 1, p, c, x, y);
    WhiteSum(w, h, v, p, c, x, y);
    assert WrappedValue(White(w, h, v - 1), p, c, max, x, y) == WrappedMean(n * (v - 1), n, U64, max);
    assert WrappedValue(White(w, h, v), p, c, max, x, y) == WrappedMean(n * v, n, U64, max);
  }

  lemma FirstWrap(n: nat, max: nat) returns (v: nat)
    requires 0 < n <= 9 && n * max + n / 2 >= U64
    ensures 0 < v <= max && n % U64 == n
    ensures WrappedMean(n * (v - 1), n, U64, max) > WrappedMean(n * v, n, U64, max)
  {
    v := LeastMultiple(n, U64 - n / 2, max);
    WholeMean(n, v - 1, max);
    WrapsToBlack(n, n * v, max);
  }

  /** The least v whose multiple reaches `need`. */
  lemma LeastMultiple(n: nat, need: nat, max: nat) returns (v: nat)
    requires 0 < n <= 9 && n * max >= need > 100
    ensures 1 < v <= max && need <= n * v < need + n && n * (v - 1) == n * v - n
  {
    v := (need + n - 1) / n;
    assert need + n - 1 == n * v + (need + n - 1) % n;
    MulOrder(n, max, v);
    MulOrder(n, v, 2);
    MulNext(n, v - 1);
  }

  lemma WrapsToBlack(n: nat, sum: nat, max: nat)
    requires 0 < n <= 9 && U64 <= sum + n / 2 < U64 + n
    ensures n % U64 == n && WrappedMean(sum, n, U64, max) == 0
  {
    var t := sum + n / 2;
    DivModUnique(n, U64, 0, n);
    ModAdd(sum, n / 2, U64);
    DivModUnique(t, U64, 1, t - U64);
    DivModUnique(t - U64, n, 0, t - U64);
    DivModUnique(0, max + 1, 0, 0);
  }

  /** The mean of n equal samples that do not wrap is the sample, in every channel that can hold it. */
  lemma WholeMean(n: nat, v: nat, max: nat)
    requires 0 < n < U64 && v <= max && n * v + n / 2 < U64
    ensures n % U64 == n && WrappedMean(n * v, n, U64, max) == v
  {
    MulOrder(n, max, v);
    MeanExactIff(n * v, n, U64, max);
    assert v * n == n * v;
    RoundedBetween(n * v, n, v, v);
  }

  // ---------------------------------------------------------------- the bound

  /** No window holds more than five samples of one colour. */
  lemma AtMostFive(src: Image<nat>, p: BayerPattern, c: Color, x: nat, y: nat)
    ensures WindowCount(src, p, c, x, y) <= 5
  {
    forall sx: int, sy: int ensures Hit(src, p, c, sx, sy) <= Bit(p, c, sx, sy) {
      hide ColorAt;
    }
    FiveBits(p, c, x, y);
    hide Hit, Bit, ColorAt;
  }

  function Bit(p: BayerPattern, c: Color, x: int, y: int): nat { if ColorAt(p, x, y) == c then 1 else 0 }

  /** The sites of colour c in an unclipped window. */
  function BitSum(p: BayerPattern, c: Color, x: int, y: int): nat {
    Bit(p, c, x - 1, y - 1) + Bit(p, c, x, y - 1) + Bit(p, c, x + 1, y - 1) +
    Bit(p, c, x - 1, y) + Bit(p, c, x, y) + Bit(p, c, x + 1, y) +
    Bit(p, c, x - 1, y + 1) + Bit(p, c, x, y + 1) + Bit(p, c, x + 1, y + 1)
  }

  lemma FiveBits(p: BayerPattern, c: Color, x: int, y: int)
    ensures BitSum(p, c, x, y)
            == if c != 1 then (if c == ColorAt(p, x, y) then 1 else if ColorAt(p, x, y) != 1 then 4 else 2)
               else if ColorAt(p, x, y) == 1 then 5 else 4
  {
    assert (x - 1) % 2 == (x + 1) % 2 == 1 - x % 2 && (y - 1) % 2 == (y + 1) % 2 == 1 - y % 2;
    ColorByParity(p, x, y);
    forall sx: int, sy: int
      ensures var (rx, ry) := RedSite(p);
              Bit(p, c, sx, sy) == if c == (if sx % 2 == rx && sy % 2 == ry then 0 else if sx % 2 != rx && sy % 2 != ry then 2 else 1) then 1 else 0
    {
      ColorByParity(p, sx, sy);
      hide ColorAt;
    }
    hide Bit, ColorAt;
  }

  /** An inner green site sees five green samples. */
  lemma FiveGreens(src: Image<nat>, p: BayerPattern, x: nat, y: nat)
    requires 1 <= x < src.width - 1 && 1 <= y < src.height - 1 && ColorAt(p, x, y) == 1
    ensures WindowCount(src, p, 1, x, y) == 5
  {
    FiveBits(p, 1, x, y);
    InnerWindow(src, p, 1, x, y);
    hide ColorAt, BitSum, WindowCount;
  }

  lemma InnerWindow(src: Image<nat>, p: BayerPattern, c: Color, x: nat, y: nat)
    requires 1 <= x < src.width - 1 && 1 <= y < src.height - 1
    ensures WindowCount(src, p, c, x, y) == BitSum(p, c, x, y)
  {
    hide Bit, Hit;
    InnerRow(src, p, c, x, y - 1);
    InnerRow(src, p, c, x, y);
    InnerRow(src, p, c, x, y + 1);
  }

  lemma InnerRow(src: Image<nat>, p: BayerPattern, c: Color, x: int, y: int)
    requires 1 <= x < src.width - 1 && 0 <= y < src.height
    ensures Hit(src, p, c, x - 1, y) == Bit(p, c, x - 1, y) && Hit(src, p, c, x, y) == Bit(p, c, x, y)
            && Hit(src, p, c, x + 1, y) == Bit(p, c, x + 1, y)
  {
    hide ColorAt;
  }

  /** Shapes in which some green site has all eight neighbours. */
  predicate HasInnerGreen(w: nat, h: nat, p: BayerPattern) {
    w >= 3 && h >= 3 && (w >= 4 || h >= 4 || p.Grbg? || p.Gbrg?)
  }

  lemma InnerGreen(w: nat, h: nat, p: BayerPattern) returns (x: nat, y: nat)
    requires HasInnerGreen(w, h, p)
    ensures 1 <= x < w - 1 && 1 <= y < h - 1 && ColorAt(p, x, y) == 1
  {
    x, y := if ColorAt(p, 1, 1) == 1 || w == 3 then 1 else 2, if ColorAt(p, 1, 1) == 1 || w > 3 then 1 else 2;
  }

  /** For every size, five full samples and the rounding that fit the sum are enough. */
  lemma FiveFitEverywhere(w: nat, h: nat, p: BayerPattern, max: nat)
    requires 5 * max + 2 < U64
    ensures WindowsFit(w, h, p, max)
  {
    forall x: nat, y: nat, c: Color | x < w && y < h
      ensures var n := WindowCount(White(w, h, max), p, c, x, y); n * max + n / 2 < U64
    {
      AtMostFive(White(w, h, max), p, c, x, y);
      hide WindowCount, White;
      FewFit(WindowCount(White(w, h, max), p, c, x, y), max);
    }
  }

  lemma FewFit(n: nat, max: nat)
    requires n <= 5
    ensures n * max + n / 2 <= 5 * max + 2
  {
    MulOrder(max, n, 5);
    assert n * max == max * n && max * 5 == 5 * max;
  }

  /** And necessary wherever a green site has all its neighbours, which is every shape from four by four on. */
  lemma BilinearExactIff(w: nat, h: nat, p: BayerPattern, order: ChannelOrder, max: nat)
    requires HasInnerGreen(w, h, p)
    ensures (forall src: Image<nat> | Samples(src, max) && src.width == w && src.height == h ::
               WrappedImage(src, p, order, max) == BilinearImage(src, p, order))
            <==> 5 * max + 2 < U64
  {
    ShapeExactIff(w, h, p, order, max);
    hide WrappedImage, BilinearImage, Samples;
    if 5 * max + 2 < U64 {
      FiveFitEverywhere(w, h, p, max);
    } else {
      var x, y := InnerGreen(w, h, p);
      FiveGreens(White(w, h, max), p, x, y);
      hide WindowCount;
    }
  }

  /** Channels of up to 61 bits are exact in every size; 64-bit channels are not. */
  lemma NarrowChannelsExact(src: Image<nat>, p: BayerPattern, order: ChannelOrder, max: nat)
    requires Mosaic(src) && Samples(src, max) && max < 0x2000_0000_0000_0000
    ensures WrappedImage(src, p, order, max) == BilinearImage(src, p, order)
  {
    FiveFitEverywhere(src.width, src.height, p, max);
    ShapeExactIff(src.width, src.height, p, order, max);
    hide WrappedImage, BilinearImage, WindowsFit;
  }

  // ---------------------------------------------------------------- flat fields

  /** The code returns a flat field unchanged if and only if its method is Block2x2 or no window sum wraps. */
  lemma FlatFieldIff(src: Image<nat>, p: BayerPattern, order: ChannelOrder, m: Method, max: nat, red: nat, green: nat, blue: nat)
    requires Mosaic(src) && Samples(src, max) && FlatMosaic(src, p, red, green, blue)
    ensures Demosaiced(src, p, order, m, max) == Constant(src.width, src.height, Ordered(red, green, blue, order))
            <==> m.Block2x2? || NoWrap(src, p)
  {
    FlatField(src, p, order, red, green, blue);
    ImageExactIff(src, p, order, max);
    hide WrappedImage, BilinearImage, BlockImage, Constant, NoWrap;
  }

  /** A 64-bit source: three by three samples of 2^63, whose five greens around the centre wrap. */
  lemma WideFlatFieldWraps(order: ChannelOrder)
    ensures var v := 0x8000_0000_0000_0000;
            var src := White(3, 3, v);
            && Mosaic(src) && Samples(src, U64 - 1) && FlatMosaic(src, Grbg, v, v, v)
            && Demosaiced(src, Grbg, order, Bilinear, U64 - 1) != Constant(3, 3, Ordered(v, v, v, order))
  {
    var v := 0x8000_0000_0000_0000;
    var src := White(3, 3, v);
    FiveGreens(src, Grbg, 1, 1);
    WhiteSum(3, 3, v, Grbg, 1, 1, 1);
    hide WindowSum, WindowCount;
    assert !SumFits(src, Grbg, 1, 1, 1);
    FlatFieldIff(src, Grbg, order, Bilinear, U64 - 1, v, v, v);
    hide Demosaiced, Constant;
  }
}
