/**
Bayer demosaicing (api/wse/data/wse_ImageDemosaic.h): the colour layout, what each method computes
at each pixel, and the two nested-loop implementations.

A colour is an index: 0 red, 1 green, 2 blue. A one-channel source is an `Image<nat>`; a
three-channel pixel is a sequence of three channel values in storage order.
*/
module Demosaic {
  import opened Grid
  import opened Rounding

  datatype BayerPattern = Rggb | Bggr | Grbg | Gbrg

  datatype ChannelOrder = Rgb | Bgr

  datatype Method = Block2x2 | Bilinear

  type Color = c: nat | c < 3

  const U64: nat := 0x1_0000_0000_0000_0000

  // ---------------------------------------------------------------- colour layout

  function BlockColors(p: BayerPattern): (s: seq<Color>)
    ensures |s| == 4
  {
    match p
    case Rggb => [0, 1, 1, 2]
    case Bggr => [2, 1, 1, 0]
    case Grbg => [1, 0, 2, 1]
    case Gbrg => [1, 2, 0, 1]
  }

  function ColorAt(p: BayerPattern, x: int, y: int): Color {
    BlockColors(p)[(y % 2) * 2 + x % 2]
  }

  function ColorChannel(c: Color, order: ChannelOrder): Color {
    if order.Rgb? then c else 2 - c
  }

  /** Three colour values in storage order. */
  function Ordered(red: nat, green: nat, blue: nat, order: ChannelOrder): (px: seq<nat>)
    ensures |px| == 3
    ensures px[ColorChannel(0, order)] == red
    ensures px[ColorChannel(1, order)] == green
    ensures px[ColorChannel(2, order)] == blue
  {
    if order.Rgb? then [red, green, blue] else [blue, green, red]
  }

  /** A source whose samples all fit in a channel of the given maximum. */
  ghost predicate Samples(src: Image<nat>, max: nat) {
    src.Valid() && forall x: nat, y: nat | src.Inside(x, y) :: src.At(x, y) <= max
  }

  ghost predicate Mosaic(src: Image<nat>) {
    src.Valid() && src.width >= 2 && src.height >= 2
  }

  // ---------------------------------------------------------------- bilinear: the value of one pixel

  /** Site (x, y) exists and carries colour c. */
  predicate Site(src: Image<nat>, p: BayerPattern, c: Color, x: int, y: int) {
    src.Inside(x, y) && ColorAt(p, x, y) == c
  }

  function Sample(src: Image<nat>, p: BayerPattern, c: Color, x: int, y: int): nat
    requires src.Valid()
  {
    if Site(src, p, c, x, y) then src.At(x, y) else 0
  }

  function Hit(src: Image<nat>, p: BayerPattern, c: Color, x: int, y: int): nat {
    if Site(src, p, c, x, y) then 1 else 0
  }

  /** Sum of the samples of colour c in the three-by-three neighbourhood of (x, y). */
  function WindowSum(src: Image<nat>, p: BayerPattern, c: Color, x: int, y: int): nat
    requires src.Valid()
  {
    Sample(src, p, c, x - 1, y - 1) + Sample(src, p, c, x, y - 1) + Sample(src, p, c, x + 1, y - 1) +
    Sample(src, p, c, x - 1, y) + Sample(src, p, c, x, y) + Sample(src, p, c, x + 1, y) +
    Sample(src, p, c, x - 1, y + 1) + Sample(src, p, c, x, y + 1) + Sample(src, p, c, x + 1, y + 1)
  }

  function WindowCount(src: Image<nat>, p: BayerPattern, c: Color, x: int, y: int): nat {
    Hit(src, p, c, x - 1, y - 1) + Hit(src, p, c, x, y - 1) + Hit(src, p, c, x + 1, y - 1) +
    Hit(src, p, c, x - 1, y) + Hit(src, p, c, x, y) + Hit(src, p, c, x + 1, y) +
    Hit(src, p, c, x - 1, y + 1) + Hit(src, p, c, x, y + 1) + Hit(src, p, c, x + 1, y + 1)
  }

  /** The clipped window contains every colour, corners and odd edges included. */
  lemma WindowHasColor(src: Image<nat>, p: BayerPattern, c: Color, x: nat, y: nat)
    requires Mosaic(src) && src.Inside(x, y)
    ensures WindowCount(src, p, c, x, y) > 0
  {
    hide WindowCount;
    var x0 := if x + 1 < src.width then x else x - 1;
    var y0 := if y + 1 < src.height then y else y - 1;
    assert Hit(src, p, c, x0, y0) + Hit(src, p, c, x0 + 1, y0)
           + Hit(src, p, c, x0, y0 + 1) + Hit(src, p, c, x0 + 1, y0 + 1) > 0 by {
      BlockHasColor(p, c, x0, y0);
    }
    WindowCoversBlock(src, p, c, x, y, x0, y0);
  }

  lemma BlockHasColor(p: BayerPattern, c: Color, x: nat, y: nat)
    ensures ColorAt(p, x, y) == c || ColorAt(p, x + 1, y) == c
            || ColorAt(p, x, y + 1) == c || ColorAt(p, x + 1, y + 1) == c
  {
    assert x % 2 + (x + 1) % 2 == 1 && y % 2 + (y + 1) % 2 == 1;
  }

  lemma WindowCoversBlock(src: Image<nat>, p: BayerPattern, c: Color, x: nat, y: nat, x0: int, y0: int)
    requires x - 1 <= x0 <= x && y - 1 <= y0 <= y
    ensures WindowCount(src, p, c, x, y) >=
            Hit(src, p, c, x0, y0) + Hit(src, p, c, x0 + 1, y0)
            + Hit(src, p, c, x0, y0 + 1) + Hit(src, p, c, x0 + 1, y0 + 1)
  {
    hide Hit;
  }

  lemma WindowCountSmall(src: Image<nat>, p: BayerPattern, c: Color, x: int, y: int)
    ensures WindowCount(src, p, c, x, y) <= 9
  {
  }

  function BilinearValue(src: Image<nat>, p: BayerPattern, c: Color, x: nat, y: nat): nat
    requires Mosaic(src) && src.Inside(x, y)
  {
    WindowHasColor(src, p, c, x, y);
    Rounded(WindowSum(src, p, c, x, y), WindowCount(src, p, c, x, y))
  }

  function BilinearPixel(src: Image<nat>, p: BayerPattern, order: ChannelOrder, x: nat, y: nat): seq<nat>
    requires Mosaic(src) && src.Inside(x, y)
  {
    Ordered(BilinearValue(src, p, 0, x, y), BilinearValue(src, p, 1, x, y), BilinearValue(src, p, 2, x, y), order)
  }

  function BilinearImage(src: Image<nat>, p: BayerPattern, order: ChannelOrder): (img: Image<seq<nat>>)
    requires Mosaic(src)
    ensures img.Valid() && img.SameShape(src)
  {
    Tabulate(src.width, src.height,
             (x: nat, y: nat) requires src.Inside(x, y) => BilinearPixel(src, p, order, x, y))
  }

  // ---------------------------------------------------------------- bilinear: what 64-bit sums make of it

  function WrappedValue(src: Image<nat>, p: BayerPattern, c: Color, max: nat, x: nat, y: nat): nat
    requires Mosaic(src) && src.Inside(x, y)
  {
    CountDivides(src, p, c, x, y);
    WrappedMean(WindowSum(src, p, c, x, y), WindowCount(src, p, c, x, y), U64, max)
  }

  lemma CountDivides(src: Image<nat>, p: BayerPattern, c: Color, x: nat, y: nat)
    requires Mosaic(src) && src.Inside(x, y)
    ensures 0 < WindowCount(src, p, c, x, y) == WindowCount(src, p, c, x, y) % U64 <= 9
  {
    WindowHasColor(src, p, c, x, y);
    WindowCountSmall(src, p, c, x, y);
    hide WindowCount;
  }

  function WrappedPixel(src: Image<nat>, p: BayerPattern, order: ChannelOrder, max: nat, x: nat, y: nat): seq<nat>
    requires Mosaic(src) && src.Inside(x, y)
  {
    Ordered(WrappedValue(src, p, 0, max, x, y), WrappedValue(src, p, 1, max, x, y), WrappedValue(src, p, 2, max, x, y), order)
  }

  function WrappedImage(src: Image<nat>, p: BayerPattern, order: ChannelOrder, max: nat): (img: Image<seq<nat>>)
    requires Mosaic(src)
    ensures img.Valid() && img.SameShape(src)
  {
    Tabulate(src.width, src.height,
             (x: nat, y: nat) requires src.Inside(x, y) => WrappedPixel(src, p, order, max, x, y))
  }

  // ---------------------------------------------------------------- block: the value of one pixel

  /** First coordinate of the two-sample block that serves a tile starting at `tile`. */
  function BlockStart(tile: nat, n: nat): nat
    requires n >= 2 && tile < n
  {
    if tile + 1 < n then tile else tile - 1
  }

  /** Colours of the two-by-two block at (blockX, blockY), scanned row by row. */
  function Scan(p: BayerPattern, blockX: nat, blockY: nat): (s: seq<Color>)
    ensures |s| == 4 && forall j | 0 <= j < 4 :: s[j] == ColorAt(p, blockX + j % 2, blockY + j / 2)
  {
    [ColorAt(p, blockX, blockY), ColorAt(p, blockX + 1, blockY), ColorAt(p, blockX, blockY + 1), ColorAt(p, blockX + 1, blockY + 1)]
  }

  /** Position of the first c in s, or |s|. */
  function FirstIn(s: seq<Color>, c: Color): (j: nat)
    ensures j <= |s| && (j < |s| ==> s[j] == c) && (j == |s| ==> c !in s)
    ensures forall i | 0 <= i < j :: s[i] != c
  {
    if s == [] || s[0] == c then 0 else 1 + FirstIn(s[1..], c)
  }

  function ScanSamples(src: Image<nat>, blockX: nat, blockY: nat): (s: seq<nat>)
    requires src.Valid() && src.Inside(blockX + 1, blockY + 1)
    ensures |s| == 4 && forall j | 0 <= j < 4 :: s[j] == src.At(blockX + j % 2, blockY + j / 2)
  {
    [src.At(blockX, blockY), src.At(blockX + 1, blockY), src.At(blockX, blockY + 1), src.At(blockX + 1, blockY + 1)]
  }

  lemma ScanHasColor(p: BayerPattern, c: Color, blockX: nat, blockY: nat)
    ensures FirstIn(Scan(p, blockX, blockY), c) < 4
  {
    BlockHasColor(p, c, blockX, blockY);
    assert Scan(p, blockX, blockY)[0] == c || Scan(p, blockX, blockY)[1] == c || Scan(p, blockX, blockY)[2] == c || Scan(p, blockX, blockY)[3] == c;
  }

  /** The first sample of colour c in the two-by-two block at (blockX, blockY). */
  function BlockSample(src: Image<nat>, p: BayerPattern, c: Color, blockX: nat, blockY: nat): nat
    requires src.Valid() && src.Inside(blockX + 1, blockY + 1)
  {
    ScanHasColor(p, c, blockX, blockY);
    ScanSamples(src, blockX, blockY)[FirstIn(Scan(p, blockX, blockY), c)]
  }

  function BlockValue(src: Image<nat>, p: BayerPattern, c: Color, x: nat, y: nat): nat
    requires Mosaic(src) && src.Inside(x, y)
  {
    BlockSample(src, p, c, BlockStart(x - x % 2, src.width), BlockStart(y - y % 2, src.height))
  }

  function BlockPixel(src: Image<nat>, p: BayerPattern, order: ChannelOrder, x: nat, y: nat): seq<nat>
    requires Mosaic(src) && src.Inside(x, y)
  {
    Ordered(BlockValue(src, p, 0, x, y), BlockValue(src, p, 1, x, y), BlockValue(src, p, 2, x, y), order)
  }

  function BlockImage(src: Image<nat>, p: BayerPattern, order: ChannelOrder): (img: Image<seq<nat>>)
    requires Mosaic(src)
    ensures img.Valid() && img.SameShape(src)
  {
    Tabulate(src.width, src.height,
             (x: nat, y: nat) requires src.Inside(x, y) => BlockPixel(src, p, order, x, y))
  }

  // ---------------------------------------------------------------- window sums, as the loops build them

  /** Samples of colour c in row y between columns x0 (included) and x1 (excluded). */
  ghost function RowSum(src: Image<nat>, p: BayerPattern, c: Color, y: int, x0: int, x1: int): nat
    requires src.Valid()
    decreases x1 - x0
  {
    if x1 <= x0 then 0 else RowSum(src, p, c, y, x0, x1 - 1) + Sample(src, p, c, x1 - 1, y)
  }

  ghost function RowCount(src: Image<nat>, p: BayerPattern, c: Color, y: int, x0: int, x1: int): nat
    decreases x1 - x0
  {
    if x1 <= x0 then 0 else RowCount(src, p, c, y, x0, x1 - 1) + Hit(src, p, c, x1 - 1, y)
  }

  ghost function RectSum(src: Image<nat>, p: BayerPattern, c: Color, x0: int, x1: int, y0: int, y1: int): nat
    requires src.Valid()
    decreases y1 - y0
  {
    if y1 <= y0 then 0 else RectSum(src, p, c, x0, x1, y0, y1 - 1) + RowSum(src, p, c, y1 - 1, x0, x1)
  }

  ghost function RectCount(src: Image<nat>, p: BayerPattern, c: Color, x0: int, x1: int, y0: int, y1: int): nat
    decreases y1 - y0
  {
    if y1 <= y0 then 0 else RectCount(src, p, c, x0, x1, y0, y1 - 1) + RowCount(src, p, c, y1 - 1, x0, x1)
  }

  function First(v: nat): nat { if v == 0 then 0 else v - 1 }

  function Last(v: nat, n: nat): nat { if v + 1 < n then v + 1 else v }

  /** A clipped row holds exactly the three neighbours, those outside the image counting as nothing. */
  lemma RowIsThree(src: Image<nat>, p: BayerPattern, c: Color, x: nat, y: int)
    requires src.Valid() && x < src.width
    ensures RowSum(src, p, c, y, First(x), Last(x, src.width) + 1)
            == Sample(src, p, c, x - 1, y) + Sample(src, p, c, x, y) + Sample(src, p, c, x + 1, y)
    ensures RowCount(src, p, c, y, First(x), Last(x, src.width) + 1)
            == Hit(src, p, c, x - 1, y) + Hit(src, p, c, x, y) + Hit(src, p, c, x + 1, y)
  {
    var a, b := First(x), Last(x, src.width) + 1;
    hide ColorAt;
    assert RowSum(src, p, c, y, a, a) == 0 && RowCount(src, p, c, y, a, a) == 0;
    assert RowSum(src, p, c, y, a, a + 1) == Sample(src, p, c, a, y);
    assert RowCount(src, p, c, y, a, a + 1) == Hit(src, p, c, a, y);
    assert b >= a + 2 ==> RowSum(src, p, c, y, a, a + 2) == Sample(src, p, c, a, y) + Sample(src, p, c, a + 1, y);
    assert b >= a + 2 ==> RowCount(src, p, c, y, a, a + 2) == Hit(src, p, c, a, y) + Hit(src, p, c, a + 1, y);
  }

  /** Three rows make the window; rows outside the image hold nothing. */
  lemma RectIsThreeRows(src: Image<nat>, p: BayerPattern, c: Color, x0: int, x1: int, y: nat)
    requires src.Valid() && y < src.height
    ensures RectSum(src, p, c, x0, x1, First(y), Last(y, src.height) + 1)
            == RowSum(src, p, c, y - 1, x0, x1) + RowSum(src, p, c, y, x0, x1) + RowSum(src, p, c, y + 1, x0, x1)
    ensures RectCount(src, p, c, x0, x1, First(y), Last(y, src.height) + 1)
            == RowCount(src, p, c, y - 1, x0, x1) + RowCount(src, p, c, y, x0, x1) + RowCount(src, p, c, y + 1, x0, x1)
  {
    hide RowSum, RowCount, RectSum, RectCount;
    if y == 0 { RowOutside(src, p, c, y - 1, x0, x1); }
    if y + 1 == src.height { RowOutside(src, p, c, y + 1, x0, x1); }
    RectOfRows(src, p, c, x0, x1, First(y));
  }

  lemma RectOfRows(src: Image<nat>, p: BayerPattern, c: Color, x0: int, x1: int, a: int)
    requires src.Valid()
    ensures RectSum(src, p, c, x0, x1, a, a + 1) == RowSum(src, p, c, a, x0, x1)
    ensures RectSum(src, p, c, x0, x1, a, a + 2) == RowSum(src, p, c, a, x0, x1) + RowSum(src, p, c, a + 1, x0, x1)
    ensures RectSum(src, p, c, x0, x1, a, a + 3)
            == RowSum(src, p, c, a, x0, x1) + RowSum(src, p, c, a + 1, x0, x1) + RowSum(src, p, c, a + 2, x0, x1)
    ensures RectCount(src, p, c, x0, x1, a, a + 1) == RowCount(src, p, c, a, x0, x1)
    ensures RectCount(src, p, c, x0, x1, a, a + 2) == RowCount(src, p, c, a, x0, x1) + RowCount(src, p, c, a + 1, x0, x1)
    ensures RectCount(src, p, c, x0, x1, a, a + 3)
            == RowCount(src, p, c, a, x0, x1) + RowCount(src, p, c, a + 1, x0, x1) + RowCount(src, p, c, a + 2, x0, x1)
  {
    hide RowSum, RowCount;
    assert RectSum(src, p, c, x0, x1, a, a) == 0 && RectCount(src, p, c, x0, x1, a, a) == 0;
  }

  lemma {:induction false} RowOutside(src: Image<nat>, p: BayerPattern, c: Color, y: int, x0: int, x1: int)
    requires src.Valid() && !(0 <= y < src.height)
    ensures RowSum(src, p, c, y, x0, x1) == 0 && RowCount(src, p, c, y, x0, x1) == 0
    decreases x1 - x0
  {
    if x0 < x1 {
      RowOutside(src, p, c, y, x0, x1 - 1);
    }
  }

  lemma RectIsWindow(src: Image<nat>, p: BayerPattern, c: Color, x: nat, y: nat)
    requires src.Valid() && src.Inside(x, y)
    ensures RectSum(src, p, c, First(x), Last(x, src.width) + 1, First(y), Last(y, src.height) + 1)
            == WindowSum(src, p, c, x, y)
    ensures RectCount(src, p, c, First(x), Last(x, src.width) + 1, First(y), Last(y, src.height) + 1)
            == WindowCount(src, p, c, x, y)
  {
    hide Sample, Hit, RowSum, RowCount, RectSum, RectCount, First, Last;
    RowIsThree(src, p, c, x, y - 1);
    RowIsThree(src, p, c, x, y);
    RowIsThree(src, p, c, x, y + 1);
    RectIsThreeRows(src, p, c, First(x), Last(x, src.width) + 1, y);
  }

  // ---------------------------------------------------------------- range of a bilinear value

  lemma SampleBetween(src: Image<nat>, p: BayerPattern, c: Color, x: int, y: int, lo: nat, hi: nat)
    requires src.Valid()
    requires Site(src, p, c, x, y) ==> lo <= src.At(x, y) <= hi
    ensures lo * Hit(src, p, c, x, y) <= Sample(src, p, c, x, y) <= hi * Hit(src, p, c, x, y)
  {
  }

  /** The samples of colour c in the window of (x, y) all lie between lo and hi. */
  ghost predicate WindowBetween(src: Image<nat>, p: BayerPattern, c: Color, x: nat, y: nat, lo: nat, hi: nat)
    requires src.Valid()
  {
    forall sx: int, sy: int | x - 1 <= sx <= x + 1 && y - 1 <= sy <= y + 1 && Site(src, p, c, sx, sy) ::
      lo <= src.At(sx, sy) <= hi
  }

  /** Each bilinear value lies between the least and the greatest sample of its colour in the window. */
  lemma BilinearBetween(src: Image<nat>, p: BayerPattern, c: Color, x: nat, y: nat, lo: nat, hi: nat)
    requires Mosaic(src) && src.Inside(x, y) && WindowBetween(src, p, c, x, y, lo, hi)
    ensures lo <= BilinearValue(src, p, c, x, y) <= hi
  {
    forall sx: int, sy: int | x - 1 <= sx <= x + 1 && y - 1 <= sy <= y + 1
      ensures lo * Hit(src, p, c, sx, sy) <= Sample(src, p, c, sx, sy) <= hi * Hit(src, p, c, sx, sy)
    {
      SampleBetween(src, p, c, sx, sy, lo, hi);
    }
    WindowHasColor(src, p, c, x, y);
    WeighedWindow(src, p, c, x, y, lo);
    WeighedWindow(src, p, c, x, y, hi);
    hide Sample, Hit;
    assert lo * WindowCount(src, p, c, x, y) <= WindowSum(src, p, c, x, y) <= hi * WindowCount(src, p, c, x, y);
    RoundedBetween(WindowSum(src, p, c, x, y), WindowCount(src, p, c, x, y), lo, hi);
  }

  lemma WeighedWindow(src: Image<nat>, p: BayerPattern, c: Color, x: int, y: int, k: nat)
    ensures k * WindowCount(src, p, c, x, y) ==
      k * Hit(src, p, c, x - 1, y - 1) + k * Hit(src, p, c, x, y - 1) + k * Hit(src, p, c, x + 1, y - 1) +
      k * Hit(src, p, c, x - 1, y) + k * Hit(src, p, c, x, y) + k * Hit(src, p, c, x + 1, y) +
      k * Hit(src, p, c, x - 1, y + 1) + k * Hit(src, p, c, x, y + 1) + k * Hit(src, p, c, x + 1, y + 1)
  {
    hide Hit;
  }

  // ---------------------------------------------------------------- the loops

  /** One output pixel of the bilinear method. */
  method BilinearAt(src: Image<nat>, p: BayerPattern, order: ChannelOrder, max: nat, x: nat, y: nat)
    returns (px: seq<nat>)
    requires Mosaic(src) && src.Inside(x, y)
    ensures px == WrappedPixel(src, p, order, max, x, y)
  {
    hide WindowSum, WindowCount;
    var sum, count := WindowTotals(src, p, x, y);
    px := [0, 0, 0];
    for c: nat := 0 to 3
      invariant |px| == 3
      invariant forall d: Color | d < c :: px[ColorChannel(d, order)] == WrappedValue(src, p, d, max, x, y)
    {
      CountDivides(src, p, c, x, y);
      var divisor := count[c];
      var value := ((sum[c] + divisor / 2) % U64) / divisor;
      px := px[ColorChannel(c, order) := value % (max + 1)];
    }
    hide WrappedValue;
    OrderedUnique(px, WrappedPixel(src, p, order, max, x, y), order);
  }

  /** A three-channel pixel is determined by its three colours. */
  lemma OrderedUnique(a: seq<nat>, b: seq<nat>, order: ChannelOrder)
    requires |a| == |b| == 3
    requires forall c: Color :: a[ColorChannel(c, order)] == b[ColorChannel(c, order)]
    ensures a == b
  {
    assert a[ColorChannel(0, order)] == b[ColorChannel(0, order)];
    assert a[ColorChannel(1, order)] == b[ColorChannel(1, order)];
    assert a[ColorChannel(2, order)] == b[ColorChannel(2, order)];
  }

  method WindowTotals(src: Image<nat>, p: BayerPattern, x: nat, y: nat)
    returns (sum: seq<nat>, count: seq<nat>)
    requires Mosaic(src) && src.Inside(x, y)
    ensures |sum| == 3 && |count| == 3
    ensures forall c: Color :: sum[c] == WindowSum(src, p, c, x, y) % U64
    ensures forall c: Color :: count[c] == WindowCount(src, p, c, x, y)
  {
    hide ColorAt, Totals;
    sum, count := [0, 0, 0], [0, 0, 0];
    var firstY := if y == 0 then 0 else y - 1;
    var lastY := if y + 1 < src.height then y + 1 else y;
    var firstX := if x == 0 then 0 else x - 1;
    var lastX := if x + 1 < src.width then x + 1 else x;
    TotalsStart(src, p, firstX, lastX + 1, firstY);
    for sy := firstY to lastY + 1
      invariant Totals(src, p, sum, count, firstX, lastX + 1, firstY, sy, firstX)
    {
      for sx := firstX to lastX + 1
        invariant Totals(src, p, sum, count, firstX, lastX + 1, firstY, sy, sx)
      {
        TotalsStep(src, p, sum, count, firstX, lastX + 1, firstY, sy, sx);
        var color := ColorAt(p, sx, sy);
        sum := sum[color := (sum[color] + src.At(sx, sy)) % U64];
        count := count[color := count[color] + 1];
      }
      TotalsRow(src, p, sum, count, firstX, lastX + 1, firstY, sy);
    }
    TotalsDone(src, p, sum, count, x, y);
  }

  /** The totals after rows y0 to sy and the columns of row sy before sx. */
  ghost predicate Totals(src: Image<nat>, p: BayerPattern, sum: seq<nat>, count: seq<nat>,
                         x0: int, x1: int, y0: int, sy: int, sx: int)
    requires src.Valid()
  {
    && |sum| == 3 && |count| == 3
    && (forall c: Color :: sum[c] == (RectSum(src, p, c, x0, x1, y0, sy) + RowSum(src, p, c, sy, x0, sx)) % U64)
    && (forall c: Color :: count[c] == RectCount(src, p, c, x0, x1, y0, sy) + RowCount(src, p, c, sy, x0, sx))
  }

  lemma TotalsStart(src: Image<nat>, p: BayerPattern, x0: int, x1: int, y0: int)
    requires src.Valid()
    ensures Totals(src, p, [0, 0, 0], [0, 0, 0], x0, x1, y0, y0, x0)
  {
  }

  /** One sample is added to the total of its own colour, modulo 2^64. */
  lemma TotalsStep(src: Image<nat>, p: BayerPattern, sum: seq<nat>, count: seq<nat>,
                   x0: int, x1: int, y0: int, sy: nat, sx: nat)
    requires src.Valid() && src.Inside(sx, sy) && x0 <= sx < x1 && y0 <= sy
    requires Totals(src, p, sum, count, x0, x1, y0, sy, sx)
    ensures |sum| == 3 && |count| == 3
    ensures var color := ColorAt(p, sx, sy);
            Totals(src, p, sum[color := (sum[color] + src.At(sx, sy)) % U64], count[color := count[color] + 1],
                   x0, x1, y0, sy, sx + 1)
  {
    hide ColorAt, RowSum, RowCount, RectSum, RectCount;
    var color := ColorAt(p, sx, sy);
    ModAdd(RectSum(src, p, color, x0, x1, y0, sy) + RowSum(src, p, color, sy, x0, sx), src.At(sx, sy), U64);
    forall c: Color
      ensures RowSum(src, p, c, sy, x0, sx + 1) == RowSum(src, p, c, sy, x0, sx) + if c == color then src.At(sx, sy) else 0
      ensures RowCount(src, p, c, sy, x0, sx + 1) == RowCount(src, p, c, sy, x0, sx) + if c == color then 1 else 0
    {
      RowNext(src, p, c, x0, sy, sx);
    }
  }

  lemma RowNext(src: Image<nat>, p: BayerPattern, c: Color, x0: int, sy: nat, sx: nat)
    requires src.Valid() && src.Inside(sx, sy) && x0 <= sx
    ensures RowSum(src, p, c, sy, x0, sx + 1) == RowSum(src, p, c, sy, x0, sx) + if c == ColorAt(p, sx, sy) then src.At(sx, sy) else 0
    ensures RowCount(src, p, c, sy, x0, sx + 1) == RowCount(src, p, c, sy, x0, sx) + if c == ColorAt(p, sx, sy) then 1 else 0
  {
    hide ColorAt;
  }

  lemma TotalsRow(src: Image<nat>, p: BayerPattern, sum: seq<nat>, count: seq<nat>, x0: int, x1: int, y0: int, sy: int)
    requires src.Valid() && y0 <= sy
    requires Totals(src, p, sum, count, x0, x1, y0, sy, x1)
    ensures Totals(src, p, sum, count, x0, x1, y0, sy + 1, x0)
  {
    hide Sample, Hit;
  }

  lemma TotalsDone(src: Image<nat>, p: BayerPattern, sum: seq<nat>, count: seq<nat>, x: nat, y: nat)
    requires src.Valid() && src.Inside(x, y)
    requires Totals(src, p, sum, count, First(x), Last(x, src.width) + 1, First(y), Last(y, src.height) + 1, First(x))
    ensures |sum| == 3 && |count| == 3
    ensures forall c: Color :: sum[c] == WindowSum(src, p, c, x, y) % U64
    ensures forall c: Color :: count[c] == WindowCount(src, p, c, x, y)
  {
    hide RectSum, RectCount, Sample, Hit, WindowSum, WindowCount;
    forall c: Color
      ensures sum[c] == WindowSum(src, p, c, x, y) % U64 && count[c] == WindowCount(src, p, c, x, y)
    {
      RectIsWindow(src, p, c, x, y);
    }
  }

  lemma {:induction false} FirstInPrefix(s: seq<Color>, c: Color, k: nat)
    requires k < |s|
    ensures FirstIn(s[..k + 1], c)
            == if FirstIn(s[..k], c) < k then FirstIn(s[..k], c) else if s[k] == c then k else k + 1
  {
    var a, b := FirstIn(s[..k], c), FirstIn(s[..k + 1], c);
    assert forall i | 0 <= i < k :: s[..k][i] == s[i] && s[..k + 1][i] == s[i];
    assert s[..k + 1][k] == s[k];
    assert a < k ==> s[a] == c;
    assert b < k + 1 ==> s[b] == c;
    assert forall i | 0 <= i < a :: s[i] == s[..k][i] != c;
    assert forall i | 0 <= i < b :: s[i] == s[..k + 1][i] != c;
  }

  /** What a block scan holds after k samples: the first sample of each colour seen so far. */
  ghost predicate Scanned(colors: seq<Color>, samples: seq<nat>, block: seq<nat>, count: seq<nat>, k: nat)
    requires k <= |colors| == |samples|
  {
    && |block| == 3 && |count| == 3
    && forall c: Color ::
         var j := FirstIn(colors[..k], c);
         (count[c] == 0 <==> j == k) && (j < k ==> block[c] == samples[j])
  }

  lemma ScannedStep(colors: seq<Color>, samples: seq<nat>, block: seq<nat>, count: seq<nat>, k: nat)
    requires k < |colors| == |samples|
    requires Scanned(colors, samples, block, count, k)
    ensures |block| == 3 && |count| == 3
    ensures var color := colors[k];
            Scanned(colors, samples, if count[color] == 0 then block[color := samples[k]] else block,
                    count[color := count[color] + 1], k + 1)
  {
    hide FirstIn;
    forall c: Color
      ensures FirstIn(colors[..k + 1], c)
              == (var j := FirstIn(colors[..k], c); if j < k then j else if colors[k] == c then k else k + 1)
    {
      FirstInPrefix(colors, c, k);
    }
  }

  /** First sample of each colour in one two-by-two block. */
  method BlockSamples(src: Image<nat>, p: BayerPattern, max: nat, blockX: nat, blockY: nat) returns (block: seq<nat>)
    requires Samples(src, max) && src.Inside(blockX + 1, blockY + 1)
    ensures |block| == 3 && forall c: Color :: block[c] == BlockSample(src, p, c, blockX, blockY)
  {
    hide ColorAt, FirstIn, Scanned, Scan, ScanSamples, BlockSample;
    ghost var colors, samples := Scan(p, blockX, blockY), ScanSamples(src, blockX, blockY);
    block := [0, 0, 0];
    var count := [0, 0, 0];
    ScannedStart(colors, samples);
    for oy := 0 to 2
      invariant Scanned(colors, samples, block, count, 2 * oy)
    {
      for ox := 0 to 2
        invariant Scanned(colors, samples, block, count, 2 * oy + ox)
      {
        ScannedStep(colors, samples, block, count, 2 * oy + ox);
        ScanAt(src, p, blockX, blockY, ox, oy);
        var color, sample := ColorAt(p, blockX + ox, blockY + oy), src.At(blockX + ox, blockY + oy);
        DivModUnique(sample, max + 1, 0, sample);
        if count[color] == 0 {
          block := block[color := sample % (max + 1)];
        }
        count := count[color := count[color] + 1];
      }
    }
    ScannedDone(src, p, blockX, blockY, block, count);
  }

  lemma ScanAt(src: Image<nat>, p: BayerPattern, blockX: nat, blockY: nat, ox: nat, oy: nat)
    requires src.Valid() && src.Inside(blockX + 1, blockY + 1) && ox < 2 && oy < 2
    ensures Scan(p, blockX, blockY)[2 * oy + ox] == ColorAt(p, blockX + ox, blockY + oy)
    ensures ScanSamples(src, blockX, blockY)[2 * oy + ox] == src.At(blockX + ox, blockY + oy)
  {
    hide ColorAt;
  }

  lemma ScannedStart(colors: seq<Color>, samples: seq<nat>)
    requires |colors| == |samples|
    ensures Scanned(colors, samples, [0, 0, 0], [0, 0, 0], 0)
  {
  }

  lemma ScannedDone(src: Image<nat>, p: BayerPattern, blockX: nat, blockY: nat, block: seq<nat>, count: seq<nat>)
    requires src.Valid() && src.Inside(blockX + 1, blockY + 1)
    requires Scanned(Scan(p, blockX, blockY), ScanSamples(src, blockX, blockY), block, count, 4)
    ensures |block| == 3 && forall c: Color :: block[c] == BlockSample(src, p, c, blockX, blockY)
  {
    hide ColorAt, FirstIn, Scan, ScanSamples;
    var colors := Scan(p, blockX, blockY);
    assert colors[..4] == colors;
    forall c: Color ensures block[c] == BlockSample(src, p, c, blockX, blockY) {
      ScanHasColor(p, c, blockX, blockY);
    }
  }

  /** Writes the three colours of a block through the channel order, one channel at a time. */
  method Arrange(block: seq<nat>, order: ChannelOrder) returns (px: seq<nat>)
    requires |block| == 3
    ensures px == Ordered(block[0], block[1], block[2], order)
  {
    px := [0, 0, 0];
    for c: nat := 0 to 3
      invariant |px| == 3 && forall d: Color | d < c :: px[ColorChannel(d, order)] == block[d]
    {
      px := px[ColorChannel(c, order) := block[c]];
    }
    OrderedUnique(px, Ordered(block[0], block[1], block[2], order), order);
  }

  /** `after` is `before` with pixel px in the cells of the tile at (x, y) up to column x1 and row y1. */
  ghost predicate Tiled(before: Image<seq<nat>>, after: Image<seq<nat>>, px: seq<nat>, x: nat, y: nat, x1: nat, y1: nat)
    requires before.Valid() && after.Valid() && before.SameShape(after)
  {
    forall cx: nat, cy: nat | after.Inside(cx, cy) ::
      after.At(cx, cy) == if x <= cx < x1 && y <= cy < y1 then px else before.At(cx, cy)
  }

  /** Copies one pixel to the part of a two-by-two tile that lies inside the target. */
  method FillTile(target: Map<seq<nat>>, x: nat, y: nat, px: seq<nat>)
    requires target.Valid() && target.Value().Inside(x, y)
    modifies target`data
    ensures target.Valid() && Tiled(old(target.Value()), target.Value(), px, x, y, x + 2, y + 2)
  {
    hide Map.Value, Image.At;
    var oy := 0;
    while oy < 2 && y + oy < target.height
      invariant oy <= 2 && y + oy <= target.height && target.Valid()
      invariant Tiled(old(target.Value()), target.Value(), px, x, y, x + 2, y + oy)
    {
      var ox := 0;
      ghost var before := target.Value();
      while ox < 2 && x + ox < target.width
        invariant ox <= 2 && x + ox <= target.width && target.Valid()
        invariant Tiled(before, target.Value(), px, x, y + oy, x + ox, y + oy + 1)
      {
        target.Put(x + ox, y + oy, px);
        ox := ox + 1;
      }
      oy := oy + 1;
    }
  }

  /** The rows above y, and of the tile row at y the columns before x, hold their final pixels. */
  ghost predicate Painted(target: Image<seq<nat>>, spec: Image<seq<nat>>, x: nat, y: nat, rows: nat)
    requires target.Valid() && spec.Valid() && target.SameShape(spec)
  {
    forall cx: nat, cy: nat | target.Inside(cx, cy) && (cy < y || (cy < y + rows && cx < x)) ::
      target.At(cx, cy) == spec.At(cx, cy)
  }

  lemma TilePainted(src: Image<nat>, p: BayerPattern, order: ChannelOrder,
                    before: Image<seq<nat>>, after: Image<seq<nat>>, px: seq<nat>, x: nat, y: nat)
    requires Mosaic(src) && src.Inside(x, y) && x % 2 == 0 && y % 2 == 0
    requires before.Valid() && after.Valid() && before.SameShape(src) && after.SameShape(src)
    requires Painted(before, BlockImage(src, p, order), x, y, 2)
    requires px == BlockPixel(src, p, order, x, y) && Tiled(before, after, px, x, y, x + 2, y + 2)
    ensures Painted(after, BlockImage(src, p, order), x + 2, y, 2)
  {
    hide BlockValue;
    forall cx: nat, cy: nat | after.Inside(cx, cy) && (cy < y || (cy < y + 2 && cx < x + 2))
      ensures after.At(cx, cy) == BlockImage(src, p, order).At(cx, cy)
    {
      if x <= cx && y <= cy {
        SameTile(src, p, order, x, y, cx, cy);
      }
    }
  }

  /** All pixels of a tile share one block. */
  lemma SameTile(src: Image<nat>, p: BayerPattern, order: ChannelOrder, x: nat, y: nat, cx: nat, cy: nat)
    requires Mosaic(src) && x % 2 == 0 && y % 2 == 0
    requires x <= cx < x + 2 && y <= cy < y + 2 && src.Inside(cx, cy)
    ensures BlockPixel(src, p, order, cx, cy) == BlockPixel(src, p, order, x, y)
  {
    hide BlockSample;
    assert cx - cx % 2 == x && cy - cy % 2 == y;
  }

  method DemosaicBlocks(src: Image<nat>, p: BayerPattern, order: ChannelOrder, max: nat)
    returns (img: Image<seq<nat>>)
    requires Mosaic(src) && Samples(src, max)
    ensures img == BlockImage(src, p, order)
  {
    hide Map.Value, Image.At, Tiled, BlockImage, BlockSample, Samples;
    var w, h := src.width, src.height;
    var target := new Map<seq<nat>>(w, h, [0, 0, 0]);
    var y := 0;
    while y < h
      invariant y % 2 == 0 && y <= h + 1
      invariant target.Valid() && target.width == w && target.height == h
      invariant Painted(target.Value(), BlockImage(src, p, order), 0, y, 2)
    {
      var x := 0;
      while x < w
        invariant x % 2 == 0 && x <= w + 1
        invariant target.Valid() && target.width == w && target.height == h
        invariant Painted(target.Value(), BlockImage(src, p, order), x, y, 2)
      {
        var blockX := if x + 1 < w then x else x - 1;
        var blockY := if y + 1 < h then y else y - 1;
        var block := BlockSamples(src, p, max, blockX, blockY);
        var px := Arrange(block, order);
        ghost var before := target.Value();
        FillTile(target, x, y, px);
        TilePainted(src, p, order, before, target.Value(), px, x, y);
        x := x + 2;
      }
      y := y + 2;
    }
    img := target.Value();
    SameCells(img, BlockImage(src, p, order));
  }

  method DemosaicBilinear(src: Image<nat>, p: BayerPattern, order: ChannelOrder, max: nat)
    returns (img: Image<seq<nat>>)
    requires Mosaic(src)
    ensures img == WrappedImage(src, p, order, max)
  {
    hide Map.Value, Image.At, WrappedPixel;
    var w, h := src.width, src.height;
    var target := new Map<seq<nat>>(w, h, [0, 0, 0]);
    for y := 0 to h
      invariant target.Valid() && target.width == w && target.height == h
      invariant Painted(target.Value(), WrappedImage(src, p, order, max), 0, y, 1)
    {
      for x := 0 to w
        invariant target.Valid() && target.width == w && target.height == h
        invariant Painted(target.Value(), WrappedImage(src, p, order, max), x, y, 1)
      {
        var px := BilinearAt(src, p, order, max, x, y);
        target.Put(x, y, px);
      }
    }
    img := target.Value();
    SameCells(img, WrappedImage(src, p, order, max));
  }

  /** The code compares with one named value only, so any other channel order acts as BGR. */
  function OrderOf(order: Enum<ChannelOrder>): ChannelOrder { if order == Known(Rgb) then Rgb else Bgr }

  /** And any other method acts as bilinear. */
  function MethodOf(m: Enum<Method>): Method { if m == Known(Block2x2) then Block2x2 else Bilinear }

  /** The public operation: source and result share one channel type of maximum `max`. */
  method Demosaic(src: Image<nat>, pattern: Enum<BayerPattern>, order: Enum<ChannelOrder>, method_: Enum<Method>, max: nat)
    returns (r: Result<Image<seq<nat>>>)
    requires Samples(src, max)
    ensures src.width < 2 || src.height < 2 || pattern.Unknown? ==> r == Err(InvalidArgument)
    ensures src.width >= 2 && src.height >= 2 && pattern.Known? ==>
              r == Ok(Demosaiced(src, pattern.value, OrderOf(order), MethodOf(method_), max))
              && r.value.Valid() && r.value.SameShape(src)
    ensures r.Ok? && method_ == Known(Block2x2) ==>
              forall x: nat, y: nat | src.Inside(x, y) ::
                var red, green, blue := BlockValue(src, pattern.value, 0, x, y), BlockValue(src, pattern.value, 1, x, y), BlockValue(src, pattern.value, 2, x, y);
                r.value.At(x, y) == if order == Known(Rgb) then [red, green, blue] else [blue, green, red]
    ensures r.Ok? && method_ != Known(Block2x2) ==>
              forall x: nat, y: nat | src.Inside(x, y) ::
                var red, green, blue := WrappedValue(src, pattern.value, 0, max, x, y), WrappedValue(src, pattern.value, 1, max, x, y), WrappedValue(src, pattern.value, 2, max, x, y);
                r.value.At(x, y) == if order == Known(Rgb) then [red, green, blue] else [blue, green, red]
  {
    if src.width < 2 || src.height < 2 {
      return Err(InvalidArgument);
    }
    if pattern.Unknown? {
      return Err(InvalidArgument);
    }
    hide BlockValue, WrappedValue;
    var img;
    if method_ == Known(Block2x2) {
      img := DemosaicBlocks(src, pattern.value, OrderOf(order), max);
    } else {
      img := DemosaicBilinear(src, pattern.value, OrderOf(order), max);
    }
    return Ok(img);
  }

  /** What the code returns for a channel type of maximum `max`. */
  function Demosaiced(src: Image<nat>, p: BayerPattern, order: ChannelOrder, method_: Method, max: nat): Image<seq<nat>>
    requires Mosaic(src)
  {
    if method_.Block2x2? then BlockImage(src, p, order) else WrappedImage(src, p, order, max)
  }
}
