/**
What demosaicing promises for every image of at least two by two pixels: it commutes with
orientation, invents no value, reproduces a flat field, and obeys the channel order.
*/
module DemosaicLaws {
  import opened Grid
  import opened Rounding
  import opened Orientation
  import opened Demosaic
  import Channels

  // ---------------------------------------------------------------- a Bayer layout under a symmetry

  /** Parities of the column and the row of the red sites. */
  function RedSite(p: BayerPattern): (nat, nat) {
    match p
    case Rggb => (0, 0)
    case Bggr => (1, 1)
    case Grbg => (1, 0)
    case Gbrg => (0, 1)
  }

  function PatternWithRed(x: int, y: int): BayerPattern {
    if x % 2 == 0 then (if y % 2 == 0 then Rggb else Gbrg) else (if y % 2 == 0 then Grbg else Bggr)
  }

  /** The layout of a reoriented source: the pattern whose red sites are where the red sites moved. */
  function MovedPattern(p: BayerPattern, s: Symmetry, w: nat, h: nat): BayerPattern {
    var (rx, ry) := RedSite(p);
    var (tx, ty) := s.Place(w, h, rx, ry);
    PatternWithRed(tx, ty)
  }

  /** Colour as agreement with the red parities: both agree, neither agrees, or one of them. */
  lemma ColorByParity(p: BayerPattern, x: int, y: int)
    ensures var (rx, ry) := RedSite(p);
            ColorAt(p, x, y) == if x % 2 == rx && y % 2 == ry then 0 else if x % 2 != rx && y % 2 != ry then 2 else 1
  {
  }

  /** Each site keeps its colour when the source and its layout are moved together. */
  lemma ColorMoved(p: BayerPattern, s: Symmetry, w: nat, h: nat, x: int, y: int)
    ensures var (tx, ty) := s.Place(w, h, x, y);
            ColorAt(MovedPattern(p, s, w, h), tx, ty) == ColorAt(p, x, y)
  {
    var (rx, ry) := RedSite(p);
    var (tx, ty) := s.Place(w, h, x, y);
    var (qx, qy) := s.Place(w, h, rx, ry);
    var q := MovedPattern(p, s, w, h);
    assert RedSite(q) == (qx % 2, qy % 2);
    ColorByParity(p, x, y);
    ColorByParity(q, tx, ty);
    hide ColorAt, RedSite;
    SameParity(w, x, rx);
    SameParity(h, y, ry);
  }

  lemma SameParity(n: int, a: int, b: int)
    ensures (a % 2 == b % 2) <==> ((n - 1 - a) % 2 == (n - 1 - b) % 2)
  {
  }

  /** No other layout keeps the colours of even one two-by-two corner: the moved pattern is the only one. */
  lemma MovedPatternUnique(p: BayerPattern, s: Symmetry, w: nat, h: nat, q: BayerPattern)
    requires forall x: int, y: int | 0 <= x < 2 && 0 <= y < 2 ::
               ColorAt(q, s.Place(w, h, x, y).0, s.Place(w, h, x, y).1) == ColorAt(p, x, y)
    ensures q == MovedPattern(p, s, w, h)
  {
    var (rx, ry) := RedSite(p);
    assert ColorAt(p, rx, ry) == 0;
    hide ColorAt, Symmetry.Place;
    var (tx, ty) := s.Place(w, h, rx, ry);
    RedDetermines(q, tx, ty);
  }

  lemma RedDetermines(q: BayerPattern, x: int, y: int)
    requires ColorAt(q, x, y) == 0
    ensures q == PatternWithRed(x, y)
  {
  }

  // ---------------------------------------------------------------- equivariance

  lemma SampleMoved(src: Image<nat>, p: BayerPattern, s: Symmetry, c: Color, x: int, y: int)
    requires src.Valid()
    ensures var q := MovedPattern(p, s, src.width, src.height);
            var (tx, ty) := s.Place(src.width, src.height, x, y);
            && Sample(Moved(src, s), q, c, tx, ty) == Sample(src, p, c, x, y)
            && Hit(Moved(src, s), q, c, tx, ty) == Hit(src, p, c, x, y)
  {
    hide Symmetry.Place, Moved, MovedPattern, ColorAt;
    PlaceBijective(s, src.width, src.height, x, y);
    ColorMoved(p, s, src.width, src.height, x, y);
    if src.Inside(x, y) {
      MovedAt(src, s, x, y);
    }
  }

  /** A neighbour at offset (dx, dy) becomes a neighbour at the offset turned by the symmetry. */
  lemma SampleNear(src: Image<nat>, p: BayerPattern, s: Symmetry, c: Color, x: int, y: int, dx: int, dy: int)
    requires src.Valid()
    ensures var q := MovedPattern(p, s, src.width, src.height);
            var (tx, ty) := s.Place(src.width, src.height, x, y);
            var (ex, ey) := s.Turn(dx, dy);
            && Sample(Moved(src, s), q, c, tx + ex, ty + ey) == Sample(src, p, c, x + dx, y + dy)
            && Hit(Moved(src, s), q, c, tx + ex, ty + ey) == Hit(src, p, c, x + dx, y + dy)
  {
    hide Sample, Hit, Moved, MovedPattern;
    SampleMoved(src, p, s, c, x + dx, y + dy);
  }

  /** A symmetry permutes the nine neighbours, so it preserves the window total of every colour. */
  lemma WindowMoved(src: Image<nat>, p: BayerPattern, s: Symmetry, c: Color, x: int, y: int)
    requires src.Valid()
    ensures var q := MovedPattern(p, s, src.width, src.height);
            var (tx, ty) := s.Place(src.width, src.height, x, y);
            && WindowSum(Moved(src, s), q, c, tx, ty) == WindowSum(src, p, c, x, y)
            && WindowCount(Moved(src, s), q, c, tx, ty) == WindowCount(src, p, c, x, y)
  {
    hide Sample, Hit, Moved, MovedPattern, Symmetry.Place;
    SampleNear(src, p, s, c, x, y, -1, -1);
    SampleNear(src, p, s, c, x, y, 0, -1);
    SampleNear(src, p, s, c, x, y, 1, -1);
    SampleNear(src, p, s, c, x, y, -1, 0);
    SampleNear(src, p, s, c, x, y, 0, 0);
    SampleNear(src, p, s, c, x, y, 1, 0);
    SampleNear(src, p, s, c, x, y, -1, 1);
    SampleNear(src, p, s, c, x, y, 0, 1);
    SampleNear(src, p, s, c, x, y, 1, 1);
  }

  lemma BilinearMovedAt(src: Image<nat>, p: BayerPattern, order: ChannelOrder, max: nat, s: Symmetry, x: nat, y: nat)
    requires Mosaic(src) && src.Inside(x, y)
    ensures var q := MovedPattern(p, s, src.width, src.height);
            var (tx, ty) := s.Place(src.width, src.height, x, y);
            && Mosaic(Moved(src, s)) && Moved(src, s).Inside(tx, ty)
            && BilinearPixel(Moved(src, s), q, order, tx, ty) == BilinearPixel(src, p, order, x, y)
            && WrappedPixel(Moved(src, s), q, order, max, tx, ty) == WrappedPixel(src, p, order, max, x, y)
  {
    hide Symmetry.Place, Moved, MovedPattern, WindowSum, WindowCount;
    PlaceBijective(s, src.width, src.height, x, y);
    WindowMoved(src, p, s, 0, x, y);
    WindowMoved(src, p, s, 1, x, y);
    WindowMoved(src, p, s, 2, x, y);
  }

  /**
  Bilinear demosaicing commutes with every symmetry once the layout is moved along: the rounded means do,
  and so does what 64-bit sums make of them, wrapping included.
  */
  lemma BilinearEquivariant(src: Image<nat>, p: BayerPattern, order: ChannelOrder, max: nat, s: Symmetry)
    requires Mosaic(src)
    ensures Mosaic(Moved(src, s))
    ensures BilinearImage(Moved(src, s), MovedPattern(p, s, src.width, src.height), order)
            == Moved(BilinearImage(src, p, order), s)
    ensures WrappedImage(Moved(src, s), MovedPattern(p, s, src.width, src.height), order, max)
            == Moved(WrappedImage(src, p, order, max), s)
  {
    hide Symmetry.Place, Symmetry.Origin, MovedPattern, BilinearPixel, WrappedPixel, Moved;
    var q := MovedPattern(p, s, src.width, src.height);
    var means, wrapped := BilinearImage(src, p, order), WrappedImage(src, p, order, max);
    var a, b := BilinearImage(Moved(src, s), q, order), Moved(means, s);
    var c, d := WrappedImage(Moved(src, s), q, order, max), Moved(wrapped, s);
    forall x: nat, y: nat | a.Inside(x, y) ensures a.At(x, y) == b.At(x, y) && c.At(x, y) == d.At(x, y) {
      var (sx, sy) := s.Origin(src.width, src.height, x, y);
      PlaceBijective(s, src.width, src.height, x, y);
      MovedCell(means, s, x, y);
      MovedCell(wrapped, s, x, y);
      BilinearMovedAt(src, p, order, max, s, sx, sy);
    }
    SameCells(a, b);
    SameCells(c, d);
  }

  /** In particular for the six named orientations and for every channel type. */
  lemma DemosaicOrientation(src: Image<nat>, p: BayerPattern, order: ChannelOrder, max: nat, o: Orientation)
    requires Mosaic(src)
    ensures Mosaic(Oriented(src, o))
    ensures Demosaiced(Oriented(src, o), MovedPattern(p, SymmetryOf(o), src.width, src.height), order, Bilinear, max)
            == Oriented(Demosaiced(src, p, order, Bilinear, max), o)
  {
    BilinearEquivariant(src, p, order, max, SymmetryOf(o));
  }

  // ---------------------------------------------------------------- soundness of one pixel

  /** Red and blue sites keep their own sample exactly, in every channel type; only green is smoothed. */
  lemma SiteKept(src: Image<nat>, p: BayerPattern, max: nat, x: nat, y: nat)
    requires Mosaic(src) && src.Inside(x, y) && ColorAt(p, x, y) != 1 && src.At(x, y) <= max < U64
    ensures BilinearValue(src, p, ColorAt(p, x, y), x, y) == src.At(x, y)
    ensures WrappedValue(src, p, ColorAt(p, x, y), max, x, y) == src.At(x, y)
  {
    SiteAlone(src, p, x, y);
    hide WindowSum, WindowCount, ColorAt;
    MeanExactIff(src.At(x, y), 1, U64, max);
  }

  /** Parity of the red sites of each pattern, column and row. */
  predicate RedParity(p: BayerPattern, x: nat, y: nat) {
    match p
    case Rggb => x % 2 == 0 && y % 2 == 0
    case Bggr => x % 2 == 1 && y % 2 == 1
    case Grbg => x % 2 == 1 && y % 2 == 0
    case Gbrg => x % 2 == 0 && y % 2 == 1
  }

  /**
  In the returned image a red site has its sample in channel 0 of an RGB pixel and in channel 2 of a BGR one, and a
  blue site, one column and one row away from red ones, the other way round.
  */
  lemma SitesReturned(src: Image<nat>, p: BayerPattern, max: nat, x: nat, y: nat)
    requires Mosaic(src) && src.Inside(x, y) && src.At(x, y) <= max < U64
    ensures var rgb, bgr := Demosaiced(src, p, Rgb, Bilinear, max), Demosaiced(src, p, Bgr, Bilinear, max);
            && rgb.Valid() && bgr.Valid() && rgb.SameShape(src) && bgr.SameShape(src)
            && |rgb.At(x, y)| == 3 && |bgr.At(x, y)| == 3
            && (RedParity(p, x, y) ==> rgb.At(x, y)[0] == src.At(x, y) == bgr.At(x, y)[2])
            && (RedParity(p, x + 1, y + 1) ==> rgb.At(x, y)[2] == src.At(x, y) == bgr.At(x, y)[0])
  {
    ColorByParity(p, x, y);
    assert RedParity(p, x, y) ==> ColorAt(p, x, y) == 0;
    assert RedParity(p, x + 1, y + 1) ==> ColorAt(p, x, y) == 2;
    hide ColorAt, WrappedValue;
    if ColorAt(p, x, y) != 1 {
      SiteKept(src, p, max, x, y);
    }
    var rgb, bgr := Demosaiced(src, p, Rgb, Bilinear, max), Demosaiced(src, p, Bgr, Bilinear, max);
    assert rgb.At(x, y) == WrappedPixel(src, p, Rgb, max, x, y) && bgr.At(x, y) == WrappedPixel(src, p, Bgr, max, x, y);
  }

  /** A red or blue site is the only one of its colour in its window. */
  lemma SiteAlone(src: Image<nat>, p: BayerPattern, x: nat, y: nat)
    requires Mosaic(src) && src.Inside(x, y) && ColorAt(p, x, y) != 1
    ensures WindowSum(src, p, ColorAt(p, x, y), x, y) == src.At(x, y) && WindowCount(src, p, ColorAt(p, x, y), x, y) == 1
  {
    hide ColorAt, Sample, Hit;
    OtherColor(src, p, x, y, -1, -1);
    OtherColor(src, p, x, y, 0, -1);
    OtherColor(src, p, x, y, 1, -1);
    OtherColor(src, p, x, y, -1, 0);
    OtherColor(src, p, x, y, 1, 0);
    OtherColor(src, p, x, y, -1, 1);
    OtherColor(src, p, x, y, 0, 1);
    OtherColor(src, p, x, y, 1, 1);
    OwnColor(src, p, x, y);
  }

  lemma OwnColor(src: Image<nat>, p: BayerPattern, x: nat, y: nat)
    requires src.Valid() && src.Inside(x, y)
    ensures Sample(src, p, ColorAt(p, x, y), x, y) == src.At(x, y) && Hit(src, p, ColorAt(p, x, y), x, y) == 1
  {
    hide ColorAt;
  }

  lemma OtherColor(src: Image<nat>, p: BayerPattern, x: int, y: int, dx: int, dy: int)
    requires src.Valid() && -1 <= dx <= 1 && -1 <= dy <= 1 && (dx, dy) != (0, 0) && ColorAt(p, x, y) != 1
    ensures Sample(src, p, ColorAt(p, x, y), x + dx, y + dy) == 0 && Hit(src, p, ColorAt(p, x, y), x + dx, y + dy) == 0
  {
    NeighbourDiffers(p, x, y, dx, dy);
    hide ColorAt;
  }

  lemma NeighbourDiffers(p: BayerPattern, x: int, y: int, dx: int, dy: int)
    requires -1 <= dx <= 1 && -1 <= dy <= 1 && (dx, dy) != (0, 0) && ColorAt(p, x, y) != 1
    ensures ColorAt(p, x + dx, y + dy) != ColorAt(p, x, y)
  {
    ColorByParity(p, x, y);
    ColorByParity(p, x + dx, y + dy);
    hide ColorAt;
  }

  /** A brighter source gives a result that is nowhere darker. */
  lemma BilinearMonotone(a: Image<nat>, b: Image<nat>, p: BayerPattern, c: Color, x: nat, y: nat)
    requires Mosaic(a) && Mosaic(b) && a.SameShape(b) && a.Inside(x, y)
    requires forall sx: nat, sy: nat | a.Inside(sx, sy) :: a.At(sx, sy) <= b.At(sx, sy)
    ensures BilinearValue(a, p, c, x, y) <= BilinearValue(b, p, c, x, y)
  {
    forall sx: int, sy: int
      ensures Sample(a, p, c, sx, sy) <= Sample(b, p, c, sx, sy) && Hit(a, p, c, sx, sy) == Hit(b, p, c, sx, sy)
    {
      hide ColorAt;
    }
    hide Sample, Hit;
    assert WindowCount(a, p, c, x, y) == WindowCount(b, p, c, x, y);
    assert WindowSum(a, p, c, x, y) <= WindowSum(b, p, c, x, y);
    WindowHasColor(a, p, c, x, y);
    hide WindowSum, WindowCount;
    RoundedMonotone(WindowSum(a, p, c, x, y), WindowSum(b, p, c, x, y), WindowCount(a, p, c, x, y));
  }

  /** The value is the window mean rounded to nearest: its error is at most half the sample count. */
  lemma BilinearNearest(src: Image<nat>, p: BayerPattern, c: Color, x: nat, y: nat)
    requires Mosaic(src) && src.Inside(x, y)
    ensures var n := WindowCount(src, p, c, x, y);
            -(n / 2) <= WindowSum(src, p, c, x, y) - n * BilinearValue(src, p, c, x, y) <= n / 2
  {
    WindowHasColor(src, p, c, x, y);
    hide WindowSum, WindowCount;
    RoundedNearest(WindowSum(src, p, c, x, y), WindowCount(src, p, c, x, y));
  }

  /** Block2x2 invents nothing: each value is a sample of its colour at most one pixel away. */
  lemma BlockProvenance(src: Image<nat>, p: BayerPattern, c: Color, x: nat, y: nat) returns (sx: nat, sy: nat)
    requires Mosaic(src) && src.Inside(x, y)
    ensures x - 1 <= sx <= x + 1 && y - 1 <= sy <= y + 1
    ensures Site(src, p, c, sx, sy) && BlockValue(src, p, c, x, y) == src.At(sx, sy)
  {
    hide ColorAt, Scan, ScanSamples, FirstIn;
    var blockX, blockY := BlockStart(x - x % 2, src.width), BlockStart(y - y % 2, src.height);
    BlockNear(x, src.width);
    BlockNear(y, src.height);
    ScanHasColor(p, c, blockX, blockY);
    var j := FirstIn(Scan(p, blockX, blockY), c);
    sx, sy := blockX + j % 2, blockY + j / 2;
    hide BlockStart;
    assert Scan(p, blockX, blockY)[j] == c == ColorAt(p, sx, sy);
  }

  lemma BlockNear(v: nat, n: nat)
    requires n >= 2 && v < n
    ensures var start := BlockStart(v - v % 2, n); start <= v <= start + 1 < n
  {
  }

  // ---------------------------------------------------------------- whole images

  /** The source is the mosaic of one constant colour. */
  ghost predicate FlatMosaic(src: Image<nat>, p: BayerPattern, red: nat, green: nat, blue: nat) {
    src.Valid() && forall x: nat, y: nat | src.Inside(x, y) ::
      src.At(x, y) == match ColorAt(p, x, y) case 0 => red case 1 => green case _ => blue
  }

  function Constant(w: nat, h: nat, px: seq<nat>): (img: Image<seq<nat>>)
    ensures img.Valid() && img.width == w && img.height == h
  {
    Tabulate(w, h, (_, _) => px)
  }

  /** Blocks and rounded means reproduce a flat field at every pixel, for every pattern and every size. */
  lemma FlatField(src: Image<nat>, p: BayerPattern, order: ChannelOrder, red: nat, green: nat, blue: nat)
    requires Mosaic(src) && FlatMosaic(src, p, red, green, blue)
    ensures BlockImage(src, p, order) == Constant(src.width, src.height, Ordered(red, green, blue, order))
    ensures BilinearImage(src, p, order) == Constant(src.width, src.height, Ordered(red, green, blue, order))
  {
    var a, b := BlockImage(src, p, order), BilinearImage(src, p, order);
    var flat := Constant(src.width, src.height, Ordered(red, green, blue, order));
    forall x: nat, y: nat | flat.Inside(x, y) ensures a.At(x, y) == flat.At(x, y) == b.At(x, y) {
      FlatValue(src, p, 0, red, x, y);
      FlatValue(src, p, 1, green, x, y);
      FlatValue(src, p, 2, blue, x, y);
      hide BilinearValue, BlockValue;
    }
    SameCells(a, flat);
    SameCells(b, flat);
  }

  lemma FlatValue(src: Image<nat>, p: BayerPattern, c: Color, value: nat, x: nat, y: nat)
    requires Mosaic(src) && src.Inside(x, y)
    requires forall sx: nat, sy: nat | Site(src, p, c, sx, sy) :: src.At(sx, sy) == value
    ensures BilinearValue(src, p, c, x, y) == value && BlockValue(src, p, c, x, y) == value
  {
    hide ColorAt;
    BilinearBetween(src, p, c, x, y, value, value);
    var sx, sy := BlockProvenance(src, p, c, x, y);
  }

  /** Asking for BGR order is asking for RGB order and converting. */
  lemma BgrIsSwappedRgb(src: Image<nat>, p: BayerPattern, m: Method, max: nat)
    requires Mosaic(src)
    ensures Channels.HasChannels(Demosaiced(src, p, Rgb, m, max), 3)
    ensures Demosaiced(src, p, Bgr, m, max) == Channels.SwappedImage(Demosaiced(src, p, Rgb, m, max), 3)
  {
    hide WrappedValue, BlockValue;
    var bgr, rgb := Demosaiced(src, p, Bgr, m, max), Demosaiced(src, p, Rgb, m, max);
    forall x: nat, y: nat | bgr.Inside(x, y) ensures bgr.At(x, y) == Channels.Swapped(rgb.At(x, y)) {
      if m.Block2x2? {
        assert bgr.At(x, y) == BlockPixel(src, p, Bgr, x, y) && rgb.At(x, y) == BlockPixel(src, p, Rgb, x, y);
      } else {
        assert bgr.At(x, y) == WrappedPixel(src, p, Bgr, max, x, y) && rgb.At(x, y) == WrappedPixel(src, p, Rgb, max, x, y);
      }
    }
    SameCells(bgr, Channels.SwappedImage(rgb, 3));
  }
}
