/**
When Block2x2 demosaicing commutes with reorientation. A block takes its green from its upper row, so
a reorientation that turns upper rows into lower ones, or that shifts the tiling at an odd edge, moves
samples that the method would not take.
*/
module BlockOrientation {
  import opened Grid
  import opened Orientation
  import opened Demosaic
  import opened DemosaicLaws

  // ---------------------------------------------------------------- where a value comes from

  function Corner(v: nat, n: nat): nat
    requires n >= 2 && v < n
  {
    BlockStart(v - v % 2, n)
  }

  /** The source site of colour c for pixel (x, y): in the pixel's block, and for green in its upper row. */
  ghost predicate Origin(p: BayerPattern, w: nat, h: nat, c: Color, x: nat, y: nat, sx: int, sy: int)
    requires w >= 2 && h >= 2 && x < w && y < h
  {
    var left, top := Corner(x, w), Corner(y, h);
    left <= sx <= left + 1 && top <= sy <= top + 1 && ColorAt(p, sx, sy) == c && (c == 1 ==> sy == top)
  }

  lemma OriginUnique(p: BayerPattern, w: nat, h: nat, c: Color, x: nat, y: nat, ax: int, ay: int, ux: int, uy: int)
    requires w >= 2 && h >= 2 && x < w && y < h
    requires Origin(p, w, h, c, x, y, ax, ay) && Origin(p, w, h, c, x, y, ux, uy)
    ensures ax == ux && ay == uy
  {
    hide Corner;
    ColorByParity(p, ax, ay);
    ColorByParity(p, ux, uy);
    hide ColorAt;
  }

  /** Every value of the block method is the sample at its origin. */
  lemma BlockOrigin(src: Image<nat>, p: BayerPattern, c: Color, x: nat, y: nat) returns (sx: nat, sy: nat)
    requires Mosaic(src) && src.Inside(x, y)
    ensures Origin(p, src.width, src.height, c, x, y, sx, sy)
    ensures src.Inside(sx, sy) && BlockValue(src, p, c, x, y) == src.At(sx, sy)
  {
    hide ColorAt, Scan, ScanSamples, FirstIn;
    var left, top := Corner(x, src.width), Corner(y, src.height);
    BlockNear(x, src.width);
    BlockNear(y, src.height);
    ScanHasColor(p, c, left, top);
    var j := FirstIn(Scan(p, left, top), c);
    sx, sy := left + j % 2, top + j / 2;
    hide BlockStart, Corner;
    assert Scan(p, left, top)[j] == c == ColorAt(p, sx, sy);
    if c == 1 {
      UpperGreen(p, left, top);
    }
  }

  /** One of the two upper cells of any block is green. */
  lemma UpperGreen(p: BayerPattern, left: nat, top: nat)
    ensures FirstIn(Scan(p, left, top), 1) < 2
  {
    ColorByParity(p, left, top);
    ColorByParity(p, left + 1, top);
    hide ColorAt, FirstIn, Scan;
    assert Scan(p, left, top)[0] == 1 || Scan(p, left, top)[1] == 1;
  }

  /** The red of a full tile with even corner (x0, y0), site by site. */
  lemma RedOfTile(src: Image<nat>, p: BayerPattern, x0: nat, y0: nat, x: nat, y: nat)
    requires Mosaic(src) && x0 % 2 == 0 && y0 % 2 == 0 && x0 <= x <= x0 + 1 < src.width && y0 <= y <= y0 + 1 < src.height
    ensures p == Rggb ==> BlockValue(src, p, 0, x, y) == src.At(x0, y0)
    ensures p == Bggr ==> BlockValue(src, p, 0, x, y) == src.At(x0 + 1, y0 + 1)
    ensures p == Grbg ==> BlockValue(src, p, 0, x, y) == src.At(x0 + 1, y0)
    ensures p == Gbrg ==> BlockValue(src, p, 0, x, y) == src.At(x0, y0 + 1)
  {
    FirstTile(p);
    hide BlockValue, ColorAt;
    match p
    case Rggb => TileValue(src, p, 0, x0, y0, x, y, 0, 0);
    case Bggr => TileValue(src, p, 0, x0, y0, x, y, 1, 1);
    case Grbg => TileValue(src, p, 0, x0, y0, x, y, 1, 0);
    case Gbrg => TileValue(src, p, 0, x0, y0, x, y, 0, 1);
  }

  /** Its green: the green site in the upper row. */
  lemma GreenOfTile(src: Image<nat>, p: BayerPattern, x0: nat, y0: nat, x: nat, y: nat)
    requires Mosaic(src) && x0 % 2 == 0 && y0 % 2 == 0 && x0 <= x <= x0 + 1 < src.width && y0 <= y <= y0 + 1 < src.height
    ensures p == Rggb ==> BlockValue(src, p, 1, x, y) == src.At(x0 + 1, y0)
    ensures p == Bggr ==> BlockValue(src, p, 1, x, y) == src.At(x0 + 1, y0)
    ensures p == Grbg ==> BlockValue(src, p, 1, x, y) == src.At(x0, y0)
    ensures p == Gbrg ==> BlockValue(src, p, 1, x, y) == src.At(x0, y0)
  {
    FirstTile(p);
    hide BlockValue, ColorAt;
    match p
    case Rggb => TileValue(src, p, 1, x0, y0, x, y, 1, 0);
    case Bggr => TileValue(src, p, 1, x0, y0, x, y, 1, 0);
    case Grbg => TileValue(src, p, 1, x0, y0, x, y, 0, 0);
    case Gbrg => TileValue(src, p, 1, x0, y0, x, y, 0, 0);
  }

  /** Its blue. */
  lemma BlueOfTile(src: Image<nat>, p: BayerPattern, x0: nat, y0: nat, x: nat, y: nat)
    requires Mosaic(src) && x0 % 2 == 0 && y0 % 2 == 0 && x0 <= x <= x0 + 1 < src.width && y0 <= y <= y0 + 1 < src.height
    ensures p == Rggb ==> BlockValue(src, p, 2, x, y) == src.At(x0 + 1, y0 + 1)
    ensures p == Bggr ==> BlockValue(src, p, 2, x, y) == src.At(x0, y0)
    ensures p == Grbg ==> BlockValue(src, p, 2, x, y) == src.At(x0, y0 + 1)
    ensures p == Gbrg ==> BlockValue(src, p, 2, x, y) == src.At(x0 + 1, y0)
  {
    FirstTile(p);
    hide BlockValue, ColorAt;
    match p
    case Rggb => TileValue(src, p, 2, x0, y0, x, y, 1, 1);
    case Bggr => TileValue(src, p, 2, x0, y0, x, y, 0, 0);
    case Grbg => TileValue(src, p, 2, x0, y0, x, y, 0, 1);
    case Gbrg => TileValue(src, p, 2, x0, y0, x, y, 1, 0);
  }

  /** The colours of the first tile. */
  lemma FirstTile(p: BayerPattern)
    ensures ColorAt(p, 0, 0) == match p case Rggb => 0 case Bggr => 2 case Grbg => 1 case Gbrg => 1
    ensures ColorAt(p, 1, 0) == match p case Rggb => 1 case Bggr => 1 case Grbg => 0 case Gbrg => 2
    ensures ColorAt(p, 0, 1) == match p case Rggb => 1 case Bggr => 1 case Grbg => 2 case Gbrg => 0
    ensures ColorAt(p, 1, 1) == match p case Rggb => 2 case Bggr => 0 case Grbg => 1 case Gbrg => 1
  {
  }

  lemma TileValue(src: Image<nat>, p: BayerPattern, c: Color, x0: nat, y0: nat, x: nat, y: nat, dx: nat, dy: nat)
    requires Mosaic(src) && x0 % 2 == 0 && y0 % 2 == 0 && x0 <= x <= x0 + 1 < src.width && y0 <= y <= y0 + 1 < src.height
    requires dx <= 1 && dy <= 1 && ColorAt(p, dx, dy) == c && (c == 1 ==> dy == 0)
    ensures BlockValue(src, p, c, x, y) == src.At(x0 + dx, y0 + dy)
  {
    CornerOfTile(x0, x, src.width);
    CornerOfTile(y0, y, src.height);
    EvenShift(p, x0, y0, dx, dy);
    hide ColorAt, Corner, BlockValue;
    ValueFrom(src, p, c, x, y, x0 + dx, y0 + dy);
  }

  lemma CornerOfTile(v0: nat, v: nat, n: nat)
    requires v0 % 2 == 0 && v0 <= v <= v0 + 1 < n
    ensures Corner(v, n) == v0
  {
  }

  lemma EvenShift(p: BayerPattern, x0: nat, y0: nat, dx: nat, dy: nat)
    requires x0 % 2 == 0 && y0 % 2 == 0
    ensures ColorAt(p, x0 + dx, y0 + dy) == ColorAt(p, dx, dy)
  {
    assert (x0 + dx) % 2 == dx % 2 && (y0 + dy) % 2 == dy % 2;
  }

  lemma ValueFrom(src: Image<nat>, p: BayerPattern, c: Color, x: nat, y: nat, sx: nat, sy: nat)
    requires Mosaic(src) && src.Inside(x, y) && Origin(p, src.width, src.height, c, x, y, sx, sy)
    ensures src.Inside(sx, sy) && BlockValue(src, p, c, x, y) == src.At(sx, sy)
  {
    hide Origin, BlockValue;
    var ax, ay := BlockOrigin(src, p, c, x, y);
    OriginUnique(p, src.width, src.height, c, x, y, ax, ay, sx, sy);
  }

  // ---------------------------------------------------------------- commuting is a matter of origins

  ghost predicate Commutes(src: Image<nat>, p: BayerPattern, order: ChannelOrder, o: Orientation)
    requires Mosaic(src)
  {
    var q := MovedPattern(p, SymmetryOf(o), src.width, src.height);
    Mosaic(Oriented(src, o)) && BlockImage(Oriented(src, o), q, order) == Oriented(BlockImage(src, p, order), o)
  }

  /** The origin of each value moves along with the pixel. */
  ghost predicate OriginMoves(p: BayerPattern, w: nat, h: nat, s: Symmetry, c: Color, x: nat, y: nat)
    requires w >= 2 && h >= 2 && x < w && y < h
  {
    var q := MovedPattern(p, s, w, h);
    var (tx, ty) := s.Place(w, h, x, y);
    && 0 <= tx < s.Width(w, h) && 0 <= ty < s.Height(w, h)
    && forall sx: int, sy: int | Origin(p, w, h, c, x, y, sx, sy) ::
         var (ux, uy) := s.Place(w, h, sx, sy); Origin(q, s.Width(w, h), s.Height(w, h), c, tx, ty, ux, uy)
  }

  lemma ValueMoves(src: Image<nat>, p: BayerPattern, s: Symmetry, c: Color, x: nat, y: nat)
    requires Mosaic(src) && src.Inside(x, y) && OriginMoves(p, src.width, src.height, s, c, x, y)
    ensures var q := MovedPattern(p, s, src.width, src.height);
            var (tx, ty) := s.Place(src.width, src.height, x, y);
            && Mosaic(Moved(src, s)) && Moved(src, s).Inside(tx, ty)
            && BlockValue(Moved(src, s), q, c, tx, ty) == BlockValue(src, p, c, x, y)
  {
    var w, h := src.width, src.height;
    var (tx, ty) := s.Place(w, h, x, y);
    var q := MovedPattern(p, s, w, h);
    var sx, sy := BlockOrigin(src, p, c, x, y);
    var ax, ay := BlockOrigin(Moved(src, s), q, c, tx, ty);
    var (ux, uy) := s.Place(w, h, sx, sy);
    hide Symmetry.Place, MovedPattern, Moved, BlockValue, Origin;
    OriginUnique(q, s.Width(w, h), s.Height(w, h), c, tx, ty, ux, uy, ax, ay);
    MovedAt(src, s, sx, sy);
  }

  lemma AllOriginsMove(src: Image<nat>, p: BayerPattern, order: ChannelOrder, o: Orientation)
    requires Mosaic(src)
    requires forall x: nat, y: nat, c: Color | src.Inside(x, y) :: OriginMoves(p, src.width, src.height, SymmetryOf(o), c, x, y)
    ensures Commutes(src, p, order, o)
  {
    var s := SymmetryOf(o);
    hide Symmetry.Place, Symmetry.Origin, MovedPattern, Moved, BlockPixel, OriginMoves, SymmetryOf;
    var q := MovedPattern(p, s, src.width, src.height);
    var colour := BlockImage(src, p, order);
    var a, b := BlockImage(Moved(src, s), q, order), Moved(colour, s);
    forall x: nat, y: nat | a.Inside(x, y) ensures a.At(x, y) == b.At(x, y) {
      var (sx, sy) := s.Origin(src.width, src.height, x, y);
      PlaceBijective(s, src.width, src.height, x, y);
      MovedCell(colour, s, x, y);
      PixelMoves(src, p, order, s, sx, sy);
    }
    SameCells(a, b);
  }

  lemma PixelMoves(src: Image<nat>, p: BayerPattern, order: ChannelOrder, s: Symmetry, x: nat, y: nat)
    requires Mosaic(src) && src.Inside(x, y) && forall c: Color :: OriginMoves(p, src.width, src.height, s, c, x, y)
    ensures var q := MovedPattern(p, s, src.width, src.height);
            var (tx, ty) := s.Place(src.width, src.height, x, y);
            && Mosaic(Moved(src, s)) && Moved(src, s).Inside(tx, ty)
            && BlockPixel(Moved(src, s), q, order, tx, ty) == BlockPixel(src, p, order, x, y)
  {
    hide Symmetry.Place, MovedPattern, Moved, BlockValue, OriginMoves;
    ValueMoves(src, p, s, 0, x, y);
    ValueMoves(src, p, s, 1, x, y);
    ValueMoves(src, p, s, 2, x, y);
  }

  /** A source that is one at a single site and zero elsewhere. */
  function Spot(w: nat, h: nat, sx: int, sy: int): (src: Image<nat>)
    ensures src.Valid() && src.width == w && src.height == h && Samples(src, 1)
    ensures forall x: nat, y: nat | x < w && y < h :: src.At(x, y) == if x == sx && y == sy then 1 else 0
  {
    Tabulate(w, h, (x: nat, y: nat) => if x == sx && y == sy then 1 else 0)
  }

  /** The target origin of a pixel, said of source cells: u is where the reoriented source takes colour c from. */
  ghost predicate TakenFrom(p: BayerPattern, w: nat, h: nat, s: Symmetry, c: Color, x: nat, y: nat, ux: int, uy: int)
    requires w >= 2 && h >= 2 && x < w && y < h
  {
    var (tx, ty) := s.Place(w, h, x, y);
    var (vx, vy) := s.Place(w, h, ux, uy);
    && 0 <= tx < s.Width(w, h) && 0 <= ty < s.Height(w, h)
    && Origin(MovedPattern(p, s, w, h), s.Width(w, h), s.Height(w, h), c, tx, ty, vx, vy)
  }

  lemma MovedOrigin(src: Image<nat>, p: BayerPattern, s: Symmetry, c: Color, x: nat, y: nat, ux: int, uy: int)
    requires Mosaic(src) && src.Inside(x, y) && TakenFrom(p, src.width, src.height, s, c, x, y, ux, uy)
    ensures var q := MovedPattern(p, s, src.width, src.height);
            var (tx, ty) := s.Place(src.width, src.height, x, y);
            && Mosaic(Moved(src, s)) && Moved(src, s).Inside(tx, ty) && src.Inside(ux, uy)
            && BlockValue(Moved(src, s), q, c, tx, ty) == src.At(ux, uy)
  {
    hide Symmetry.Place, Symmetry.Origin, MovedPattern, Moved, BlockValue, Origin;
    var w, h := src.width, src.height;
    var q := MovedPattern(p, s, w, h);
    var (tx, ty) := s.Place(w, h, x, y);
    var (vx, vy) := s.Place(w, h, ux, uy);
    var zx, zy := BlockOrigin(Moved(src, s), q, c, tx, ty);
    OriginUnique(q, s.Width(w, h), s.Height(w, h), c, tx, ty, vx, vy, zx, zy);
    PlaceBijective(s, w, h, ux, uy);
    MovedAt(src, s, ux, uy);
  }

  /** A value whose origin does not move along shows in a source of one bright site. */
  lemma SpotTells(w: nat, h: nat, p: BayerPattern, order: ChannelOrder, o: Orientation, c: Color, x: nat, y: nat,
                  sx: int, sy: int, ux: int, uy: int)
    requires w >= 2 && h >= 2 && x < w && y < h && Origin(p, w, h, c, x, y, sx, sy)
    requires TakenFrom(p, w, h, SymmetryOf(o), c, x, y, ux, uy) && (ux, uy) != (sx, sy)
    ensures !Commutes(Spot(w, h, sx, sy), p, order, o)
  {
    hide Symmetry.Place, Symmetry.Origin, SymmetryOf, MovedPattern, BlockValue, Origin, Moved, TakenFrom, BlockImage;
    var s, src := SymmetryOf(o), Spot(w, h, sx, sy);
    var ax, ay := BlockOrigin(src, p, c, x, y);
    OriginUnique(p, w, h, c, x, y, ax, ay, sx, sy);
    MovedOrigin(src, p, s, c, x, y, ux, uy);
    var (tx, ty) := s.Place(w, h, x, y);
    hide Spot;
    MovedAt(BlockImage(src, p, order), s, x, y);
    PixelsDiffer(src, p, Moved(src, s), MovedPattern(p, s, w, h), order, c, x, y, tx, ty);
  }

  lemma PixelsDiffer(src: Image<nat>, p: BayerPattern, moved: Image<nat>, q: BayerPattern, order: ChannelOrder, c: Color,
                     x: nat, y: nat, tx: nat, ty: nat)
    requires Mosaic(src) && Mosaic(moved) && src.Inside(x, y) && moved.Inside(tx, ty)
    requires BlockValue(src, p, c, x, y) != BlockValue(moved, q, c, tx, ty)
    ensures BlockImage(src, p, order).At(x, y) != BlockImage(moved, q, order).At(tx, ty)
  {
    hide BlockValue;
    var a, b := BlockPixel(src, p, order, x, y), BlockPixel(moved, q, order, tx, ty);
    assert a[ColorChannel(c, order)] != b[ColorChannel(c, order)];
  }

  // ---------------------------------------------------------------- which orientations commute

  /** Green on the main diagonal of every block with even corners. */
  predicate GreenFirst(p: BayerPattern) { p.Grbg? || p.Gbrg? }

  /** What a caller can check: the orientation, the parities of the extents, and the pattern. */
  predicate BlocksCommute(o: Orientation, p: BayerPattern, w: nat, h: nat) {
    match o
    case None => true
    case FlipHorizontal => w % 2 == 0
    case Rotate90CW => w % 2 == 0 && h % 2 == 0 && GreenFirst(p)
    case Rotate90CCW => w % 2 == 0 && h % 2 == 0 && !GreenFirst(p)
    case FlipVertical => false
    case Rotate180 => false
  }

  lemma CornerEven(v: nat, n: nat)
    requires n >= 2 && n % 2 == 0 && v < n
    ensures Corner(v, n) == v - v % 2 && Corner(v, n) + 1 < n
    ensures Corner(n - 1 - v, n) == n - 2 - Corner(v, n)
  {
  }

  /** Green sites are those whose coordinates add up even, or odd, by pattern. */
  lemma GreenSite(p: BayerPattern, x: int, y: int)
    ensures ColorAt(p, x, y) == 1 <==> ((x + y) % 2 == 0 <==> GreenFirst(p))
  {
    ColorByParity(p, x, y);
    hide ColorAt;
  }

  /** A site of the right colour in the block that the moved pixel gets, for green in its upper row. */
  lemma TakenThere(p: BayerPattern, w: nat, h: nat, s: Symmetry, c: Color, x: nat, y: nat, ux: int, uy: int)
    requires w >= 2 && h >= 2 && x < w && y < h && ColorAt(p, ux, uy) == c
    requires var (tx, ty) := s.Place(w, h, x, y);
             var (vx, vy) := s.Place(w, h, ux, uy);
             && 0 <= tx < s.Width(w, h) && 0 <= ty < s.Height(w, h)
             && Corner(tx, s.Width(w, h)) <= vx <= Corner(tx, s.Width(w, h)) + 1
             && Corner(ty, s.Height(w, h)) <= vy <= Corner(ty, s.Height(w, h)) + 1
             && (c == 1 ==> vy == Corner(ty, s.Height(w, h)))
    ensures TakenFrom(p, w, h, s, c, x, y, ux, uy)
  {
    hide Symmetry.Place, ColorAt, MovedPattern, Corner;
    ColorMoved(p, s, w, h, ux, uy);
  }

  lemma CommutingOriginMoves(o: Orientation, p: BayerPattern, w: nat, h: nat, c: Color, x: nat, y: nat)
    requires w >= 2 && h >= 2 && x < w && y < h && BlocksCommute(o, p, w, h)
    ensures OriginMoves(p, w, h, SymmetryOf(o), c, x, y)
  {
    hide Origin, MovedPattern, Symmetry.Place, SymmetryOf, BlocksCommute;
    PlaceBijective(SymmetryOf(o), w, h, x, y);
    forall sx: int, sy: int | Origin(p, w, h, c, x, y, sx, sy) ensures TakenFrom(p, w, h, SymmetryOf(o), c, x, y, sx, sy) {
      CommutingOrigin(o, p, w, h, c, x, y, sx, sy);
    }
  }

  lemma CommutingOrigin(o: Orientation, p: BayerPattern, w: nat, h: nat, c: Color, x: nat, y: nat, sx: int, sy: int)
    requires w >= 2 && h >= 2 && x < w && y < h && BlocksCommute(o, p, w, h) && Origin(p, w, h, c, x, y, sx, sy)
    ensures TakenFrom(p, w, h, SymmetryOf(o), c, x, y, sx, sy)
  {
    hide TakenFrom, Origin;
    match o
    case None => StillOrigin(p, w, h, c, x, y, sx, sy);
    case FlipHorizontal => FlippedOrigin(p, w, h, c, x, y, sx, sy);
    case Rotate90CW => ClockwiseOrigin(p, w, h, c, x, y, sx, sy);
    case Rotate90CCW => CounterOrigin(p, w, h, c, x, y, sx, sy);
  }

  lemma StillOrigin(p: BayerPattern, w: nat, h: nat, c: Color, x: nat, y: nat, sx: int, sy: int)
    requires w >= 2 && h >= 2 && x < w && y < h && Origin(p, w, h, c, x, y, sx, sy)
    ensures TakenFrom(p, w, h, SymmetryOf(None), c, x, y, sx, sy)
  {
    hide ColorAt, Corner;
    TakenThere(p, w, h, SymmetryOf(None), c, x, y, sx, sy);
  }

  lemma FlippedOrigin(p: BayerPattern, w: nat, h: nat, c: Color, x: nat, y: nat, sx: int, sy: int)
    requires w >= 2 && h >= 2 && x < w && y < h && w % 2 == 0 && Origin(p, w, h, c, x, y, sx, sy)
    ensures TakenFrom(p, w, h, SymmetryOf(FlipHorizontal), c, x, y, sx, sy)
  {
    CornerEven(x, w);
    hide ColorAt, Corner;
    TakenThere(p, w, h, SymmetryOf(FlipHorizontal), c, x, y, sx, sy);
  }

  lemma ClockwiseOrigin(p: BayerPattern, w: nat, h: nat, c: Color, x: nat, y: nat, sx: int, sy: int)
    requires w >= 2 && h >= 2 && x < w && y < h && w % 2 == 0 && h % 2 == 0 && GreenFirst(p)
    requires Origin(p, w, h, c, x, y, sx, sy)
    ensures TakenFrom(p, w, h, SymmetryOf(Rotate90CW), c, x, y, sx, sy)
  {
    CornerEven(x, w);
    CornerEven(y, h);
    GreenSite(p, sx, sy);
    hide ColorAt, Corner;
    TakenThere(p, w, h, SymmetryOf(Rotate90CW), c, x, y, sx, sy);
  }

  lemma CounterOrigin(p: BayerPattern, w: nat, h: nat, c: Color, x: nat, y: nat, sx: int, sy: int)
    requires w >= 2 && h >= 2 && x < w && y < h && w % 2 == 0 && h % 2 == 0 && !GreenFirst(p)
    requires Origin(p, w, h, c, x, y, sx, sy)
    ensures TakenFrom(p, w, h, SymmetryOf(Rotate90CCW), c, x, y, sx, sy)
  {
    CornerEven(x, w);
    CornerEven(y, h);
    GreenSite(p, sx, sy);
    hide ColorAt, Corner;
    TakenThere(p, w, h, SymmetryOf(Rotate90CCW), c, x, y, sx, sy);
  }

  /** A pixel and a colour for which the reoriented source takes another sample. */
  datatype Mismatch = Mismatch(c: Color, x: nat, y: nat, sx: nat, sy: nat, ux: nat, uy: nat)

  function MismatchOf(o: Orientation, p: BayerPattern, w: nat, h: nat): Mismatch
    requires w >= 2 && h >= 2 && !BlocksCommute(o, p, w, h)
  {
    var g := if GreenFirst(p) then 0 else 1;
    match o
    case FlipHorizontal => Mismatch(ColorAt(p, 0, 0), 1, 0, 0, 0, 2, 0)
    case Rotate90CW =>
      if !GreenFirst(p) then Mismatch(1, 0, 0, 1, 0, 0, 1)
      else if h % 2 == 1 then Mismatch(1, 0, 1, 0, 0, 0, 2)
      else Mismatch(1, w - 1, 0, w - 1, 0, w - 2, 1)
    case Rotate90CCW =>
      if GreenFirst(p) then Mismatch(1, 0, 0, 0, 0, 1, 1)
      else if w % 2 == 1 then Mismatch(ColorAt(p, 0, 0), 1, 0, 0, 0, 2, 0)
      else Mismatch(1, 0, h - 1, 0, h - 2, 1, h - 1)
    case FlipVertical => Mismatch(1, 0, 0, g, 0, 1 - g, 1)
    case Rotate180 => Mismatch(1, 0, 0, g, 0, 1 - g, 1)
  }

  lemma CornerAt(n: nat)
    requires n >= 2
    ensures Corner(0, n) == 0 && Corner(1, n) == 0 && Corner(n - 1, n) == n - 2
    ensures n % 2 == 1 ==> Corner(n - 2, n) == n - 3
  {
  }

  /** What a mismatch is: two different sites, one taken before and the other after the reorientation. */
  ghost predicate Mismatched(o: Orientation, p: BayerPattern, w: nat, h: nat, m: Mismatch)
    requires w >= 2 && h >= 2
  {
    && m.x < w && m.y < h && (m.sx, m.sy) != (m.ux, m.uy)
    && Origin(p, w, h, m.c, m.x, m.y, m.sx, m.sy)
    && TakenFrom(p, w, h, SymmetryOf(o), m.c, m.x, m.y, m.ux, m.uy)
  }

  lemma FlipHorizontalMismatch(p: BayerPattern, w: nat, h: nat)
    requires w >= 2 && h >= 2 && w % 2 == 1
    ensures Mismatched(FlipHorizontal, p, w, h, Mismatch(ColorAt(p, 0, 0), 1, 0, 0, 0, 2, 0))
  {
    CornerAt(w);
    CornerAt(h);
    assert ColorAt(p, 2, 0) == ColorAt(p, 0, 0);
    hide ColorAt, Corner;
    TakenThere(p, w, h, SymmetryOf(FlipHorizontal), ColorAt(p, 0, 0), 1, 0, 2, 0);
    hide TakenFrom;
  }

  lemma UpsideDownMismatch(o: Orientation, p: BayerPattern, w: nat, h: nat)
    requires w >= 2 && h >= 2 && (o.FlipVertical? || o.Rotate180?)
    ensures var g := if GreenFirst(p) then 0 else 1;
            Mismatched(o, p, w, h, Mismatch(1, 0, 0, g, 0, 1 - g, 1))
  {
    var g := if GreenFirst(p) then 0 else 1;
    CornerAt(w);
    CornerAt(h);
    GreenSite(p, g, 0);
    GreenSite(p, 1 - g, 1);
    hide ColorAt, Corner;
    TakenThere(p, w, h, SymmetryOf(o), 1, 0, 0, 1 - g, 1);
    hide TakenFrom;
  }

  lemma ClockwiseMismatch(p: BayerPattern, w: nat, h: nat)
    requires w >= 2 && h >= 2 && !BlocksCommute(Rotate90CW, p, w, h)
    ensures Mismatched(Rotate90CW, p, w, h, MismatchOf(Rotate90CW, p, w, h))
  {
    hide Mismatched;
    if !GreenFirst(p) {
      ClockwiseGreenSecond(p, w, h);
    } else if h % 2 == 1 {
      ClockwiseOddHeight(p, w, h);
    } else {
      ClockwiseOddWidth(p, w, h);
    }
  }

  lemma ClockwiseGreenSecond(p: BayerPattern, w: nat, h: nat)
    requires w >= 2 && h >= 2 && !GreenFirst(p)
    ensures Mismatched(Rotate90CW, p, w, h, Mismatch(1, 0, 0, 1, 0, 0, 1))
  {
    CornerAt(w);
    CornerAt(h);
    GreenSite(p, 1, 0);
    GreenSite(p, 0, 1);
    hide ColorAt, Corner;
    TakenThere(p, w, h, SymmetryOf(Rotate90CW), 1, 0, 0, 0, 1);
    hide TakenFrom;
  }

  lemma ClockwiseOddHeight(p: BayerPattern, w: nat, h: nat)
    requires w >= 2 && h >= 2 && GreenFirst(p) && h % 2 == 1
    ensures Mismatched(Rotate90CW, p, w, h, Mismatch(1, 0, 1, 0, 0, 0, 2))
  {
    CornerAt(w);
    CornerAt(h);
    GreenSite(p, 0, 0);
    GreenSite(p, 0, 2);
    hide ColorAt, Corner;
    TakenThere(p, w, h, SymmetryOf(Rotate90CW), 1, 0, 1, 0, 2);
    hide TakenFrom;
  }

  lemma ClockwiseOddWidth(p: BayerPattern, w: nat, h: nat)
    requires w >= 2 && h >= 2 && GreenFirst(p) && w % 2 == 1
    ensures Mismatched(Rotate90CW, p, w, h, Mismatch(1, w - 1, 0, w - 1, 0, w - 2, 1))
  {
    CornerAt(w);
    CornerAt(h);
    GreenSite(p, w - 1, 0);
    GreenSite(p, w - 2, 1);
    hide ColorAt, Corner;
    TakenThere(p, w, h, SymmetryOf(Rotate90CW), 1, w - 1, 0, w - 2, 1);
    hide TakenFrom;
  }

  lemma CounterClockwiseMismatch(p: BayerPattern, w: nat, h: nat)
    requires w >= 2 && h >= 2 && !BlocksCommute(Rotate90CCW, p, w, h)
    ensures Mismatched(Rotate90CCW, p, w, h, MismatchOf(Rotate90CCW, p, w, h))
  {
    hide Mismatched;
    if GreenFirst(p) {
      CounterGreenFirst(p, w, h);
    } else if w % 2 == 1 {
      CounterOddWidth(p, w, h);
    } else {
      CounterOddHeight(p, w, h);
    }
  }

  lemma CounterGreenFirst(p: BayerPattern, w: nat, h: nat)
    requires w >= 2 && h >= 2 && GreenFirst(p)
    ensures Mismatched(Rotate90CCW, p, w, h, Mismatch(1, 0, 0, 0, 0, 1, 1))
  {
    CornerAt(w);
    CornerAt(h);
    GreenSite(p, 0, 0);
    GreenSite(p, 1, 1);
    hide ColorAt, Corner;
    TakenThere(p, w, h, SymmetryOf(Rotate90CCW), 1, 0, 0, 1, 1);
    hide TakenFrom;
  }

  lemma CounterOddWidth(p: BayerPattern, w: nat, h: nat)
    requires w >= 2 && h >= 2 && !GreenFirst(p) && w % 2 == 1
    ensures Mismatched(Rotate90CCW, p, w, h, Mismatch(ColorAt(p, 0, 0), 1, 0, 0, 0, 2, 0))
  {
    CornerAt(w);
    CornerAt(h);
    GreenSite(p, 0, 0);
    assert ColorAt(p, 2, 0) == ColorAt(p, 0, 0);
    hide ColorAt, Corner;
    TakenThere(p, w, h, SymmetryOf(Rotate90CCW), ColorAt(p, 0, 0), 1, 0, 2, 0);
    hide TakenFrom;
  }

  lemma CounterOddHeight(p: BayerPattern, w: nat, h: nat)
    requires w >= 2 && h >= 2 && !GreenFirst(p) && h % 2 == 1
    ensures Mismatched(Rotate90CCW, p, w, h, Mismatch(1, 0, h - 1, 0, h - 2, 1, h - 1))
  {
    CornerAt(w);
    CornerAt(h);
    GreenSite(p, 0, h - 2);
    GreenSite(p, 1, h - 1);
    hide ColorAt, Corner;
    TakenThere(p, w, h, SymmetryOf(Rotate90CCW), 1, 0, h - 1, 1, h - 1);
    hide TakenFrom;
  }

  lemma MismatchHolds(o: Orientation, p: BayerPattern, w: nat, h: nat)
    requires w >= 2 && h >= 2 && !BlocksCommute(o, p, w, h)
    ensures Mismatched(o, p, w, h, MismatchOf(o, p, w, h))
  {
    hide Mismatched, ColorAt;
    match o
    case FlipHorizontal => FlipHorizontalMismatch(p, w, h);
    case Rotate90CW => ClockwiseMismatch(p, w, h);
    case Rotate90CCW => CounterClockwiseMismatch(p, w, h);
    case FlipVertical => UpsideDownMismatch(o, p, w, h);
    case Rotate180 => UpsideDownMismatch(o, p, w, h);
  }

  /**
  With the layout moved along, Block2x2 commutes with an orientation for all sources of a shape and pattern
  if and only if the orientation, the parities and the pattern are right; where they are not, a source of
  zeros and a single one already tells the difference.
  */
  lemma BlockOrientationIff(o: Orientation, p: BayerPattern, order: ChannelOrder, w: nat, h: nat, max: nat)
    requires w >= 2 && h >= 2 && max >= 1
    ensures (forall src: Image<nat> | Samples(src, max) && src.width == w && src.height == h :: Commutes(src, p, order, o))
            <==> BlocksCommute(o, p, w, h)
  {
    hide Commutes, Origin, TakenFrom, BlocksCommute, OriginMoves;
    if BlocksCommute(o, p, w, h) {
      forall src: Image<nat> | Samples(src, max) && src.width == w && src.height == h ensures Commutes(src, p, order, o) {
        forall x: nat, y: nat, c: Color | src.Inside(x, y) ensures OriginMoves(p, w, h, SymmetryOf(o), c, x, y) {
          CommutingOriginMoves(o, p, w, h, c, x, y);
        }
        AllOriginsMove(src, p, order, o);
      }
    } else {
      MismatchHolds(o, p, w, h);
      var m := MismatchOf(o, p, w, h);
      SpotTells(w, h, p, order, o, m.c, m.x, m.y, m.sx, m.sy, m.ux, m.uy);
      assert Samples(Spot(w, h, m.sx, m.sy), max);
    }
  }
}
