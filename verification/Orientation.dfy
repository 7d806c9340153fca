/**
Orientation correction (api/wse/data/wse_ImageTransform.h, `orientedExtent` and `applyOrientation`).

The six named orientations are embedded in the eight symmetries of the rectangle, so that their
laws are instances of one composition law.
*/
module Orientation {
  import opened Grid

  datatype Orientation = None | Rotate90CW | Rotate180 | Rotate90CCW | FlipHorizontal | FlipVertical

  // ---------------------------------------------------------------- the symmetry group

  /** Mirror the columns, mirror the rows, then exchange the axes; each part optional. */
  datatype Symmetry = Symmetry(mirrorX: bool, mirrorY: bool, transpose: bool) {

    function Width(w: nat, h: nat): nat { if transpose then h else w }

    function Height(w: nat, h: nat): nat { if transpose then w else h }

    /** The target cell of source cell (x, y) in a w by h image. */
    function Place(w: nat, h: nat, x: int, y: int): (int, int) {
      var x1 := if mirrorX then w - 1 - x else x;
      var y1 := if mirrorY then h - 1 - y else y;
      if transpose then (y1, x1) else (x1, y1)
    }

    /** The source cell that target cell (x, y) is taken from. */
    function Origin(w: nat, h: nat, x: int, y: int): (int, int) {
      var (x1, y1) := if transpose then (y, x) else (x, y);
      (if mirrorX then w - 1 - x1 else x1, if mirrorY then h - 1 - y1 else y1)
    }

    /** The offset between two target cells whose sources are (dx, dy) apart. */
    function Turn(dx: int, dy: int): (int, int) {
      var dx1 := if mirrorX then -dx else dx;
      var dy1 := if mirrorY then -dy else dy;
      if transpose then (dy1, dx1) else (dx1, dy1)
    }

    /** This symmetry followed by `next`. */
    function Then(next: Symmetry): Symmetry {
      var (mx, my) := if transpose then (next.mirrorY, next.mirrorX) else (next.mirrorX, next.mirrorY);
      Symmetry(mirrorX != mx, mirrorY != my, transpose != next.transpose)
    }

    function Inverse(): Symmetry {
      if transpose then Symmetry(mirrorY, mirrorX, true) else this
    }
  }

  const IDENTITY := Symmetry(false, false, false)

  function SymmetryOf(o: Orientation): Symmetry {
    match o
    case None => IDENTITY
    case Rotate90CW => Symmetry(false, true, true)
    case Rotate180 => Symmetry(true, true, false)
    case Rotate90CCW => Symmetry(true, false, true)
    case FlipHorizontal => Symmetry(true, false, false)
    case FlipVertical => Symmetry(false, true, false)
  }

  /** The image moved by a symmetry, as the pull-back of its cells. */
  function Moved<T>(img: Image<T>, s: Symmetry): (r: Image<T>)
    requires img.Valid()
    ensures r.Valid()
    ensures r.width == s.Width(img.width, img.height) && r.height == s.Height(img.width, img.height)
  {
    Tabulate(s.Width(img.width, img.height), s.Height(img.width, img.height),
             (x: nat, y: nat) requires x < s.Width(img.width, img.height) && y < s.Height(img.width, img.height) =>
               var (sx, sy) := s.Origin(img.width, img.height, x, y); img.At(sx, sy))
  }

  function Oriented<T>(img: Image<T>, o: Orientation): Image<T>
    requires img.Valid()
  {
    Moved(img, SymmetryOf(o))
  }

  /** The six orientations cell by cell: where each pixel of the result is taken from. */
  lemma OrientedCells<T>(img: Image<T>, x: nat, y: nat)
    requires img.Valid() && x < img.width && y < img.height
    ensures Oriented(img, None).At(x, y) == img.At(x, y)
    ensures Oriented(img, Rotate180).At(x, y) == img.At(img.width - 1 - x, img.height - 1 - y)
    ensures Oriented(img, FlipHorizontal).At(x, y) == img.At(img.width - 1 - x, y)
    ensures Oriented(img, FlipVertical).At(x, y) == img.At(x, img.height - 1 - y)
    ensures Oriented(img, Rotate90CW).width == img.height && Oriented(img, Rotate90CW).height == img.width
    ensures Oriented(img, Rotate90CW).At(img.height - 1 - y, x) == img.At(x, y)
    ensures Oriented(img, Rotate90CCW).width == img.height && Oriented(img, Rotate90CCW).height == img.width
    ensures Oriented(img, Rotate90CCW).At(y, img.width - 1 - x) == img.At(x, y)
  {
    hide Moved;
    MovedCell(img, SymmetryOf(None), x, y);
    MovedCell(img, SymmetryOf(Rotate180), x, y);
    MovedCell(img, SymmetryOf(FlipHorizontal), x, y);
    MovedCell(img, SymmetryOf(FlipVertical), x, y);
    MovedAt(img, SymmetryOf(Rotate90CW), x, y);
    MovedAt(img, SymmetryOf(Rotate90CCW), x, y);
  }

  /** `Place` is a bijection from source cells onto target cells; `Origin` is its inverse. */
  lemma PlaceBijective(s: Symmetry, w: nat, h: nat, x: int, y: int)
    ensures var (tx, ty) := s.Place(w, h, x, y);
            s.Origin(w, h, tx, ty) == (x, y)
            && ((0 <= x < w && 0 <= y < h) <==> (0 <= tx < s.Width(w, h) && 0 <= ty < s.Height(w, h)))
    ensures var (sx, sy) := s.Origin(w, h, x, y); s.Place(w, h, sx, sy) == (x, y)
  {
  }

  /** Pull-back reading of `Moved`. */
  lemma MovedCell<T>(img: Image<T>, s: Symmetry, x: nat, y: nat)
    requires img.Valid() && Moved(img, s).Inside(x, y)
    ensures var (sx, sy) := s.Origin(img.width, img.height, x, y);
            img.Inside(sx, sy) && Moved(img, s).At(x, y) == img.At(sx, sy)
  {
  }

  /** Push-forward reading of `Moved`: every source pixel arrives at its target cell. */
  lemma MovedAt<T>(img: Image<T>, s: Symmetry, x: nat, y: nat)
    requires img.Valid() && img.Inside(x, y)
    ensures var (tx, ty) := s.Place(img.width, img.height, x, y);
            Moved(img, s).Inside(tx, ty) && Moved(img, s).At(tx, ty) == img.At(x, y)
  {
  }

  // ---------------------------------------------------------------- laws

  lemma OriginTwice(a: Symmetry, b: Symmetry, w: nat, h: nat, x: int, y: int)
    ensures var (x1, y1) := b.Origin(a.Width(w, h), a.Height(w, h), x, y);
            a.Origin(w, h, x1, y1) == a.Then(b).Origin(w, h, x, y)
  {
  }

  /** Moving twice is moving once by the composed symmetry, for all 64 pairs and every shape. */
  lemma MovedTwice<T>(img: Image<T>, a: Symmetry, b: Symmetry)
    requires img.Valid()
    ensures Moved(Moved(img, a), b) == Moved(img, a.Then(b))
  {
    var once, twice, composed := Moved(img, a), Moved(Moved(img, a), b), Moved(img, a.Then(b));
    forall x: nat, y: nat | twice.Inside(x, y) ensures twice.At(x, y) == composed.At(x, y) {
      hide Symmetry.Origin, Symmetry.Place;
      var (x1, y1) := b.Origin(once.width, once.height, x, y);
      OriginTwice(a, b, img.width, img.height, x, y);
      MovedCell(once, b, x, y);
      MovedCell(img, a, x1, y1);
      MovedCell(img, a.Then(b), x, y);
    }
    SameCells(twice, composed);
  }

  lemma MovedIdentity<T>(img: Image<T>)
    requires img.Valid()
    ensures Moved(img, IDENTITY) == img
  {
    SameCells(Moved(img, IDENTITY), img);
  }

  /** Composition makes the symmetries a group acting on images; every symmetry can be undone. */
  lemma MovedBack<T>(img: Image<T>, s: Symmetry)
    requires img.Valid()
    ensures Moved(Moved(img, s), s.Inverse()) == img
  {
    MovedTwice(img, s, s.Inverse());
    MovedIdentity(img);
  }

  lemma OrientedTwice<T>(img: Image<T>, a: Orientation, b: Orientation)
    requires img.Valid()
    ensures Oriented(Oriented(img, a), b) == Moved(img, SymmetryOf(a).Then(SymmetryOf(b)))
  {
    MovedTwice(img, SymmetryOf(a), SymmetryOf(b));
  }

  /** The dihedral laws of the named orientations. */
  lemma DihedralLaws<T>(img: Image<T>)
    requires img.Valid()
    ensures Oriented(Oriented(img, Rotate90CW), Rotate90CCW) == img
    ensures Oriented(Oriented(img, Rotate90CCW), Rotate90CW) == img
    ensures Oriented(Oriented(img, Rotate90CW), Rotate90CW) == Oriented(img, Rotate180)
    ensures Oriented(Oriented(img, Rotate180), Rotate180) == img
    ensures Oriented(Oriented(img, FlipHorizontal), FlipHorizontal) == img
    ensures Oriented(Oriented(img, FlipVertical), FlipVertical) == img
    ensures Oriented(Oriented(img, FlipHorizontal), FlipVertical) == Oriented(img, Rotate180)
    ensures Oriented(Oriented(Oriented(img, Rotate90CW), FlipHorizontal), Rotate90CCW) == Oriented(img, FlipVertical)
    ensures Oriented(Oriented(Oriented(img, Rotate90CW), FlipVertical), Rotate90CCW) == Oriented(img, FlipHorizontal)
  {
    hide Moved;
    MovedIdentity(img);
    OrientedTwice(img, Rotate90CW, Rotate90CCW);
    OrientedTwice(img, Rotate90CCW, Rotate90CW);
    OrientedTwice(img, Rotate90CW, Rotate90CW);
    OrientedTwice(img, Rotate180, Rotate180);
    OrientedTwice(img, FlipHorizontal, FlipHorizontal);
    OrientedTwice(img, FlipVertical, FlipVertical);
    OrientedTwice(img, FlipHorizontal, FlipVertical);
    OrientedTwice(img, Rotate90CW, FlipHorizontal);
    OrientedTwice(img, Rotate90CW, FlipVertical);
    MovedTwice(img, SymmetryOf(Rotate90CW).Then(SymmetryOf(FlipHorizontal)), SymmetryOf(Rotate90CCW));
    MovedTwice(img, SymmetryOf(Rotate90CW).Then(SymmetryOf(FlipVertical)), SymmetryOf(Rotate90CCW));
  }

  // ---------------------------------------------------------------- no pixel is lost or duplicated

  /** A rearrangement of `a` along distinct positions `p` holds the same multiset of elements. */
  lemma {:induction false} RearrangedMultiset<T>(a: seq<T>, b: seq<T>, p: seq<int>)
    requires |a| == |b| == |p|
    requires forall i | 0 <= i < |p| :: 0 <= p[i] < |b| && b[p[i]] == a[i]
    requires forall i, j | 0 <= i < j < |p| :: p[i] != p[j]
    ensures multiset(a) == multiset(b)
  {
    if a == [] {
    } else {
      var n := |a| - 1;
      var k := p[n];
      var b' := b[..k] + b[k + 1..];
      var p' := seq(n, i requires 0 <= i < n => if p[i] < k then p[i] else p[i] - 1);
      RearrangedMultiset(a[..n], b', p');
      assert a == a[..n] + [a[n]];
      assert b == b[..k] + [b[k]] + b[k + 1..];
      assert multiset(b) == multiset(b') + multiset{b[k]};
    }
  }

  /** Orientation conserves pixels: the moved image is a permutation of the source. */
  lemma MovedMultiset<T>(img: Image<T>, s: Symmetry)
    requires img.Valid()
    ensures multiset(Flat(Moved(img, s).rows)) == multiset(Flat(img.rows))
  {
    hide Moved, Symmetry.Place, Symmetry.Origin, TargetIndex;
    var w, h := img.width, img.height;
    var a, b := Flat(img.rows), Flat(Moved(img, s).rows);
    FlatLength(img.rows, w);
    FlatLength(Moved(img, s).rows, s.Width(w, h));
    var p := seq(w * h, i requires 0 <= i < w * h => TargetIndex(s, w, h, i));
    forall i | 0 <= i < w * h ensures 0 <= p[i] < |b| && b[p[i]] == a[i] {
      MovedAtIndex(img, s, i);
    }
    forall i, j | 0 <= i < j < w * h ensures p[i] != p[j] {
      TargetCell(s, w, h, i);
      TargetCell(s, w, h, j);
    }
    RearrangedMultiset(a, b, p);
  }

  /** The flat index that the pixel at flat index i moves to. */
  ghost function TargetIndex(s: Symmetry, w: nat, h: nat, i: nat): int
    requires i < w * h
  {
    IndexCell(i, w, h);
    var (tx, ty) := s.Place(w, h, i % w, i / w);
    ty * s.Width(w, h) + tx
  }

  lemma TargetCell(s: Symmetry, w: nat, h: nat, i: nat)
    requires i < w * h
    ensures w > 0 && s.Width(w, h) > 0 && (i / w) * w + i % w == i
    ensures var t, tw := TargetIndex(s, w, h, i), s.Width(w, h);
            s.Origin(w, h, t % tw, t / tw) == (i % w, i / w)
  {
    hide Symmetry.Place, Symmetry.Origin;
    IndexCell(i, w, h);
    var (tx, ty) := s.Place(w, h, i % w, i / w);
    PlaceBijective(s, w, h, i % w, i / w);
    CellIndex(tx, ty, s.Width(w, h), s.Height(w, h));
  }

  lemma MovedAtIndex<T>(img: Image<T>, s: Symmetry, i: nat)
    requires img.Valid() && i < img.width * img.height
    ensures var t := TargetIndex(s, img.width, img.height, i);
            && 0 <= t < |Flat(Moved(img, s).rows)| && i < |Flat(img.rows)|
            && Flat(Moved(img, s).rows)[t] == Flat(img.rows)[i]
  {
    hide Moved, Symmetry.Place;
    var w, h := img.width, img.height;
    IndexCell(i, w, h);
    var (tx, ty) := s.Place(w, h, i % w, i / w);
    MovedAt(img, s, i % w, i / w);
    FlatIndex(img.rows, w, i % w, i / w);
    FlatIndex(Moved(img, s).rows, s.Width(w, h), tx, ty);
  }

  // ---------------------------------------------------------------- the operation

  method OrientedExtent(w: nat, h: nat, o: Enum<Orientation>) returns (tw: nat, th: nat)
    ensures o.Known? ==> tw == SymmetryOf(o.value).Width(w, h) && th == SymmetryOf(o.value).Height(w, h)
    ensures o.Unknown? ==> tw == w && th == h
  {
    var transposed := o == Known(Rotate90CW) || o == Known(Rotate90CCW);
    tw := if transposed then h else w;
    th := if transposed then w else h;
  }

  /** The switch that chooses where source pixel (x, y) is written. */
  method TargetOf(o: Orientation, w: nat, h: nat, x: nat, y: nat) returns (tx: nat, ty: nat)
    requires x < w && y < h
    ensures SymmetryOf(o).Place(w, h, x, y) == (tx, ty)
    ensures tx < SymmetryOf(o).Width(w, h) && ty < SymmetryOf(o).Height(w, h)
  {
    match o {
      case None => tx, ty := x, y;
      case Rotate90CW => tx, ty := h - 1 - y, x;
      case Rotate180 => tx, ty := w - 1 - x, h - 1 - y;
      case Rotate90CCW => tx, ty := y, w - 1 - x;
      case FlipHorizontal => tx, ty := w - 1 - x, y;
      case FlipVertical => tx, ty := x, h - 1 - y;
    }
  }

  /** Visits the source row by row and scatters each pixel to its target cell. */
  method ApplyOrientation<T(0)>(source: Image<T>, o: Enum<Orientation>, zero: T) returns (r: Result<Image<T>>)
    requires source.Valid()
    ensures source.width == 0 || source.height == 0 || o.Unknown? ==> r == Err(InvalidArgument)
    ensures source.width > 0 && source.height > 0 && o.Known? ==> r == Ok(Oriented(source, o.value))
  {
    hide Symmetry.Place, Symmetry.Origin, SymmetryOf, Moved;
    var w, h := source.width, source.height;
    if w == 0 || h == 0 {
      return Err(InvalidArgument);
    }
    var tw, th := OrientedExtent(w, h, o);
    var target := new Map<T>(tw, th, zero);
    for y := 0 to h
      invariant target.Valid() && target.width == tw && target.height == th
      invariant y > 0 ==> o.Known?
      invariant o.Known? ==> Scattered(source, SymmetryOf(o.value), target.Value(), 0, y)
    {
      for x := 0 to w
        invariant target.Valid() && target.width == tw && target.height == th
        invariant x > 0 || y > 0 ==> o.Known?
        invariant o.Known? ==> Scattered(source, SymmetryOf(o.value), target.Value(), x, y)
      {
        if o.Unknown? {
          return Err(InvalidArgument);
        }
        var tx, ty := TargetOf(o.value, w, h, x, y);
        ghost var before := target.Value();
        target.Put(tx, ty, source.At(x, y));
        ScatterOne(source, SymmetryOf(o.value), before, target.Value(), x, y);
      }
    }
    ScatteredAll(source, SymmetryOf(o.value), target.Value());
    return Ok(target.Value());
  }

  /** Writing one more pixel disturbs none of those already in place. */
  lemma ScatterOne<T>(source: Image<T>, s: Symmetry, before: Image<T>, after: Image<T>, x: nat, y: nat)
    requires source.Valid() && before.Valid() && after.Valid() && source.Inside(x, y)
    requires before.SameShape(after)
    requires after.width == s.Width(source.width, source.height)
    requires after.height == s.Height(source.width, source.height)
    requires Scattered(source, s, before, x, y)
    requires var (tx, ty) := s.Place(source.width, source.height, x, y);
             && after.Inside(tx, ty) && after.At(tx, ty) == source.At(x, y)
             && forall x': nat, y': nat | after.Inside(x', y') && (x', y') != (tx, ty) ::
                  after.At(x', y') == before.At(x', y')
    ensures Scattered(source, s, after, x + 1, y)
  {
    hide Symmetry.Place, Symmetry.Origin;
    PlaceBijective(s, source.width, source.height, x, y);
    forall sx: nat, sy: nat | source.Inside(sx, sy) && (sy < y || (sy == y && sx < x + 1))
      ensures var (tx, ty) := s.Place(source.width, source.height, sx, sy);
              after.Inside(tx, ty) && after.At(tx, ty) == source.At(sx, sy)
    {
      PlaceBijective(s, source.width, source.height, sx, sy);
    }
  }

  /** The rows above y and the first x pixels of row y have arrived at their target cells. */
  ghost predicate Scattered<T>(source: Image<T>, s: Symmetry, target: Image<T>, x: nat, y: nat)
    requires source.Valid() && target.Valid()
    requires target.width == s.Width(source.width, source.height)
    requires target.height == s.Height(source.width, source.height)
  {
    forall sx: nat, sy: nat | source.Inside(sx, sy) && (sy < y || (sy == y && sx < x)) ::
      var (tx, ty) := s.Place(source.width, source.height, sx, sy);
      target.Inside(tx, ty) && target.At(tx, ty) == source.At(sx, sy)
  }

  lemma ScatteredAll<T>(source: Image<T>, s: Symmetry, target: Image<T>)
    requires source.Valid() && target.Valid()
    requires target.width == s.Width(source.width, source.height)
    requires target.height == s.Height(source.width, source.height)
    requires Scattered(source, s, target, 0, source.height)
    ensures target == Moved(source, s)
  {
    hide Symmetry.Place, Symmetry.Origin, Moved;
    var w, h := source.width, source.height;
    forall x: nat, y: nat | target.Inside(x, y) ensures target.At(x, y) == Moved(source, s).At(x, y) {
      var (sx, sy) := s.Origin(w, h, x, y);
      PlaceBijective(s, w, h, x, y);
      MovedCell(source, s, x, y);
    }
    SameCells(target, Moved(source, s));
  }
}
