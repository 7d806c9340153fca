/**
The two-dimensional grid under every image and matrix (api/wse/data/wse_Map.h): a width, a height
and one flat vector holding the rows one after the other.

`Image<T>` is the value of such a grid; `Map<T>` is the object whose fields the operations update.
*/
module Grid {

  /** The exceptions the library throws, and the division by zero that C++ leaves undefined. */
  datatype Error = InvalidArgument | OutOfRange | LogicError | DivisionByZero

  datatype Result<+T> = Ok(value: T) | Err(error: Error)

  /** A C++ enumeration parameter: one of the named values, or a cast integer that names none. */
  datatype Enum<+T> = Known(value: T) | Unknown

  // ---------------------------------------------------------------- index arithmetic

  /** A cell inside the shape has its own index inside the flat vector. */
  lemma CellIndex(x: nat, y: nat, w: nat, h: nat)
    requires x < w && y < h
    ensures 0 <= y * w + x < w * h
    ensures (y * w + x) / w == y && (y * w + x) % w == x
  {
    assert (y + 1) * w <= h * w;
    assert y * w + x == w * y + x;
    DivModUnique(y * w + x, w, y, x);
  }

  lemma DivModUnique(n: nat, d: nat, q: nat, r: nat)
    requires r < d && n == d * q + r
    ensures n / d == q && n % d == r
  {
    MulOrder(d, n / d, q);
    MulOrder(d, q, n / d);
    assert n == d * (n / d) + n % d;
  }

  /** Multiplication by a natural number preserves a strict order up to one factor. */
  lemma MulOrder(d: nat, a: int, b: int)
    ensures a < b ==> d * a + d <= d * b
  {
    if a < b {
      var k := b - a - 1;
      assert b == a + 1 + k;
      assert d * b == d * a + d + d * k;
    }
  }

  lemma MulNext(a: int, k: int)
    ensures a * (k + 1) == a * k + a && (k + 1) * a == k * a + a
  {
  }

  /** Folding a partial sum early does not change the folded sum. */
  lemma ModAdd(a: nat, b: nat, m: nat)
    requires m > 0
    ensures (a % m + b) % m == (a + b) % m
  {
    var p, q, r := a / m, (a % m + b) / m, (a % m + b) % m;
    assert a == m * p + a % m;
    assert a % m + b == m * q + r;
    assert m * (p + q) == m * p + m * q;
    DivModUnique(a + b, m, p + q, r);
  }

  /** Every index of the flat vector belongs to exactly one cell. */
  lemma IndexCell(i: nat, w: nat, h: nat)
    requires i < w * h
    ensures w > 0 && i / w < h && i % w < w && (i / w) * w + i % w == i
  {
    assert w > 0;
    assert i == w * (i / w) + i % w;
    MulOrder(w, h - 1, i / w);
  }

  // ---------------------------------------------------------------- image values

  datatype Image<T> = Image(width: nat, height: nat, rows: seq<seq<T>>) {

    predicate Valid() {
      |rows| == height && forall y | 0 <= y < height :: |rows[y]| == width
    }

    predicate Inside(x: int, y: int) { 0 <= x < width && 0 <= y < height }

    function At(x: nat, y: nat): T
      requires Valid() && Inside(x, y)
    {
      rows[y][x]
    }

    predicate SameShape<U>(other: Image<U>) {
      width == other.width && height == other.height
    }
  }

  /** The image whose cell (x, y) holds f(x, y). */
  function Tabulate<T>(w: nat, h: nat, f: (nat, nat) --> T): (img: Image<T>)
    requires forall x: nat, y: nat | x < w && y < h :: f.requires(x, y)
    ensures img.Valid() && img.width == w && img.height == h
    ensures forall x: nat, y: nat | x < w && y < h :: img.At(x, y) == f(x, y)
  {
    Image(w, h, seq(h, y requires 0 <= y < h => seq(w, x requires 0 <= x < w => f(x, y))))
  }

  /** Two images that agree on their shape and on every cell are the same value. */
  lemma SameCells<T>(a: Image<T>, b: Image<T>)
    requires a.Valid() && b.Valid() && a.SameShape(b)
    requires forall x: nat, y: nat | a.Inside(x, y) :: a.At(x, y) == b.At(x, y)
    ensures a == b
  {
    forall y | 0 <= y < a.height ensures a.rows[y] == b.rows[y] {
      forall x | 0 <= x < a.width ensures a.rows[y][x] == b.rows[y][x] {
        assert a.At(x, y) == b.At(x, y);
      }
    }
  }

  /** The image that a flat vector stores under a shape. */
  function Unflattened<T>(w: nat, h: nat, data: seq<T>): (img: Image<T>)
    requires |data| == w * h
    ensures img.Valid() && img.width == w && img.height == h
  {
    Tabulate(w, h, (x: nat, y: nat) requires x < w && y < h => CellIndex(x, y, w, h); data[y * w + x])
  }

  /** The flat vector: the rows one after the other. */
  function Flat<T>(rows: seq<seq<T>>): seq<T> {
    if rows == [] then [] else rows[0] + Flat(rows[1..])
  }

  /** Cell (x, y) lies at index y * width + x of the flat vector. */
  lemma {:induction false} FlatIndex<T>(rows: seq<seq<T>>, w: nat, x: nat, y: nat)
    requires forall r | 0 <= r < |rows| :: |rows[r]| == w
    requires x < w && y < |rows|
    ensures |Flat(rows)| == |rows| * w && y * w + x < |Flat(rows)|
    ensures Flat(rows)[y * w + x] == rows[y][x]
  {
    FlatLength(rows, w);
    CellIndex(x, y, w, |rows|);
    if y > 0 {
      FlatIndex(rows[1..], w, x, y - 1);
      assert y * w + x == w + ((y - 1) * w + x);
    }
  }

  lemma {:induction false} FlatLength<T>(rows: seq<seq<T>>, w: nat)
    requires forall r | 0 <= r < |rows| :: |rows[r]| == w
    ensures |Flat(rows)| == |rows| * w
  {
    if rows != [] {
      FlatLength(rows[1..], w);
      assert |rows| * w == w + (|rows| - 1) * w;
    }
  }

  // ---------------------------------------------------------------- the mutable grid

  /** Element count of a shape, or a failure when the product is not representable in size_t. */
  function CheckedCount(sizeMax: nat, w: nat, h: nat): (r: Result<nat>)
    requires w <= sizeMax && h <= sizeMax
    ensures r.Ok? <==> w * h <= sizeMax
    ensures r.Ok? ==> r.value == w * h
    ensures r.Err? ==> r.error == InvalidArgument
  {
    CountFits(sizeMax, w, h);
    if h != 0 && w > sizeMax / h then Err(InvalidArgument) else Ok(w * h % (sizeMax + 1))
  }

  /** The overflow test before the product decides exactly whether the product wraps. */
  lemma CountFits(sizeMax: nat, w: nat, h: nat)
    ensures (h == 0 || w <= sizeMax / h) <==> w * h <= sizeMax
    ensures w * h <= sizeMax ==> w * h % (sizeMax + 1) == w * h
  {
    if h > 0 {
      QuotientBound(sizeMax, h, w);
    }
    if w * h <= sizeMax {
      DivModUnique(w * h, sizeMax + 1, 0, w * h);
    }
  }

  /** w <= m / h exactly when w * h <= m. */
  lemma QuotientBound(m: nat, h: nat, w: nat)
    requires h > 0
    ensures w <= m / h <==> w * h <= m
  {
    var q := m / h;
    assert m == h * q + m % h;
    MulOrder(h, w, q);
    MulOrder(h, q, w);
    assert w * h == h * w;
  }

  class Map<T> {
    var data: seq<T>
    var width: nat
    var height: nat

    ghost predicate Valid()
      reads this
    {
      |data| == width * height
    }

    /** The image this grid stores. */
    function Value(): (img: Image<T>)
      requires Valid()
      reads this
      ensures img.Valid() && img.width == width && img.height == height
    {
      Unflattened(width, height, data)
    }

    /** A grid of value-initialised elements. */
    constructor (w: nat, h: nat, initial: T)
      ensures Valid() && width == w && height == h
      ensures forall x: nat, y: nat | x < w && y < h :: Value().At(x, y) == initial
    {
      data := seq(w * h, _ => initial);
      width, height := w, h;
      new;
      forall x: nat, y: nat | x < w && y < h ensures Value().At(x, y) == initial {
        CellIndex(x, y, w, h);
      }
    }

    /** Checked element read. */
    method At(x: nat, y: nat) returns (r: Result<T>)
      requires Valid()
      ensures r.Ok? <==> Value().Inside(x, y)
      ensures r.Ok? ==> r.value == Value().At(x, y)
      ensures r.Err? ==> r.error == OutOfRange
    {
      if x >= width || y >= height {
        return Err(OutOfRange);
      }
      CellIndex(x, y, width, height);
      return Ok(data[y * width + x]);
    }

    /** Unchecked element write through the row pointer. */
    method Put(x: nat, y: nat, v: T)
      requires Valid() && Value().Inside(x, y)
      modifies this`data
      ensures Valid()
      ensures Value().At(x, y) == v
      ensures forall x': nat, y': nat | Value().Inside(x', y') && (x', y') != (x, y) ::
                Value().At(x', y') == old(Value().At(x', y'))
    {
      CellIndex(x, y, width, height);
      data := data[y * width + x := v];
      forall x': nat, y': nat | Value().Inside(x', y') && (x', y') != (x, y)
        ensures Value().At(x', y') == old(Value().At(x', y'))
      {
        CellIndex(x', y', width, height);
      }
    }

    /** Replaces shape and contents; a refused shape leaves the grid as it was. */
    method Init(sizeMax: nat, w: nat, h: nat, initial: T) returns (r: Result<()>)
      requires Valid() && w <= sizeMax && h <= sizeMax
      modifies this
      ensures Valid()
      ensures r.Ok? <==> w * h <= sizeMax
      ensures r.Ok? ==> Value() == Tabulate(w, h, (_, _) => initial)
      ensures r.Err? ==> r.error == InvalidArgument && Value() == old(Value())
    {
      var count := CheckedCount(sizeMax, w, h);
      if count.Err? {
        return Err(count.error);
      }
      data := seq(count.value, _ => initial);
      width, height := w, h;
      forall x: nat, y: nat | x < w && y < h ensures Value().At(x, y) == initial {
        CellIndex(x, y, w, h);
      }
      SameCells(Value(), Tabulate(w, h, (_, _) => initial));
      return Ok(());
    }
  }

  /** The constructors of the library: a shape whose element count is not representable is refused. */
  method NewMap<T>(sizeMax: nat, w: nat, h: nat, initial: T) returns (r: Result<Map<T>>)
    requires w <= sizeMax && h <= sizeMax
    ensures r.Ok? <==> w * h <= sizeMax
    ensures r.Ok? ==> fresh(r.value) && r.value.Valid() && r.value.Value() == Tabulate(w, h, (_, _) => initial)
    ensures r.Err? ==> r.error == InvalidArgument
  {
    var count := CheckedCount(sizeMax, w, h);
    if count.Err? {
      return Err(count.error);
    }
    var map_ := new Map<T>(w, h, initial);
    SameCells(map_.Value(), Tabulate(w, h, (_, _) => initial));
    return Ok(map_);
  }
}
