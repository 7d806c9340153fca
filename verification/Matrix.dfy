/**
Matrices over the real numbers (api/wse/data/wse_Matrix.h): the product, the sum and the special
matrices, and the ring laws that tie them together. A matrix is the value of a grid: its rows are
the rows of the grid, `height` counts them and `width` counts the columns.
*/
module Matrix {
  import opened Grid

  type Vector = seq<real>

  // ---------------------------------------------------------------- vectors

  /** The product of two reals, named so that proofs can treat it as a symbol. */
  function Times(x: real, y: real): real { x * y }

  function Dot(a: Vector, b: Vector): real
    requires |a| == |b|
  {
    if a == [] then 0.0 else Dot(a[..|a| - 1], b[..|a| - 1]) + Times(a[|a| - 1], b[|a| - 1])
  }

  /** a - c * b */
  function Reduced(a: Vector, b: Vector, c: real): (v: Vector)
    requires |a| == |b|
    ensures |v| == |a| && forall i | 0 <= i < |a| :: v[i] == a[i] - Times(c, b[i])
  {
    seq(|a|, i requires 0 <= i < |a| => a[i] - Times(c, b[i]))
  }

  /** The vector of length n that holds c at position k and zero elsewhere. */
  function Unit(n: nat, k: nat, c: real): (v: Vector)
    ensures |v| == n && forall i | 0 <= i < n :: v[i] == if i == k then c else 0.0
  {
    seq(n, i => if i == k then c else 0.0)
  }

  lemma {:induction false} DotCommutes(a: Vector, b: Vector)
    requires |a| == |b|
    ensures Dot(a, b) == Dot(b, a)
  {
    if a != [] {
      DotCommutes(a[..|a| - 1], b[..|a| - 1]);
      assert Times(a[|a| - 1], b[|a| - 1]) == Times(b[|a| - 1], a[|a| - 1]);
    }
  }

  /** The inner product is linear in either argument. */
  lemma {:induction false} DotReduced(a: Vector, b: Vector, c: real, v: Vector)
    requires |a| == |b| == |v|
    ensures Dot(Reduced(a, b, c), v) == Dot(a, v) - Times(c, Dot(b, v))
  {
    if a == [] {
      assert Times(c, 0.0) == 0.0;
    } else {
      var m := |a| - 1;
      var r := Reduced(a, b, c);
      assert r[..m] == Reduced(a[..m], b[..m], c) by {
        hide Times;
      }
      DotReduced(a[..m], b[..m], c, v[..m]);
      Regrouped(Dot(a[..m], v[..m]), Dot(b[..m], v[..m]), a[m], b[m], v[m], c);
      hide Times;
    }
  }

  lemma Regrouped(p: real, q: real, x: real, y: real, z: real, c: real)
    ensures p - Times(c, q) + Times(x - Times(c, y), z) == p + Times(x, z) - Times(c, q + Times(y, z))
  {
  }

  lemma DotReducedRight(v: Vector, a: Vector, b: Vector, c: real)
    requires |v| == |a| == |b|
    ensures Dot(v, Reduced(a, b, c)) == Dot(v, a) - Times(c, Dot(v, b))
  {
    hide Dot, Times, Reduced;
    DotReduced(a, b, c, v);
    DotCommutes(v, Reduced(a, b, c));
    DotCommutes(v, a);
    DotCommutes(v, b);
  }

  lemma {:induction false} DotZero(a: Vector, b: Vector)
    requires |a| == |b| && forall i | 0 <= i < |a| :: a[i] == 0.0
    ensures Dot(a, b) == 0.0
  {
    if a != [] {
      DotZero(a[..|a| - 1], b[..|a| - 1]);
      assert Times(0.0, b[|a| - 1]) == 0.0;
    }
  }

  lemma {:induction false} DotUnit(a: Vector, k: nat, c: real)
    requires k < |a|
    ensures Dot(Unit(|a|, k, c), a) == Times(c, a[k]) == Dot(a, Unit(|a|, k, c))
  {
    var m, u := |a| - 1, Unit(|a|, k, c);
    assert u[..m] == Unit(m, k, c);
    if k == m {
      DotZero(u[..m], a[..m]);
    } else {
      DotUnit(a[..m], k, c);
      assert Times(0.0, a[m]) == 0.0;
    }
    DotCommutes(u, a);
    hide Times;
  }

  // ---------------------------------------------------------------- matrices

  type Mat = Image<real>

  function Column(m: Mat, j: nat): (v: Vector)
    requires m.Valid() && j < m.width
    ensures |v| == m.height && forall i | 0 <= i < m.height :: v[i] == m.rows[i][j]
  {
    seq(m.height, i requires 0 <= i < m.height => m.rows[i][j])
  }

  /** Row i of the result is row i of `m` against the vector. */
  function Applied(m: Mat, v: Vector): (w: Vector)
    requires m.Valid() && |v| == m.width
    ensures |w| == m.height && forall i | 0 <= i < m.height :: w[i] == Dot(m.rows[i], v)
  {
    seq(m.height, i requires 0 <= i < m.height => Dot(m.rows[i], v))
  }

  /** A row vector times a matrix. */
  function RowTimes(a: Vector, b: Mat): (v: Vector)
    requires b.Valid() && |a| == b.height
    ensures |v| == b.width && forall j | 0 <= j < b.width :: v[j] == Dot(a, Column(b, j))
  {
    seq(b.width, j requires 0 <= j < b.width => Dot(a, Column(b, j)))
  }

  /** Sum of products: cell (i, j) is row i of the left factor against column j of the right one. */
  function Product(a: Mat, b: Mat): (p: Mat)
    requires a.Valid() && b.Valid() && a.width == b.height
    ensures p.Valid() && p.height == a.height && p.width == b.width
    ensures forall i | 0 <= i < a.height :: p.rows[i] == RowTimes(a.rows[i], b)
  {
    Image(b.width, a.height, seq(a.height, i requires 0 <= i < a.height => RowTimes(a.rows[i], b)))
  }

  function Plus(a: Mat, b: Mat): (s: Mat)
    requires a.Valid() && b.Valid() && a.SameShape(b)
    ensures s.Valid() && s.SameShape(a)
    ensures forall i, j | 0 <= i < a.height && 0 <= j < a.width :: s.rows[i][j] == a.rows[i][j] + b.rows[i][j]
  {
    Image(a.width, a.height, seq(a.height, i requires 0 <= i < a.height =>
      seq(a.width, j requires 0 <= j < a.width => a.rows[i][j] + b.rows[i][j])))
  }

  function DiagonalOf(d: Vector): (m: Mat)
    ensures m.Valid() && m.height == |d| && m.width == |d|
    ensures forall i | 0 <= i < |d| :: m.rows[i] == Unit(|d|, i, d[i])
  {
    Image(|d|, |d|, seq(|d|, i requires 0 <= i < |d| => Unit(|d|, i, d[i])))
  }

  function Ones(n: nat): (d: Vector)
    ensures |d| == n && forall i | 0 <= i < n :: d[i] == 1.0
  {
    seq(n, _ => 1.0)
  }

  function Identity(n: nat): (m: Mat)
    ensures m.Valid() && m.height == n && m.width == n
    ensures forall i | 0 <= i < n :: m.rows[i] == Unit(n, i, 1.0)
  {
    DiagonalOf(Ones(n))
  }

  function Transposed(m: Mat): (t: Mat)
    requires m.Valid()
    ensures t.Valid() && t.height == m.width && t.width == m.height
    ensures forall j | 0 <= j < m.width :: t.rows[j] == Column(m, j)
  {
    Image(m.height, m.width, seq(m.width, j requires 0 <= j < m.width => Column(m, j)))
  }

  // ---------------------------------------------------------------- ring laws

  /** Applying a product is applying its factors one after the other. */
  lemma {:induction false} DotThroughProduct(a: Vector, b: Mat, v: Vector)
    requires b.Valid() && |a| == b.height && |v| == b.width
    ensures Dot(RowTimes(a, b), v) == Dot(a, Applied(b, v))
    decreases |v|
  {
    if v == [] {
      DotZero(Applied(b, v), a);
      DotCommutes(a, Applied(b, v));
    } else {
      var m := b.width - 1;
      var b' := FirstColumns(b, m);
      DotThroughProduct(a, b', v[..m]);
      RowTimesStep(a, b, v);
      assert Times(Dot(a, Column(b, m)), v[m]) == -Times(-v[m], Dot(a, Column(b, m)));
      hide Dot, RowTimes, Times;
      AppliedStep(b, v);
      DotReducedRight(a, Applied(b', v[..m]), Column(b, m), -v[m]);
    }
  }

  lemma RowTimesStep(a: Vector, b: Mat, v: Vector)
    requires b.Valid() && |a| == b.height && 0 < |v| == b.width
    ensures var m := b.width - 1;
            Dot(RowTimes(a, b), v) == Dot(RowTimes(a, FirstColumns(b, m)), v[..m]) + Times(Dot(a, Column(b, m)), v[m])
  {
    hide Times;
    var m := b.width - 1;
    assert RowTimes(a, b)[..m] == RowTimes(a, FirstColumns(b, m));
  }

  lemma AppliedStep(b: Mat, v: Vector)
    requires b.Valid() && 0 < |v| == b.width
    ensures var m := b.width - 1;
            Applied(b, v) == Reduced(Applied(FirstColumns(b, m), v[..m]), Column(b, m), -v[m])
  {
    var m := b.width - 1;
    var w, w', last := Applied(b, v), Applied(FirstColumns(b, m), v[..m]), Column(b, m);
    forall i | 0 <= i < b.height ensures w[i] == Reduced(w', last, -v[m])[i] {
      assert b.rows[i][..m] == FirstColumns(b, m).rows[i];
      assert Times(last[i], v[m]) == -Times(-v[m], last[i]);
      hide Times;
    }
  }

  function FirstColumns(b: Mat, m: nat): (c: Mat)
    requires b.Valid() && m <= b.width
    ensures c.Valid() && c.width == m && c.height == b.height
    ensures forall i | 0 <= i < b.height :: c.rows[i] == b.rows[i][..m]
    ensures forall j | 0 <= j < m :: Column(c, j) == Column(b, j)
  {
    Image(m, b.height, seq(b.height, i requires 0 <= i < b.height => b.rows[i][..m]))
  }

  lemma AppliedTwice(a: Mat, b: Mat, v: Vector)
    requires a.Valid() && b.Valid() && a.width == b.height && |v| == b.width
    ensures Applied(Product(a, b), v) == Applied(a, Applied(b, v))
  {
    forall i | 0 <= i < a.height ensures Applied(Product(a, b), v)[i] == Applied(a, Applied(b, v))[i] {
      DotThroughProduct(a.rows[i], b, v);
    }
  }

  lemma ProductColumn(a: Mat, b: Mat, j: nat)
    requires a.Valid() && b.Valid() && a.width == b.height && j < b.width
    ensures Column(Product(a, b), j) == Applied(a, Column(b, j))
  {
  }

  /** Matrices with the same columns are equal. */
  lemma SameColumns(a: Mat, b: Mat)
    requires a.Valid() && b.Valid() && a.SameShape(b)
    requires forall j | 0 <= j < a.width :: Column(a, j) == Column(b, j)
    ensures a == b
  {
    forall x: nat, y: nat | a.Inside(x, y) ensures a.At(x, y) == b.At(x, y) {
      assert Column(a, x)[y] == Column(b, x)[y];
    }
    SameCells(a, b);
  }

  lemma Associative(a: Mat, b: Mat, c: Mat)
    requires a.Valid() && b.Valid() && c.Valid() && a.width == b.height && b.width == c.height
    ensures Product(Product(a, b), c) == Product(a, Product(b, c))
  {
    var left, right := Product(Product(a, b), c), Product(a, Product(b, c));
    forall j | 0 <= j < c.width ensures Column(left, j) == Column(right, j) {
      ProductColumn(Product(a, b), c, j);
      ProductColumn(a, Product(b, c), j);
      ProductColumn(b, c, j);
      AppliedTwice(a, b, Column(c, j));
    }
    SameColumns(left, right);
  }

  lemma TransposedTwice(m: Mat)
    requires m.Valid()
    ensures Transposed(Transposed(m)) == m
  {
    SameCells(Transposed(Transposed(m)), m);
  }

  /** Transposition reverses products. */
  lemma TransposedProduct(a: Mat, b: Mat)
    requires a.Valid() && b.Valid() && a.width == b.height
    ensures Transposed(Product(a, b)) == Product(Transposed(b), Transposed(a))
  {
    var left, right := Transposed(Product(a, b)), Product(Transposed(b), Transposed(a));
    forall x: nat, y: nat | left.Inside(x, y) ensures left.At(x, y) == right.At(x, y) {
      assert Column(Transposed(a), x) == a.rows[x];
      DotCommutes(a.rows[x], Column(b, y));
    }
    SameCells(left, right);
  }

  lemma DistributesRight(a: Mat, b: Mat, c: Mat)
    requires a.Valid() && b.Valid() && c.Valid() && a.SameShape(b) && a.width == c.height
    ensures Product(Plus(a, b), c) == Plus(Product(a, c), Product(b, c))
  {
    var left, right := Product(Plus(a, b), c), Plus(Product(a, c), Product(b, c));
    forall x: nat, y: nat | left.Inside(x, y) ensures left.At(x, y) == right.At(x, y) {
      assert forall z :: Times(-1.0, z) == -z;
      hide Times;
      assert Plus(a, b).rows[y] == Reduced(a.rows[y], b.rows[y], -1.0);
      DotReduced(a.rows[y], b.rows[y], -1.0, Column(c, x));
    }
    SameCells(left, right);
  }

  lemma DistributesLeft(a: Mat, b: Mat, c: Mat)
    requires a.Valid() && b.Valid() && c.Valid() && a.width == b.height && b.SameShape(c)
    ensures Product(a, Plus(b, c)) == Plus(Product(a, b), Product(a, c))
  {
    var left, right := Product(a, Plus(b, c)), Plus(Product(a, b), Product(a, c));
    forall x: nat, y: nat | left.Inside(x, y) ensures left.At(x, y) == right.At(x, y) {
      assert forall z :: Times(-1.0, z) == -z;
      hide Times;
      assert Column(Plus(b, c), x) == Reduced(Column(b, x), Column(c, x), -1.0);
      DotReducedRight(a.rows[y], Column(b, x), Column(c, x), -1.0);
    }
    SameCells(left, right);
  }

  /** A diagonal factor scales rows from the left and columns from the right. */
  lemma DiagonalScalesRows(d: Vector, m: Mat, i: nat, j: nat)
    requires m.Valid() && |d| == m.height && i < m.height && j < m.width
    ensures Product(DiagonalOf(d), m).rows[i][j] == d[i] * m.rows[i][j]
  {
    DotUnit(Column(m, j), i, d[i]);
  }

  lemma DiagonalScalesColumns(d: Vector, m: Mat, i: nat, j: nat)
    requires m.Valid() && |d| == m.width && i < m.height && j < m.width
    ensures Product(m, DiagonalOf(d)).rows[i][j] == m.rows[i][j] * d[j]
  {
    var column := Column(DiagonalOf(d), j);
    assert column == Unit(|d|, j, d[j]);
    DotUnit(m.rows[i], j, d[j]);
  }

  lemma IdentityLaws(m: Mat)
    requires m.Valid()
    ensures Product(Identity(m.height), m) == m == Product(m, Identity(m.width))
  {
    forall x: nat, y: nat | m.Inside(x, y)
      ensures Product(Identity(m.height), m).At(x, y) == m.At(x, y) == Product(m, Identity(m.width)).At(x, y)
    {
      DiagonalScalesRows(Ones(m.height), m, y, x);
      DiagonalScalesColumns(Ones(m.width), m, y, x);
    }
    SameCells(Product(Identity(m.height), m), m);
    SameCells(Product(m, Identity(m.width)), m);
  }

  lemma DiagonalProduct(d: Vector, e: Vector)
    requires |d| == |e|
    ensures Product(DiagonalOf(d), DiagonalOf(e))
         == DiagonalOf(seq(|d|, i requires 0 <= i < |d| => d[i] * e[i]))
  {
    var p := seq(|d|, i requires 0 <= i < |d| => d[i] * e[i]);
    var left, right := Product(DiagonalOf(d), DiagonalOf(e)), DiagonalOf(p);
    forall x: nat, y: nat | left.Inside(x, y) ensures left.At(x, y) == right.At(x, y) {
      DiagonalScalesRows(d, DiagonalOf(e), y, x);
    }
    SameCells(left, right);
  }

  /** A product of pairs, written out. */
  lemma ProductOfPairs(a: Mat, b: Mat, i: nat, j: nat)
    requires a.Valid() && b.Valid() && a.width == 2 == b.height && i < a.height && j < b.width
    ensures Product(a, b).rows[i][j] == a.rows[i][0] * b.rows[0][j] + a.rows[i][1] * b.rows[1][j]
  {
    var u, v := a.rows[i], Column(b, j);
    assert u[..1][..0] == [] && v[..1][..0] == [];
    assert Dot(u[..1], v[..1]) == Dot(u[..1][..0], v[..1][..0]) + Times(u[..1][0], v[..1][0]);
    assert Dot(u, v) == Dot(u[..1], v[..1]) + Times(u[1], v[1]);
  }

  // ---------------------------------------------------------------- the loops

  /** The matrix product: refuses mismatched shapes and a result too large to index. */
  method Multiply(sizeMax: nat, a: Mat, b: Mat) returns (r: Result<Mat>)
    requires a.Valid() && b.Valid() && a.height <= sizeMax && b.width <= sizeMax
    ensures r.Ok? <==> a.width == b.height && b.width * a.height <= sizeMax
    ensures r.Ok? ==> r.value == Product(a, b)
    ensures r.Err? ==> r.error == InvalidArgument
  {
    if a.width != b.height {
      return Err(InvalidArgument);
    }
    var count := CheckedCount(sizeMax, b.width, a.height);
    if count.Err? {
      return Err(InvalidArgument);
    }
    var mat := Tabulate(b.width, a.height, (_, _) => 0.0).rows;
    for i := 0 to a.height
      invariant |mat| == a.height && forall y | 0 <= y < a.height :: |mat[y]| == b.width
      invariant forall y | 0 <= y < i :: mat[y] == Product(a, b).rows[y]
      invariant forall y, x | i <= y < a.height && 0 <= x < b.width :: mat[y][x] == 0.0
    {
      for j := 0 to b.width
        invariant |mat| == a.height && forall y | 0 <= y < a.height :: |mat[y]| == b.width
        invariant forall y | 0 <= y < i :: mat[y] == Product(a, b).rows[y]
        invariant forall y, x | i < y < a.height && 0 <= x < b.width :: mat[y][x] == 0.0
        invariant forall x | 0 <= x < j :: mat[i][x] == Product(a, b).rows[i][x]
        invariant forall x | j <= x < b.width :: mat[i][x] == 0.0
      {
        ghost var before := mat;
        mat := AccumulateCell(mat, a, b, i, j);
        assert forall y | 0 <= y < a.height && y != i :: mat[y] == before[y];
        assert mat[i] == before[i][j := Product(a, b).rows[i][j]];
      }
      assert mat[i] == Product(a, b).rows[i];
    }
    assert mat == Product(a, b).rows;
    return Ok(Image(b.width, a.height, mat));
  }

  /** The innermost loop: adds the products of one row and one column into a single cell. */
  method AccumulateCell(mat: seq<Vector>, a: Mat, b: Mat, i: nat, j: nat) returns (r: seq<Vector>)
    requires a.Valid() && b.Valid() && a.width == b.height && i < a.height && j < b.width
    requires i < |mat| && j < |mat[i]|
    ensures r == mat[i := mat[i][j := mat[i][j] + Dot(a.rows[i], Column(b, j))]]
  {
    r := mat;
    assert mat[i := mat[i]] == mat && mat[i][j := mat[i][j]] == mat[i];
    ghost var row, column := a.rows[i], Column(b, j);
    for k := 0 to a.width
      invariant |r| == |mat| && |r[i]| == |mat[i]|
      invariant r[i][j] == mat[i][j] + Dot(row[..k], column[..k])
      invariant r == mat[i := r[i]] && r[i] == mat[i][j := r[i][j]]
    {
      assert row[..k + 1][..k] == row[..k] && column[..k + 1][..k] == column[..k];
      r := r[i := r[i][j := r[i][j] + a.rows[i][k] * b.rows[k][j]]];
    }
    assert row[..a.width] == row && column[..a.width] == column;
  }

  /** Compound addition in place; a shape mismatch changes nothing. */
  method Add(m: Map<real>, other: Mat) returns (r: Result<()>)
    requires m.Valid() && other.Valid()
    modifies m`data
    ensures m.Valid()
    ensures r.Ok? <==> old(m.Value()).SameShape(other)
    ensures r.Ok? ==> m.Value() == Plus(old(m.Value()), other)
    ensures r.Err? ==> r.error == InvalidArgument && m.data == old(m.data)
  {
    if m.width != other.width || m.height != other.height {
      return Err(InvalidArgument);
    }
    var element := Flat(other.rows);
    FlatLength(other.rows, other.width);
    for index := 0 to |m.data|
      invariant |m.data| == |element| == m.width * m.height
      invariant forall k | 0 <= k < index :: m.data[k] == old(m.data)[k] + element[k]
      invariant forall k | index <= k < |m.data| :: m.data[k] == old(m.data)[k]
    {
      m.data := m.data[index := m.data[index] + element[index]];
    }
    ghost var sum := Plus(old(m.Value()), other);
    forall x: nat, y: nat | m.Value().Inside(x, y) ensures m.Value().At(x, y) == sum.At(x, y) {
      CellIndex(x, y, m.width, m.height);
      FlatIndex(other.rows, other.width, x, y);
    }
    SameCells(m.Value(), sum);
    return Ok(());
  }

  /** The diagonal matrix: zeros, then one cell per row. */
  method Diagonal(sizeMax: nat, d: Vector) returns (r: Result<Mat>)
    requires |d| <= sizeMax
    ensures r.Ok? <==> |d| * |d| <= sizeMax
    ensures r.Ok? ==> r.value == DiagonalOf(d)
    ensures r.Ok? ==> forall i, j | 0 <= i < |d| && 0 <= j < |d| :: r.value.rows[i][j] == if i == j then d[i] else 0.0
    ensures r.Err? ==> r.error == InvalidArgument
  {
    var count := CheckedCount(sizeMax, |d|, |d|);
    if count.Err? {
      return Err(InvalidArgument);
    }
    var mat := Tabulate(|d|, |d|, (_, _) => 0.0).rows;
    for i := 0 to |d|
      invariant |mat| == |d| && forall y | 0 <= y < |d| :: |mat[y]| == |d|
      invariant forall y, x | 0 <= y < |d| && 0 <= x < |d| :: mat[y][x] == if x == y < i then d[y] else 0.0
    {
      mat := mat[i := mat[i][i := d[i]]];
    }
    SameCells(Image(|d|, |d|, mat), DiagonalOf(d));
    return Ok(Image(|d|, |d|, mat));
  }

  method Scalar(sizeMax: nat, c: real, n: nat) returns (r: Result<Mat>)
    requires n <= sizeMax
    ensures r.Ok? <==> n * n <= sizeMax
    ensures r.Ok? ==> r.value == DiagonalOf(seq(n, _ => c))
    ensures r.Ok? ==> forall i, j | 0 <= i < n && 0 <= j < n :: r.value.rows[i][j] == if i == j then c else 0.0
    ensures r.Err? ==> r.error == InvalidArgument
  {
    r := Diagonal(sizeMax, seq(n, _ => c));
  }

  method Identify(sizeMax: nat, n: nat) returns (r: Result<Mat>)
    requires n <= sizeMax
    ensures r.Ok? <==> n * n <= sizeMax
    ensures r.Ok? ==> r.value == Identity(n)
    ensures r.Ok? ==> forall i, j | 0 <= i < n && 0 <= j < n :: r.value.rows[i][j] == if i == j then 1.0 else 0.0
    ensures r.Err? ==> r.error == InvalidArgument
  {
    r := Scalar(sizeMax, 1.0, n);
    assert seq(n, _ => 1.0) == Ones(n);
  }

  /** The transpose: rows become columns. */
  method Transpose(m: Mat) returns (t: Mat)
    requires m.Valid()
    ensures t == Transposed(m)
  {
    var cells := Tabulate(m.height, m.width, (_, _) => 0.0).rows;
    for row := 0 to m.height
      invariant |cells| == m.width && forall y | 0 <= y < m.width :: |cells[y]| == m.height
      invariant forall y, x | 0 <= y < m.width && 0 <= x < row :: cells[y][x] == m.rows[x][y]
    {
      for col := 0 to m.width
        invariant |cells| == m.width && forall y | 0 <= y < m.width :: |cells[y]| == m.height
        invariant forall y, x | 0 <= y < m.width && 0 <= x < row :: cells[y][x] == m.rows[x][y]
        invariant forall y | 0 <= y < col :: cells[y][row] == m.rows[row][y]
      {
        cells := cells[col := cells[col][row := m.rows[row][col]]];
      }
    }
    t := Image(m.height, m.width, cells);
    SameCells(t, Transposed(m));
  }
}
