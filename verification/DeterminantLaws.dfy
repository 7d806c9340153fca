/**
What the determinant does with the other matrix operations: it turns products into products and
ignores transposition. Both follow from one fact: row operations determine a form on square
matrices up to its value at the identity.
*/
module DeterminantLaws {
  import opened Grid
  import opened Matrix
  import opened Determinant
  import opened Elimination
  import opened Inverse

  type RowForm = Rows -> real

  ghost predicate Sized(m: Rows, n: nat) { Square(m) && |m| == n }

  ghost predicate Reduces(f: RowForm, m: Rows, i: nat, j: nat, c: real)
    requires Square(m) && i < |m| && j < |m|
  {
    f(m[i := Reduced(m[i], m[j], c)]) == f(m)
  }

  ghost predicate Divides(f: RowForm, m: Rows, i: nat, p: real)
    requires Square(m) && i < |m| && p != 0.0
  {
    f(m[i := Divided(m[i], p)]) == f(m) / p
  }

  ghost predicate Vanishes(f: RowForm, m: Rows, i: nat)
    requires Square(m) && i < |m|
  {
    m[i] == Zeros(|m|) ==> f(m) == 0.0
  }

  /** Behaves like a determinant under row operations on n by n matrices. */
  ghost predicate IsForm(f: RowForm, n: nat) {
    && (forall m: Rows, i: nat, j: nat, c: real | Sized(m, n) && i < n && j < n && i != j :: Reduces(f, m, i, j, c))
    && (forall m: Rows, i: nat, p: real | Sized(m, n) && i < n && p != 0.0 :: Divides(f, m, i, p))
    && (forall m: Rows, i: nat | Sized(m, n) && i < n :: Vanishes(f, m, i))
  }

  // ---------------------------------------------------------------- clearing a column

  /** Rows below k, other than r, with column c cleared by row r. */
  function Cleared(w: Rows, r: nat, c: nat, k: nat): (s: Rows)
    requires Square(w) && r < |w| && c < |w| && k <= |w| && w[r][c] != 0.0
    ensures Square(s) && |s| == |w| && s[r] == w[r]
    ensures forall i | k <= i < |w| :: s[i] == w[i]
  {
    if k == 0 then w
    else
      var s := Cleared(w, r, c, k - 1);
      if k - 1 == r then s
      else s[k - 1 := Reduced(s[k - 1], s[r], s[k - 1][c] / s[r][c])]
  }

  lemma {:induction false} ClearedKeeps(f: RowForm, w: Rows, r: nat, c: nat, k: nat)
    requires Square(w) && r < |w| && c < |w| && k <= |w| && w[r][c] != 0.0 && IsForm(f, |w|)
    ensures f(Cleared(w, r, c, k)) == f(w)
  {
    hide Reduced;
    if k > 0 {
      ClearedKeeps(f, w, r, c, k - 1);
      var s := Cleared(w, r, c, k - 1);
      if k - 1 != r {
        assert Sized(s, |w|) && Reduces(f, s, k - 1, r, s[k - 1][c] / s[r][c]);
      }
    }
  }

  lemma {:induction false} ClearedCells(w: Rows, r: nat, c: nat, k: nat, i: nat, j: nat)
    requires Square(w) && r < |w| && c < |w| && k <= |w| && w[r][c] != 0.0 && i < |w| && j < |w|
    ensures i < k && i != r && j == c ==> Cleared(w, r, c, k)[i][j] == 0.0
    ensures w[r][j] == 0.0 ==> Cleared(w, r, c, k)[i][j] == w[i][j]
    decreases k
  {
    if k > 0 {
      ClearedCells(w, r, c, k - 1, i, j);
      var s := Cleared(w, r, c, k - 1);
      if k - 1 == i && i != r {
        Quotient(s[i][c], s[r][c]);
        ZeroProduct(s[i][c] / s[r][c]);
        hide Times;
      }
    }
  }

  // ---------------------------------------------------------------- forms that vanish

  /** Rows from r on are zero in the columns up to r: more rows than columns to fill. */
  ghost predicate Short(w: Rows, r: nat)
    requires Square(w) && r < |w|
  {
    forall i, j | r <= i < |w| && 0 <= j <= r :: w[i][j] == 0.0
  }

  /** Brings a nonzero cell of column c into row r. */
  function Raised(w: Rows, r: nat, p: nat, c: nat): (s: Rows)
    requires Square(w) && r < |w| && p < |w| && c < |w| && w[p][c] != 0.0
    ensures Square(s) && |s| == |w| && s[r][c] != 0.0
    ensures forall i | 0 <= i < |w| && i != r :: s[i] == w[i]
    ensures forall j | 0 <= j < |w| && w[r][j] == 0.0 && w[p][j] == 0.0 :: s[r][j] == 0.0
  {
    if w[r][c] != 0.0 then w else w[r := Reduced(w[r], w[p], -1.0)]
  }

  lemma RaisedKeeps(f: RowForm, w: Rows, r: nat, p: nat, c: nat)
    requires Square(w) && r < |w| && p < |w| && c < |w| && w[p][c] != 0.0 && IsForm(f, |w|)
    ensures f(Raised(w, r, p, c)) == f(w)
  {
    assert Sized(w, |w|);
    if w[r][c] == 0.0 {
      assert Reduces(f, w, r, p, -1.0);
    }
  }

  lemma {:induction false} ShortVanishes(f: RowForm, w: Rows, r: nat)
    requires Square(w) && r < |w| && Short(w, r) && IsForm(f, |w|)
    ensures f(w) == 0.0
    decreases |w| - r
  {
    if r == |w| - 1 {
      assert Sized(w, |w|) && w[r] == Zeros(|w|);
      assert Vanishes(f, w, r);
    } else if p :| r <= p < |w| && w[p][r + 1] != 0.0 {
      var s := Raised(w, r, p, r + 1);
      RaisedKeeps(f, w, r, p, r + 1);
      var t := Cleared(s, r, r + 1, |w|);
      ClearedKeeps(f, s, r, r + 1, |w|);
      forall i, j | r + 1 <= i < |w| && 0 <= j <= r + 1 ensures t[i][j] == 0.0 {
        ClearedCells(s, r, r + 1, |w|, i, j);
      }
      ShortVanishes(f, t, r + 1);
    } else {
      ShortVanishes(f, w, r + 1);
    }
  }

  // ---------------------------------------------------------------- forms are determined at the identity

  /** One column brought into the shape of the identity. */
  function Pivoted(w: Rows, r: nat, p: nat): (s: Rows)
    requires Square(w) && r < |w| && p < |w| && w[p][r] != 0.0
    ensures Square(s) && |s| == |w|
  {
    var t := Cleared(Raised(w, r, p, r), r, r, |w|);
    t[r := Divided(t[r], t[r][r])]
  }

  lemma PivotedKeeps(f: RowForm, w: Rows, r: nat, p: nat)
    requires Square(w) && r < |w| && p < |w| && w[p][r] != 0.0 && IsForm(f, |w|)
    ensures f(Pivoted(w, r, p)) == f(w) / Raised(w, r, p, r)[r][r]
  {
    hide Raised, Cleared, Divided;
    var s := Raised(w, r, p, r);
    RaisedKeeps(f, w, r, p, r);
    var t := Cleared(s, r, r, |w|);
    ClearedKeeps(f, s, r, r, |w|);
    assert Sized(t, |w|) && Divides(f, t, r, t[r][r]);
  }

  lemma PivotedUnit(w: Rows, r: nat, p: nat)
    requires Square(w) && r <= p < |w| && w[p][r] != 0.0 && UnitColumns(w, r)
    ensures UnitColumns(Pivoted(w, r, p), r + 1)
  {
    hide Raised, Cleared;
    var n, s := |w|, Raised(w, r, p, r);
    var t := Cleared(s, r, r, n);
    var u := Pivoted(w, r, p);
    WholeShare(t[r][r]);
    forall i, j | 0 <= i < n && 0 <= j < r + 1 ensures u[i][j] == if i == j then 1.0 else 0.0 {
      ClearedCells(s, r, r, n, i, j);
      if i == r && j < r {
        assert 0.0 / t[r][r] == 0.0;
      }
    }
  }

  lemma ScaledBack(x: real, y: real, a: real, b: real, p: real)
    requires p != 0.0 && Times(x / p, a) == Times(y / p, b)
    ensures Times(x, a) == Times(y, b)
  {
    assert x / p * a * p == y / p * b * p;
    assert x / p * p == x && y / p * p == y;
    assert x / p * a * p == x / p * p * a;
    assert y / p * b * p == y / p * p * b;
  }

  /** Two forms differ only by a factor, the same for every matrix. */
  lemma {:induction false} FormsAgree(f: RowForm, g: RowForm, w: Rows, r: nat)
    requires Square(w) && r <= |w| && UnitColumns(w, r) && IsForm(f, |w|) && IsForm(g, |w|)
    ensures Times(f(w), g(Identity(|w|).rows)) == Times(g(w), f(Identity(|w|).rows))
    decreases |w| - r
  {
    var n, id := |w|, Identity(|w|).rows;
    if r == n {
      SameCells(Image(n, n, w), Identity(n));
      assert Times(f(id), g(id)) == Times(g(id), f(id));
    } else if p :| r <= p < n && w[p][r] != 0.0 {
      hide Times, Pivoted, IsForm, Raised;
      PivotedUnit(w, r, p);
      PivotedKeeps(f, w, r, p);
      PivotedKeeps(g, w, r, p);
      FormsAgree(f, g, Pivoted(w, r, p), r + 1);
      ScaledBack(f(w), g(w), g(id), f(id), Raised(w, r, p, r)[r][r]);
    } else {
      ShortVanishes(f, w, r);
      ShortVanishes(g, w, r);
      ZeroProduct(g(id));
      ZeroProduct(f(id));
    }
  }

  // ---------------------------------------------------------------- the determinant is a form

  ghost function DetForm(): RowForm { m => if Square(m) then Det(m) else 0.0 }

  lemma ZeroRow(m: Rows, i: nat)
    requires Square(m) && i < |m| && m[i] == Zeros(|m|)
    ensures Det(m) == 0.0
  {
    RowLinear(m, i, m[i], 1.0);
    assert forall x :: Times(1.0, x) == x;
    hide Det, Times;
    assert Reduced(m[i], m[i], 1.0) == m[i];
    assert m[i := m[i]] == m;
  }

  lemma DetIsForm(n: nat)
    ensures IsForm(DetForm(), n)
  {
    hide Det;
    var f := DetForm();
    forall m: Rows, i: nat, j: nat, c: real | Sized(m, n) && i < n && j < n && i != j ensures Reduces(f, m, i, j, c) {
      RowReduced(m, i, j, c);
    }
    forall m: Rows, i: nat, p: real | Sized(m, n) && i < n && p != 0.0 ensures Divides(f, m, i, p) {
      DetDivided(m, i, p);
    }
    forall m: Rows, i: nat | Sized(m, n) && i < n ensures Vanishes(f, m, i) {
      if m[i] == Zeros(n) { ZeroRow(m, i); }
    }
  }

  lemma DetIdentity(n: nat)
    ensures Det(Identity(n).rows) == 1.0
  {
    var id := Identity(n).rows;
    hide Det;
    UnitColumnsDet(id, n);
    EmptyTrailing(id);
  }

  // ---------------------------------------------------------------- products

  function SquareMat(m: Rows): (a: Mat)
    requires Square(m)
    ensures a.Valid() && a.width == a.height == |m| && a.rows == m
  {
    Image(|m|, |m|, m)
  }

  lemma RowTimesReduced(x: Vector, v: Vector, c: real, b: Mat)
    requires b.Valid() && |x| == |v| == b.height
    ensures RowTimes(Reduced(x, v, c), b) == Reduced(RowTimes(x, b), RowTimes(v, b), c)
  {
    hide Dot, Times;
    forall j | 0 <= j < b.width
      ensures RowTimes(Reduced(x, v, c), b)[j] == Reduced(RowTimes(x, b), RowTimes(v, b), c)[j]
    {
      DotReduced(x, v, c, Column(b, j));
    }
  }

  lemma RowTimesDivided(x: Vector, p: real, b: Mat)
    requires b.Valid() && |x| == b.height && p != 0.0
    ensures RowTimes(Divided(x, p), b) == Divided(RowTimes(x, b), p)
  {
    hide Dot;
    forall j | 0 <= j < b.width ensures RowTimes(Divided(x, p), b)[j] == Divided(RowTimes(x, b), p)[j] {
      DotDivided(x, p, Column(b, j));
    }
  }

  lemma RowTimesZeros(b: Mat)
    requires b.Valid()
    ensures RowTimes(Zeros(b.height), b) == Zeros(b.width)
  {
    hide Dot;
    forall j | 0 <= j < b.width ensures RowTimes(Zeros(b.height), b)[j] == 0.0 {
      DotZero(Zeros(b.height), Column(b, j));
    }
  }

  /** Changing a row of the left factor changes that row of the product. */
  lemma ProductReplaced(m: Rows, i: nat, x: Vector, b: Mat)
    requires Square(m) && b.Valid() && b.height == |m| == |x| && i < |m|
    ensures Product(SquareMat(m[i := x]), b).rows == Product(SquareMat(m), b).rows[i := RowTimes(x, b)]
  {
  }

  ghost function ProductForm(b: Mat): RowForm
    requires b.Valid() && b.width == b.height
  {
    m => if Sized(m, b.width) then Det(Product(SquareMat(m), b).rows) else 0.0
  }

  lemma ProductIsForm(b: Mat)
    requires b.Valid() && b.width == b.height
    ensures IsForm(ProductForm(b), b.width)
  {
    hide Det, RowTimes;
    var n, f := b.width, ProductForm(b);
    forall m: Rows, i: nat, j: nat, c: real | Sized(m, n) && i < n && j < n && i != j ensures Reduces(f, m, i, j, c) {
      ProductReplaced(m, i, Reduced(m[i], m[j], c), b);
      RowTimesReduced(m[i], m[j], c, b);
      RowReduced(Product(SquareMat(m), b).rows, i, j, c);
    }
    forall m: Rows, i: nat, p: real | Sized(m, n) && i < n && p != 0.0 ensures Divides(f, m, i, p) {
      ProductReplaced(m, i, Divided(m[i], p), b);
      RowTimesDivided(m[i], p, b);
      DetDivided(Product(SquareMat(m), b).rows, i, p);
    }
    forall m: Rows, i: nat | Sized(m, n) && i < n ensures Vanishes(f, m, i) {
      if m[i] == Zeros(n) {
        RowTimesZeros(b);
        ZeroRow(Product(SquareMat(m), b).rows, i);
      }
    }
  }

  /** The determinant of a product is the product of the determinants. */
  lemma Multiplicative(a: Mat, b: Mat)
    requires a.Valid() && b.Valid() && a.width == a.height == b.width == b.height
    ensures Det(Product(a, b).rows) == Det(a.rows) * Det(b.rows)
  {
    hide Det, Product, Identity, Dot;
    var n := a.width;
    DetIsForm(n);
    ProductIsForm(b);
    DetIdentity(n);
    IdentityLaws(b);
    FormsAgree(ProductForm(b), DetForm(), a.rows, 0);
    assert SquareMat(a.rows) == a && SquareMat(Identity(n).rows) == Identity(n);
  }

  /** Inverse matrices have inverse determinants. */
  lemma InverseDeterminant(a: Mat, b: Mat)
    requires a.Valid() && a.width == a.height && IsInverse(a, b)
    ensures Det(a.rows) * Det(b.rows) == 1.0
  {
    Multiplicative(a, b);
    DetIdentity(a.width);
    hide Det, Product;
  }

  // ---------------------------------------------------------------- transposition

  ghost function TransposeForm(n: nat): RowForm {
    m => if Sized(m, n) then Det(Transposed(SquareMat(m)).rows) else 0.0
  }

  /** A row operation is a factor on the left, and its transpose a factor on the right. */
  lemma TransposedFactor(m: Rows, i: nat, x: Vector)
    requires Square(m) && i < |m| && |x| == |m|
    ensures var e := SquareMat(Identity(|m|).rows[i := x]);
            Det(Transposed(SquareMat(m[i := RowTimes(x, SquareMat(m))])).rows)
              == Det(Transposed(SquareMat(m)).rows) * Det(Transposed(e).rows)
  {
    hide Det;
    var a, id := SquareMat(m), Identity(|m|);
    var e := SquareMat(id.rows[i := x]);
    ProductReplaced(id.rows, i, x, a);
    IdentityLaws(a);
    assert SquareMat(id.rows) == id;
    assert Product(e, a) == SquareMat(m[i := RowTimes(x, a)]);
    TransposedProduct(e, a);
    Multiplicative(Transposed(a), Transposed(e));
  }

  lemma UnitRow(m: Rows, i: nat)
    requires Square(m) && i < |m|
    ensures RowTimes(Unit(|m|, i, 1.0), SquareMat(m)) == m[i]
  {
    hide Dot;
    forall j | 0 <= j < |m| ensures RowTimes(Unit(|m|, i, 1.0), SquareMat(m))[j] == m[i][j] {
      UnitDot(Column(SquareMat(m), j), i);
    }
  }

  lemma TransposeReduces(m: Rows, i: nat, j: nat, c: real)
    requires Square(m) && i < |m| && j < |m| && i != j
    ensures Det(Transposed(SquareMat(m[i := Reduced(m[i], m[j], c)])).rows) == Det(Transposed(SquareMat(m)).rows)
  {
    hide Det, RowTimes;
    var n := |m|;
    var id := Identity(n);
    var x := Reduced(id.rows[i], id.rows[j], c);
    UnitRow(m, i);
    UnitRow(m, j);
    RowTimesReduced(id.rows[i], id.rows[j], c, SquareMat(m));
    TransposedFactor(m, i, x);
    var e, t := SquareMat(id.rows[i := x]), SquareMat(id.rows[j := Reduced(id.rows[j], id.rows[i], c)]);
    ZeroProduct(c);
    hide Times;
    SameCells(Transposed(e), t);
    RowReduced(id.rows, j, i, c);
    DetIdentity(n);
  }

  lemma TransposeDivides(m: Rows, i: nat, p: real)
    requires Square(m) && i < |m| && p != 0.0
    ensures Det(Transposed(SquareMat(m[i := Divided(m[i], p)])).rows) == Det(Transposed(SquareMat(m)).rows) / p
  {
    hide Det, RowTimes;
    var id := Identity(|m|);
    var x := Divided(id.rows[i], p);
    UnitRow(m, i);
    RowTimesDivided(id.rows[i], p, SquareMat(m));
    TransposedFactor(m, i, x);
    var e := SquareMat(id.rows[i := x]);
    assert 0.0 / p == 0.0;
    SameCells(Transposed(e), e);
    DetDivided(id.rows, i, p);
    DetIdentity(|m|);
    OneShare(Det(Transposed(SquareMat(m)).rows), p);
  }

  lemma OneShare(x: real, p: real)
    requires p != 0.0
    ensures x * (1.0 / p) == x / p
  {
  }

  lemma TransposeVanishes(m: Rows, i: nat)
    requires Square(m) && i < |m| && m[i] == Zeros(|m|)
    ensures Det(Transposed(SquareMat(m)).rows) == 0.0
  {
    hide Det, RowTimes;
    var id := Identity(|m|);
    RowTimesZeros(SquareMat(m));
    TransposedFactor(m, i, Zeros(|m|));
    assert m[i := m[i]] == m;
    var e := SquareMat(id.rows[i := Zeros(|m|)]);
    SameCells(Transposed(e), e);
    ZeroRow(e.rows, i);
  }

  lemma TransposeIsForm(n: nat)
    ensures IsForm(TransposeForm(n), n)
  {
    hide Det, Transposed;
    var f := TransposeForm(n);
    forall m: Rows, i: nat, j: nat, c: real | Sized(m, n) && i < n && j < n && i != j ensures Reduces(f, m, i, j, c) {
      TransposeReduces(m, i, j, c);
    }
    forall m: Rows, i: nat, p: real | Sized(m, n) && i < n && p != 0.0 ensures Divides(f, m, i, p) {
      TransposeDivides(m, i, p);
    }
    forall m: Rows, i: nat | Sized(m, n) && i < n ensures Vanishes(f, m, i) {
      if m[i] == Zeros(n) { TransposeVanishes(m, i); }
    }
  }

  /** The determinant does not see transposition. */
  lemma TransposeInvariant(a: Mat)
    requires a.Valid() && a.width == a.height
    ensures Det(Transposed(a).rows) == Det(a.rows)
  {
    var n, id := a.width, Identity(a.width);
    DetIsForm(n);
    TransposeIsForm(n);
    DetIdentity(n);
    SameCells(Transposed(id), id);
    FormsAgree(TransposeForm(n), DetForm(), a.rows, 0);
    assert SquareMat(a.rows) == a && SquareMat(id.rows) == id;
    hide Det, Transposed;
  }
}
