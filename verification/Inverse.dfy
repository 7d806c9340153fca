/**
The inverse (core/wse/data/wse_Matrix.cpp): Gauss-Jordan elimination on a matrix and an identity
companion, in exact arithmetic and with the rejection tolerance as a parameter.

The invariant of the elimination is about systems of equations: row i of the pair (w, inv) states
the equation w[i] . x == inv[i] . y, and no step changes which (x, y) solve all equations.
*/
module Inverse {
  import opened Grid
  import opened Matrix
  import opened Determinant
  import opened Elimination

  datatype Outcome = Inverse(value: Mat) | Singular | Refused

  ghost predicate IsInverse(a: Mat, b: Mat)
    requires a.Valid() && a.width == a.height
  {
    && b.Valid() && b.width == a.width && b.height == a.height
    && Product(a, b) == Identity(a.width) && Product(b, a) == Identity(a.width)
  }

  function Zeros(n: nat): (v: Vector)
    ensures |v| == n && forall i | 0 <= i < n :: v[i] == 0.0
  {
    seq(n, _ => 0.0)
  }

  /** Some nonzero vector is sent to zero. */
  ghost predicate Degenerate(a: Mat)
    requires a.Valid()
  {
    exists v: Vector :: |v| == a.width && v != Zeros(a.width) && Applied(a, v) == Zeros(a.height)
  }

  // ---------------------------------------------------------------- systems of equations

  ghost predicate Solves(w: Rows, inv: Rows, x: Vector, y: Vector)
    requires Square(w) && Square(inv) && |w| == |inv| == |x| == |y|
  {
    forall i | 0 <= i < |w| :: Dot(w[i], x) == Dot(inv[i], y)
  }

  ghost predicate SameSolutions(w: Rows, inv: Rows, w': Rows, inv': Rows)
    requires Square(w) && Square(inv) && |w| == |inv|
    requires Square(w') && Square(inv') && |w'| == |inv'| == |w|
  {
    forall x: Vector, y: Vector | |x| == |w| && |y| == |w| :: Solves(w, inv, x, y) <==> Solves(w', inv', x, y)
  }

  /** A pair with identity on the left is a pair of two-sided inverses. */
  lemma SolvedIsInverse(a: Mat, inv: Rows)
    requires a.Valid() && a.width == a.height && Square(inv) && |inv| == a.width
    requires SameSolutions(a.rows, Identity(a.width).rows, Identity(a.width).rows, inv)
    ensures IsInverse(a, Image(a.width, a.width, inv))
  {
    var n := a.width;
    var b, id := Image(n, n, inv), Identity(n);
    forall i: nat, j: nat | i < n && j < n
      ensures Product(a, b).rows[i][j] == id.rows[i][j] && Product(b, a).rows[i][j] == id.rows[i][j]
    {
      SolvedCell(a, inv, i, j);
    }
    SameCells(Product(a, b), id);
    SameCells(Product(b, a), id);
  }

  lemma SolvedCell(a: Mat, inv: Rows, i: nat, j: nat)
    requires a.Valid() && a.width == a.height && Square(inv) && |inv| == a.width && i < a.width && j < a.width
    requires SameSolutions(a.rows, Identity(a.width).rows, Identity(a.width).rows, inv)
    ensures var b := Image(a.width, a.width, inv);
            && Dot(a.rows[i], Column(b, j)) == Identity(a.width).rows[i][j]
            && Dot(inv[i], Column(a, j)) == Identity(a.width).rows[i][j]
  {
    hide Dot, Times;
    var n := a.width;
    var b, id, e := Image(n, n, inv), Identity(n), Unit(n, j, 1.0);
    var x, y := Column(b, j), Column(a, j);
    assert Solves(id.rows, inv, x, e) by {
      forall k | 0 <= k < n ensures Dot(id.rows[k], x) == Dot(inv[k], e) {
        UnitDot(x, k);
        UnitDot(inv[k], j);
      }
    }
    assert Solves(a.rows, id.rows, e, y) by {
      forall k | 0 <= k < n ensures Dot(a.rows[k], e) == Dot(id.rows[k], y) {
        UnitDot(a.rows[k], j);
        UnitDot(y, k);
      }
    }
    assert Solves(a.rows, id.rows, x, e) && Solves(id.rows, inv, e, y);
    UnitDot(e, i);
  }

  lemma UnitDot(a: Vector, k: nat)
    requires k < |a|
    ensures Dot(Unit(|a|, k, 1.0), a) == a[k] == Dot(a, Unit(|a|, k, 1.0))
  {
    DotUnit(a, k, 1.0);
    hide Dot;
  }

  // ---------------------------------------------------------------- row operations keep the solutions

  lemma ExchangeKeeps(w: Rows, inv: Rows, i: nat, j: nat)
    requires Square(w) && Square(inv) && |w| == |inv| && i < |w| && j < |w|
    ensures SameSolutions(w, inv, Exchanged(w, i, j), Exchanged(inv, i, j))
  {
    hide Dot;
    forall x: Vector, y: Vector | |x| == |w| && |y| == |w|
      ensures Solves(w, inv, x, y) <==> Solves(Exchanged(w, i, j), Exchanged(inv, i, j), x, y)
    {
      var w', inv' := Exchanged(w, i, j), Exchanged(inv, i, j);
      if Solves(w', inv', x, y) {
        assert Dot(w'[i], x) == Dot(inv'[i], y) && Dot(w'[j], x) == Dot(inv'[j], y);
        forall k | 0 <= k < |w| ensures Dot(w[k], x) == Dot(inv[k], y) {
          if k != i && k != j {
            assert Dot(w'[k], x) == Dot(inv'[k], y);
          }
        }
      }
    }
  }

  lemma ReduceKeeps(w: Rows, inv: Rows, i: nat, j: nat, c: real)
    requires Square(w) && Square(inv) && |w| == |inv| && i < |w| && j < |w| && i != j
    ensures SameSolutions(w, inv, w[i := Reduced(w[i], w[j], c)], inv[i := Reduced(inv[i], inv[j], c)])
  {
    hide Dot, Times, Reduced;
    var w', inv' := w[i := Reduced(w[i], w[j], c)], inv[i := Reduced(inv[i], inv[j], c)];
    forall x: Vector, y: Vector | |x| == |w| && |y| == |w|
      ensures Solves(w, inv, x, y) <==> Solves(w', inv', x, y)
    {
      DotReduced(w[i], w[j], c, x);
      DotReduced(inv[i], inv[j], c, y);
      if Solves(w', inv', x, y) {
        assert Dot(w'[i], x) == Dot(inv'[i], y) && Dot(w'[j], x) == Dot(inv'[j], y);
        forall k | 0 <= k < |w| ensures Dot(w[k], x) == Dot(inv[k], y) {
          if k != i {
            assert Dot(w'[k], x) == Dot(inv'[k], y);
          }
        }
      }
    }
  }

  function Divided(v: Vector, p: real): (r: Vector)
    requires p != 0.0
    ensures |r| == |v| && forall i | 0 <= i < |v| :: r[i] == v[i] / p
  {
    seq(|v|, i requires 0 <= i < |v| => v[i] / p)
  }

  /** Dividing a row is subtracting a multiple of the row from itself. */
  lemma DividedIsReduced(v: Vector, p: real)
    requires p != 0.0
    ensures Divided(v, p) == Reduced(v, v, 1.0 - 1.0 / p)
  {
    forall i | 0 <= i < |v| ensures Divided(v, p)[i] == Reduced(v, v, 1.0 - 1.0 / p)[i] {
      Share(v[i], p);
    }
  }

  lemma Share(x: real, p: real)
    requires p != 0.0
    ensures x / p == x - Times(1.0 - 1.0 / p, x)
  {
    assert x / p == (1.0 / p) * x;
  }

  lemma DivideKeeps(w: Rows, inv: Rows, i: nat, p: real)
    requires Square(w) && Square(inv) && |w| == |inv| && i < |w| && p != 0.0
    ensures SameSolutions(w, inv, w[i := Divided(w[i], p)], inv[i := Divided(inv[i], p)])
  {
    hide Dot, Divided;
    var w', inv' := w[i := Divided(w[i], p)], inv[i := Divided(inv[i], p)];
    forall x: Vector, y: Vector | |x| == |w| && |y| == |w|
      ensures Solves(w, inv, x, y) <==> Solves(w', inv', x, y)
    {
      DotDivided(w[i], p, x);
      DotDivided(inv[i], p, y);
      SameShare(Dot(w[i], x), Dot(inv[i], y), p);
      if Solves(w', inv', x, y) {
        assert Dot(w'[i], x) == Dot(inv'[i], y);
        forall k | 0 <= k < |w| ensures Dot(w[k], x) == Dot(inv[k], y) {
          if k != i {
            assert Dot(w'[k], x) == Dot(inv'[k], y);
          }
        }
      }
    }
  }

  lemma SameShare(x: real, y: real, p: real)
    requires p != 0.0
    ensures x / p == y / p <==> x == y
  {
    Quotient(x, p);
    Quotient(y, p);
  }

  lemma WholeShare(p: real)
    requires p != 0.0
    ensures p / p == 1.0
  {
  }

  lemma DotDivided(v: Vector, p: real, x: Vector)
    requires |v| == |x| && p != 0.0
    ensures Dot(Divided(v, p), x) == Dot(v, x) / p
  {
    hide Dot, Times, Divided;
    DividedIsReduced(v, p);
    DotReduced(v, v, 1.0 - 1.0 / p, x);
    Share(Dot(v, x), p);
  }

  lemma DetDivided(w: Rows, i: nat, p: real)
    requires Square(w) && i < |w| && p != 0.0
    ensures Det(w[i := Divided(w[i], p)]) == Det(w) / p
  {
    hide Det, Times, Divided;
    DividedIsReduced(w[i], p);
    RowLinear(w, i, w[i], 1.0 - 1.0 / p);
    assert w[i := w[i]] == w;
    Share(Det(w), p);
  }

  // ---------------------------------------------------------------- columns already solved

  /** The first r columns are those of the identity. */
  ghost predicate UnitColumns(w: Rows, r: nat)
    requires Square(w) && r <= |w|
  {
    forall i, j | 0 <= i < |w| && 0 <= j < r :: w[i][j] == if i == j then 1.0 else 0.0
  }

  lemma {:induction false} UnitColumnsDet(w: Rows, r: nat)
    requires Square(w) && r <= |w| && UnitColumns(w, r)
    ensures Det(w) == Det(Trailing(w, r))
    decreases r
  {
    hide Det;
    if r == 0 {
      assert Trailing(w, 0) == w;
    } else {
      UnitColumnsDet(w, r - 1);
      TrailingClear(w, r - 1);
      assert Times(1.0, Det(Trailing(w, r))) == Det(Trailing(w, r));
      hide Times;
    }
  }

  /** A vector sent to zero when column r vanishes below the solved part. */
  function Kernel(w: Rows, r: nat): (v: Vector)
    requires Square(w) && r < |w|
    ensures |v| == |w|
    ensures forall k | 0 <= k < |w| :: v[k] == if k < r then -w[k][r] else if k == r then 1.0 else 0.0
  {
    seq(|w|, k requires 0 <= k < |w| => if k < r then -w[k][r] else if k == r then 1.0 else 0.0)
  }

  lemma {:induction false} ZeroTail(a: Vector, v: Vector, m: nat)
    requires |a| == |v| && m <= |v| && forall k | m <= k < |v| :: v[k] == 0.0
    ensures Dot(a, v) == Dot(a[..m], v[..m])
    decreases |a|
  {
    var n := |a| - 1;
    if m == |a| {
      assert a[..m] == a && v[..m] == v;
    } else {
      ZeroTail(a[..n], v[..n], m);
      assert a[..n][..m] == a[..m] && v[..n][..m] == v[..m];
      ZeroProduct(a[n]);
      hide Times;
    }
  }

  lemma KernelRow(w: Rows, r: nat, i: nat)
    requires Square(w) && r < |w| && i < |w| && UnitColumns(w, r)
    requires forall k | r <= k < |w| :: w[k][r] == 0.0
    ensures Dot(w[i], Kernel(w, r)) == 0.0
  {
    var v := Kernel(w, r);
    ZeroTail(w[i], v, r + 1);
    var a, b := w[i][..r + 1], v[..r + 1];
    assert Dot(a, b) == Dot(w[i][..r], v[..r]) + Times(w[i][r], 1.0) by {
      hide Times;
      assert a[..r] == w[i][..r] && b[..r] == v[..r];
    }
    assert Times(w[i][r], 1.0) == w[i][r];
    hide Dot, Times;
    if i < r {
      assert w[i][..r] == Unit(r, i, 1.0);
      UnitDot(v[..r], i);
    } else {
      DotZero(w[i][..r], v[..r]);
    }
  }

  lemma FailureIsDegenerate(a: Mat, w: Rows, inv: Rows, r: nat)
    requires a.Valid() && a.width == a.height && Square(w) && Square(inv) && |w| == |inv| == a.width
    requires SameSolutions(a.rows, Identity(a.width).rows, w, inv)
    requires r < |w| && UnitColumns(w, r) && forall k | r <= k < |w| :: w[k][r] == 0.0
    ensures Degenerate(a)
  {
    hide Dot, Times;
    var n, v := a.width, Kernel(w, r);
    assert Solves(w, inv, v, Zeros(n)) by {
      forall i | 0 <= i < n ensures Dot(w[i], v) == Dot(inv[i], Zeros(n)) {
        KernelRow(w, r, i);
        DotZero(Zeros(n), inv[i]);
        DotCommutes(Zeros(n), inv[i]);
      }
    }
    assert Solves(a.rows, Identity(n).rows, v, Zeros(n));
    forall i | 0 <= i < n ensures Applied(a, v)[i] == 0.0 {
      DotZero(Zeros(n), Identity(n).rows[i]);
      DotCommutes(Zeros(n), Identity(n).rows[i]);
    }
    assert v[r] == 1.0 && Zeros(n)[r] == 0.0;
    assert Applied(a, v) == Zeros(n);
  }

  lemma AppliedIdentity(v: Vector)
    ensures Applied(Identity(|v|), v) == v
  {
    hide Dot;
    forall i | 0 <= i < |v| ensures Applied(Identity(|v|), v)[i] == v[i] {
      UnitDot(v, i);
    }
  }

  lemma AppliedZeros(b: Mat)
    requires b.Valid()
    ensures Applied(b, Zeros(b.width)) == Zeros(b.height)
  {
    hide Dot;
    forall i | 0 <= i < b.height ensures Applied(b, Zeros(b.width))[i] == 0.0 {
      DotZero(Zeros(b.width), b.rows[i]);
      DotCommutes(Zeros(b.width), b.rows[i]);
    }
  }

  /** A matrix that sends a nonzero vector to zero has no inverse. */
  lemma DegenerateHasNoInverse(a: Mat, b: Mat)
    requires a.Valid() && a.width == a.height && Degenerate(a)
    ensures !IsInverse(a, b)
  {
    hide Applied, Product, Identity, Zeros;
    var v: Vector :| |v| == a.width && v != Zeros(a.width) && Applied(a, v) == Zeros(a.height);
    AppliedIdentity(v);
    if IsInverse(a, b) {
      AppliedZeros(b);
      AppliedTwice(b, a, v);
    }
  }

  // ---------------------------------------------------------------- which matrices are accepted

  /** Row p is the first from r on whose cell in column r is largest in absolute value. */
  ghost predicate IsPivot(w: Rows, r: nat, p: nat)
    requires Square(w) && r < |w|
  {
    && r <= p < |w|
    && (forall i | r <= i < |w| :: Abs(w[i][r]) <= Abs(w[p][r]))
    && (forall i | r <= i < p :: Abs(w[i][r]) < Abs(w[p][r]))
  }

  /** Row r subtracted from every other row, times that row's cell in column r. */
  function OthersCleared(d: Rows, r: nat): (s: Rows)
    requires Square(d) && r < |d|
    ensures |s| == |d| && Square(s)
    ensures forall i | 0 <= i < |d| :: s[i] == if i == r then d[r] else Reduced(d[i], d[r], d[i][r])
  {
    seq(|d|, i requires 0 <= i < |d| => if i == r then d[r] else Reduced(d[i], d[r], d[i][r]))
  }

  /** One stage: the pivot row brought to place and divided by the pivot, the column cleared elsewhere. */
  function Stepped(w: Rows, r: nat, p: nat): (s: Rows)
    requires Square(w) && r < |w| && p < |w| && w[p][r] != 0.0
    ensures |s| == |w| && Square(s)
  {
    var e := Exchanged(w, r, p);
    OthersCleared(e[r := Divided(e[r], e[r][r])], r)
  }

  /** Every pivot from stage r on exceeds the tolerance. */
  ghost predicate Accepts(w: Rows, r: nat, tolerance: real)
    requires Square(w) && r <= |w| && tolerance >= 0.0
    decreases |w| - r
  {
    r == |w| || exists p: nat :: IsPivot(w, r, p) && Abs(w[p][r]) > tolerance && Accepts(Stepped(w, r, p), r + 1, tolerance)
  }

  lemma AcceptsAt(w: Rows, r: nat, p: nat, tolerance: real)
    requires Square(w) && r < |w| && tolerance >= 0.0 && IsPivot(w, r, p)
    ensures Accepts(w, r, tolerance)
            <==> Abs(w[p][r]) > tolerance && Accepts(Stepped(w, r, p), r + 1, tolerance)
  {
    hide IsPivot, Stepped;
    forall q: nat | IsPivot(w, r, q) ensures q == p {
      PivotUnique(w, r, p, q);
    }
  }

  lemma PivotUnique(w: Rows, r: nat, p: nat, q: nat)
    requires Square(w) && r < |w| && IsPivot(w, r, p) && IsPivot(w, r, q)
    ensures p == q
  {
    assert Abs(w[p][r]) <= Abs(w[q][r]) <= Abs(w[p][r]);
  }

  ghost predicate IsLargest(a: Mat, largest: real)
    requires a.Valid()
  {
    && largest >= 0.0
    && (forall i, j | 0 <= i < a.height && 0 <= j < a.width :: Abs(a.rows[i][j]) <= largest)
    && (largest == 0.0 || exists i, j | 0 <= i < a.height && 0 <= j < a.width :: Abs(a.rows[i][j]) == largest)
  }

  /** The tolerances: none for one row, relative to the products for two, relative to the largest cell for more. */
  ghost predicate Accepted(a: Mat, epsilon: real)
    requires a.Valid() && a.width == a.height && epsilon >= 0.0
  {
    var n, m := a.width, a.rows;
    if n == 1 then m[0][0] != 0.0
    else if n == 2 then
      Abs(Times(m[0][0], m[1][1]) - Times(m[0][1], m[1][0])) > PairTolerance(m, epsilon)
    else
      exists largest: real :: IsLargest(a, largest) && largest > 0.0 && Accepts(m, 0, CellTolerance(largest, n, epsilon))
  }

  function PairTolerance(m: Rows, epsilon: real): real
    requires Square(m) && |m| == 2
  {
    Times(Times(epsilon, Abs(Times(m[0][0], m[1][1])) + Abs(Times(m[0][1], m[1][0]))), 4.0)
  }

  function CellTolerance(largest: real, n: nat, epsilon: real): (t: real)
    requires largest >= 0.0 && epsilon >= 0.0
    ensures t >= 0.0
    ensures epsilon == 0.0 ==> t == 0.0
  {
    Tolerance(largest, n as real, epsilon);
    Times(Times(largest, n as real), epsilon)
  }

  // ---------------------------------------------------------------- the loops

  method DivideRow(w: Rows, i: nat, p: real) returns (s: Rows)
    requires Square(w) && i < |w| && p != 0.0
    ensures Square(s) && |s| == |w| && s == w[i := Divided(w[i], p)]
  {
    s := w;
    assert w[i := w[i]] == w;
    for col := 0 to |w|
      invariant |s| == |w| && |s[i]| == |w| && s == w[i := s[i]]
      invariant forall k | 0 <= k < |w| :: s[i][k] == if k < col then w[i][k] / p else w[i][k]
    {
      s := s[i := s[i][col := s[i][col] / p]];
    }
    assert s[i] == Divided(w[i], p);
  }

  /** What one stage of the elimination keeps. */
  ghost predicate Stage(m: Rows, w: Rows, inv: Rows, r: nat)
    requires Square(m)
  {
    && Square(w) && Square(inv) && |w| == |inv| == |m| && r <= |m|
    && SameSolutions(m, Identity(|m|).rows, w, inv)
    && (Det(w) == 0.0 <==> Det(m) == 0.0)
    && UnitColumns(w, r)
  }

  lemma StageExchanged(m: Rows, w: Rows, inv: Rows, r: nat, p: nat)
    requires Square(m) && Stage(m, w, inv, r) && r < p < |m|
    ensures Stage(m, Exchanged(w, r, p), Exchanged(inv, r, p), r)
  {
    ExchangeKeeps(w, inv, r, p);
    RowsExchanged(w, r, p);
    hide Det, Solves;
  }

  lemma StageDivided(m: Rows, w: Rows, inv: Rows, r: nat, p: real)
    requires Square(m) && Stage(m, w, inv, r) && r < |m| && p != 0.0
    ensures Stage(m, w[r := Divided(w[r], p)], inv[r := Divided(inv[r], p)], r)
  {
    DivideKeeps(w, inv, r, p);
    DetDivided(w, r, p);
    SameShare(Det(w), 0.0, p);
    hide Det, Solves, Divided;
    assert 0.0 / p == 0.0;
  }

  lemma StageReduced(m: Rows, w: Rows, inv: Rows, r: nat, i: nat, c: real)
    requires Square(m) && Stage(m, w, inv, r) && r < |m| && i < |m| && i != r
    ensures Stage(m, w[i := Reduced(w[i], w[r], c)], inv[i := Reduced(inv[i], inv[r], c)], r)
  {
    ReduceKeeps(w, inv, i, r, c);
    RowReduced(w, i, r, c);
    ZeroProduct(c);
    hide Det, Solves, Times;
  }

  /** Zeroes column r in every row but r, in both matrices. */
  method ClearOthers(ghost m: Rows, w: Rows, inv: Rows, r: nat) returns (w': Rows, inv': Rows)
    requires Square(m) && r < |m| && Stage(m, w, inv, r) && w[r][r] == 1.0
    ensures Stage(m, w', inv', r + 1) && w' == OthersCleared(w, r)
  {
    hide Det, SameSolutions;
    w', inv' := w, inv;
    for next := 0 to |w|
      invariant Stage(m, w', inv', r) && w'[r] == w[r]
      invariant forall i | next <= i < |w| :: w'[i] == w[i]
      invariant forall i | 0 <= i < next && i != r :: w'[i] == Reduced(w[i], w[r], w[i][r])
      invariant forall i | 0 <= i < next && i != r :: w'[i][r] == 0.0
    {
      if next != r {
        var factor := w'[next][r];
        StageReduced(m, w', inv', r, next, factor);
        var s := ReduceRow(w', next, r, 0, factor);
        var t := ReduceRow(inv', next, r, 0, factor);
        WholeRow(w', s, next, r, factor);
        WholeRow(inv', t, next, r, factor);
        assert s[next][r] == factor - Times(factor, 1.0);
        w', inv' := s, t;
      }
    }
  }

  lemma WholeRow(w: Rows, s: Rows, i: nat, j: nat, c: real)
    requires Square(w) && Square(s) && |s| == |w| && i < |w| && j < |w| && s == w[i := s[i]]
    requires s[i][0..] == Reduced(w[i][0..], w[j][0..], c)
    ensures s == w[i := Reduced(w[i], w[j], c)]
  {
    assert s[i][0..] == s[i] && w[i][0..] == w[i] && w[j][0..] == w[j];
  }

  /** Gauss-Jordan elimination; a pivot within the tolerance stops it. */
  method Solve(a: Mat, tolerance: real) returns (solved: bool, inv: Rows)
    requires a.Valid() && a.width == a.height && tolerance >= 0.0
    ensures solved ==> Square(inv) && |inv| == a.width && IsInverse(a, Image(a.width, a.width, inv)) && Det(a.rows) != 0.0
    ensures !solved && tolerance == 0.0 ==> Det(a.rows) == 0.0 && Degenerate(a)
    ensures solved <==> Accepts(a.rows, 0, tolerance)
  {
    hide Det, SameSolutions, Accepts;
    var n, work := a.width, a.rows;
    inv := Identity(n).rows;
    Reflexive(a);
    for row := 0 to n
      invariant Stage(a.rows, work, inv, row)
      invariant Accepts(a.rows, 0, tolerance) <==> Accepts(work, row, tolerance)
    {
      var p := PivotRow(work, row);
      AcceptsAt(work, row, p, tolerance);
      ghost var before := work;
      assert p == row ==> Exchanged(work, row, p) == work;
      if p != row {
        StageExchanged(a.rows, work, inv, row, p);
        work := ExchangeRows(work, row, p);
        inv := ExchangeRows(inv, row, p);
      }
      var pivot := work[row][row];
      if Abs(work[row][row]) <= tolerance {
        if tolerance == 0.0 {
          StageFails(a, work, inv, row);
        }
        return false, inv;
      }
      StageDivided(a.rows, work, inv, row, pivot);
      work := DivideRow(work, row, pivot);
      WholeShare(pivot);
      inv := DivideRow(inv, row, pivot);
      work, inv := ClearOthers(a.rows, work, inv, row);
      assert work == Stepped(before, row, p);
    }
    assert Accepts(work, n, tolerance) by { AcceptsDone(work, tolerance); }
    StageDone(a, work, inv);
    return true, inv;
  }

  lemma AcceptsDone(w: Rows, tolerance: real)
    requires Square(w) && tolerance >= 0.0
    ensures Accepts(w, |w|, tolerance)
  {
  }

  lemma Reflexive(a: Mat)
    requires a.Valid() && a.width == a.height
    ensures Stage(a.rows, a.rows, Identity(a.width).rows, 0)
  {
  }

  lemma StageFails(a: Mat, w: Rows, inv: Rows, r: nat)
    requires a.Valid() && a.width == a.height && r < a.width && Stage(a.rows, w, inv, r)
    requires forall i | r <= i < |w| :: Abs(w[i][r]) <= 0.0
    ensures Det(a.rows) == 0.0 && Degenerate(a)
  {
    hide Det, SameSolutions;
    assert forall i | r <= i < |w| :: w[i][r] == 0.0;
    UnitColumnsDet(w, r);
    ZeroColumn(w, r);
    FailureIsDegenerate(a, w, inv, r);
  }

  lemma StageDone(a: Mat, w: Rows, inv: Rows)
    requires a.Valid() && a.width == a.height && Stage(a.rows, w, inv, a.width)
    ensures IsInverse(a, Image(a.width, a.width, inv)) && Det(a.rows) != 0.0
  {
    hide Det, SameSolutions;
    var id := Identity(a.width);
    UnitColumnsDet(w, a.width);
    EmptyTrailing(w);
    SameCells(Image(a.width, a.width, w), id);
    SolvedIsInverse(a, inv);
  }

  // ---------------------------------------------------------------- the public operation

  /** The largest absolute value of any cell. */
  method LargestCell(a: Mat) returns (largest: real)
    requires a.Valid()
    ensures IsLargest(a, largest)
  {
    largest := 0.0;
    for row := 0 to a.height
      invariant largest >= 0.0 && forall i, j | 0 <= i < row && 0 <= j < a.width :: Abs(a.rows[i][j]) <= largest
      invariant largest == 0.0 || exists i, j | 0 <= i < a.height && 0 <= j < a.width :: Abs(a.rows[i][j]) == largest
    {
      for col := 0 to a.width
        invariant largest >= 0.0 && forall i, j | 0 <= i < row && 0 <= j < a.width :: Abs(a.rows[i][j]) <= largest
        invariant forall j | 0 <= j < col :: Abs(a.rows[row][j]) <= largest
        invariant largest == 0.0 || exists i, j | 0 <= i < a.height && 0 <= j < a.width :: Abs(a.rows[i][j]) == largest
      {
        if Abs(a.rows[row][col]) > largest {
          largest := Abs(a.rows[row][col]);
        }
      }
    }
  }

  lemma SmallInverse1(a: Mat)
    requires a.Valid() && a.width == a.height == 1 && a.rows[0][0] != 0.0
    ensures IsInverse(a, Image(1, 1, [[1.0 / a.rows[0][0]]]))
  {
    var b := Image(1, 1, [[1.0 / a.rows[0][0]]]);
    Dot1(a.rows[0], Column(b, 0));
    Dot1(b.rows[0], Column(a, 0));
    assert Product(a, b).rows[0][0] == 1.0 == Product(b, a).rows[0][0];
    SameCells(Product(a, b), Identity(1));
    SameCells(Product(b, a), Identity(1));
  }

  lemma Dot1(a: Vector, b: Vector)
    requires |a| == |b| == 1
    ensures Dot(a, b) == a[0] * b[0]
  {
    assert a[..0] == [] && b[..0] == [];
  }

  lemma Dot2(a: Vector, b: Vector)
    requires |a| == |b| == 2
    ensures Dot(a, b) == Times(a[0], b[0]) + Times(a[1], b[1])
  {
    Dot1(a[..1], b[..1]);
  }

  function Adjugate(a: Mat, det: real): (b: Mat)
    requires a.Valid() && a.width == a.height == 2 && det != 0.0
    ensures b.Valid() && b.width == b.height == 2
  {
    var c := 1.0 / det;
    Image(2, 2, [[Times(c, a.rows[1][1]), Times(c, -a.rows[0][1])], [Times(c, -a.rows[1][0]), Times(c, a.rows[0][0])]])
  }

  lemma SmallInverse2(a: Mat, det: real)
    requires a.Valid() && a.width == a.height == 2
    requires det == a.rows[0][0] * a.rows[1][1] - a.rows[0][1] * a.rows[1][0] != 0.0
    ensures IsInverse(a, Adjugate(a, det))
  {
    var b := Adjugate(a, det);
    assert 1.0 / det * det == 1.0;
    AdjugateCells(a.rows[0][0], a.rows[0][1], a.rows[1][0], a.rows[1][1], det, 1.0 / det);
    Product2(a, b);
    Product2(b, a);
    hide Times, Product;
    SameCells(Product(a, b), Identity(2));
    SameCells(Product(b, a), Identity(2));
  }

  lemma Product2(a: Mat, b: Mat)
    requires a.Valid() && b.Valid() && a.width == a.height == b.width == b.height == 2
    ensures forall i: nat, j: nat | i < 2 && j < 2 :: Product(a, b).rows[i][j]
              == Times(a.rows[i][0], b.rows[0][j]) + Times(a.rows[i][1], b.rows[1][j])
  {
    hide Times, Dot;
    forall i: nat, j: nat | i < 2 && j < 2
      ensures Product(a, b).rows[i][j] == Times(a.rows[i][0], b.rows[0][j]) + Times(a.rows[i][1], b.rows[1][j])
    {
      Dot2(a.rows[i], Column(b, j));
    }
  }

  lemma AdjugateCells(a: real, b: real, c: real, d: real, det: real, s: real)
    requires det == a * d - b * c && s * det == 1.0
    ensures Times(a, Times(s, d)) + Times(b, Times(s, -c)) == 1.0
    ensures Times(a, Times(s, -b)) + Times(b, Times(s, a)) == 0.0
    ensures Times(c, Times(s, d)) + Times(d, Times(s, -c)) == 0.0
    ensures Times(c, Times(s, -b)) + Times(d, Times(s, a)) == 1.0
    ensures Times(Times(s, d), a) + Times(Times(s, -b), c) == 1.0
    ensures Times(Times(s, d), b) + Times(Times(s, -b), d) == 0.0
    ensures Times(Times(s, -c), a) + Times(Times(s, a), c) == 0.0
    ensures Times(Times(s, -c), b) + Times(Times(s, a), d) == 1.0
  {
  }

  lemma Degenerate1(a: Mat)
    requires a.Valid() && a.width == a.height == 1 && a.rows[0][0] == 0.0
    ensures Degenerate(a)
  {
    Dot1(a.rows[0], [1.0]);
    assert [1.0][0] != Zeros(1)[0];
    assert Applied(a, [1.0]) == Zeros(1);
  }

  lemma Degenerate2(a: Mat)
    requires a.Valid() && a.width == a.height == 2
    requires a.rows[0][0] * a.rows[1][1] - a.rows[0][1] * a.rows[1][0] == 0.0
    ensures Degenerate(a)
  {
    var top, bottom := a.rows[0], a.rows[1];
    Crossed(top[0], top[1], bottom[0], bottom[1]);
    ZeroProduct(0.0);
    ZeroProduct(1.0);
    hide Times, Degenerate;
    if top[0] != 0.0 || top[1] != 0.0 {
      Perpendicular(top[0], top[1], bottom[0], bottom[1]);
      Kernel2(a, [-top[1], top[0]]);
    } else if bottom[0] != 0.0 || bottom[1] != 0.0 {
      Perpendicular(bottom[0], bottom[1], top[0], top[1]);
      Kernel2(a, [-bottom[1], bottom[0]]);
    } else {
      Kernel2(a, [1.0, 0.0]);
    }
  }

  lemma Crossed(x: real, y: real, z: real, w: real)
    requires x * w - y * z == 0.0
    ensures Times(x, w) == Times(y, z) && Times(z, y) == Times(w, x)
  {
  }

  lemma Perpendicular(x: real, y: real, z: real, w: real)
    requires Times(x, w) == Times(y, z)
    ensures Times(x, -y) + Times(y, x) == 0.0 && Times(z, -y) + Times(w, x) == 0.0
  {
  }

  lemma Kernel2(a: Mat, v: Vector)
    requires a.Valid() && a.width == a.height == |v| == 2 && (v[0] != 0.0 || v[1] != 0.0)
    requires forall i | 0 <= i < 2 :: Times(a.rows[i][0], v[0]) + Times(a.rows[i][1], v[1]) == 0.0
    ensures Degenerate(a)
  {
    hide Dot, Times;
    Dot2(a.rows[0], v);
    Dot2(a.rows[1], v);
    assert v != Zeros(2) by {
      assert Zeros(2)[0] == Zeros(2)[1] == 0.0;
    }
    assert Applied(a, v) == Zeros(2);
  }

  /**
  The inverse of a matrix, or a singular outcome. Whatever the tolerance, a reported inverse is a
  two-sided inverse; without tolerance every matrix that has one is inverted, the empty one excepted.
  */
  method TryInverse(a: Mat, epsilon: real) returns (r: Outcome)
    requires a.Valid() && epsilon >= 0.0
    ensures r.Refused? <==> a.width != a.height
    ensures r.Inverse? ==> IsInverse(a, r.value) && Det(a.rows) != 0.0
    ensures a.width == a.height ==> (r.Inverse? <==> Accepted(a, epsilon))
    ensures a.width == a.height == 0 ==> r.Singular?
    ensures r.Singular? && epsilon == 0.0 && a.width > 0 ==> Det(a.rows) == 0.0 && forall b :: !IsInverse(a, b)
  {
    hide Det, Accepts, IsInverse, Degenerate;
    if a.width != a.height {
      return Refused;
    }
    var n := a.width;
    if n == 1 {
      Det1(a.rows);
      if a.rows[0][0] == 0.0 {
        Degenerate1(a);
        NoInverse(a);
        return Singular;
      }
      SmallInverse1(a);
      return Inverse(Image(1, 1, [[1.0 / a.rows[0][0]]]));
    } else if n == 2 {
      Det2(a.rows);
      var det := a.rows[0][0] * a.rows[1][1] - a.rows[0][1] * a.rows[1][0];
      var tolerance := PairTolerance(a.rows, epsilon);
      Tolerance(epsilon, Abs(Times(a.rows[0][0], a.rows[1][1])) + Abs(Times(a.rows[0][1], a.rows[1][0])), 4.0);
      if Abs(det) <= tolerance {
        if epsilon == 0.0 {
          Degenerate2(a);
          NoInverse(a);
        }
        return Singular;
      }
      SmallInverse2(a, det);
      return Inverse(Adjugate(a, det));
    }
    var largest := LargestCell(a);
    if largest == 0.0 {
      LargestUnique(a, largest);
      if n > 0 {
        Reflexive(a);
        StageFails(a, a.rows, Identity(n).rows, 0);
        NoInverse(a);
      }
      return Singular;
    }
    var tolerance := CellTolerance(largest, n, epsilon);
    LargestUnique(a, largest);
    var solved, inv := Solve(a, tolerance);
    if !solved {
      if epsilon == 0.0 {
        NoInverse(a);
      }
      return Singular;
    }
    return Inverse(Image(n, n, inv));
  }

  lemma LargestUnique(a: Mat, largest: real)
    requires a.Valid() && IsLargest(a, largest)
    ensures forall other: real | IsLargest(a, other) :: other == largest
  {
  }

  lemma NoInverse(a: Mat)
    requires a.Valid() && a.width == a.height && Degenerate(a)
    ensures forall b :: !IsInverse(a, b)
  {
    forall b ensures !IsInverse(a, b) {
      DegenerateHasNoInverse(a, b);
    }
  }

  lemma Tolerance(x: real, y: real, z: real)
    requires x >= 0.0 && y >= 0.0 && z >= 0.0
    ensures Times(Times(x, y), z) >= 0.0
    ensures x == 0.0 || z == 0.0 ==> Times(Times(x, y), z) == 0.0
  {
  }
}
