/**
How the rejection tolerance of the inverse behaves: it is relative, so multiplying a matrix by a
nonzero number never changes the verdict, and a smaller tolerance never accepts less.
*/
module InverseLaws {
  import opened Grid
  import opened Matrix
  import opened Determinant
  import opened Elimination
  import opened Inverse

  // ---------------------------------------------------------------- a smaller tolerance

  lemma PivotOf(w: Rows, r: nat, tolerance: real) returns (p: nat)
    requires Square(w) && r < |w| && tolerance >= 0.0 && Accepts(w, r, tolerance)
    ensures r <= p < |w| && IsPivot(w, r, p) && w[p][r] != 0.0 && Abs(w[p][r]) > tolerance
    ensures Accepts(Stepped(w, r, p), r + 1, tolerance)
  {
    p :| IsPivot(w, r, p) && Abs(w[p][r]) > tolerance && Accepts(Stepped(w, r, p), r + 1, tolerance);
  }

  lemma {:induction false} AcceptsMore(w: Rows, r: nat, low: real, high: real)
    requires Square(w) && r <= |w| && 0.0 <= low <= high && Accepts(w, r, high)
    ensures Accepts(w, r, low)
    decreases |w| - r
  {
    hide Stepped, Accepts, IsPivot, Abs;
    if r == |w| {
      AcceptsDone(w, low);
    } else {
      var p := PivotOf(w, r, high);
      AcceptsMore(Stepped(w, r, p), r + 1, low, high);
      AcceptsAt(w, r, p, low);
    }
  }

  lemma TimesOrder(x: real, y: real, z: real)
    requires x <= y && z >= 0.0
    ensures Times(x, z) <= Times(y, z) && Times(z, x) <= Times(z, y)
  {
  }

  /** What is accepted under one tolerance is accepted under every smaller one, zero included. */
  lemma AcceptedMore(a: Mat, low: real, high: real)
    requires a.Valid() && a.width == a.height && 0.0 <= low <= high && Accepted(a, high)
    ensures Accepted(a, low)
  {
    hide IsLargest;
    var n, m := a.width, a.rows;
    if n == 2 {
      var spread := Abs(Times(m[0][0], m[1][1])) + Abs(Times(m[0][1], m[1][0]));
      TimesOrder(low, high, spread);
      TimesOrder(Times(low, spread), Times(high, spread), 4.0);
      hide Times;
    } else if n != 1 {
      var largest: real :| IsLargest(a, largest) && largest > 0.0 && Accepts(m, 0, CellTolerance(largest, n, high));
      Tolerance(largest, n as real, 1.0);
      TimesOrder(low, high, Times(largest, n as real));
      hide Times;
      AcceptsMore(m, 0, CellTolerance(largest, n, low), CellTolerance(largest, n, high));
    }
  }

  // ---------------------------------------------------------------- scaling

  function ScaledRow(v: Vector, c: real): (s: Vector)
    ensures |s| == |v| && forall i | 0 <= i < |v| :: s[i] == Times(c, v[i])
  {
    seq(|v|, i requires 0 <= i < |v| => Times(c, v[i]))
  }

  function ScaledMat(a: Mat, c: real): (s: Mat)
    requires a.Valid()
    ensures s.Valid() && s.SameShape(a)
    ensures forall i | 0 <= i < a.height :: s.rows[i] == ScaledRow(a.rows[i], c)
  {
    Image(a.width, a.height, seq(a.height, i requires 0 <= i < a.height => ScaledRow(a.rows[i], c)))
  }

  /** During elimination of a scaled matrix, the solved rows agree and the others are still scaled. */
  ghost predicate ScaledFrom(w: Rows, s: Rows, r: nat, c: real)
    requires Square(w) && Square(s) && |w| == |s| && r <= |w|
  {
    && (forall i | 0 <= i < r :: s[i] == w[i])
    && (forall i | r <= i < |w| :: s[i] == ScaledRow(w[i], c))
  }

  lemma AbsScaled(c: real, x: real, y: real)
    requires c != 0.0
    ensures Abs(Times(c, x)) == Times(Abs(c), Abs(x))
    ensures Abs(Times(c, x)) <= Times(Abs(c), Abs(y)) <==> Abs(x) <= Abs(y)
    ensures Abs(Times(c, x)) > Times(Abs(c), y) <==> Abs(x) > y
    ensures Times(c, x) == 0.0 <==> x == 0.0
  {
    var k, u, v := Abs(c), Abs(x), Abs(y);
    PositiveOrder(k, u, v);
    PositiveOrder(k, y, u);
  }

  lemma PositiveOrder(k: real, u: real, v: real)
    requires k > 0.0
    ensures Times(k, u) <= Times(k, v) <==> u <= v
  {
    if u <= v {
      TimesOrder(u, v, k);
    } else {
      assert k * (u - v) > 0.0;
    }
  }

  lemma PivotScaled(w: Rows, s: Rows, r: nat, c: real, p: nat)
    requires Square(w) && Square(s) && |w| == |s| && r < |w| && ScaledFrom(w, s, r, c) && c != 0.0 && IsPivot(w, r, p)
    ensures IsPivot(s, r, p)
  {
    hide Abs, Times;
    forall i | r <= i < |w|
      ensures Abs(s[i][r]) <= Abs(s[p][r]) && (i < p ==> Abs(s[i][r]) < Abs(s[p][r]))
    {
      assert s[i][r] == Times(c, w[i][r]) && s[p][r] == Times(c, w[p][r]);
      AbsScaled(c, w[i][r], w[p][r]);
      AbsScaled(c, w[p][r], w[i][r]);
    }
  }

  lemma CancelScale(c: real, x: real, p: real)
    requires c != 0.0 && p != 0.0
    ensures Times(c, p) != 0.0 && Times(c, x) / Times(c, p) == x / p
  {
    var q := x / p;
    assert q * p == x;
    assert Times(c, x) == q * Times(c, p);
  }

  lemma DividedScaled(v: Vector, c: real, p: real)
    requires c != 0.0 && p != 0.0
    ensures Times(c, p) != 0.0 && Divided(ScaledRow(v, c), Times(c, p)) == Divided(v, p)
  {
    CancelScale(c, 0.0, p);
    forall i | 0 <= i < |v| ensures Divided(ScaledRow(v, c), Times(c, p))[i] == Divided(v, p)[i] {
      CancelScale(c, v[i], p);
      hide Times;
    }
  }

  lemma ReducedScaled(v: Vector, d: Vector, c: real, f: real)
    requires |v| == |d|
    ensures Reduced(ScaledRow(v, c), d, Times(c, f)) == ScaledRow(Reduced(v, d, f), c)
  {
    forall i | 0 <= i < |v| ensures Reduced(ScaledRow(v, c), d, Times(c, f))[i] == ScaledRow(Reduced(v, d, f), c)[i] {
      OutOfDifference(c, v[i], f, d[i]);
      hide Times;
    }
  }

  lemma OutOfDifference(c: real, x: real, f: real, y: real)
    ensures Times(c, x) - Times(Times(c, f), y) == Times(c, x - Times(f, y))
  {
  }

  lemma SteppedScaled(w: Rows, s: Rows, r: nat, c: real, p: nat)
    requires Square(w) && Square(s) && |w| == |s| && r <= p < |w| && ScaledFrom(w, s, r, c) && c != 0.0
    requires w[p][r] != 0.0
    ensures s[p][r] != 0.0 && ScaledFrom(Stepped(w, r, p), Stepped(s, r, p), r + 1, c)
  {
    hide Times, Divided, Reduced, ScaledRow;
    assert s[p][r] == Times(c, w[p][r]);
    DividedScaled(w[p], c, w[p][r]);
    var e, g := Exchanged(w, r, p), Exchanged(s, r, p);
    var d, h := e[r := Divided(e[r], e[r][r])], g[r := Divided(g[r], g[r][r])];
    assert d[r] == h[r];
    forall i | 0 <= i < |w| && i != r
      ensures i < r ==> OthersCleared(h, r)[i] == OthersCleared(d, r)[i]
      ensures i > r ==> OthersCleared(h, r)[i] == ScaledRow(OthersCleared(d, r)[i], c)
    {
      if i > r {
        assert h[i] == ScaledRow(d[i], c) && h[i][r] == Times(c, d[i][r]);
        ReducedScaled(d[i], d[r], c, d[i][r]);
      }
    }
  }

  lemma {:induction false} AcceptsScaled(w: Rows, s: Rows, r: nat, c: real, tolerance: real)
    requires Square(w) && Square(s) && |w| == |s| && r <= |w| && ScaledFrom(w, s, r, c) && c != 0.0
    requires tolerance >= 0.0 && Times(Abs(c), tolerance) >= 0.0 && Accepts(w, r, tolerance)
    ensures Accepts(s, r, Times(Abs(c), tolerance))
    decreases |w| - r
  {
    hide Stepped, Times, Accepts, IsPivot, Abs;
    if r == |w| {
      AcceptsDone(s, Times(Abs(c), tolerance));
    } else {
      var p := PivotOf(w, r, tolerance);
      PivotScaled(w, s, r, c, p);
      SteppedScaled(w, s, r, c, p);
      assert s[p][r] == Times(c, w[p][r]);
      AbsScaled(c, w[p][r], tolerance);
      AcceptsScaled(Stepped(w, r, p), Stepped(s, r, p), r + 1, c, tolerance);
      AcceptsAt(s, r, p, Times(Abs(c), tolerance));
    }
  }

  lemma LargestScaled(a: Mat, largest: real, c: real)
    requires a.Valid() && c != 0.0 && IsLargest(a, largest)
    ensures IsLargest(ScaledMat(a, c), Times(Abs(c), largest))
    ensures largest > 0.0 ==> Times(Abs(c), largest) > 0.0
  {
    var s := ScaledMat(a, c);
    forall i, j | 0 <= i < a.height && 0 <= j < a.width
      ensures Abs(s.rows[i][j]) == Times(Abs(c), Abs(a.rows[i][j])) <= Times(Abs(c), largest)
    {
      AbsScaled(c, a.rows[i][j], largest);
    }
    AbsScaled(c, largest, 0.0);
    ZeroProduct(Abs(c));
    hide Times;
    if largest != 0.0 {
      var i, j :| 0 <= i < a.height && 0 <= j < a.width && Abs(a.rows[i][j]) == largest;
      assert Abs(s.rows[i][j]) == Times(Abs(c), largest);
    }
  }

  lemma ScaledTolerance(k: real, largest: real, n: nat, epsilon: real)
    requires k >= 0.0 && largest >= 0.0 && epsilon >= 0.0
    ensures Times(k, largest) >= 0.0
    ensures CellTolerance(Times(k, largest), n, epsilon) == Times(k, CellTolerance(largest, n, epsilon))
  {
    Tolerance(k, largest, 1.0);
    var x := n as real;
    Regroup(k, largest, x);
    Regroup(k, Times(largest, x), epsilon);
    hide Times;
  }

  lemma SquarePositive(c: real)
    requires c != 0.0
    ensures Times(c, c) > 0.0
  {
    hide Times;
    PositiveOrder(Abs(c), Abs(c), 0.0);
    ZeroProduct(Abs(c));
    BothOpposite(c, c);
  }

  lemma ScaledProducts(c: real, x: real, y: real)
    ensures Times(Times(c, x), Times(c, y)) == Times(Times(c, c), Times(x, y))
  {
    Regroup(c, x, Times(c, y));
  }

  lemma PairScaled(k: real, x: real, y: real, epsilon: real)
    requires k > 0.0
    ensures Abs(Times(k, x) - Times(k, y)) == Times(k, Abs(x - y))
    ensures Times(Times(epsilon, Abs(Times(k, x)) + Abs(Times(k, y))), 4.0) == Times(k, Times(Times(epsilon, Abs(x) + Abs(y)), 4.0))
  {
    AbsScaled(k, x - y, 0.0);
    AbsScaled(k, x, 0.0);
    AbsScaled(k, y, 0.0);
    assert Times(k, x) - Times(k, y) == Times(k, x - y);
    assert Times(k, Abs(x)) + Times(k, Abs(y)) == Times(k, Abs(x) + Abs(y));
    Swing(epsilon, k, Abs(x) + Abs(y), 4.0);
    hide Times;
  }

  lemma Swing(e: real, k: real, z: real, f: real)
    ensures Times(Times(e, Times(k, z)), f) == Times(k, Times(Times(e, z), f))
  {
  }

  lemma AcceptedPairScaled(a: Mat, c: real, epsilon: real)
    requires a.Valid() && a.width == a.height == 2 && epsilon >= 0.0 && c != 0.0 && Accepted(a, epsilon)
    ensures Accepted(ScaledMat(a, c), epsilon)
  {
    var m, s, k := a.rows, ScaledMat(a, c).rows, Times(c, c);
    SquarePositive(c);
    var x, y := Times(m[0][0], m[1][1]), Times(m[0][1], m[1][0]);
    ScaledProducts(c, m[0][0], m[1][1]);
    ScaledProducts(c, m[0][1], m[1][0]);
    PairScaled(k, x, y, epsilon);
    PositiveOrder(k, Abs(x - y), PairTolerance(m, epsilon));
    hide Times, Abs;
    assert Times(s[0][0], s[1][1]) == Times(k, x) && Times(s[0][1], s[1][0]) == Times(k, y);
  }

  lemma ScalingAccepted(a: Mat, c: real, epsilon: real)
    requires a.Valid() && a.width == a.height && epsilon >= 0.0 && c != 0.0 && Accepted(a, epsilon)
    ensures Accepted(ScaledMat(a, c), epsilon)
  {
    var n, s := a.width, ScaledMat(a, c);
    if n == 1 {
      AbsScaled(c, a.rows[0][0], 0.0);
      hide Times;
    } else if n == 2 {
      AcceptedPairScaled(a, c, epsilon);
    } else {
      hide IsLargest, Times, CellTolerance;
      var largest: real :| IsLargest(a, largest) && largest > 0.0 && Accepts(a.rows, 0, CellTolerance(largest, n, epsilon));
      LargestScaled(a, largest, c);
      ScaledTolerance(Abs(c), largest, n, epsilon);
      AcceptsScaled(a.rows, s.rows, 0, c, CellTolerance(largest, n, epsilon));
    }
  }

  /** The verdict does not depend on the scale of the matrix: the tolerance is relative. */
  lemma ToleranceIsRelative(a: Mat, c: real, epsilon: real)
    requires a.Valid() && a.width == a.height && epsilon >= 0.0 && c != 0.0
    ensures Accepted(ScaledMat(a, c), epsilon) <==> Accepted(a, epsilon)
  {
    hide Accepted, ScaledMat;
    if Accepted(a, epsilon) {
      ScalingAccepted(a, c, epsilon);
    }
    if Accepted(ScaledMat(a, c), epsilon) {
      ScalingAccepted(ScaledMat(a, c), 1.0 / c, epsilon);
      ScaledBack(a, c);
    }
  }

  lemma ScaledBack(a: Mat, c: real)
    requires a.Valid() && c != 0.0
    ensures ScaledMat(ScaledMat(a, c), 1.0 / c) == a
  {
    var s := ScaledMat(ScaledMat(a, c), 1.0 / c);
    forall x: nat, y: nat | a.Inside(x, y) ensures s.At(x, y) == a.At(x, y) {
      Undone(c, a.rows[y][x]);
      hide Times;
    }
    SameCells(s, a);
  }

  lemma Undone(c: real, x: real)
    requires c != 0.0
    ensures Times(1.0 / c, Times(c, x)) == x
  {
    assert 1.0 / c * c == 1.0;
    Regroup(1.0 / c, c, x);
  }

  // ---------------------------------------------------------------- the identity

  lemma IdentityStep(n: nat, r: nat)
    requires r < n
    ensures var w := Identity(n).rows; Square(w) && IsPivot(w, r, r) && w[r][r] == 1.0 && Stepped(w, r, r) == w
  {
    var w := Identity(n).rows;
    assert w[r][r] == 1.0 && forall i | r <= i < n && i != r :: w[i][r] == 0.0;
    var e := Exchanged(w, r, r);
    assert e == w;
    assert Divided(w[r], 1.0) == w[r];
    var d := e[r := Divided(e[r], e[r][r])];
    assert d == w;
    forall i | 0 <= i < n ensures OthersCleared(w, r)[i] == w[i] {
      if i != r {
        forall z: real ensures Times(0.0, z) == 0.0 { ZeroProduct(z); }
        hide Times;
        assert Reduced(w[i], w[r], w[i][r]) == w[i];
      }
    }
    assert OthersCleared(w, r) == w;
  }

  lemma {:induction false} IdentityAccepts(n: nat, r: nat, tolerance: real)
    requires r <= n && tolerance >= 0.0
    ensures Accepts(Identity(n).rows, r, tolerance) <==> r == n || tolerance < 1.0
    decreases n - r
  {
    hide Identity, Accepts, Stepped, IsPivot;
    if r == n {
      AcceptsDone(Identity(n).rows, tolerance);
    } else {
      IdentityStep(n, r);
      AcceptsAt(Identity(n).rows, r, r, tolerance);
      IdentityAccepts(n, r + 1, tolerance);
    }
  }

  /** The verdict on the identity, in numbers: its tolerance is n times epsilon from three rows on, and four times epsilon for two. */
  lemma IdentityVerdict(n: nat, epsilon: real)
    requires epsilon >= 0.0
    ensures n == 1 ==> Accepted(Identity(n), epsilon)
    ensures n == 2 ==> (Accepted(Identity(n), epsilon) <==> 4.0 * epsilon < 1.0)
    ensures n >= 3 ==> (Accepted(Identity(n), epsilon) <==> (n as real) * epsilon < 1.0)
  {
    var id := Identity(n);
    if n == 1 {
      assert id.rows[0][0] == 1.0;
    } else if n == 2 {
      assert id.rows[0][0] == 1.0 == id.rows[1][1] && id.rows[0][1] == 0.0 == id.rows[1][0];
      assert PairTolerance(id.rows, epsilon) == 4.0 * epsilon;
    } else if n >= 3 {
      assert IsLargest(id, 1.0) by {
        assert Abs(id.rows[0][0]) == 1.0;
      }
      LargestUnique(id, 1.0);
      assert CellTolerance(1.0, n, epsilon) == (n as real) * epsilon;
      IdentityAccepts(n, 0, CellTolerance(1.0, n, epsilon));
      hide Accepts, IsLargest, CellTolerance, Identity;
    }
  }
}
