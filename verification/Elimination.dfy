/**
Row operations and the elimination loop of `determinant` (core/wse/data/wse_Matrix.cpp).
*/
module Elimination {
  import opened Grid
  import opened Matrix
  import opened Determinant

  function Abs(x: real): real { if x < 0.0 then -x else x }

  // ---------------------------------------------------------------- row operations

  /** The first row at or below r whose cell in column r is largest in absolute value. */
  method PivotRow(w: Rows, r: nat) returns (p: nat)
    requires Square(w) && r < |w|
    ensures r <= p < |w|
    ensures forall i | r <= i < |w| :: Abs(w[i][r]) <= Abs(w[p][r])
    ensures forall i | r <= i < p :: Abs(w[i][r]) < Abs(w[p][r])
  {
    p := r;
    for next := r + 1 to |w|
      invariant r <= p < next
      invariant forall i | r <= i < next :: Abs(w[i][r]) <= Abs(w[p][r])
      invariant forall i | r <= i < p :: Abs(w[i][r]) < Abs(w[p][r])
    {
      if Abs(w[next][r]) > Abs(w[p][r]) {
        p := next;
      }
    }
  }

  /** Exchanges two rows cell by cell. */
  method ExchangeRows(w: Rows, i: nat, j: nat) returns (s: Rows)
    requires Square(w) && i < |w| && j < |w| && i != j
    ensures s == Exchanged(w, i, j) && Square(s)
  {
    s := w;
    for col := 0 to |w|
      invariant |s| == |w| && |s[i]| == |s[j]| == |w|
      invariant forall k | 0 <= k < |w| && k != i && k != j :: s[k] == w[k]
      invariant forall c | 0 <= c < |w| ::
        s[i][c] == (if c < col then w[j][c] else w[i][c]) && s[j][c] == if c < col then w[i][c] else w[j][c]
    {
      var x, y := s[i][col], s[j][col];
      s := s[i := s[i][col := y]];
      s := s[j := s[j][col := x]];
    }
    assert s[i] == w[j] && s[j] == w[i];
  }

  /** Subtracts c times row j from row i, from column `from` on. */
  method ReduceRow(w: Rows, i: nat, j: nat, from: nat, c: real) returns (s: Rows)
    requires Square(w) && i < |w| && j < |w| && i != j && from <= |w|
    ensures Square(s) && |s| == |w| && s == w[i := s[i]]
    ensures s[i][..from] == w[i][..from] && s[i][from..] == Reduced(w[i][from..], w[j][from..], c)
  {
    s := w;
    assert w[i := w[i]] == w;
    for col := from to |w|
      invariant |s| == |w| && |s[i]| == |w| && s == w[i := s[i]]
      invariant forall k | 0 <= k < |w| ::
        s[i][k] == if from <= k < col then w[i][k] - Times(c, w[j][k]) else w[i][k]
    {
      hide Times;
      s := s[i := s[i][col := s[i][col] - Times(c, s[j][col])]];
    }
  }

  // ---------------------------------------------------------------- the trailing block

  /** The rows and columns from r on. */
  function Trailing(w: Rows, r: nat): (t: Rows)
    requires Square(w) && r <= |w|
    ensures |t| == |w| - r && Square(t) && forall i | 0 <= i < |t| :: t[i] == w[r + i][r..]
  {
    seq(|w| - r, i requires 0 <= i < |w| - r => w[r + i][r..])
  }

  lemma TrailingMinor(w: Rows, r: nat)
    requires Square(w) && r < |w|
    ensures Minor(Trailing(w, r), 0) == Trailing(w, r + 1)
  {
  }

  lemma TrailingExchanged(w: Rows, r: nat, p: nat)
    requires Square(w) && r < p < |w|
    ensures Det(Trailing(Exchanged(w, r, p), r)) == -Det(Trailing(w, r))
  {
    hide Det;
    assert Trailing(Exchanged(w, r, p), r) == Exchanged(Trailing(w, r), 0, p - r);
    RowsExchanged(Trailing(w, r), 0, p - r);
  }

  lemma TrailingReduced(w: Rows, s: Rows, r: nat, i: nat, c: real)
    requires Square(w) && Square(s) && |s| == |w| && r < i < |w| && s == w[i := s[i]]
    requires s[i][r..] == Reduced(w[i][r..], w[r][r..], c)
    ensures Det(Trailing(s, r)) == Det(Trailing(w, r))
  {
    hide Det;
    var t := Trailing(w, r);
    assert Trailing(s, r) == t[i - r := Reduced(t[i - r], t[0], c)];
    RowReduced(t, i - r, 0, c);
  }

  lemma TrailingClear(w: Rows, r: nat)
    requires Square(w) && r < |w| && forall i | r < i < |w| :: w[i][r] == 0.0
    ensures Det(Trailing(w, r)) == Times(w[r][r], Det(Trailing(w, r + 1)))
  {
    hide Det, Times;
    FirstColumnClear(Trailing(w, r));
    TrailingMinor(w, r);
  }

  lemma Regroup(x: real, y: real, z: real)
    ensures Times(x, Times(y, z)) == Times(Times(x, y), z)
  {
  }

  // ---------------------------------------------------------------- the determinant

  /** Zeroes column r below the pivot row. */
  method ClearBelow(w: Rows, r: nat) returns (s: Rows)
    requires Square(w) && r < |w| && w[r][r] != 0.0
    ensures Square(s) && |s| == |w| && s[r] == w[r]
    ensures forall i | r < i < |w| :: s[i][r] == 0.0
    ensures Det(Trailing(s, r)) == Det(Trailing(w, r))
  {
    hide Det;
    s := w;
    for next := r + 1 to |w|
      invariant Square(s) && |s| == |w| && s[r] == w[r]
      invariant forall i | r < i < next :: s[i][r] == 0.0
      invariant Det(Trailing(s, r)) == Det(Trailing(w, r))
    {
      var factor := s[next][r] / s[r][r];
      var t := ReduceRow(s, next, r, r, factor);
      TrailingReduced(s, t, r, next, factor);
      assert t[next][r] == t[next][r..][0] == s[next][r] - Times(factor, s[r][r]);
      Quotient(s[next][r], s[r][r]);
      s := t;
    }
  }

  lemma Quotient(x: real, p: real)
    requires p != 0.0
    ensures Times(x / p, p) == x
  {
  }

  /** The determinant of a square matrix; any other shape is refused. */
  method DeterminantOf(a: Mat) returns (r: Result<real>)
    requires a.Valid()
    ensures r.Ok? <==> a.width == a.height
    ensures r.Ok? ==> r.value == Det(a.rows)
    ensures r.Err? ==> r.error == InvalidArgument
  {
    if a.width != a.height {
      return Err(InvalidArgument);
    }
    var n := a.width;
    if n == 1 {
      Det1(a.rows);
      return Ok(a.rows[0][0]);
    } else if n == 2 {
      Det2(a.rows);
      return Ok(a.rows[0][0] * a.rows[1][1] - a.rows[0][1] * a.rows[1][0]);
    }
    var det := Eliminate(a.rows);
    return Ok(det);
  }

  /** Elimination with partial pivoting: the signed product of the pivots. */
  method Eliminate(m: Rows) returns (det: real)
    requires Square(m)
    ensures det == Det(m)
  {
    hide Det;
    var work := m;
    det := 1.0;
    assert Trailing(m, 0) == m;
    for row := 0 to |m|
      invariant Square(work) && |work| == |m|
      invariant Times(det, Det(Trailing(work, row))) == Det(m)
    {
      hide Times;
      var p := PivotRow(work, row);
      if work[p][row] == 0.0 {
        ZeroColumn(work, row);
        ZeroProduct(det);
        return 0.0;
      }
      ghost var was := Det(Trailing(work, row));
      if p != row {
        TrailingExchanged(work, row, p);
        work := ExchangeRows(work, row, p);
        BothOpposite(det, was);
        det := -det;
      }
      ghost var pivot, before := work[row][row], det;
      det := Times(det, work[row][row]);
      work := ClearBelow(work, row);
      TrailingClear(work, row);
      Regroup(before, pivot, Det(Trailing(work, row + 1)));
    }
    EmptyTrailing(work);
    assert Times(det, 1.0) == det;
  }

  lemma BothOpposite(x: real, y: real)
    ensures Times(-x, -y) == Times(x, y)
  {
  }

  lemma ZeroProduct(x: real)
    ensures Times(x, 0.0) == 0.0 == Times(0.0, x)
  {
  }

  lemma EmptyTrailing(w: Rows)
    requires Square(w)
    ensures Det(Trailing(w, |w|)) == 1.0
  {
  }

  lemma ZeroColumn(w: Rows, r: nat)
    requires Square(w) && r < |w| && forall i | r <= i < |w| :: Abs(w[i][r]) <= 0.0
    ensures Det(Trailing(w, r)) == 0.0
  {
    hide Det;
    assert forall i | r <= i < |w| :: w[i][r] == 0.0;
    TrailingClear(w, r);
    ZeroProduct(Det(Trailing(w, r + 1)));
  }

  lemma Det1(m: Rows)
    requires Square(m) && |m| == 1
    ensures Det(m) == m[0][0]
  {
    FirstColumnClear(m);
    assert Minor(m, 0) == [];
  }

  lemma Det2(m: Rows)
    requires Square(m) && |m| == 2
    ensures Det(m) == m[0][0] * m[1][1] - m[0][1] * m[1][0]
  {
    Det1(Minor(m, 0));
    Det1(Minor(m, 1));
    assert Expansion(m, 2) == Expansion(m, 1) + Term(m, 1);
    assert Expansion(m, 1) == Expansion(m, 0) + Term(m, 0);
  }
}
