/**
The determinant (core/wse/data/wse_Matrix.cpp): elimination with partial pivoting computes what the
recursive expansion by cofactors defines, in exact arithmetic.
*/
module Determinant {
  import opened Grid
  import opened Matrix

  type Rows = seq<Vector>

  predicate Square(m: Rows) { forall i | 0 <= i < |m| :: |m[i]| == |m| }

  // ---------------------------------------------------------------- cofactor expansion

  /** Without row i and without the first column. */
  function Minor(m: Rows, i: nat): (r: Rows)
    requires Square(m) && i < |m|
    ensures |r| == |m| - 1 && Square(r)
    ensures forall k | 0 <= k < |r| :: r[k] == m[if k < i then k else k + 1][1..]
  {
    seq(|m| - 1, k requires 0 <= k < |m| - 1 => m[if k < i then k else k + 1][1..])
  }

  function Signed(i: nat, x: real): real { if i % 2 == 0 then x else -x }

  function Term(m: Rows, i: nat): real
    requires Square(m) && i < |m|
    decreases |m|, 0
  {
    Signed(i, Times(m[i][0], Det(Minor(m, i))))
  }

  function Expansion(m: Rows, k: nat): real
    requires Square(m) && k <= |m|
    decreases |m|, k + 1
  {
    if k == 0 then 0.0 else Expansion(m, k - 1) + Term(m, k - 1)
  }

  /** Expansion along the first column. */
  function Det(m: Rows): real
    requires Square(m)
    decreases |m|, |m| + 2
  {
    if m == [] then 1.0 else Expansion(m, |m|)
  }

  // ---------------------------------------------------------------- exchanging rows

  function Exchanged(m: Rows, i: nat, j: nat): (r: Rows)
    requires i < |m| && j < |m|
    ensures |r| == |m| && r[i] == m[j] && r[j] == m[i]
    ensures forall k | 0 <= k < |m| && k != i && k != j :: r[k] == m[k]
    ensures Square(m) ==> Square(r)
  {
    m[i := m[j]][j := m[i]]
  }

  /** The terms of the expansion when two neighbouring rows change places. */
  lemma MinorExchanged(m: Rows, i: nat, k: nat)
    requires Square(m) && i + 1 < |m| && k < |m|
    ensures k < i ==> Minor(Exchanged(m, i, i + 1), k) == Exchanged(Minor(m, k), i - 1, i)
    ensures k > i + 1 ==> Minor(Exchanged(m, i, i + 1), k) == Exchanged(Minor(m, k), i, i + 1)
    ensures k == i ==> Minor(Exchanged(m, i, i + 1), k) == Minor(m, i + 1)
    ensures k == i + 1 ==> Minor(Exchanged(m, i, i + 1), k) == Minor(m, i)
  {
  }

  lemma {:induction false} NeighboursExchanged(m: Rows, i: nat)
    requires Square(m) && i + 1 < |m|
    ensures Det(Exchanged(m, i, i + 1)) == -Det(m)
    decreases |m|, 1
  {
    var e := Exchanged(m, i, i + 1);
    assert Det(e) == Expansion(e, |e|) && Det(m) == Expansion(m, |m|);
    hide Term, Exchanged, Det, Expansion;
    forall k | 0 <= k < |m| && k != i && k != i + 1 ensures Term(e, k) == -Term(m, k) {
      TermExchanged(m, i, k);
    }
    TermsSwapped(m, i);
    ExpansionExchanged(m, e, i, |m|);
  }

  lemma {:induction false} TermExchanged(m: Rows, i: nat, k: nat)
    requires Square(m) && i + 1 < |m| && k < |m| && k != i && k != i + 1
    ensures Term(Exchanged(m, i, i + 1), k) == -Term(m, k)
    decreases |m|, 0
  {
    hide Det, Minor, Times;
    MinorExchanged(m, i, k);
    NeighboursExchanged(Minor(m, k), if k < i then i - 1 else i);
    Opposite(m[k][0], Det(Minor(m, k)));
    assert Exchanged(m, i, i + 1)[k] == m[k];
    hide Exchanged;
  }

  lemma TermsSwapped(m: Rows, i: nat)
    requires Square(m) && i + 1 < |m|
    ensures var e := Exchanged(m, i, i + 1); Term(e, i) == -Term(m, i + 1) && Term(e, i + 1) == -Term(m, i)
  {
    hide Det, Minor, Times;
    MinorExchanged(m, i, i);
    MinorExchanged(m, i, i + 1);
  }

  lemma Opposite(x: real, y: real)
    ensures Times(x, -y) == -Times(x, y)
  {
  }

  lemma {:induction false} ExpansionExchanged(m: Rows, e: Rows, i: nat, k: nat)
    requires Square(m) && Square(e) && |e| == |m| && i + 1 < |m| && k <= |m|
    requires forall j | 0 <= j < |m| && j != i && j != i + 1 :: Term(e, j) == -Term(m, j)
    requires Term(e, i) == -Term(m, i + 1) && Term(e, i + 1) == -Term(m, i)
    ensures k == i + 1 ==> Expansion(e, k) == -Expansion(m, i) - Term(m, i + 1)
    ensures k != i + 1 ==> Expansion(e, k) == -Expansion(m, k)
    decreases k
  {
    hide Term;
    if k > 0 {
      ExpansionExchanged(m, e, i, k - 1);
    }
  }

  lemma {:induction false} RowsExchanged(m: Rows, i: nat, j: nat)
    requires Square(m) && i < j < |m|
    ensures Det(Exchanged(m, i, j)) == -Det(m)
    decreases j
  {
    hide Det;
    if j == i + 1 {
      NeighboursExchanged(m, i);
    } else {
      var a := Exchanged(m, j - 1, j);
      var b := Exchanged(a, i, j - 1);
      NeighboursExchanged(m, j - 1);
      RowsExchanged(a, i, j - 1);
      NeighboursExchanged(b, j - 1);
      assert Exchanged(b, j - 1, j) == Exchanged(m, i, j);
    }
  }

  lemma EqualRows(m: Rows, i: nat, j: nat)
    requires Square(m) && i < j < |m| && m[i] == m[j]
    ensures Det(m) == 0.0
  {
    hide Det;
    RowsExchanged(m, i, j);
    assert Exchanged(m, i, j) == m;
  }

  // ---------------------------------------------------------------- combining rows

  lemma MinorReplaced(m: Rows, i: nat, k: nat, v: Vector)
    requires Square(m) && i < |m| && k < |m| && |v| == |m|
    ensures k == i ==> Minor(m[i := v], k) == Minor(m, k)
    ensures k < i ==> Minor(m[i := v], k) == Minor(m, k)[i - 1 := v[1..]]
    ensures k > i ==> Minor(m[i := v], k) == Minor(m, k)[i := v[1..]]
  {
  }

  /** The determinant is linear in each row. */
  lemma {:induction false} RowLinear(m: Rows, i: nat, v: Vector, c: real)
    requires Square(m) && i < |m| && |v| == |m|
    ensures Det(m[i := Reduced(m[i], v, c)]) == Det(m) - Times(c, Det(m[i := v]))
    decreases |m|
  {
    var r, s := m[i := Reduced(m[i], v, c)], m[i := v];
    forall k | 0 <= k < |m| ensures Term(r, k) == Term(m, k) - Times(c, Term(s, k)) {
      TermLinear(m, i, v, c, k);
    }
    ExpansionLinear(m, r, s, c, |m|);
  }

  lemma {:induction false} TermLinear(m: Rows, i: nat, v: Vector, c: real, k: nat)
    requires Square(m) && i < |m| && |v| == |m| && k < |m|
    ensures Term(m[i := Reduced(m[i], v, c)], k) == Term(m, k) - Times(c, Term(m[i := v], k))
    decreases |m|, 0
  {
    var w := Reduced(m[i], v, c);
    MinorReplaced(m, i, k, w);
    MinorReplaced(m, i, k, v);
    if k == i {
      HeadLinear(k, m[i][0], v[0], Det(Minor(m, i)), c);
    } else {
      var i' := if k < i then i - 1 else i;
      assert w[1..] == Reduced(m[i][1..], v[1..], c) by { hide Times; }
      RowLinear(Minor(m, k), i', v[1..], c);
      TailLinear(k, m[k][0], Det(Minor(m, k)), Det(Minor(m, k)[i' := v[1..]]), c);
    }
    hide Times, Minor, Signed;
  }

  lemma HeadLinear(k: nat, x: real, y: real, d: real, c: real)
    ensures Signed(k, Times(x - Times(c, y), d)) == Signed(k, Times(x, d)) - Times(c, Signed(k, Times(y, d)))
  {
  }

  lemma TailLinear(k: nat, x: real, d: real, e: real, c: real)
    ensures Signed(k, Times(x, d - Times(c, e))) == Signed(k, Times(x, d)) - Times(c, Signed(k, Times(x, e)))
  {
  }

  lemma {:induction false} ExpansionLinear(m: Rows, r: Rows, s: Rows, c: real, k: nat)
    requires Square(m) && Square(r) && Square(s) && |m| == |r| == |s| && k <= |m|
    requires forall j | 0 <= j < |m| :: Term(r, j) == Term(m, j) - Times(c, Term(s, j))
    ensures Expansion(r, k) == Expansion(m, k) - Times(c, Expansion(s, k))
    decreases k
  {
    if k == 0 {
      assert Times(c, 0.0) == 0.0;
    } else {
      ExpansionLinear(m, r, s, c, k - 1);
      SumLinear(c, Expansion(s, k - 1), Term(s, k - 1));
      hide Times, Term;
    }
  }

  lemma SumLinear(c: real, x: real, y: real)
    ensures Times(c, x + y) == Times(c, x) + Times(c, y)
  {
  }

  /** Subtracting a multiple of another row changes nothing. */
  lemma RowReduced(m: Rows, i: nat, j: nat, c: real)
    requires Square(m) && i < |m| && j < |m| && i != j
    ensures Det(m[i := Reduced(m[i], m[j], c)]) == Det(m)
  {
    RowLinear(m, i, m[j], c);
    EqualRows(m[i := m[j]], if i < j then i else j, if i < j then j else i);
    assert Times(c, 0.0) == 0.0;
    hide Times, Det;
  }

  /** A first column that is zero below its first cell leaves one term of the expansion. */
  lemma FirstColumnClear(m: Rows)
    requires Square(m) && m != [] && forall i | 1 <= i < |m| :: m[i][0] == 0.0
    ensures Det(m) == Times(m[0][0], Det(Minor(m, 0)))
  {
    ExpansionClear(m, |m|);
  }

  lemma {:induction false} ExpansionClear(m: Rows, k: nat)
    requires Square(m) && 1 <= k <= |m| && forall i | 1 <= i < |m| :: m[i][0] == 0.0
    ensures Expansion(m, k) == Times(m[0][0], Det(Minor(m, 0)))
    decreases k
  {
    if k == 1 {
      assert Expansion(m, 1) == Expansion(m, 0) + Term(m, 0);
    } else {
      ExpansionClear(m, k - 1);
      assert Times(0.0, Det(Minor(m, k - 1))) == 0.0;
    }
    hide Times, Det, Minor;
  }
}
