/** What the elimination keeps: the set of solutions of the system.

    A finite vector `x` solves row `row` when the sum of the coefficients
    times the entries of `x` equals the row's constant.  Exchanging rows and
    each pass of the elimination with a finite non-zero pivot keep exactly the
    same solutions.
 */
module LinearSystems {
  import opened ComplexNumbers
  import opened Grids
  import opened Pivoting
  import opened Elimination

  predicate FiniteRow(row: seq<Complex>)
  {
    forall z :: 0 <= z < |row| ==> row[z].Complex?
  }

  predicate FiniteGrid(g: seq<seq<Complex>>)
  {
    forall i :: 0 <= i < |g| ==> FiniteRow(g[i])
  }

  /** The sum of the first `n` coefficients times the entries of `x`. */
  function Dot(row: seq<Complex>, x: seq<Complex>, n: nat): (d: Complex)
    requires n <= |row| && n <= |x|
    ensures FiniteRow(row) && FiniteRow(x) ==> d.Complex?
  {
    if n == 0 then Zero
    else Plus(Dot(row, x, n - 1), Times(row[n - 1], x[n - 1]))
  }

  /** `x` satisfies the equation of `row` over `nVar` unknowns. */
  predicate Satisfies(row: seq<Complex>, x: seq<Complex>, nVar: nat)
    requires nVar < |row| && nVar == |x|
  {
    Dot(row, x, nVar) == row[nVar]
  }

  /** `x` satisfies every equation of `g`. */
  predicate Solves(g: seq<seq<Complex>>, x: seq<Complex>, nVar: nat)
    requires IsGrid(g, |g|, nVar + 1) && |x| == nVar
  {
    forall j :: 0 <= j < |g| ==> Satisfies(g[j], x, nVar)
  }

  /** The sum for a row less `p` times another is the first sum less `p`
      times the second. */
  lemma {:induction false} DotSubtract(a: seq<Complex>, b: seq<Complex>, p: Complex, x: seq<Complex>, n: nat)
    requires |a| == |b| && n <= |a| && n <= |x|
    requires FiniteRow(a) && FiniteRow(b) && FiniteRow(x) && p.Complex?
    ensures Dot(Subtract(a, b, p), x, n) == Minus(Dot(a, x, n), Times(Dot(b, x, n), p))
  {
    if n > 0 {
      DotSubtract(a, b, p, x, n - 1);
      var A, B := Dot(a, x, n - 1), Dot(b, x, n - 1);
      var s, t := a[n - 1], b[n - 1];
      TimesDistributes(t, p, x[n - 1]);
      TimesAssociative(t, p, x[n - 1]);
      TimesAssociative(t, x[n - 1], p);
      TimesCommutative(p, x[n - 1]);
      TimesDistributes(s, Times(t, p), x[n - 1]);
      TimesDistributes(B, Times(t, x[n - 1]), p);
      var P, Q, R := Times(B, p), Times(s, x[n - 1]), Times(Times(t, x[n - 1]), p);
      assert Times(Minus(s, Times(t, p)), x[n - 1]) == Minus(Q, R);
      assert Times(Plus(B, Times(t, x[n - 1])), p) == Plus(P, R);
      Regroup(A, P, Q, R);
    }
  }

  /** `(A - P) + (Q - R) = (A + Q) - (P + R)` for finite values. */
  lemma Regroup(A: Complex, P: Complex, Q: Complex, R: Complex)
    requires A.Complex? && P.Complex? && Q.Complex? && R.Complex?
    ensures Plus(Minus(A, P), Minus(Q, R)) == Minus(Plus(A, Q), Plus(P, R))
  {
    PlusMinusInverse(A, P);
    PlusMinusInverse(Q, R);
    PlusMinusInverse(A, Q);
    PlusMinusInverse(P, R);
    PlusMinusInverse(Minus(A, P), Minus(Q, R));
    PlusMinusInverse(Plus(A, Q), Plus(P, R));
  }

  /** Exchanging two rows keeps the solutions. */
  lemma SwapRowsKeepsSolutions(g: seq<seq<Complex>>, nVar: nat, r1: nat, r2: nat, x: seq<Complex>)
    requires IsGrid(g, |g|, nVar + 1) && r1 < |g| && r2 < |g| && |x| == nVar
    ensures IsGrid(SwapRows(g, r1, r2), |g|, nVar + 1)
    ensures Solves(SwapRows(g, r1, r2), x, nVar) <==> Solves(g, x, nVar)
  {
    var h := SwapRows(g, r1, r2);
    if Solves(h, x, nVar) {
      forall j | 0 <= j < |g|
        ensures Satisfies(g[j], x, nVar)
      {
        var k := if j == r1 then r2 else if j == r2 then r1 else j;
        assert h[k] == g[j];
      }
    }
  }

  /** A pass of the elimination with a finite non-zero pivot keeps exactly
      the solutions of a finite system: every other row loses a multiple of
      the pivot row, and the pivot row stays as it was. */
  lemma EliminatePassKeepsSolutions(g: seq<seq<Complex>>, nVar: nat, i: nat, x: seq<Complex>)
    requires IsGrid(g, |g|, nVar + 1) && i < |g| && i < nVar && |x| == nVar
    requires FiniteGrid(g) && FiniteRow(x) && !IsZero(g[i][i])
    ensures Solves(EliminatePass(g, nVar, i), x, nVar) <==> Solves(g, x, nVar)
  {
    EliminatePassRows(g, nVar, i);
    var h := EliminatePass(g, nVar, i);
    assert h[i] == g[i];
    forall j | 0 <= j < |g| && j != i
      ensures Satisfies(h[j], x, nVar) && Satisfies(g[i], x, nVar) <==>
              Satisfies(g[j], x, nVar) && Satisfies(g[i], x, nVar)
    {
      var p := Multiplier(g, i, j);
      DotSubtract(g[j], g[i], p, x, nVar);
      var D, C := Dot(g[j], x, nVar), Dot(g[i], x, nVar);
      assert h[j][nVar] == Minus(g[j][nVar], Times(g[i][nVar], p));
      assert Satisfies(h[j], x, nVar) <==> Minus(D, Times(C, p)) == Minus(g[j][nVar], Times(g[i][nVar], p));
    }
  }

  /** Replacing entry `k` of the row and of `x` replaces that one term of the
      sum. */
  lemma {:induction false} DotUpdate(row: seq<Complex>, x: seq<Complex>, k: nat, v: Complex, w: Complex, n: nat)
    requires k < |row| && k < |x| && n <= |row| && n <= |x|
    requires FiniteRow(row) && FiniteRow(x) && v.Complex? && w.Complex?
    ensures Dot(row[k := v], x[k := w], n) ==
              if k < n then Plus(Minus(Dot(row, x, n), Times(row[k], x[k])), Times(v, w)) else Dot(row, x, n)
  {
    if n > 0 {
      DotUpdate(row, x, k, v, w, n - 1);
      assert FiniteRow(row[k := v]) && FiniteRow(x[k := w]);
    }
  }

  /** Exchanging two entries of the row and the same two entries of `x`
      leaves the sum as it was. */
  lemma DotSwap(row: seq<Complex>, x: seq<Complex>, a: nat, b: nat, n: nat)
    requires a < n && b < n && n <= |row| && n <= |x|
    requires FiniteRow(row) && FiniteRow(x)
    ensures Dot(row[a := row[b]][b := row[a]], SwapEntries(x, a, b), n) == Dot(row, x, n)
  {
    var row1, x1 := row[a := row[b]], x[a := x[b]];
    DotUpdate(row, x, a, row[b], x[b], n);
    assert FiniteRow(row1) && FiniteRow(x1);
    DotUpdate(row1, x1, b, row[a], x[a], n);
    assert SwapEntries(x, a, b) == x1[b := x[a]];
  }

  /** Exchanging two columns of unknowns and the same two entries of `x`
      keeps the solutions of a finite system. */
  lemma SwapColumnsKeepsSolutions(g: seq<seq<Complex>>, nVar: nat, a: nat, b: nat, x: seq<Complex>)
    requires IsGrid(g, |g|, nVar + 1) && a < nVar && b < nVar && |x| == nVar
    requires FiniteGrid(g) && FiniteRow(x)
    ensures IsGrid(SwapColumns(g, a, b), |g|, nVar + 1)
    ensures Solves(SwapColumns(g, a, b), SwapEntries(x, a, b), nVar) <==> Solves(g, x, nVar)
  {
    var h := SwapColumns(g, a, b);
    forall j | 0 <= j < |g|
      ensures Satisfies(h[j], SwapEntries(x, a, b), nVar) <==> Satisfies(g[j], x, nVar)
    {
      DotSwap(g[j], x, a, b, nVar);
      assert h[j] == g[j][a := g[j][b]][b := g[j][a]];
    }
  }

  /** The values of the columns, read from the values `X` of the original
      unknowns through the record of column exchanges. */
  function Arrange(X: seq<Complex>, perm: seq<int>): (x: seq<Complex>)
    requires forall z :: 0 <= z < |perm| ==> 0 <= perm[z] < |X|
    ensures |x| == |perm|
    ensures forall z :: 0 <= z < |perm| ==> x[z] == X[perm[z]]
  {
    seq(|perm|, z requires 0 <= z < |perm| => X[perm[z]])
  }

  /** Recording an exchange exchanges the two values read through the
      record. */
  lemma ArrangeSwap(X: seq<Complex>, perm: seq<int>, a: nat, b: nat)
    requires forall z :: 0 <= z < |perm| ==> 0 <= perm[z] < |X|
    requires a < |perm| && b < |perm|
    ensures Arrange(X, SwapEntries(perm, a, b)) == SwapEntries(Arrange(X, perm), a, b)
  {
  }

  /** `X`, a value for each original unknown, solves the system the tableau
      holds. */
  predicate SolvedBy(t: Tableau, nEq: nat, nVar: nat, X: seq<Complex>)
    requires Shaped(t, nEq, nVar) && |X| == nVar
  {
    Solves(t.cells, Arrange(X, t.perm), nVar)
  }

  /** A recorded column exchange keeps the solutions of a finite tableau. */
  lemma ExchangeKeepsSolutions(t: Tableau, nEq: nat, nVar: nat, a: nat, b: nat, X: seq<Complex>)
    requires Shaped(t, nEq, nVar) && a < nVar && b < nVar && |X| == nVar
    requires FiniteGrid(t.cells) && FiniteRow(X)
    ensures Shaped(Tableau(SwapColumns(t.cells, a, b), SwapEntries(t.perm, a, b)), nEq, nVar)
    ensures SolvedBy(Tableau(SwapColumns(t.cells, a, b), SwapEntries(t.perm, a, b)), nEq, nVar, X) <==>
              SolvedBy(t, nEq, nVar, X)
  {
    SwapEntriesKeepsPermutation(t.perm, nVar, a, b);
    ArrangeSwap(X, t.perm, a, b);
    SwapColumnsKeepsSolutions(t.cells, nVar, a, b, Arrange(X, t.perm));
  }

  /** A row exchange keeps the solutions of the tableau. */
  lemma RowExchangeKeepsSolutions(t: Tableau, nEq: nat, nVar: nat, r1: nat, r2: nat, X: seq<Complex>)
    requires Shaped(t, nEq, nVar) && r1 < nEq && r2 < nEq && |X| == nVar
    ensures Shaped(Tableau(SwapRows(t.cells, r1, r2), t.perm), nEq, nVar)
    ensures SolvedBy(Tableau(SwapRows(t.cells, r1, r2), t.perm), nEq, nVar, X) <==> SolvedBy(t, nEq, nVar, X)
  {
    SwapRowsKeepsSolutions(t.cells, nVar, r1, r2, Arrange(X, t.perm));
  }

  /** Exchanges move entries without changing them: a grid is finite exactly
      when it is finite after an exchange of rows or of columns. */
  lemma SwapsKeepFinite(g: seq<seq<Complex>>, cols: nat, r1: nat, r2: nat, c1: nat, c2: nat)
    requires IsGrid(g, |g|, cols) && r1 < |g| && r2 < |g| && c1 < cols && c2 < cols
    ensures FiniteGrid(SwapRows(g, r1, r2)) <==> FiniteGrid(g)
    ensures FiniteGrid(SwapColumns(g, c1, c2)) <==> FiniteGrid(g)
  {
    var h := SwapRows(g, r1, r2);
    if FiniteGrid(h) {
      forall j | 0 <= j < |g|
        ensures FiniteRow(g[j])
      {
        assert g[j] == h[if j == r1 then r2 else if j == r2 then r1 else j];
      }
    }
    var k := SwapColumns(g, c1, c2);
    forall j | 0 <= j < |g|
      ensures FiniteRow(k[j]) <==> FiniteRow(g[j])
    {
      if FiniteRow(k[j]) {
        forall z | 0 <= z < cols
          ensures g[j][z].Complex?
        {
          assert g[j][z] == k[j][if z == c1 then c2 else if z == c2 then c1 else z];
        }
      }
    }
  }

  /** A NaN entry survives a pass: in the pivot row it stays, and in any
      other row its difference with anything is NaN. */
  lemma EliminatePassKeepsNaN(g: seq<seq<Complex>>, nVar: nat, i: nat)
    requires IsGrid(g, |g|, nVar + 1) && i < |g| && i < nVar
    requires !FiniteGrid(g)
    ensures !FiniteGrid(EliminatePass(g, nVar, i))
  {
    EliminatePassRows(g, nVar, i);
    var j :| 0 <= j < |g| && !FiniteRow(g[j]);
    var z :| 0 <= z < |g[j]| && g[j][z].NaN?;
    assert EliminatePass(g, nVar, i)[j][z].NaN?;
  }

  /** A pass with a finite non-zero pivot keeps a finite grid finite; a pass
      with a zero pivot and another row to clear turns that row to NaN. */
  lemma EliminatePassFinite(g: seq<seq<Complex>>, nVar: nat, i: nat)
    requires IsGrid(g, |g|, nVar + 1) && i < |g| && i < nVar && FiniteGrid(g)
    ensures !IsZero(g[i][i]) ==> FiniteGrid(EliminatePass(g, nVar, i))
    ensures IsZero(g[i][i]) && |g| >= 2 ==> !FiniteGrid(EliminatePass(g, nVar, i))
    ensures |g| == 1 ==> EliminatePass(g, nVar, i) == g
  {
    EliminatePassRows(g, nVar, i);
    var h: seq<seq<Complex>> := EliminatePass(g, nVar, i);
    if IsZero(g[i][i]) && |g| >= 2 {
      var j := if i == 0 then 1 else 0;
      assert h[j][0].NaN?;
    }
    if |g| == 1 {
      assert h[0] == g[0];
    }
  }

  /** A pass whose result is finite, on a finite grid, keeps the solutions:
      with a non-zero pivot by `EliminatePassKeepsSolutions`; with a zero
      pivot only a single equation stays finite, and the pass leaves it as it
      was. */
  lemma FinitePassKeepsSolutions(t: Tableau, nEq: nat, nVar: nat, i: nat, X: seq<Complex>)
    requires Shaped(t, nEq, nVar) && i < nEq && i < nVar && |X| == nVar && FiniteRow(X)
    requires FiniteGrid(t.cells) && FiniteGrid(EliminatePass(t.cells, nVar, i))
    ensures SolvedBy(Tableau(EliminatePass(t.cells, nVar, i), t.perm), nEq, nVar, X) <==> SolvedBy(t, nEq, nVar, X)
  {
    EliminatePassFinite(t.cells, nVar, i);
    if !IsZero(t.cells[i][i]) {
      EliminatePassKeepsSolutions(t.cells, nVar, i, Arrange(X, t.perm));
    }
  }

  /** The exchange of the corner stage, rows then recorded columns, keeps
      finiteness and the solutions of a finite tableau. */
  lemma RowAndColumnExchangeKeepsSolutions(t: Tableau, nEq: nat, nVar: nat, index: nat, row: nat, col: nat, X: seq<Complex>)
    requires Shaped(t, nEq, nVar) && index < nEq && row < nEq && index < nVar && col < nVar
    requires |X| == nVar && FiniteRow(X)
    ensures var u := Tableau(SwapColumns(SwapRows(t.cells, index, row), index, col), SwapEntries(t.perm, index, col));
            Shaped(u, nEq, nVar) && (FiniteGrid(u.cells) <==> FiniteGrid(t.cells)) &&
            (FiniteGrid(t.cells) ==> (SolvedBy(u, nEq, nVar, X) <==> SolvedBy(t, nEq, nVar, X)))
  {
    var rows := SwapRows(t.cells, index, row);
    SwapsKeepFinite(t.cells, nVar + 1, index, row, 0, 0);
    RowExchangeKeepsSolutions(t, nEq, nVar, index, row, X);
    SwapsKeepFinite(rows, nVar + 1, 0, 0, index, col);
    SwapEntriesKeepsPermutation(t.perm, nVar, index, col);
    if FiniteGrid(t.cells) {
      ExchangeKeepsSolutions(Tableau(rows, t.perm), nEq, nVar, index, col, X);
    }
  }

  /** A turn of the corner stage that goes on keeps finiteness and the
      solutions of a finite tableau. */
  lemma CornerTurnKeepsSolutions(t: Tableau, nEq: nat, nVar: nat, index: nat, c: nat, r: nat, found: bool, X: seq<Complex>)
    requires CornerState(t, nEq, nVar, index, c, r) && |X| == nVar && FiniteRow(X)
    ensures var s := CornerTurn(t, nEq, nVar, index, c, r, found);
            s.Continue? ==> (FiniteGrid(s.t.cells) <==> FiniteGrid(t.cells)) &&
                            (FiniteGrid(t.cells) ==> (SolvedBy(s.t, nEq, nVar, X) <==> SolvedBy(t, nEq, nVar, X)))
  {
    if index + c < nEq && index + c < nVar && IsZero(t.cells[index + r][index + c]) && index + r + 1 < nEq {
      RowAndColumnExchangeKeepsSolutions(t, nEq, nVar, index, index + r + 1, index + c, X);
    }
  }

  /** The corner stage, when it ends normally, keeps finiteness and the
      solutions of a finite tableau. */
  lemma {:induction false} CornerKeepsSolutions(t: Tableau, nEq: nat, nVar: nat, index: nat, c: nat, r: nat, found: bool, X: seq<Complex>)
    requires CornerState(t, nEq, nVar, index, c, r) && |X| == nVar && FiniteRow(X)
    ensures var o := Corner(t, nEq, nVar, index, c, r, found);
            o.Done? ==> (FiniteGrid(o.t.cells) <==> FiniteGrid(t.cells)) &&
                        (FiniteGrid(t.cells) ==> (SolvedBy(o.t, nEq, nVar, X) <==> SolvedBy(t, nEq, nVar, X)))
    decreases nEq - index - c, nEq - index - r
  {
    CornerTurnKeepsSolutions(t, nEq, nVar, index, c, r, found, X);
    match CornerTurn(t, nEq, nVar, index, c, r, found)
    case Halt(o) =>
    case Continue(u, c', r', found') =>
      CornerKeepsSolutions(u, nEq, nVar, index, c', r', found', X);
  }

  /** Stages two and three of the pivot search, when they end normally, keep
      finiteness and the solutions of a finite tableau. */
  lemma SearchRightKeepsSolutions(t: Tableau, nEq: nat, nVar: nat, index: nat, X: seq<Complex>)
    requires Shaped(t, nEq, nVar) && index < nEq && index < nVar && |X| == nVar && FiniteRow(X)
    ensures var o := SearchRight(t, nEq, nVar, index);
            o.Done? ==> (FiniteGrid(o.t.cells) <==> FiniteGrid(t.cells)) &&
                        (FiniteGrid(t.cells) ==> (SolvedBy(o.t, nEq, nVar, X) <==> SolvedBy(t, nEq, nVar, X)))
  {
    var c := ScanRight(t.cells[index], nVar, index, 1);
    if index + c < nVar {
      SwapsKeepFinite(t.cells, nVar + 1, 0, 0, index, index + c);
      if FiniteGrid(t.cells) {
        ExchangeKeepsSolutions(t, nEq, nVar, index, index + c, X);
      }
    } else {
      CornerKeepsSolutions(t, nEq, nVar, index, 1, 1, false, X);
    }
  }

  /** The pivot search, when it ends normally, keeps finiteness and the
      solutions of a finite tableau. */
  lemma FindPivotKeepsSolutions(t: Tableau, nEq: nat, nVar: nat, index: nat, X: seq<Complex>)
    requires Shaped(t, nEq, nVar) && index < nEq && index < nVar && |X| == nVar && FiniteRow(X)
    ensures var o := FindPivot(t, nEq, nVar, index);
            o.Done? ==> (FiniteGrid(o.t.cells) <==> FiniteGrid(t.cells)) &&
                        (FiniteGrid(t.cells) ==> (SolvedBy(o.t, nEq, nVar, X) <==> SolvedBy(t, nEq, nVar, X)))
  {
    var c := ScanDown(t.cells, index, 1);
    if index + c < nEq {
      RowSwapKeepsSolutions(t, nEq, nVar, index, index + c, X);
    } else {
      SearchRightKeepsSolutions(t, nEq, nVar, index, X);
    }
  }

  /** Exchanging two rows keeps finiteness and the solutions of a finite
      tableau. */
  lemma RowSwapKeepsSolutions(t: Tableau, nEq: nat, nVar: nat, r1: nat, r2: nat, X: seq<Complex>)
    requires Shaped(t, nEq, nVar) && r1 < nEq && r2 < nEq && |X| == nVar && FiniteRow(X)
    ensures var u := Tableau(SwapRows(t.cells, r1, r2), t.perm);
            (FiniteGrid(u.cells) <==> FiniteGrid(t.cells)) &&
            (FiniteGrid(t.cells) ==> (SolvedBy(u, nEq, nVar, X) <==> SolvedBy(t, nEq, nVar, X)))
  {
    SwapsKeepFinite(t.cells, nVar + 1, r1, r2, 0, 0);
    RowExchangeKeepsSolutions(t, nEq, nVar, r1, r2, X);
  }

  /** The turn for one pivot column, when its result is finite, started from
      a finite tableau and kept its solutions. */
  lemma ReduceColumnKeepsSolutions(t: Tableau, nEq: nat, nVar: nat, i: nat, X: seq<Complex>)
    requires Shaped(t, nEq, nVar) && i < nVar && |X| == nVar && FiniteRow(X)
    ensures var s := ReduceColumn(t, nEq, nVar, i);
            s.Passed? && FiniteGrid(s.t.cells) ==>
              FiniteGrid(t.cells) && (SolvedBy(s.t, nEq, nVar, X) <==> SolvedBy(t, nEq, nVar, X))
  {
    if i < nEq {
      var u := t;
      if IsZero(t.cells[i][i]) {
        FindPivotKeepsSolutions(t, nEq, nVar, i, X);
        u := FindPivot(t, nEq, nVar, i).t;
      }
      if ReduceColumn(t, nEq, nVar, i).Passed? {
        assert Shaped(u, nEq, nVar);
        if !FiniteGrid(u.cells) {
          EliminatePassKeepsNaN(u.cells, nVar, i);
        } else {
          if FiniteGrid(EliminatePass(u.cells, nVar, i)) {
            FinitePassKeepsSolutions(u, nEq, nVar, i, X);
          }
        }
      }
    }
  }

  /** The Gauss-Jordan loop keeps the solutions: when it ends without an
      exception and leaves a finite tableau, the values of the original
      unknowns that solve the final tableau are exactly those that solved the
      first.  (A zero pivot the search could not replace turns a row to NaN,
      and a NaN entry never leaves the tableau.) */
  lemma {:induction false} ReduceKeepsSolutions(t: Tableau, nEq: nat, nVar: nat, i: nat, X: seq<Complex>)
    requires Shaped(t, nEq, nVar) && i <= nVar && |X| == nVar && FiniteRow(X)
    ensures var o := Reduce(t, nEq, nVar, i);
            !o.Failed? && FiniteGrid(o.t.cells) ==>
              FiniteGrid(t.cells) && (SolvedBy(o.t, nEq, nVar, X) <==> SolvedBy(t, nEq, nVar, X))
    decreases nVar - i
  {
    if i < nVar {
      ReduceColumnKeepsSolutions(t, nEq, nVar, i, X);
      match ReduceColumn(t, nEq, nVar, i)
      case Ended(o) =>
      case Passed(u) =>
        ReduceKeepsSolutions(u, nEq, nVar, i + 1, X);
    }
  }

  /** Every finite value for the unknowns solves the all-zero system: it has
      infinitely many solutions. */
  lemma ZeroSystemSolvedByAll(X: seq<Complex>)
    requires |X| == 3 && FiniteRow(X)
    ensures SolvedBy(ZeroSystem(), 3, 3, X)
  {
    var t := ZeroSystem();
    var x := Arrange(X, t.perm);
    assert FiniteRow(x);
    forall j | 0 <= j < 3
      ensures Satisfies(t.cells[j], x, 3)
    {
      DotZeroRow(t.cells[j], x, 3);
    }
  }

  /** A row whose first `n` coefficients are zero sums to zero against finite
      values. */
  lemma {:induction false} DotZeroRow(row: seq<Complex>, x: seq<Complex>, n: nat)
    requires n <= |row| && n <= |x| && FiniteRow(x)
    requires forall z :: 0 <= z < n ==> IsZero(row[z])
    ensures Dot(row, x, n) == Zero
  {
    if n > 0 {
      DotZeroRow(row, x, n - 1);
      TimesZero(row[n - 1], x[n - 1]);
    }
  }
}
