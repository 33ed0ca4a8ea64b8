/** What the elimination leaves behind: each pass with a finite non-zero
    pivot clears its column outside the pivot row, and the exchanges of the
    pivot search never touch a column already cleared.  A run that reaches the
    last column with finite entries therefore leaves every pivot column
    cleared, and such a tableau is solved by the quotients the classification
    reports.
 */
module ReducedForm {
  import opened ComplexNumbers
  import opened Grids
  import opened Pivoting
  import opened Elimination
  import opened LinearSystems
  import opened Classification
  import opened Options
  import opened ComplexText

  /** The column in which original unknown `k` stands. */
  function Position(perm: seq<int>, k: int): (z: nat)
    requires k in perm
    ensures z < |perm| && perm[z] == k
  {
    if perm[0] == k then 0 else 1 + Position(perm[1..], k)
  }

  /** The value of original unknown `k`: that of the column it stands in. */
  function ValueOf(x: seq<Complex>, perm: seq<int>, n: nat, k: nat): Complex
    requires IsPermutation(perm, n) && |x| == n && k < n
  {
    PermutationCovers(perm, n, k);
    x[Position(perm, k)]
  }

  /** The values of the original unknowns read back from the values `x` of
      the columns through the record of column exchanges: the inverse of
      `Arrange`. */
  function Unarrange(x: seq<Complex>, perm: seq<int>, n: nat): (X: seq<Complex>)
    requires IsPermutation(perm, n) && |x| == n
    ensures |X| == n && Arrange(X, perm) == x
    ensures FiniteRow(x) ==> FiniteRow(X)
  {
    var X := seq(n, k requires 0 <= k < n => ValueOf(x, perm, n, k));
    assert forall z :: 0 <= z < n ==> Position(perm, perm[z]) == z by {
      forall z | 0 <= z < n
        ensures Position(perm, perm[z]) == z
      {
        var w := Position(perm, perm[z]);
        assert perm[w] == perm[z];
      }
    }
    X
  }

  /** Reading through a record of column exchanges loses nothing: values of
      the unknowns that read the same are the same. */
  lemma ArrangeInjective(X: seq<Complex>, Y: seq<Complex>, perm: seq<int>, n: nat)
    requires IsPermutation(perm, n) && |X| == n && |Y| == n
    requires Arrange(X, perm) == Arrange(Y, perm)
    ensures X == Y
  {
    forall k | 0 <= k < n
      ensures X[k] == Y[k]
    {
      PermutationCovers(perm, n, k);
      var z := Position(perm, k);
      assert Arrange(X, perm)[z] == X[k];
    }
  }

  /** The first `k` columns are cleared: each holds zero in every row but its
      diagonal row. */
  predicate Cleared(g: seq<seq<Complex>>, nVar: nat, k: nat)
    requires IsGrid(g, |g|, nVar + 1) && k <= nVar
  {
    forall i, j :: 0 <= i < k && i < |g| && 0 <= j < |g| && j != i ==> IsZero(g[j][i])
  }

  /** Exchanging two rows at or below row `k` keeps the first `k` columns
      cleared. */
  lemma SwapRowsKeepCleared(g: seq<seq<Complex>>, nVar: nat, k: nat, a: nat, b: nat)
    requires IsGrid(g, |g|, nVar + 1) && k <= nVar && k <= a < |g| && k <= b < |g|
    requires Cleared(g, nVar, k)
    ensures IsGrid(SwapRows(g, a, b), |g|, nVar + 1) && Cleared(SwapRows(g, a, b), nVar, k)
  {
    SwapRowsKeepsGrid(g, |g|, nVar + 1, a, b);
    var h := SwapRows(g, a, b);
    forall i, j | 0 <= i < k && i < |g| && 0 <= j < |g| && j != i
      ensures IsZero(h[j][i])
    {
      var j' := if j == a then b else if j == b then a else j;
      assert h[j] == g[j'];
    }
  }

  /** Exchanging two columns at or right of column `k` keeps the first `k`
      columns cleared. */
  lemma SwapColumnsKeepCleared(g: seq<seq<Complex>>, nVar: nat, k: nat, a: nat, b: nat)
    requires IsGrid(g, |g|, nVar + 1) && k <= nVar && k <= a <= nVar && k <= b <= nVar
    requires Cleared(g, nVar, k)
    ensures IsGrid(SwapColumns(g, a, b), |g|, nVar + 1) && Cleared(SwapColumns(g, a, b), nVar, k)
  {
    SwapColumnsKeepsGrid(g, |g|, nVar + 1, a, b);
  }

  /** A turn of the corner stage that goes on exchanges rows and columns at or
      past the pivot only. */
  lemma CornerTurnKeepsCleared(t: Tableau, nEq: nat, nVar: nat, index: nat, c: nat, r: nat, found: bool)
    requires CornerState(t, nEq, nVar, index, c, r) && Cleared(t.cells, nVar, index)
    ensures var s := CornerTurn(t, nEq, nVar, index, c, r, found);
            s.Continue? ==> Cleared(s.t.cells, nVar, index)
  {
    if index + c < nEq && index + c <= nVar && IsZero(t.cells[index + r][index + c]) && index + r + 1 < nEq {
      var rows := SwapRows(t.cells, index, index + r + 1);
      SwapRowsKeepCleared(t.cells, nVar, index, index, index + r + 1);
      SwapColumnsKeepCleared(rows, nVar, index, index, index + c);
    }
  }

  /** The corner stage, when it ends normally, keeps the columns left of the
      pivot cleared. */
  lemma {:induction false} CornerKeepsCleared(t: Tableau, nEq: nat, nVar: nat, index: nat, c: nat, r: nat, found: bool)
    requires CornerState(t, nEq, nVar, index, c, r) && Cleared(t.cells, nVar, index)
    ensures var o := Corner(t, nEq, nVar, index, c, r, found);
            o.Done? ==> Cleared(o.t.cells, nVar, index)
    decreases nEq - index - c, nEq - index - r
  {
    CornerTurnKeepsCleared(t, nEq, nVar, index, c, r, found);
    match CornerTurn(t, nEq, nVar, index, c, r, found)
    case Halt(o) =>
    case Continue(u, c', r', found') =>
      CornerKeepsCleared(u, nEq, nVar, index, c', r', found');
  }

  /** The pivot search, when it ends normally, keeps the columns left of the
      pivot cleared: it exchanges only rows below the pivot row and columns
      right of the pivot column. */
  lemma FindPivotKeepsCleared(t: Tableau, nEq: nat, nVar: nat, index: nat)
    requires Shaped(t, nEq, nVar) && index < nEq && index < nVar && Cleared(t.cells, nVar, index)
    ensures var o := FindPivot(t, nEq, nVar, index);
            o.Done? ==> Cleared(o.t.cells, nVar, index)
  {
    var c := ScanDown(t.cells, index, 1);
    if index + c < nEq {
      SwapRowsKeepCleared(t.cells, nVar, index, index, index + c);
    } else {
      var c2 := ScanRight(t.cells[index], nVar, index, 1);
      if index + c2 < nVar {
        SwapColumnsKeepCleared(t.cells, nVar, index, index, index + c2);
      } else {
        CornerKeepsCleared(t, nEq, nVar, index, 1, 1, false);
      }
    }
  }

  /** A pass with a finite non-zero pivot on a finite grid clears the pivot
      column and keeps the earlier columns cleared, since the pivot row is
      zero in them. */
  lemma PassClears(g: seq<seq<Complex>>, nVar: nat, i: nat)
    requires IsGrid(g, |g|, nVar + 1) && i < |g| && i < nVar && FiniteGrid(g)
    requires Cleared(g, nVar, i) && !IsZero(g[i][i])
    ensures Cleared(EliminatePass(g, nVar, i), nVar, i + 1)
  {
    var h := EliminatePass(g, nVar, i);
    forall k, j | 0 <= k < i + 1 && k < |g| && 0 <= j < |g| && j != k
      ensures IsZero(h[j][k])
    {
      assert FiniteRow(g[j]) && FiniteRow(g[i]);
      if k == i {
        EliminateClearsColumn(g, nVar, i, j);
      } else if j != i {
        assert Multiplier(g, i, j).Complex?;
        EliminateKeepsClearedColumn(g, nVar, i, j, k);
      }
    }
  }

  /** The turn for column `i`, when its result is finite, leaves one more
      column cleared: a zero pivot with another row to clear would have turned
      that row to NaN, and a single equation has nothing to clear. */
  lemma ReduceColumnKeepsCleared(t: Tableau, nEq: nat, nVar: nat, i: nat)
    requires Shaped(t, nEq, nVar) && i < nVar && Cleared(t.cells, nVar, i)
    ensures var s := ReduceColumn(t, nEq, nVar, i);
            s.Passed? && FiniteGrid(s.t.cells) ==> Cleared(s.t.cells, nVar, i + 1)
  {
    var s := ReduceColumn(t, nEq, nVar, i);
    if i < nEq && s.Passed? && FiniteGrid(s.t.cells) {
      var u := t;
      if IsZero(t.cells[i][i]) {
        FindPivotKeepsCleared(t, nEq, nVar, i);
        u := FindPivot(t, nEq, nVar, i).t;
      }
      assert Shaped(u, nEq, nVar) && Cleared(u.cells, nVar, i);
      assert s.t.cells == EliminatePass(u.cells, nVar, i);
      if !FiniteGrid(u.cells) {
        EliminatePassKeepsNaN(u.cells, nVar, i);
      }
      EliminatePassFinite(u.cells, nVar, i);
      if nEq > 1 {
        PassClears(u.cells, nVar, i);
      }
    }
  }

  /** A grid that holds NaN still does after the rest of the loop. */
  lemma FiniteAfterReduce(t: Tableau, nEq: nat, nVar: nat, i: nat)
    requires Shaped(t, nEq, nVar) && i <= nVar
    ensures var o := Reduce(t, nEq, nVar, i);
            !o.Failed? && FiniteGrid(o.t.cells) ==> FiniteGrid(t.cells)
  {
    var zeros := seq(nVar, _ => Zero);
    ReduceKeepsSolutions(t, nEq, nVar, i, zeros);
  }

  /** One turn of the loop: the rest of the loop after a column's turn, or
      the end that turn reports. */
  lemma ReduceStep(t: Tableau, nEq: nat, nVar: nat, i: nat)
    requires Shaped(t, nEq, nVar) && i < nVar
    ensures var s := ReduceColumn(t, nEq, nVar, i);
            Reduce(t, nEq, nVar, i) == if s.Passed? then Reduce(s.t, nEq, nVar, i + 1) else s.r
  {
  }

  /** A column's turn from a tableau cleared left of column `i`: either the
      loop goes on from a tableau cleared up to column `i` included (when it
      is finite), or the loop does not run to its end. */
  lemma ClearedTurn(t: Tableau, nEq: nat, nVar: nat, i: nat) returns (passed: bool, u: Tableau)
    requires Shaped(t, nEq, nVar) && i < nVar && Cleared(t.cells, nVar, i)
    ensures passed ==> Shaped(u, nEq, nVar) && Reduce(t, nEq, nVar, i) == Reduce(u, nEq, nVar, i + 1) &&
                       (FiniteGrid(u.cells) ==> Cleared(u.cells, nVar, i + 1))
    ensures !passed ==> !Reduce(t, nEq, nVar, i).Completed?
  {
    var s := ReduceColumn(t, nEq, nVar, i);
    ReduceStep(t, nEq, nVar, i);
    ReduceColumnKeepsCleared(t, nEq, nVar, i);
    passed := s.Passed?;
    u := if s.Passed? then s.t else t;
  }

  /** The loop from column `i` of a tableau cleared left of `i`, when it runs
      to its last column and ends on the finite tableau `o`, clears every
      column of `o`. */
  lemma {:induction false} ClearedAtEnd(t: Tableau, nEq: nat, nVar: nat, i: nat, o: Tableau)
    requires Shaped(t, nEq, nVar) && i <= nVar && Cleared(t.cells, nVar, i)
    requires Reduce(t, nEq, nVar, i) == Completed(o) && FiniteGrid(o.cells)
    ensures IsGrid(o.cells, |o.cells|, nVar + 1) && Cleared(o.cells, nVar, nVar)
    decreases nVar - i
  {
    if i < nVar {
      var u := ClearedStep(t, nEq, nVar, i, o);
      ClearedAtEnd(u, nEq, nVar, i + 1, o);
    }
  }

  /** One step of `ClearedAtEnd`: the tableau after column `i`'s turn is
      cleared up to `i` included, and the loop from it ends on `o`. */
  lemma ClearedStep(t: Tableau, nEq: nat, nVar: nat, i: nat, o: Tableau) returns (u: Tableau)
    requires Shaped(t, nEq, nVar) && i < nVar && Cleared(t.cells, nVar, i)
    requires Reduce(t, nEq, nVar, i) == Completed(o) && FiniteGrid(o.cells)
    ensures Shaped(u, nEq, nVar) && Cleared(u.cells, nVar, i + 1) && Reduce(u, nEq, nVar, i + 1) == Completed(o)
  {
    var passed;
    passed, u := ClearedTurn(t, nEq, nVar, i);
    assert passed;
    FiniteAfterReduce(u, nEq, nVar, i + 1);
  }

  /** The loop, run to its last column with a finite result, leaves every
      pivot column cleared. */
  lemma ReduceClears(t: Tableau, nEq: nat, nVar: nat, i: nat)
    requires Shaped(t, nEq, nVar) && i <= nVar && Cleared(t.cells, nVar, i)
    ensures var o := Reduce(t, nEq, nVar, i);
            o.Completed? && FiniteGrid(o.t.cells) ==> Cleared(o.t.cells, nVar, nVar)
  {
    var o := Reduce(t, nEq, nVar, i);
    if o.Completed? && FiniteGrid(o.t.cells) {
      ClearedAtEnd(t, nEq, nVar, i, o.t);
    }
  }

  /** The turn for column `i` stops the loop only at a zero pivot that the
      search could not replace, and leaves the tableau as it was. */
  lemma ReduceColumnStops(t: Tableau, nEq: nat, nVar: nat, i: nat)
    requires Shaped(t, nEq, nVar) && i < nVar
    ensures var s := ReduceColumn(t, nEq, nVar, i);
            s.Ended? && s.r.Stopped? ==> i < nEq && IsZero(t.cells[i][i]) && s.r.t == t
  {
  }

  /** The loop stops early only at a zero diagonal entry, which the tableau it
      leaves still holds. */
  lemma {:induction false} ReduceStopsAtZeroPivot(t: Tableau, nEq: nat, nVar: nat, i: nat)
    requires Shaped(t, nEq, nVar) && i <= nVar
    ensures var o := Reduce(t, nEq, nVar, i);
            o.Stopped? ==> exists k :: 0 <= k < nVar && k < nEq && IsZero(o.t.cells[k][k])
    decreases nVar - i
  {
    if i < nVar {
      var s := ReduceColumn(t, nEq, nVar, i);
      ReduceStep(t, nEq, nVar, i);
      if s.Passed? {
        ReduceStopsAtZeroPivot(s.t, nEq, nVar, i + 1);
      } else {
        ReduceColumnStops(t, nEq, nVar, i);
        if s.r.Stopped? {
          assert IsZero(s.r.t.cells[i][i]);
        }
      }
    }
  }

  /** The sum for a row that is zero in every column but `j`: the one
      product in column `j`, or zero when `j` is past the first `n` columns. */
  lemma {:induction false} DotSingle(row: seq<Complex>, x: seq<Complex>, n: nat, j: nat)
    requires n <= |row| && n <= |x| && FiniteRow(row) && FiniteRow(x)
    requires forall z :: 0 <= z < n && z != j ==> IsZero(row[z])
    ensures Dot(row, x, n) == if j < n then Times(row[j], x[j]) else Zero
  {
    if n > 0 {
      DotSingle(row, x, n - 1, j);
      var d, p := Dot(row, x, n - 1), Times(row[n - 1], x[n - 1]);
      PlusMinusInverse(d, p);
      if n - 1 != j {
        TimesZero(row[n - 1], x[n - 1]);
      }
    }
  }

  /** A finite tableau whose pivot columns are cleared, with at least as
      many equations as unknowns and no row `0 = b` with `b` not zero, is
      solved by the quotients of each row's constant by its diagonal entry,
      when these are all finite. */
  lemma ClearedSolved(t: Tableau, nEq: nat, nVar: nat, x: seq<Complex>)
    requires Shaped(t, nEq, nVar) && nVar <= nEq && FiniteGrid(t.cells) && Cleared(t.cells, nVar, nVar)
    requires forall k :: 0 <= k < nEq ==> !Inconsistent(t.cells[k], nVar)
    requires |x| == nVar && forall j :: 0 <= j < nVar ==> x[j] == ColumnValue(t, nEq, nVar, j) && x[j].Complex?
    ensures Solves(t.cells, x, nVar)
  {
    forall j | 0 <= j < nEq
      ensures Satisfies(t.cells[j], x, nVar)
    {
      var row := t.cells[j];
      assert FiniteRow(row);
      DotSingle(row, x, nVar, j);
      if j < nVar {
        assert !IsZero(row[j]);
        TimesCommutative(x[j], row[j]);
      } else {
        assert !Significant(row, nVar);
        assert IsZero(row[nVar]);
      }
    }
  }

  /** ... and no other finite values solve it. */
  lemma ClearedSolvedOnlyBy(t: Tableau, nEq: nat, nVar: nat, x: seq<Complex>, y: seq<Complex>)
    requires Shaped(t, nEq, nVar) && nVar <= nEq && FiniteGrid(t.cells) && Cleared(t.cells, nVar, nVar)
    requires |x| == nVar && forall j :: 0 <= j < nVar ==> x[j] == ColumnValue(t, nEq, nVar, j) && x[j].Complex?
    requires |y| == nVar && FiniteRow(y) && Solves(t.cells, y, nVar)
    ensures y == x
  {
    forall j | 0 <= j < nVar
      ensures y[j] == x[j]
    {
      var row := t.cells[j];
      assert FiniteRow(row) && Satisfies(row, y, nVar);
      DotSingle(row, y, nVar, j);
      assert x[j] == ColumnValue(t, nEq, nVar, j);
      assert !IsZero(row[j]);
      QuotientIsUnique(row[j], y[j], row[nVar]);
    }
  }

  /** On a finite cleared tableau without inconsistent rows, the quotients,
      placed back at the unknowns the record names, solve it. */
  lemma ClearedSolvedBy(t: Tableau, nEq: nat, nVar: nat, x: seq<Complex>)
    requires Shaped(t, nEq, nVar) && nVar <= nEq && FiniteGrid(t.cells) && Cleared(t.cells, nVar, nVar)
    requires forall k :: 0 <= k < nEq ==> !Inconsistent(t.cells[k], nVar)
    requires |x| == nVar && forall j :: 0 <= j < nVar ==> x[j] == ColumnValue(t, nEq, nVar, j) && x[j].Complex?
    ensures SolvedBy(t, nEq, nVar, Unarrange(x, t.perm, nVar))
  {
    ClearedSolved(t, nEq, nVar, x);
  }

  /** On a finite cleared tableau, finite values of the unknowns that solve
      it are the quotients, placed back at the unknowns the record names. */
  lemma ClearedSolvedOnlyByArranged(t: Tableau, nEq: nat, nVar: nat, x: seq<Complex>, X: seq<Complex>)
    requires Shaped(t, nEq, nVar) && nVar <= nEq && FiniteGrid(t.cells) && Cleared(t.cells, nVar, nVar)
    requires |x| == nVar && forall j :: 0 <= j < nVar ==> x[j] == ColumnValue(t, nEq, nVar, j) && x[j].Complex?
    requires |X| == nVar && FiniteRow(X) && SolvedBy(t, nEq, nVar, X)
    ensures X == Unarrange(x, t.perm, nVar)
  {
    var y := Arrange(X, t.perm);
    assert FiniteRow(y);
    ClearedSolvedOnlyBy(t, nEq, nVar, x, y);
    ArrangeInjective(X, Unarrange(x, t.perm, nVar), t.perm, nVar);
  }

  /** A cleared tableau that holds `u1 = a`, `u2 = b`, `u0 = c` in columns
      0, 1, 2: its record of column exchanges is a cycle of three. */
  function CyclicRecordExample(a: real, b: real, c: real): (t: Tableau)
    ensures Shaped(t, 3, 3) && t.perm == [1, 2, 0]
  {
    Tableau([[One, Zero, Zero, Complex(a, 0.0)],
             [Zero, One, Zero, Complex(b, 0.0)],
             [Zero, Zero, One, Complex(c, 0.0)]], [1, 2, 0])
  }

  /** The value of column `j` of the example: its constant, since its
      diagonal entry is one. */
  lemma CyclicRecordValue(a: real, b: real, c: real, j: nat)
    requires j < 3
    ensures ColumnValue(CyclicRecordExample(a, b, c), 3, 3, j) == CyclicRecordExample(a, b, c).cells[j][3]
  {
    var t := CyclicRecordExample(a, b, c);
    assert t.cells[j][j] == One && t.cells[j][3].Complex?;
    DividesByOne(t.cells[j][3]);
  }

  lemma CyclicRecordValues(a: real, b: real, c: real)
    ensures forall j :: 0 <= j < 3 ==>
              ColumnValue(CyclicRecordExample(a, b, c), 3, 3, j) == CyclicRecordExample(a, b, c).cells[j][3]
  {
    forall j | 0 <= j < 3
      ensures ColumnValue(CyclicRecordExample(a, b, c), 3, 3, j) == CyclicRecordExample(a, b, c).cells[j][3]
    {
      CyclicRecordValue(a, b, c, j);
    }
  }

  /** The example is finite, cleared, and none of its rows is inconsistent. */
  lemma CyclicRecordShape(a: real, b: real, c: real)
    ensures var t := CyclicRecordExample(a, b, c);
            FiniteGrid(t.cells) && Cleared(t.cells, 3, 3) &&
            forall k :: 0 <= k < 3 ==> !Inconsistent(t.cells[k], 3)
  {
    var t := CyclicRecordExample(a, b, c);
    forall k | 0 <= k < 3
      ensures !Inconsistent(t.cells[k], 3)
    {
      assert !IsZero(t.cells[k][k]);
    }
  }

  /** The example is solved by giving original unknown 0 the value `c`
      (that of column 2, where it stands), unknown 1 the value `a` and
      unknown 2 the value `b`. */
  lemma CyclicRecordSolved(a: real, b: real, c: real)
    ensures var t := CyclicRecordExample(a, b, c);
            var x := [Complex(a, 0.0), Complex(b, 0.0), Complex(c, 0.0)];
            SolvedBy(t, 3, 3, Unarrange(x, t.perm, 3)) && Unarrange(x, t.perm, 3)[0] == Complex(c, 0.0)
  {
    var t := CyclicRecordExample(a, b, c);
    var x := [Complex(a, 0.0), Complex(b, 0.0), Complex(c, 0.0)];
    CyclicRecordValues(a, b, c);
    CyclicRecordShape(a, b, c);
    ClearedSolved(t, 3, 3, x);
    var X := Unarrange(x, t.perm, 3);
    assert X[t.perm[2]] == x[2];
  }

  /** Yet the first line of a unique solution of the example is written
      from column `perm[0] = 1`, whose value is `b`: line `z` reports the
      column `perm[z]`, which names the unknown standing in column `z`, not
      the column where unknown `z` stands. */
  lemma CyclicRecordLines(a: real, b: real, c: real, render: real -> string)
    ensures SolutionLines(CyclicRecordExample(a, b, c), 3, 3, 3, render)[0] == Some(ToText(Complex(b, 0.0), render))
  {
    CyclicRecordValue(a, b, c, 1);
  }
}
