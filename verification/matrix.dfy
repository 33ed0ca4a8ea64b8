/** The solver object: the augmented matrix held in a two-dimensional array,
    updated in place by row and column exchanges and by the elimination, and
    the verdict its classification records. */
module Solver {
  import opened ComplexNumbers
  import opened Options
  import opened ComplexText
  import opened Grids
  import opened Pivoting
  import opened Elimination
  import opened Classification
  import opened LinearSystems
  import opened ReducedForm

  /** What `gjElimination` leaves: the reduced tableau and the new verdict, or
      an exception from the pivot search with the tableau as it was then (the
      classification does not run). */
  datatype Run = Finished(t: Tableau, v: Verdict) | Aborted(t: Tableau)

  /** `gjElimination`: the reduction from the first column, then the
      classification of whatever the reduction left, whether it ran to the
      end or stopped early. */
  function Solve(t: Tableau, v: Verdict, nEq: nat, nVar: nat, render: real -> string): (s: Run)
    requires Shaped(t, nEq, nVar) && Recorded(v, nVar)
    ensures s.Aborted? ==> nVar < nEq
    ensures s.Finished? ==> Shaped(s.t, nEq, nVar) && Recorded(s.v, nVar)
  {
    match Reduce(t, nEq, nVar, 0)
    case Failed(u) => Aborted(u)
    case Completed(u) => Finished(u, Classify(v, u, nEq, nVar, render))
    case Stopped(u) => Finished(u, Classify(v, u, nEq, nVar, render))
  }

  /** The whole run keeps the solutions: when `gjElimination` ends without an
      exception on a finite tableau, the values of the original unknowns that
      solve it are exactly those that solved the system it started from. */
  lemma SolveKeepsSolutions(t: Tableau, v: Verdict, nEq: nat, nVar: nat, render: real -> string, X: seq<Complex>)
    requires Shaped(t, nEq, nVar) && Recorded(v, nVar) && |X| == nVar && FiniteRow(X)
    ensures var s := Solve(t, v, nEq, nVar, render);
            s.Finished? && FiniteGrid(s.t.cells) ==>
              FiniteGrid(t.cells) && (SolvedBy(s.t, nEq, nVar, X) <==> SolvedBy(t, nEq, nVar, X))
  {
    ReduceKeepsSolutions(t, nEq, nVar, 0, X);
  }

  /** The values a verdict reports, unknown by unknown in column order: an
      absent entry reads as NaN. */
  function Reported(v: Verdict): (x: seq<Complex>)
    ensures |x| == |v.solution|
  {
    seq(|v.solution|, j requires 0 <= j < |v.solution| =>
      if v.solution[j].Some? then v.solution[j].value else NaN)
  }

  /** What a run that newly finds one solution with finite values leaves:
      the reduction ran to its end, every column is cleared outside its
      diagonal, no row is inconsistent, and the reported values are the
      quotients of the constants by the diagonal. */
  lemma OneSolutionReduced(t: Tableau, v: Verdict, nEq: nat, nVar: nat, render: real -> string)
    requires Shaped(t, nEq, nVar) && Recorded(v, nVar)
    ensures var s := Solve(t, v, nEq, nVar, render);
            s.Finished? && v.status != OneSolution && s.v.status == OneSolution &&
            FiniteGrid(s.t.cells) && FiniteRow(Reported(s.v)) ==>
              Reduce(t, nEq, nVar, 0) == Completed(s.t) && nVar <= nEq && FiniteGrid(t.cells) &&
              Cleared(s.t.cells, nVar, nVar) && (forall k :: 0 <= k < nEq ==> !Inconsistent(s.t.cells[k], nVar)) &&
              forall j :: 0 <= j < nVar ==> Reported(s.v)[j] == ColumnValue(s.t, nEq, nVar, j)
  {
    var o := Reduce(t, nEq, nVar, 0);
    var s := Solve(t, v, nEq, nVar, render);
    if s.Finished? && v.status != OneSolution && s.v.status == OneSolution &&
       FiniteGrid(s.t.cells) && FiniteRow(Reported(s.v)) {
      var u, w := s.t, s.v;
      assert u == o.t && w == Classify(v, u, nEq, nVar, render);
      assert nVar <= nEq;
      assert w.solution == seq(nVar, j requires 0 <= j < nVar => Some(ColumnValue(u, nEq, nVar, j)));
      forall k | 0 <= k < nVar
        ensures !IsZero(u.cells[k][k])
      {
        assert Reported(w)[k] == ColumnValue(u, nEq, nVar, k);
      }
      ReduceStopsAtZeroPivot(t, nEq, nVar, 0);
      assert o.Completed?;
      ReduceClears(t, nEq, nVar, 0);
      FiniteAfterReduce(t, nEq, nVar, 0);
    }
  }

  /** A run that newly reports one solution with finite values has solved
      the system it started from: placing each reported value back at the
      unknown the record of column exchanges names satisfies every original
      equation. */
  lemma OneSolutionSolvesSystem(t: Tableau, v: Verdict, nEq: nat, nVar: nat, render: real -> string)
    requires Shaped(t, nEq, nVar) && Recorded(v, nVar)
    ensures var s := Solve(t, v, nEq, nVar, render);
            s.Finished? && v.status != OneSolution && s.v.status == OneSolution &&
            FiniteGrid(s.t.cells) && FiniteRow(Reported(s.v)) ==>
              FiniteGrid(t.cells) && SolvedBy(t, nEq, nVar, Unarrange(Reported(s.v), s.t.perm, nVar))
  {
    var s := Solve(t, v, nEq, nVar, render);
    OneSolutionReduced(t, v, nEq, nVar, render);
    if s.Finished? && v.status != OneSolution && s.v.status == OneSolution &&
       FiniteGrid(s.t.cells) && FiniteRow(Reported(s.v)) {
      var x := Reported(s.v);
      ClearedSolvedBy(s.t, nEq, nVar, x);
      ReduceKeepsSolutions(t, nEq, nVar, 0, Unarrange(x, s.t.perm, nVar));
    }
  }

  /** ... and nothing else solves it: any finite values of the original
      unknowns that satisfy every original equation are the reported ones,
      placed back by the record. */
  lemma OneSolutionIsUnique(t: Tableau, v: Verdict, nEq: nat, nVar: nat, render: real -> string, X: seq<Complex>)
    requires Shaped(t, nEq, nVar) && Recorded(v, nVar) && |X| == nVar && FiniteRow(X)
    ensures var s := Solve(t, v, nEq, nVar, render);
            s.Finished? && v.status != OneSolution && s.v.status == OneSolution &&
            FiniteGrid(s.t.cells) && FiniteRow(Reported(s.v)) && SolvedBy(t, nEq, nVar, X) ==>
              X == Unarrange(Reported(s.v), s.t.perm, nVar)
  {
    var s := Solve(t, v, nEq, nVar, render);
    OneSolutionReduced(t, v, nEq, nVar, render);
    if s.Finished? && v.status != OneSolution && s.v.status == OneSolution &&
       FiniteGrid(s.t.cells) && FiniteRow(Reported(s.v)) && SolvedBy(t, nEq, nVar, X) {
      ReduceKeepsSolutions(t, nEq, nVar, 0, X);
      ClearedSolvedOnlyByArranged(s.t, nEq, nVar, Reported(s.v), X);
    }
  }

  /** A row of three NaN coefficients and a NaN constant. */
  function NaNRow(): seq<Complex>
  {
    seq(4, z => NaN)
  }

  /** A pass over a grid some of whose rows are all NaN: the pivot row is
      kept and every other row becomes NaN, since its multiplier or the
      pivot row is NaN. */
  lemma PassToNaN(g: seq<seq<Complex>>, i: nat)
    requires IsGrid(g, 3, 4) && i < 3
    requires g[i] == NaNRow() || (IsZero(g[i][i]) && g[i][i].Complex?)
    ensures forall j :: 0 <= j < 3 && j != i ==> EliminatePass(g, 3, i)[j] == NaNRow()
  {
    var h := EliminatePass(g, 3, i);
    EliminatePassRows(g, 3, i);
    forall j | 0 <= j < 3 && j != i
      ensures h[j] == NaNRow()
    {
      assert Multiplier(g, i, j).NaN?;
      assert forall z :: 0 <= z < 4 ==> h[j][z] == NaN;
    }
  }

  /** The all-zero system of three equations, which every value solves, is
      classified as having one solution whose every value is NaN: the corner
      search reports an exchange with a zero pivot, the division by that pivot
      makes the other rows NaN, the next pass spreads NaN to the first row,
      and NaN rows count as significant. */
  lemma ZeroSystemOneNaNSolution(v: Verdict, render: real -> string)
    requires Recorded(v, 3) && v.status != NoSolution
    ensures var s := Solve(ZeroSystem(), v, 3, 3, render);
            s.Finished? && s.v.status == OneSolution &&
            forall j :: 0 <= j < 3 ==> s.v.solution[j] == Some(NaN)
  {
    var t := ZeroSystem();
    CornerKeepsZeroPivot();
    var u := FindPivot(t, 3, 3, 0).t;
    var g1 := EliminatePass(u.cells, 3, 0);
    PassToNaN(u.cells, 0);
    assert IsZero(g1[1][1]) == false;
    var g2 := EliminatePass(g1, 3, 1);
    PassToNaN(g1, 1);
    assert g2[1] == NaNRow();
    var g3 := EliminatePass(g2, 3, 2);
    PassToNaN(g2, 2);
    assert g3[2] == NaNRow();
    assert ReduceColumn(t, 3, 3, 0) == Passed(Tableau(g1, u.perm));
    assert ReduceColumn(Tableau(g1, u.perm), 3, 3, 1) == Passed(Tableau(g2, u.perm));
    assert ReduceColumn(Tableau(g2, u.perm), 3, 3, 2) == Passed(Tableau(g3, u.perm));
    var w := Tableau(g3, u.perm);
    assert Reduce(t, 3, 3, 0) == Completed(w);
    forall k | 0 <= k < 3
      ensures Significant(w.cells[k], 3) && !Inconsistent(w.cells[k], 3)
    {
      assert !IsZero(w.cells[k][0]);
    }
    assert SignificantFrom(w.cells, 3, 0) == {0, 1, 2};
  }

  class Matrix {
    const numOfVariables: nat
    const numOfEquations: nat
    const numOfColumns: nat
    const matrix: array2<Complex>
    const solution: array<Option<Complex>>
    const columnChanges: array<int>
    var statusSolve: Status
    var result: seq<Option<string>>
    /** The float-to-text conversion used when a value becomes a result line. */
    const render: real -> string

    ghost predicate Valid()
      reads this, columnChanges
    {
      numOfColumns == numOfVariables + 1 && numOfEquations >= 1 &&
      matrix.Length0 == numOfEquations && matrix.Length1 == numOfColumns &&
      solution.Length == numOfVariables &&
      IsPermutation(columnChanges[..], numOfVariables) &&
      (statusSolve != NoSolution ==> |result| <= numOfVariables)
    }

    ghost function CurrentVerdict(): Verdict
      reads this, solution
    {
      Verdict(statusSolve, result, solution[..])
    }

    /** The number of unknowns is one less than the row length; the record of
        column exchanges starts as the identity and the result as one null
        line per unknown. */
    constructor (rows: seq<seq<Complex>>, render: real -> string)
      requires |rows| >= 1 && |rows[0]| >= 1 && IsGrid(rows, |rows|, |rows[0]|)
      ensures Valid()
      ensures numOfEquations == |rows| && numOfVariables == |rows[0]| - 1
      ensures Holds(Tableau(rows, Identity(numOfVariables)))
      ensures statusSolve == Unsolved && result == seq(numOfVariables, _ => None)
      ensures solution[..] == seq(numOfVariables, _ => None)
      ensures this.render == render
      ensures fresh(matrix) && fresh(solution) && fresh(columnChanges)
    {
      var nCols := |rows[0]|;
      var changes := new int[nCols - 1];
      for i := 0 to changes.Length
        invariant forall k :: 0 <= k < i ==> changes[k] == k
      {
        changes[i] := i;
      }
      numOfColumns := nCols;
      numOfVariables := nCols - 1;
      numOfEquations := |rows|;
      matrix := new Complex[|rows|, nCols]((i, j) requires 0 <= i < |rows| && 0 <= j < nCols => rows[i][j]);
      solution := new Option<Complex>[nCols - 1](_ => None);
      columnChanges := changes;
      statusSolve := Unsolved;
      result := seq(nCols - 1, _ => None);
      this.render := render;
      new;
      assert columnChanges[..] == Identity(numOfVariables);
    }

    /** The matrix and the record of column exchanges hold tableau `t`. */
    ghost predicate Holds(t: Tableau)
      reads matrix, columnChanges
    {
      IsGrid(t.cells, matrix.Length0, matrix.Length1) && columnChanges[..] == t.perm &&
      forall a, b :: 0 <= a < matrix.Length0 && 0 <= b < matrix.Length1 ==> matrix[a, b] == t.cells[a][b]
    }

    /** The arrays hold at most one tableau. */
    lemma HoldsUnique(t: Tableau, u: Tableau)
      requires Holds(t) && Holds(u)
      ensures t == u
    {
      forall a | 0 <= a < matrix.Length0
        ensures t.cells[a] == u.cells[a]
      {
        assert forall b :: 0 <= b < matrix.Length1 ==> t.cells[a][b] == matrix[a, b] == u.cells[a][b];
      }
    }

    /** `getResult`: the recorded result lines. */
    method GetResult() returns (r: seq<Option<string>>)
      ensures r == result
    {
      r := result;
    }

    /** `swapRow`: rows `r1` and `r2` exchanged, entry by entry. */
    method SwapRow(r1: nat, r2: nat, ghost t: Tableau)
      requires Valid() && Holds(t) && r1 < numOfEquations && r2 < numOfEquations
      modifies matrix
      ensures Valid() && Holds(Tableau(SwapRows(t.cells, r1, r2), t.perm))
    {
      for i := 0 to numOfColumns
        invariant forall a, b :: 0 <= a < numOfEquations && 0 <= b < numOfColumns ==>
                    matrix[a, b] == (if b < i && a == r1 then t.cells[r2][b]
                                     else if b < i && a == r2 then t.cells[r1][b]
                                     else t.cells[a][b])
      {
        var temp := matrix[r1, i];
        matrix[r1, i] := matrix[r2, i];
        matrix[r2, i] := temp;
      }
    }

    /** `swapColumn`: columns `c1` and `c2` exchanged in every row, then the
        exchange recorded; recording an exchange with the column of constants
        throws, after the columns were exchanged and before the record
        changes. */
    method SwapColumn(c1: nat, c2: nat, ghost t: Tableau) returns (thrown: bool)
      requires Valid() && Holds(t) && c1 < numOfColumns && c2 < numOfColumns
      modifies matrix, columnChanges
      ensures Valid()
      ensures thrown <==> c1 >= numOfVariables || c2 >= numOfVariables
      ensures thrown ==> Holds(Tableau(SwapColumns(t.cells, c1, c2), t.perm))
      ensures !thrown ==> Holds(Tableau(SwapColumns(t.cells, c1, c2), SwapEntries(t.perm, c1, c2)))
    {
      for i := 0 to numOfEquations
        modifies matrix
        invariant forall a, b :: 0 <= a < numOfEquations && 0 <= b < numOfColumns ==>
                    matrix[a, b] == (if a < i && b == c1 then t.cells[a][c2]
                                     else if a < i && b == c2 then t.cells[a][c1]
                                     else t.cells[a][b])
      {
        var temp := matrix[i, c1];
        matrix[i, c1] := matrix[i, c2];
        matrix[i, c2] := temp;
      }
      if c1 >= numOfVariables || c2 >= numOfVariables {
        return true;
      }
      SwapEntriesKeepsPermutation(columnChanges[..], numOfVariables, c1, c2);
      var tmp := columnChanges[c1];
      columnChanges[c1] := columnChanges[c2];
      columnChanges[c2] := tmp;
      thrown := false;
    }

    /** `findPivotElement`: the three stages of the search, with exceptions
        reported in `thrown`; the new state is the one `FindPivot` describes. */
    method FindPivotElement(index: nat, ghost t: Tableau) returns (found: bool, thrown: bool)
      requires Valid() && Holds(t) && index < numOfEquations && index < numOfVariables
      modifies matrix, columnChanges
      ensures Valid()
      ensures var o := FindPivot(t, numOfEquations, numOfVariables, index);
              Holds(o.t) && (thrown <==> o.Thrown?) && (!thrown ==> found == o.found)
    {
      var c := 1;
      while index + c < numOfEquations && IsZero(matrix[index + c, index])
        invariant 1 <= c && index + c <= numOfEquations
        invariant ScanDown(t.cells, index, c) == ScanDown(t.cells, index, 1)
        decreases numOfEquations - index - c
      {
        c := c + 1;
      }
      if index + c == numOfEquations {
        found, thrown := SearchRow(index, t);
      } else {
        SwapRow(index, index + c, t);
        found, thrown := true, false;
      }
    }

    /** The second and third stages of `findPivotElement`, as `SearchRight`
        describes them. */
    method SearchRow(index: nat, ghost t: Tableau) returns (found: bool, thrown: bool)
      requires Valid() && Holds(t) && index < numOfEquations && index < numOfVariables
      modifies matrix, columnChanges
      ensures Valid()
      ensures var o := SearchRight(t, numOfEquations, numOfVariables, index);
              Holds(o.t) && (thrown <==> o.Thrown?) && (!thrown ==> found == o.found)
    {
      var c := 1;
      while index + c < numOfVariables && IsZero(matrix[index, index + c])
        invariant 1 <= c && index + c <= numOfVariables
        invariant ScanRight(t.cells[index], numOfVariables, index, c) == ScanRight(t.cells[index], numOfVariables, index, 1)
        decreases numOfVariables - index - c
      {
        c := c + 1;
      }
      if index + c == numOfVariables {
        found, thrown := SearchCorner(index, t);
      } else {
        var failed := SwapColumn(index, index + c, t);
        found, thrown := true, false;
      }
    }

    /** The corner stage of `findPivotElement`, from `c = r = 1`. */
    method SearchCorner(index: nat, ghost t: Tableau) returns (found: bool, thrown: bool)
      requires Valid() && Holds(t) && index < numOfEquations && index < numOfVariables
      modifies matrix, columnChanges
      ensures Valid()
      ensures var o := Corner(t, numOfEquations, numOfVariables, index, 1, 1, false);
              Holds(o.t) && (thrown <==> o.Thrown?) && (!thrown ==> found == o.found)
    {
      ghost var cur := t;
      ghost var goal := Corner(t, numOfEquations, numOfVariables, index, 1, 1, false);
      found, thrown := false, false;
      var c := 1;
      var r := 1;
      var stop := false;
      while !stop && index + c < numOfEquations
        invariant Valid() && Holds(cur)
        invariant !stop ==> !thrown && CornerState(cur, numOfEquations, numOfVariables, index, c, r) &&
                            Corner(cur, numOfEquations, numOfVariables, index, c, r, found) == goal
        invariant stop ==> goal == if thrown then Thrown(cur) else Done(found, cur)
        decreases !stop, numOfEquations - index - c, numOfEquations - index - r
      {
        c, r, found, stop, thrown, cur := CornerStep(index, c, r, found, cur);
      }
    }

    /** One turn of the corner loop, as `CornerTurn` describes it. */
    method CornerStep(index: nat, c: nat, r: nat, found: bool, ghost t: Tableau)
      returns (c': nat, r': nat, found': bool, stop: bool, thrown: bool, ghost u: Tableau)
      requires Valid() && Holds(t) && CornerState(t, numOfEquations, numOfVariables, index, c, r)
      requires index + c < numOfEquations
      modifies matrix, columnChanges
      ensures Valid() && Holds(u)
      ensures var s := CornerTurn(t, numOfEquations, numOfVariables, index, c, r, found);
              (stop <==> s.Halt?) &&
              (stop ==> u == s.o.t && (thrown <==> s.o.Thrown?) && (!thrown ==> found' == s.o.found)) &&
              (!stop ==> !thrown && u == s.t && c' == s.c && r' == s.r && found' == s.found)
    {
      ghost var s := CornerTurn(t, numOfEquations, numOfVariables, index, c, r, found);
      c', r', found', u := c, r, found, t;
      if index + c >= numOfColumns {
        assert s == Halt(Thrown(t));
        return c', r', found', true, true, u;
      }
      assert matrix[index + r, index + c] == t.cells[index + r][index + c];
      if !IsZero(matrix[index + r, index + c]) {
        assert s == Halt(Done(found, t));
        return c', r', found', true, false, u;
      }
      r' := r + 1;
      stop, thrown := false, false;
      if index + r' == numOfEquations {
        assert s == Continue(t, c + 1, 1, found);
        c' := c + 1;
        r' := 1;
      } else {
        var failed;
        failed, u := SwapRowAndColumn(index, index + r', index + c, t);
        if failed {
          return c', r', found', true, true, u;
        }
        found' := true;
      }
    }

    /** Rows `index` and `row` exchanged, then columns `index` and `col`. */
    method SwapRowAndColumn(index: nat, row: nat, col: nat, ghost t: Tableau) returns (thrown: bool, ghost u: Tableau)
      requires Valid() && Holds(t) && index < numOfEquations && row < numOfEquations
      requires index < numOfColumns && col < numOfColumns
      modifies matrix, columnChanges
      ensures Valid() && Holds(u)
      ensures thrown <==> index >= numOfVariables || col >= numOfVariables
      ensures u == Tableau(SwapColumns(SwapRows(t.cells, index, row), index, col),
                           if thrown then t.perm else SwapEntries(t.perm, index, col))
    {
      SwapRow(index, row, t);
      thrown := SwapColumn(index, col, Tableau(SwapRows(t.cells, index, row), t.perm));
      u := Tableau(SwapColumns(SwapRows(t.cells, index, row), index, col),
                   if thrown then t.perm else SwapEntries(t.perm, index, col));
    }

    /** The pass of `gjElimination` for pivot column `i`: every other row,
        constant included, loses its multiplier times the pivot row. */
    method EliminateColumn(i: nat, ghost t: Tableau)
      requires Valid() && Holds(t) && i < numOfEquations && i < numOfVariables
      modifies matrix
      ensures Valid() && Holds(Tableau(EliminatePass(t.cells, numOfVariables, i), t.perm))
    {
      ghost var h := EliminatePass(t.cells, numOfVariables, i);
      EliminatePassRows(t.cells, numOfVariables, i);
      for j := 0 to numOfEquations
        invariant forall a, b :: 0 <= a < numOfEquations && 0 <= b < numOfColumns ==>
                    matrix[a, b] == (if a < j then h[a][b] else t.cells[a][b])
      {
        if i != j {
          var p := Divides(matrix[j, i], matrix[i, i]);
          assert p == Multiplier(t.cells, i, j);
          for z := 0 to numOfColumns
            invariant forall a, b :: 0 <= a < numOfEquations && 0 <= b < numOfColumns ==>
                        matrix[a, b] == (if a < j || (a == j && b < z) then h[a][b] else t.cells[a][b])
          {
            matrix[j, z] := Minus(matrix[j, z], Times(matrix[i, z], p));
          }
        }
      }
    }

    /** `checkSolution`: the row scan, then the verdict; the new verdict is the
        one `Classify` describes, and the matrix is left as it was. */
    method CheckSolution(ghost t: Tableau)
      requires Valid() && Holds(t) && Shaped(t, numOfEquations, numOfVariables)
      modifies this, solution
      ensures Valid()
      ensures CurrentVerdict() == Classify(old(CurrentVerdict()), t, numOfEquations, numOfVariables, render)
    {
      ghost var v0 := CurrentVerdict();
      var count := 0;
      for i := 0 to numOfEquations
        invariant count <= i
        invariant CurrentVerdict() == v0
        invariant ScanRows(t.cells, numOfVariables, i, count) == ScanRows(t.cells, numOfVariables, 0, 0)
      {
        var zeroRow := false;
        ghost var nonZero := 0;
        for j := 0 to numOfVariables
          invariant !zeroRow && forall b :: 0 <= b < j ==> IsZero(t.cells[i][b])
        {
          if !IsZero(matrix[i, j]) {
            zeroRow := true;
            nonZero := j;
            break;
          }
        }
        assert zeroRow ==> nonZero < numOfVariables && !IsZero(t.cells[i][nonZero]);
        assert zeroRow <==> Significant(t.cells[i], numOfVariables);
        if !zeroRow && !IsZero(matrix[i, numOfColumns - 1]) {
          statusSolve := NoSolution;
          result := [Some("No solutions")];
          break;
        } else if zeroRow {
          count := count + 1;
        }
      }
      if statusSolve != NoSolution {
        if count == numOfVariables {
          RecordSolution(t);
        } else if count < numOfVariables {
          statusSolve := InfinitelyMany;
          result := [Some("Infinitely many solutions")];
        }
      }
    }

    /** The unique solution of `checkSolution`: each column's value, then the
        result lines in the order of the record of column exchanges. */
    method RecordSolution(ghost t: Tableau)
      requires Valid() && Holds(t) && Shaped(t, numOfEquations, numOfVariables)
      requires numOfVariables <= numOfEquations && statusSolve != NoSolution
      modifies this, solution
      ensures Valid() && statusSolve == OneSolution
      ensures result == SolutionLines(t, numOfEquations, numOfVariables, |old(result)|, render)
      ensures solution[..] == seq(numOfVariables, j requires 0 <= j < numOfVariables =>
                                    Some(ColumnValue(t, numOfEquations, numOfVariables, j)))
    {
      statusSolve := OneSolution;
      for j := 0 to numOfVariables
        invariant statusSolve == OneSolution && result == old(result)
        invariant forall k :: 0 <= k < j ==> solution[k] == Some(ColumnValue(t, numOfEquations, numOfVariables, k))
      {
        solution[j] := Some(Divides(matrix[j, numOfVariables], matrix[j, j]));
      }
      ghost var values := solution[..];
      for z := 0 to |result|
        invariant statusSolve == OneSolution && solution[..] == values && |result| == |old(result)|
        invariant forall k :: 0 <= k < z ==> result[k] == Some(ToText(ColumnValue(t, numOfEquations, numOfVariables, t.perm[k]), render))
      {
        result := result[z := Some(ToText(solution[columnChanges[z]].value, render))];
      }
    }

    /** `gjElimination`: each pivot column in turn, then the classification;
        an exception from the pivot search is reported in `thrown` and skips
        the classification.  The new state is the one `Solve` describes. */
    method GjElimination(ghost t: Tableau) returns (thrown: bool)
      requires Valid() && Holds(t) && Shaped(t, numOfEquations, numOfVariables)
      modifies this, matrix, columnChanges, solution
      ensures Valid()
      ensures var s := Solve(t, old(CurrentVerdict()), numOfEquations, numOfVariables, render);
              (thrown <==> s.Aborted?) && Holds(s.t) &&
              CurrentVerdict() == (if thrown then old(CurrentVerdict()) else s.v)
    {
      ghost var cur := t;
      thrown := false;
      for i := 0 to numOfVariables
        invariant Valid() && Holds(cur) && Shaped(cur, numOfEquations, numOfVariables)
        invariant CurrentVerdict() == old(CurrentVerdict())
        invariant Reduce(cur, numOfEquations, numOfVariables, i) == Reduce(t, numOfEquations, numOfVariables, 0)
      {
        var ended;
        ended, thrown, cur := PivotColumn(i, cur);
        if thrown {
          return;
        }
        if ended {
          break;
        }
      }
      CheckSolution(cur);
    }

    /** The turn of the loop of `gjElimination` for pivot column `i`, as
        `ReduceColumn` describes it: a zero pivot calls `findPivotElement`,
        then the pass runs unless the search failed. */
    method PivotColumn(i: nat, ghost t: Tableau) returns (ended: bool, thrown: bool, ghost u: Tableau)
      requires Valid() && Holds(t) && Shaped(t, numOfEquations, numOfVariables) && i < numOfVariables
      modifies matrix, columnChanges
      ensures Valid() && Holds(u)
      ensures var s := ReduceColumn(t, numOfEquations, numOfVariables, i);
              (ended <==> s.Ended?) &&
              (ended ==> u == s.r.t && (thrown <==> s.r.Failed?)) &&
              (!ended ==> !thrown && u == s.t)
    {
      ended, thrown, u := false, false, t;
      if i < numOfEquations {
        if IsZero(matrix[i, i]) {
          var found;
          found, thrown := FindPivotElement(i, t);
          u := FindPivot(t, numOfEquations, numOfVariables, i).t;
          if thrown || !found {
            return true, thrown, u;
          }
        }
        EliminateColumn(i, u);
        u := Tableau(EliminatePass(u.cells, numOfVariables, i), u.perm);
      }
    }
  }
}
