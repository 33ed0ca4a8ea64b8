/** The Gauss-Jordan reduction (`gjElimination` before its final
    classification), as functions of the tableau. */
module Elimination {
  import opened ComplexNumbers
  import opened Grids
  import opened Pivoting

  /** The loop over pivot columns ends normally, stops early when the pivot
      search gives up, or stops with the search's exception. */
  datatype Reduction = Completed(t: Tableau) | Stopped(t: Tableau) | Failed(t: Tableau)

  /** `row` less `p` times `pivotRow`, entry by entry, constant included. */
  function Subtract(row: seq<Complex>, pivotRow: seq<Complex>, p: Complex): (r: seq<Complex>)
    requires |row| == |pivotRow|
    ensures |r| == |row|
  {
    seq(|row|, z requires 0 <= z < |row| => Minus(row[z], Times(pivotRow[z], p)))
  }

  /** The factor that clears row `j` in pivot column `i`: its entry there
      divided by the pivot. */
  function Multiplier(g: seq<seq<Complex>>, i: nat, j: nat): Complex
    requires i < |g| && j < |g| && i < |g[i]| && i < |g[j]|
  {
    Divides(g[j][i], g[i][i])
  }

  /** Row `j` after the pass for pivot `i`: the pivot row itself, and any
      other row less its multiplier times the pivot row. */
  function PassRow(g: seq<seq<Complex>>, nVar: nat, i: nat, j: nat): (r: seq<Complex>)
    requires IsGrid(g, |g|, nVar + 1) && i < |g| && i < nVar && j < |g|
    ensures |r| == nVar + 1
  {
    if j == i then g[j] else Subtract(g[j], g[i], Multiplier(g, i, j))
  }

  /** The rows of the pass from row `j` on, built one row at a time. */
  function EliminateFrom(g: seq<seq<Complex>>, nVar: nat, i: nat, j: nat): (r: seq<seq<Complex>>)
    requires IsGrid(g, |g|, nVar + 1) && i < |g| && i < nVar && j <= |g|
    ensures IsGrid(r, |g| - j, nVar + 1)
    decreases |g| - j
  {
    if j == |g| then [] else [PassRow(g, nVar, i, j)] + EliminateFrom(g, nVar, i, j + 1)
  }

  /** Row `k` of the rows from `j` on is row `j + k` of the pass. */
  lemma {:induction false} EliminateFromRow(g: seq<seq<Complex>>, nVar: nat, i: nat, j: nat, k: nat)
    requires IsGrid(g, |g|, nVar + 1) && i < |g| && i < nVar && j + k < |g|
    ensures EliminateFrom(g, nVar, i, j)[k] == PassRow(g, nVar, i, j + k)
    decreases k
  {
    if k > 0 {
      EliminateFromRow(g, nVar, i, j + 1, k - 1);
    }
  }

  /** One pass of the elimination for pivot `i`: every other row loses its
      multiplier times the pivot row. */
  function EliminatePass(g: seq<seq<Complex>>, nVar: nat, i: nat): (r: seq<seq<Complex>>)
    requires IsGrid(g, |g|, nVar + 1) && i < |g| && i < nVar
    ensures IsGrid(r, |g|, nVar + 1)
    ensures r[i] == g[i]
  {
    EliminateFromRow(g, nVar, i, 0, i);
    EliminateFrom(g, nVar, i, 0)
  }

  /** Each row of the pass, as `PassRow` gives it. */
  lemma EliminatePassRows(g: seq<seq<Complex>>, nVar: nat, i: nat)
    requires IsGrid(g, |g|, nVar + 1) && i < |g| && i < nVar
    ensures forall j :: 0 <= j < |g| ==> EliminatePass(g, nVar, i)[j] == PassRow(g, nVar, i, j)
  {
    forall j | 0 <= j < |g|
      ensures EliminatePass(g, nVar, i)[j] == PassRow(g, nVar, i, j)
    {
      EliminateFromRow(g, nVar, i, 0, j);
    }
  }

  /** What the turn of the loop for one pivot column leads to: the next
      column with the tableau it leaves, or the end of the loop. */
  datatype Pass = Passed(t: Tableau) | Ended(r: Reduction)

  /** The turn of `gjElimination` for pivot column `i`: a column with no
      matching equation is skipped; a zero pivot calls the pivot search, whose
      exception or failure ends the loop; then the pass for that column
      runs. */
  function ReduceColumn(t: Tableau, nEq: nat, nVar: nat, i: nat): (s: Pass)
    requires Shaped(t, nEq, nVar) && i < nVar
    ensures s.Passed? ==> Shaped(s.t, nEq, nVar)
    ensures s.Ended? ==> s.r.Failed? || s.r == Stopped(t)
    ensures s.Ended? && s.r.Failed? ==> nVar < nEq
  {
    if i >= nEq then Passed(t)
    else if IsZero(t.cells[i][i]) then
      match FindPivot(t, nEq, nVar, i)
      case Thrown(u) => Ended(Failed(u))
      case Done(found, u) =>
        if !found then Ended(Stopped(t))
        else Passed(Tableau(EliminatePass(u.cells, nVar, i), u.perm))
    else Passed(Tableau(EliminatePass(t.cells, nVar, i), t.perm))
  }

  /** The loop of `gjElimination` from pivot column `i` on. */
  function Reduce(t: Tableau, nEq: nat, nVar: nat, i: nat): (o: Reduction)
    requires Shaped(t, nEq, nVar) && i <= nVar
    ensures Shaped(o.t, nEq, nVar) || o.Failed?
    ensures o.Failed? ==> nVar < nEq
    decreases nVar - i
  {
    if i == nVar then Completed(t)
    else
      match ReduceColumn(t, nEq, nVar, i)
      case Ended(o) => o
      case Passed(u) => Reduce(u, nEq, nVar, i + 1)
  }

  /** Columns past the last equation are skipped: from such a column on, the
      loop changes nothing. */
  lemma {:induction false} ReduceSkipsExcessColumns(t: Tableau, nEq: nat, nVar: nat, i: nat)
    requires Shaped(t, nEq, nVar) && nEq <= i <= nVar
    ensures Reduce(t, nEq, nVar, i) == Completed(t)
    decreases nVar - i
  {
    if i < nVar {
      ReduceSkipsExcessColumns(t, nEq, nVar, i + 1);
    }
  }

  /** With a finite non-zero pivot, the pass clears the pivot column in every
      other row whose entry there is finite. */
  lemma EliminateClearsColumn(g: seq<seq<Complex>>, nVar: nat, i: nat, j: nat)
    requires IsGrid(g, |g|, nVar + 1) && i < |g| && i < nVar && j < |g| && j != i
    requires g[i][i].Complex? && !IsZero(g[i][i]) && g[j][i].Complex?
    ensures IsZero(EliminatePass(g, nVar, i)[j][i])
  {
    EliminatePassRows(g, nVar, i);
    var p := Multiplier(g, i, j);
    assert Times(p, g[i][i]) == g[j][i];
    TimesCommutative(p, g[i][i]);
  }

  /** With a finite multiplier, a column in which the pivot row is zero is left
      as it was in every row where it is finite. */
  lemma EliminateKeepsClearedColumn(g: seq<seq<Complex>>, nVar: nat, i: nat, j: nat, k: nat)
    requires IsGrid(g, |g|, nVar + 1) && i < |g| && i < nVar && j < |g| && k <= nVar
    requires Multiplier(g, i, j).Complex? && IsZero(g[i][k]) && g[j][k].Complex?
    ensures EliminatePass(g, nVar, i)[j][k] == g[j][k]
  {
    EliminatePassRows(g, nVar, i);
    var p := Multiplier(g, i, j);
    assert Mul(0.0, p.re) == 0.0 && Mul(0.0, p.im) == 0.0;
  }
}
