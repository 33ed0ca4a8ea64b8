/** The search for a replacement pivot (`findPivotElement`), as functions of
    the tableau.

    The search runs in three stages for a zero diagonal entry at `index`: down
    the pivot column, then along the pivot row, then through the lower-right
    corner.  Its result says whether anything was exchanged; it does not
    promise a non-zero pivot (see `CornerKeepsZeroPivot`).
 */
module Pivoting {
  import opened ComplexNumbers
  import opened Grids

  /** The search either ends, reporting whether it exchanged anything, or
      stops with an index-out-of-bounds exception, leaving the tableau as it
      was at that point. */
  datatype Outcome = Done(found: bool, t: Tableau) | Thrown(t: Tableau)

  /** The first offset `c' >= c` below the pivot whose entry in the pivot
      column is non-zero, or the offset that reaches past the last row. */
  function ScanDown(g: seq<seq<Complex>>, index: nat, c: nat): (c': nat)
    requires index + c <= |g|
    requires forall k :: 0 <= k < |g| ==> index < |g[k]|
    ensures c <= c' && index + c' <= |g|
    ensures forall j :: index + c <= j < index + c' ==> IsZero(g[j][index])
    ensures index + c' < |g| ==> !IsZero(g[index + c'][index])
    decreases |g| - index - c
  {
    if index + c < |g| && IsZero(g[index + c][index]) then ScanDown(g, index, c + 1) else c
  }

  /** The first offset `c' >= c` right of the pivot whose entry in the pivot
      row is non-zero, or the offset that reaches the constants. */
  function ScanRight(row: seq<Complex>, nVar: nat, index: nat, c: nat): (c': nat)
    requires index + c <= nVar <= |row|
    ensures c <= c' && index + c' <= nVar
    ensures forall z :: index + c <= z < index + c' ==> IsZero(row[z])
    ensures index + c' < nVar ==> !IsZero(row[index + c'])
    decreases nVar - index - c
  {
    if index + c < nVar && IsZero(row[index + c]) then ScanRight(row, nVar, index, c + 1) else c
  }

  /** Where the corner stage stands: row `index+r`, column `index+c`, inside
      the tableau while a column is left to inspect. */
  predicate CornerState(t: Tableau, nEq: nat, nVar: nat, index: nat, c: nat, r: nat)
  {
    Shaped(t, nEq, nVar) && index < nVar &&
    1 <= c && 1 <= r && index + c <= nEq && (index + c < nEq ==> index + r < nEq)
  }

  /** What one turn of the corner loop leads to: the end of the search, or
      the next position with the tableau and flag it leaves. */
  datatype Turn = Halt(o: Outcome) | Continue(t: Tableau, c: nat, r: nat, found: bool)

  /** One turn of the corner stage.  Past the last column to inspect the
      search ends; reading a column past the constants throws; a non-zero
      entry ends the search.  At a zero entry `r` advances; when it reaches
      the last row the next column is taken from `r = 1`, and otherwise rows
      `index` and `index+r` and columns `index` and `index+c` are exchanged,
      which throws when the exchange is recorded for the column of
      constants. */
  function CornerTurn(t: Tableau, nEq: nat, nVar: nat, index: nat, c: nat, r: nat, found: bool): (s: Turn)
    requires CornerState(t, nEq, nVar, index, c, r)
    ensures s.Continue? ==> index + c < nEq && CornerState(s.t, nEq, nVar, index, s.c, s.r)
    ensures s.Continue? ==> s.c > c || (s.c == c && s.r > r)
    ensures s.Continue? && !s.found ==> !found && s.t == t
    ensures s.Halt? && s.o.Done? ==> s.o == Done(found, t)
    ensures s.Halt? && s.o.Thrown? ==> nVar < nEq
  {
    if index + c >= nEq then Halt(Done(found, t))
    else if index + c > nVar then Halt(Thrown(t))
    else if !IsZero(t.cells[index + r][index + c]) then Halt(Done(found, t))
    else if index + r + 1 == nEq then Continue(t, c + 1, 1, found)
    else
      var rows := SwapRows(t.cells, index, index + r + 1);
      SwapRowsKeepsGrid(t.cells, nEq, nVar + 1, index, index + r + 1);
      var cells := SwapColumns(rows, index, index + c);
      if index + c >= nVar then Halt(Thrown(Tableau(cells, t.perm)))
      else
        SwapColumnsKeepsGrid(rows, nEq, nVar + 1, index, index + c);
        SwapEntriesKeepsPermutation(t.perm, nVar, index, index + c);
        Continue(Tableau(cells, SwapEntries(t.perm, index, index + c)), c, r + 1, true)
  }

  /** The corner stage: turns until the search ends. */
  function Corner(t: Tableau, nEq: nat, nVar: nat, index: nat, c: nat, r: nat, found: bool): (o: Outcome)
    requires CornerState(t, nEq, nVar, index, c, r)
    ensures Shaped(o.t, nEq, nVar) || o.Thrown?
    ensures o.Thrown? ==> nVar < nEq
    ensures o.Done? && !o.found ==> !found && o.t == t
    decreases nEq - index - c, nEq - index - r
  {
    match CornerTurn(t, nEq, nVar, index, c, r, found)
    case Halt(o) => o
    case Continue(u, c', r', found') => Corner(u, nEq, nVar, index, c', r', found')
  }

  /** `findPivotElement(index)`: a non-zero entry below the pivot brings its
      row up; failing that, the search goes on along the pivot row. */
  function FindPivot(t: Tableau, nEq: nat, nVar: nat, index: nat): (o: Outcome)
    requires Shaped(t, nEq, nVar) && index < nEq && index < nVar
    ensures Shaped(o.t, nEq, nVar) || o.Thrown?
    ensures o.Thrown? ==> nVar < nEq
    ensures o.Done? && !o.found ==> o.t == t
  {
    var c := ScanDown(t.cells, index, 1);
    if index + c < nEq then
      SwapRowsKeepsGrid(t.cells, nEq, nVar + 1, index, index + c);
      Done(true, Tableau(SwapRows(t.cells, index, index + c), t.perm))
    else
      SearchRight(t, nEq, nVar, index)
  }

  /** Stages two and three: a non-zero entry right of the pivot brings its
      column over (and the exchange is recorded); failing that, the corner
      stage runs. */
  function SearchRight(t: Tableau, nEq: nat, nVar: nat, index: nat): (o: Outcome)
    requires Shaped(t, nEq, nVar) && index < nEq && index < nVar
    ensures Shaped(o.t, nEq, nVar) || o.Thrown?
    ensures o.Thrown? ==> nVar < nEq
    ensures o.Done? && !o.found ==> o.t == t
  {
    var c := ScanRight(t.cells[index], nVar, index, 1);
    if index + c < nVar then
      SwapColumnsKeepsSystem(t, nEq, nVar, index, index + c);
      Done(true, Tableau(SwapColumns(t.cells, index, index + c), SwapEntries(t.perm, index, index + c)))
    else
      Corner(t, nEq, nVar, index, 1, 1, false)
  }

  /** Stage one: when some entry below the pivot is non-zero, the first such
      row is exchanged with the pivot row, which brings a non-zero entry to
      the diagonal and keeps the columns in place. */
  lemma FindPivotBelow(t: Tableau, nEq: nat, nVar: nat, index: nat, k: nat)
    requires Shaped(t, nEq, nVar) && index < nEq && index < nVar
    requires index < k < nEq && !IsZero(t.cells[k][index])
    ensures var f := index + ScanDown(t.cells, index, 1);
            index < f <= k && !IsZero(t.cells[f][index]) &&
            (forall j :: index < j < f ==> IsZero(t.cells[j][index])) &&
            FindPivot(t, nEq, nVar, index) == Done(true, Tableau(SwapRows(t.cells, index, f), t.perm))
    ensures var o := FindPivot(t, nEq, nVar, index);
            o.Done? && o.found && !IsZero(o.t.cells[index][index]) && o.t.perm == t.perm
  {
    var c := ScanDown(t.cells, index, 1);
    assert index + c < nEq;
  }

  /** Stage two: when the pivot column is zero below the pivot but some entry
      right of the pivot in its row is non-zero, the first such column is
      exchanged with the pivot column and the exchange is recorded, which
      brings a non-zero entry to the diagonal and keeps the system. */
  lemma FindPivotRight(t: Tableau, nEq: nat, nVar: nat, index: nat, k: nat)
    requires Shaped(t, nEq, nVar) && index < nEq && index < nVar
    requires forall j :: index < j < nEq ==> IsZero(t.cells[j][index])
    requires index < k < nVar && !IsZero(t.cells[index][k])
    ensures var f := index + ScanRight(t.cells[index], nVar, index, 1);
            index < f <= k && !IsZero(t.cells[index][f]) &&
            (forall z :: index < z < f ==> IsZero(t.cells[index][z])) &&
            FindPivot(t, nEq, nVar, index) ==
              Done(true, Tableau(SwapColumns(t.cells, index, f), SwapEntries(t.perm, index, f)))
    ensures var o := FindPivot(t, nEq, nVar, index);
            o.Done? && o.found && !IsZero(o.t.cells[index][index]) &&
            Shaped(o.t, nEq, nVar) && SameSystem(t, o.t, nEq, nVar)
  {
    var c := ScanDown(t.cells, index, 1);
    assert index + c == nEq;
    var c2 := ScanRight(t.cells[index], nVar, index, 1);
    assert index + c2 < nVar;
    SwapColumnsKeepsSystem(t, nEq, nVar, index, index + c2);
  }

  /** When the pivot column below the pivot and the pivot row right of it are
      zero, the corner stage runs; if the first entry it inspects, on the
      diagonal just below the pivot, is non-zero, it exchanges nothing and
      reports failure. */
  lemma FindPivotGivesUpOnDiagonal(t: Tableau, nEq: nat, nVar: nat, index: nat)
    requires Shaped(t, nEq, nVar) && index + 1 < nEq && index + 1 < nVar
    requires forall j :: index < j < nEq ==> IsZero(t.cells[j][index])
    requires forall z :: index < z < nVar ==> IsZero(t.cells[index][z])
    requires !IsZero(t.cells[index + 1][index + 1])
    ensures FindPivot(t, nEq, nVar, index) == Done(false, t)
  {
    var c := ScanDown(t.cells, index, 1);
    assert index + c == nEq;
    var c2 := ScanRight(t.cells[index], nVar, index, 1);
    assert index + c2 == nVar;
  }

  /** Three equations in three unknowns whose every entry is zero. */
  function ZeroSystem(): (t: Tableau)
    ensures Shaped(t, 3, 3)
  {
    Tableau(seq(3, i => seq(4, j => Zero)), Identity(3))
  }

  /** Exchanges leave a grid whose rows are all equal to one row unchanged. */
  lemma UniformGridSwaps(g: seq<seq<Complex>>, row: seq<Complex>, a: nat, b: nat, c: nat, d: nat)
    requires forall i :: 0 <= i < |g| ==> g[i] == row
    requires forall z :: 0 <= z < |row| ==> row[z] == row[0]
    requires a < |g| && b < |g| && c < |row| && d < |row|
    ensures SwapColumns(SwapRows(g, a, b), c, d) == g
  {
    var h := SwapColumns(SwapRows(g, a, b), c, d);
    forall i | 0 <= i < |g|
      ensures h[i] == g[i]
    {
      assert forall z :: 0 <= z < |row| ==> h[i][z] == g[i][z];
    }
  }

  /** On the all-zero system the corner stage exchanges rows and columns and
      reports success, yet every entry, the pivot included, is still zero:
      success does not mean a non-zero pivot. */
  lemma CornerKeepsZeroPivot()
    ensures var o := FindPivot(ZeroSystem(), 3, 3, 0);
            o.Done? && o.found && IsZero(o.t.cells[0][0]) && o.t.cells == ZeroSystem().cells
  {
    var t := ZeroSystem();
    assert ScanDown(t.cells, 0, 1) == 3;
    assert ScanRight(t.cells[0], 3, 0, 1) == 3;
    var row := seq(4, j => Zero);
    UniformGridSwaps(t.cells, row, 0, 2, 0, 1);
    UniformGridSwaps(t.cells, row, 0, 2, 0, 2);
    var g1 := SwapColumns(SwapRows(t.cells, 0, 2), 0, 1);
    var p1 := SwapEntries(t.perm, 0, 1);
    var t1 := Tableau(g1, p1);
    assert Corner(t, 3, 3, 0, 1, 1, false) == Corner(t1, 3, 3, 0, 1, 2, true);
    assert Corner(t1, 3, 3, 0, 1, 2, true) == Corner(t1, 3, 3, 0, 2, 1, true);
    var g2 := SwapColumns(SwapRows(g1, 0, 2), 0, 2);
    var t2 := Tableau(g2, SwapEntries(p1, 0, 2));
    assert Corner(t1, 3, 3, 0, 2, 1, true) == Corner(t2, 3, 3, 0, 2, 2, true);
    assert Corner(t2, 3, 3, 0, 2, 2, true) == Corner(t2, 3, 3, 0, 3, 1, true);
  }
}
