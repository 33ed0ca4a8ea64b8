/** The classification of a reduced system (`checkSolution`), as functions of
    the tableau and of the verdict already recorded. */
module Classification {
  import opened ComplexNumbers
  import opened Options
  import opened ComplexText
  import opened Grids

  /** `statusSolve`: -1 before any classification, 0 for no solution, 1 for
      one solution, 2 for infinitely many. */
  datatype Status = Unsolved | NoSolution | OneSolution | InfinitelyMany
  {
    function Code(): int
    {
      match this
      case Unsolved => -1
      case NoSolution => 0
      case OneSolution => 1
      case InfinitelyMany => 2
    }
  }

  /** What the classification records: the status, the lines of the result
      (`None` for a null string) and the solution entries (`None` for a null
      value). */
  datatype Verdict = Verdict(status: Status, result: seq<Option<string>>, solution: seq<Option<Complex>>)

  /** A row with some non-zero coefficient (a NaN entry counts as non-zero). */
  predicate Significant(row: seq<Complex>, nVar: nat)
    requires nVar <= |row|
  {
    exists z :: 0 <= z < nVar && !IsZero(row[z])
  }

  /** A row `0 = b` with `b` not zero. */
  predicate Inconsistent(row: seq<Complex>, nVar: nat)
    requires nVar < |row|
  {
    !Significant(row, nVar) && !IsZero(row[nVar])
  }

  /** The indices at or after `i` of significant rows. */
  ghost function SignificantFrom(g: seq<seq<Complex>>, nVar: nat, i: nat): set<nat>
    requires IsGrid(g, |g|, nVar + 1)
  {
    set k: nat | i <= k < |g| && Significant(g[k], nVar)
  }

  /** How the row scan ends: at an inconsistent row, or with a count. */
  datatype Scan = Contradiction | Count(n: nat)

  lemma SignificantFromStep(g: seq<seq<Complex>>, nVar: nat, i: nat)
    requires IsGrid(g, |g|, nVar + 1) && i < |g|
    ensures SignificantFrom(g, nVar, i) ==
              SignificantFrom(g, nVar, i + 1) + (if Significant(g[i], nVar) then {i} else {})
  {
  }

  /** At most one significant row per row at or after `i`. */
  lemma {:induction false} SignificantFromBound(g: seq<seq<Complex>>, nVar: nat, i: nat)
    requires IsGrid(g, |g|, nVar + 1) && i <= |g|
    ensures |SignificantFrom(g, nVar, i)| <= |g| - i
    decreases |g| - i
  {
    if i < |g| {
      SignificantFromStep(g, nVar, i);
      SignificantFromBound(g, nVar, i + 1);
    } else {
      assert SignificantFrom(g, nVar, i) == {};
    }
  }

  /** The row scan from row `i` with `count` significant rows seen: it stops
      at the first inconsistent row, and otherwise counts the significant
      rows. */
  function ScanRows(g: seq<seq<Complex>>, nVar: nat, i: nat, count: nat): (s: Scan)
    requires IsGrid(g, |g|, nVar + 1) && i <= |g|
    ensures s.Contradiction? <==> exists k :: i <= k < |g| && Inconsistent(g[k], nVar)
    ensures s.Count? ==> s.n == count + |SignificantFrom(g, nVar, i)| && s.n <= count + |g| - i
    decreases |g| - i
  {
    if i == |g| then
      assert SignificantFrom(g, nVar, i) == {};
      Count(count)
    else if Inconsistent(g[i], nVar) then Contradiction
    else
      SignificantFromStep(g, nVar, i);
      ScanRows(g, nVar, i + 1, if Significant(g[i], nVar) then count + 1 else count)
  }

  /** The value computed for column `j`: the constant of row `j` divided by
      its diagonal entry. */
  function ColumnValue(t: Tableau, nEq: nat, nVar: nat, j: nat): Complex
    requires Shaped(t, nEq, nVar) && j < nVar && j < nEq
  {
    Divides(t.cells[j][nVar], t.cells[j][j])
  }

  /** The result lines for a unique solution: line `z` is the text of the
      value of column `perm[z]`. */
  function SolutionLines(t: Tableau, nEq: nat, nVar: nat, lines: nat, render: real -> string): (r: seq<Option<string>>)
    requires Shaped(t, nEq, nVar) && nVar <= nEq && lines <= nVar
    ensures |r| == lines
  {
    seq(lines, z requires 0 <= z < lines => Some(ToText(ColumnValue(t, nEq, nVar, t.perm[z]), render)))
  }

  /** The recorded verdict is well formed: one solution entry per unknown, and
      unless there is no solution, at most one result line per unknown. */
  predicate Recorded(v: Verdict, nVar: nat)
  {
    |v.solution| == nVar && (v.status != NoSolution ==> |v.result| <= nVar)
  }

  /** `checkSolution`: an inconsistent row means no solution; otherwise,
      unless no solution was already recorded, as many significant rows as
      unknowns means one solution, fewer means infinitely many, and more
      leaves the verdict as it was. */
  function Classify(v: Verdict, t: Tableau, nEq: nat, nVar: nat, render: real -> string): (w: Verdict)
    requires Shaped(t, nEq, nVar) && Recorded(v, nVar)
    ensures Recorded(w, nVar)
    ensures w.status == NoSolution <==>
              v.status == NoSolution || exists k :: 0 <= k < nEq && Inconsistent(t.cells[k], nVar)
    ensures w.status == OneSolution && v.status != OneSolution ==>
              |SignificantFrom(t.cells, nVar, 0)| == nVar
    ensures w.status == InfinitelyMany && v.status != InfinitelyMany ==>
              |SignificantFrom(t.cells, nVar, 0)| < nVar
    ensures w.status == NoSolution && v.status != NoSolution ==> w.result == [Some("No solutions")]
    ensures w.status == InfinitelyMany && v.status != InfinitelyMany ==> w.result == [Some("Infinitely many solutions")]
    ensures (SignificantFromBound(t.cells, nVar, 0);
             ((forall k :: 0 <= k < nEq ==> !Inconsistent(t.cells[k], nVar)) && v.status != NoSolution &&
              |SignificantFrom(t.cells, nVar, 0)| == nVar) ==>
               w.status == OneSolution && w.result == SolutionLines(t, nEq, nVar, |v.result|, render) &&
               w.solution == seq(nVar, j requires 0 <= j < nVar => Some(ColumnValue(t, nEq, nVar, j))))
    ensures ((forall k :: 0 <= k < nEq ==> !Inconsistent(t.cells[k], nVar)) && v.status != NoSolution &&
             |SignificantFrom(t.cells, nVar, 0)| < nVar) ==>
              w.status == InfinitelyMany && w.result == [Some("Infinitely many solutions")]
    ensures ((forall k :: 0 <= k < nEq ==> !Inconsistent(t.cells[k], nVar)) &&
             |SignificantFrom(t.cells, nVar, 0)| > nVar) ==> w == v
  {
    SignificantFromBound(t.cells, nVar, 0);
    match ScanRows(t.cells, nVar, 0, 0)
    case Contradiction => Verdict(NoSolution, [Some("No solutions")], v.solution)
    case Count(n) =>
      if v.status == NoSolution then v
      else if n == nVar then
        Verdict(OneSolution, SolutionLines(t, nEq, nVar, |v.result|, render),
                seq(nVar, j requires 0 <= j < nVar => Some(ColumnValue(t, nEq, nVar, j))))
      else if n < nVar then Verdict(InfinitelyMany, [Some("Infinitely many solutions")], v.solution)
      else v
  }

  /** Classifying a second time changes nothing. */
  lemma ClassifyIdempotent(v: Verdict, t: Tableau, nEq: nat, nVar: nat, render: real -> string)
    requires Shaped(t, nEq, nVar) && Recorded(v, nVar)
    ensures Classify(Classify(v, t, nEq, nVar, render), t, nEq, nVar, render) == Classify(v, t, nEq, nVar, render)
  {
  }

  /** A unique solution gives each column the quotient of its row's constant
      by its diagonal entry; that value satisfies the row's diagonal equation
      whenever both are finite and the diagonal entry is not zero, and is NaN
      when the diagonal entry is zero. */
  lemma OneSolutionValues(v: Verdict, t: Tableau, nEq: nat, nVar: nat, render: real -> string, j: nat)
    requires Shaped(t, nEq, nVar) && Recorded(v, nVar)
    requires v.status != NoSolution
    requires (forall k :: 0 <= k < nEq ==> !Inconsistent(t.cells[k], nVar)) && |SignificantFrom(t.cells, nVar, 0)| == nVar
    requires j < nVar
    ensures var w := Classify(v, t, nEq, nVar, render);
            w.status == OneSolution && j < nEq && w.solution[j].Some? &&
            var x := w.solution[j].value;
            (t.cells[j][j].Complex? && !IsZero(t.cells[j][j]) && t.cells[j][nVar].Complex? ==>
               Times(x, t.cells[j][j]) == t.cells[j][nVar]) &&
            (IsZero(t.cells[j][j]) ==> x.NaN?)
  {
    var s := ScanRows(t.cells, nVar, 0, 0);
    assert s.Count? && s.n == nVar;
  }

  /** When the record of column exchanges undoes itself (as after a single
      exchange), line `perm[w]` of a unique solution is the text of the value
      of column `w`: each original unknown is reported with the value computed
      for the column it was moved to. */
  lemma SolutionLinesFollowExchanges(t: Tableau, nEq: nat, nVar: nat, render: real -> string, w: nat)
    requires Shaped(t, nEq, nVar) && nVar <= nEq && w < nVar
    requires forall z :: 0 <= z < nVar ==> t.perm[t.perm[z]] == z
    ensures SolutionLines(t, nEq, nVar, nVar, render)[t.perm[w]] == Some(ToText(ColumnValue(t, nEq, nVar, w), render))
  {
  }
}
