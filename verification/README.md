# Linear equation solver over the complex numbers, modelled in Dafny

The solver reads an augmented matrix of complex numbers: one row per
equation, with the coefficients of the unknowns followed by the constant.
It reduces the matrix by Gauss-Jordan elimination, looking for a non-zero
pivot among the rows below, then the columns to the right, then the
lower-right corner. Column exchanges are recorded in `columnChanges`. It
then classifies the system as having no solution, one solution or
infinitely many. With one solution, it computes each unknown as the
constant of its row divided by the diagonal entry.

The project models the two core classes.

- `Complex` is an immutable value type. It is modelled by the modules
  `ComplexNumbers` (complex.dfy) and `ComplexText` (complex_text.dfy), as
  pure functions over exact reals.
  - A `NaN` constructor stands for the value the source reaches when it
    divides by an exact zero.
  - The float-to-text conversion and `Float.parseFloat` are function
    parameters (`render`, `parseFloat`).
- `Matrix` is a stateful engine. It is modelled by the class
  `Solver.Matrix` (matrix.dfy).
  - Its fields are a two-dimensional `array2<Complex>`, the `columnChanges`
    array, the `solution` array, the status and the result lines.
  - Each method updates them in place with the loops of the source.
  - Each method is proved against a specification function over a value
    `Tableau(cells, perm)`, which the arrays hold (`Matrix.Holds`). The
    functions are: `Grids.SwapRows`, `Grids.SwapColumns`,
    `Pivoting.FindPivot`, `Pivoting.CornerTurn`,
    `Elimination.ReduceColumn`, `Elimination.Reduce`,
    `Classification.Classify` and `Solver.Solve`.
- The properties of the whole run are proved about those functions.
  - The pivot search, the row and column exchanges and each elimination pass
    keep the set of solutions of the system (`LinearSystems`). A solution is
    stated in terms of the original unknowns, through the record of column
    exchanges.
  - The classification is idempotent.
  - A unique solution satisfies each row's diagonal equation.
  - A run that newly reports one solution, with finite values, has solved
    the original system. Its values, placed back through the record of
    column exchanges, satisfy every original equation, and no other finite
    values do (`ReducedForm`, `Solver.OneSolutionSolvesSystem`,
    `Solver.OneSolutionIsUnique`).

Four behaviours of the code are kept as written.

- **The corner stage.** Stage three of `findPivotElement` does not look for
  a non-zero entry and then exchange it.
  - At a zero entry above the last row, it moves down one row and
    exchanges the pivot row with that row, which it has not yet inspected.
    It also exchanges the pivot column with the inspected column.
  - At a zero entry in the last row, it moves to the first row below the
    pivot in the next column, and exchanges nothing.
  - Once it has exchanged anything it reports success, whether or not the
    pivot is then non-zero.
  - On the all-zero system of three equations in three unknowns, it
    reports success with a zero pivot (`Pivoting.CornerKeepsZeroPivot`).
  - Every value solves that system (`LinearSystems.ZeroSystemSolvedByAll`).
    Yet the division by the zero pivot turns the other rows to NaN. NaN
    rows count as significant, so the system is classified as having one
    solution whose values are all NaN (`Solver.ZeroSystemOneNaNSolution`).
- **The column of constants.** When there are more equations than
  unknowns, the corner stage can read, or record an exchange with, a column
  past the unknowns. Java then throws an index-out-of-bounds exception.
  - The model states when this happens (`Pivoting.Outcome.Thrown`,
    `Solver.Run.Aborted`) and what the matrix then holds.
- **The result lines.** They follow `result[z] = solution[columnChanges[z]]`,
  which uses the record itself rather than its inverse.
  - `Classification.SolutionLinesFollowExchanges` states what this gives
    when the record is its own inverse: line `z` then reports unknown `z`.
  - When the record is a cycle of three, line 0 reports the value of
    column 1, while unknown 0 stands in column 2
    (`ReducedForm.CyclicRecordSolved`, `ReducedForm.CyclicRecordLines`).
- **The status.** It is left unchanged when more rows are significant than
  there are unknowns.

Two more behaviours concern division.

- The reciprocal of zero does not fail: the float division gives NaN
  parts (`ComplexNumbers.Reciprocal`).
- The comment at `Matrix.java:110` calls the pivot non-zero, but the
  division at `Matrix.java:111` can be by zero. This happens after the
  corner stage reports success with a zero pivot.

## Model

| member | source | states |
|---|---|---|
| ComplexNumbers.IsZero | Complex.java:23-25 | the zero test holds exactly when both parts are 0; NaN is never zero |
| ComplexNumbers.Equals | Complex.java:99-104 | equality is exact part-by-part equality with no tolerance, and NaN equals nothing |
| ComplexNumbers.PlusMinusInverse | Complex.java:34-47 | `plus` and `minus` work part by part, and subtracting `b` undoes adding it |
| ComplexNumbers.PlusCommutative | Complex.java:34-39 | addition is commutative |
| ComplexNumbers.PlusStatic | Complex.java:92-96 | the static `plus(a, b)` equals `a.plus(b)`, and its parts differ from `a`'s by `b`'s |
| ComplexNumbers.Plus | Complex.java:34-39 | the sum is NaN exactly when an operand is, and on finite values subtracting `b` from `a + b` gives back `a` |
| ComplexNumbers.Minus | Complex.java:42-47 | the difference is NaN exactly when an operand is, and on finite values adding `b`'s parts back to `a - b`'s gives `a`'s |
| ComplexNumbers.TimesCommutative | Complex.java:50-55 | `(ac-bd, ad+bc)` is commutative |
| ComplexNumbers.TimesAssociative | Complex.java:50-55 | the product is associative |
| ComplexNumbers.TimesDistributes | Complex.java:34-55 | on finite values, the product distributes over the sum and the difference |
| ComplexNumbers.TimesOne | Complex.java:50-55 | `1 + 0i` is neutral for the product |
| ComplexNumbers.Times | Complex.java:50-55 | the product is NaN exactly when an operand is, and `1 + 0i` on the right leaves the other operand unchanged |
| ComplexNumbers.TimesZero | Complex.java:50-55 | a product of finite values with a zero operand is zero |
| ComplexNumbers.Scale | Complex.java:58 | `scale(alpha)` is the product with `alpha + 0i` |
| ComplexNumbers.Conjugate | Complex.java:61 | the conjugate is NaN exactly when the value is; a value plus its conjugate is real, and the value less its conjugate has a zero real part |
| ComplexNumbers.TimesConjugate | Complex.java:61-65 | a value times its conjugate is the real number `re*re + im*im`, the divisor of the reciprocal |
| ComplexNumbers.ConjugateInvolution | Complex.java:61 | `conjugate` negates the imaginary part and undoes itself |
| ComplexNumbers.NormSquaredPositive | Complex.java:65 | the divisor `re*re + im*im` of the reciprocal is positive for a non-zero value |
| ComplexNumbers.Reciprocal | Complex.java:64-67 | the reciprocal is NaN exactly for zero (0/0 parts) or NaN, and otherwise is a right inverse for the product |
| ComplexNumbers.TimesReciprocal | Complex.java:64-67 | a non-zero value times its reciprocal is `1 + 0i` |
| ComplexNumbers.Divides | Complex.java:74-77 | the quotient by zero or NaN is NaN; for finite `a` and finite non-zero `b`, the quotient times `b` is `a` |
| ComplexNumbers.DividesByOne | Complex.java:74-77 | dividing a finite value by `1 + 0i` leaves it unchanged |
| ComplexNumbers.QuotientIsUnique | Complex.java:74-77 | when a finite non-zero `a` times a finite `y` is `b`, `y` is `b / a` |
| ComplexNumbers.NaNAbsorbs | Complex.java:34-77 | NaN absorbs every operation, and is neither zero nor equal to itself |
| ComplexText.RemoveAll | Complex.java:114 | `replaceAll` of one character removes every occurrence, and changes nothing when there is none |
| ComplexText.RemoveAllKeepsOthers | Complex.java:114 | `replaceAll` of one character keeps every other character, as many times as before |
| ComplexText.RemoveAllSingle | Complex.java:114 | on a single character, `replaceAll` removes it exactly when it is the character replaced |
| ComplexText.RemoveAllConcat | Complex.java:114 | removing a character from a concatenation removes it from each part |
| ComplexText.IndexOf | Complex.java:121-123 | the first occurrence of a character, or -1 exactly when there is none |
| ComplexText.LastIndexOf | Complex.java:129-131 | the last occurrence of a character, or -1 exactly when there is none |
| ComplexText.ParseIgnoresSpaces | Complex.java:114 | the parser reads a text the same with or without its spaces |
| ComplexText.ToText | Complex.java:17-22 | a value with a zero imaginary part is written as its rendered real part, and any other finite value is written ending in `i` |
| ComplexText.ParseComplex | Complex.java:112-169 | null is returned only for a text whose spaceless form has a `+` anywhere, or a `-` past its first character (the split branch); so `+3` gives null |
| ComplexText.ParseToken | Complex.java:116-167 | null only when the token has a `+` anywhere or a `-` past its first character; otherwise any value a token ending in `i` yields has a zero real part, and any value another token yields has a zero imaginary part |
| ComplexText.ParseSigned | Complex.java:116-137 | a token on the split branch, its letters removed, yields null exactly when no `-` follows its first character and, if it holds a `+`, its first character is a `+` (so `+3+4` yields null) |
| ComplexText.ParseParts | Complex.java:122-135 | a split token never yields null, and any value it yields is finite |
| ComplexText.ParseImaginary | Complex.java:139-159 | a token ending in `i` never yields null and any value it yields has a zero real part; a bare `i` is `(0, 1)` and `-i` is `(0, -1)` |
| ComplexText.ParseReal | Complex.java:160-166 | a token without `i` never yields null and any value it yields has a zero imaginary part; the empty token is `(0, 0)` |
| ComplexText.ParseSignedSplit | Complex.java:121-136 | a signed token splits at its first `+`, past position 0, or else at its last `-`; the part after a `-` is negated |
| ComplexText.ParseSplit | Complex.java:114-136 | `a + b i` and `a - b i` parse to the values of `a` and `b`, negated after `-`, with an empty `b` read as 1 |
| ComplexText.ParseBareUnit | Complex.java:139-151 | `i` parses as `(0, 1)` |
| ComplexText.ParseNegatedUnit | Complex.java:139-149 | ` - I ` parses as `(0, -1)` |
| ComplexText.ParseEmpty | Complex.java:160-162 | the empty text parses as `(0, 0)` |
| ComplexText.ParseLeadingPlus | Complex.java:116-137 | `+3` falls through both splits and yields null |
| ComplexText.ParseUnitBeforeMinus | Complex.java:116-137 | `i-3` loses its `i`, leaving a leading `-`, and yields null |
| ComplexText.RenderedShape | Complex.java:17-22 | a real that the renderer writes and the parser reads back holds no sign letter except a leading `-`, present exactly for a negative value |
| ComplexText.RoundTripReal | Complex.java:17-18 | a value with a zero imaginary part renders as its real part and, when the parser reads that part back, parses back to itself |
| ComplexText.RoundTripImaginary | Complex.java:17-19 | a pure imaginary value renders as its imaginary part with `i` and, when the parser reads that part back, parses back to itself |
| ComplexText.ImaginaryToken | Complex.java:116-159 | a rendered unsigned number followed by `i` takes the pure imaginary path |
| ComplexText.RoundTripBoth | Complex.java:17-22 | a value with both parts non-zero renders joined by `+` or `-` and, when the parser reads each part back, parses back to itself |
| ComplexText.ParseToTextRoundTrip | Complex.java:17-169 | every finite value parses back from its text, provided the parser reads back the rendering of each of its parts |
| ComplexText.SampleReadsBack | Complex.java:17-22 | a renderer and a parser that read back 0, 1 and -1 exist, and under them `1 - 1i` parses back from its text |
| Grids.Identity | Matrix.java:20-23 | the initial record of column exchanges is the identity permutation |
| Grids.SwapRows | Matrix.java:39-45 | the two rows are exchanged and every other row is unchanged |
| Grids.SwapColumns | Matrix.java:47-52 | the two columns are exchanged in every row and every other entry is unchanged |
| Grids.SwapEntries | Matrix.java:53-55 | the two entries of the record are exchanged and the rest are unchanged |
| Grids.SwapRowsInvolution | Matrix.java:39-45 | exchanging the same rows twice restores the grid |
| Grids.SwapColumnsInvolution | Matrix.java:47-52 | exchanging the same columns twice restores the grid |
| Grids.SwapEntriesKeepsPermutation | Matrix.java:53-55 | the record of column exchanges stays a permutation |
| Grids.PermutationCovers | Matrix.java:53-55 | every unknown's index appears in the record of column exchanges |
| Grids.SwapColumnsKeepsSystem | Matrix.java:47-56 | a recorded column exchange keeps each original unknown's coefficients and the constants |
| Pivoting.ScanDown | Matrix.java:62-64 | the first row below the pivot with a non-zero entry in the pivot column, or the end; every row skipped is zero there |
| Pivoting.ScanRight | Matrix.java:66-69 | the first column right of the pivot with a non-zero entry in the pivot row, or the end; every column skipped is zero there |
| Pivoting.CornerTurn | Matrix.java:72-84 | a turn of the corner loop advances `(c, r)` lexicographically within bounds; it throws only when equations outnumber unknowns; without an exchange nothing changes |
| Pivoting.Corner | Matrix.java:70-84 | the corner stage terminates; when it reports failure it exchanged nothing |
| Pivoting.FindPivot | Matrix.java:58-96 | the search keeps the shape, throws only when equations outnumber unknowns, and leaves the tableau unchanged when it reports failure |
| Pivoting.SearchRight | Matrix.java:65-89 | stages two and three keep the shape, and leave the tableau unchanged when they report failure |
| Pivoting.FindPivotBelow | Matrix.java:62-64 | when a row below the pivot has a non-zero entry in its column, the search exchanges the pivot row with the first such row, reports success and leaves the record unchanged |
| Pivoting.FindPivotRight | Matrix.java:65-69 | failing that, when the pivot row has a non-zero entry right of the pivot, the search exchanges the pivot column with the first such column, records the exchange, keeps the system and reports success |
| Pivoting.FindPivotGivesUpOnDiagonal | Matrix.java:70-72 | with both scans empty and a non-zero entry just below the diagonal, the search reports failure and exchanges nothing |
| Pivoting.CornerKeepsZeroPivot | Matrix.java:70-84 | on the all-zero system the search reports success, yet the pivot and every entry are still zero |
| Elimination.Subtract | Matrix.java:112-115 | the row less `p` times the pivot row keeps its length |
| Elimination.PassRow | Matrix.java:107-115 | a row after the pass keeps the grid's width: the pivot row itself, or the row less its multiplier times the pivot row |
| Elimination.EliminatePass | Matrix.java:107-120 | one pass leaves the pivot row unchanged and keeps the grid's shape |
| Elimination.EliminateFromRow | Matrix.java:107-120 | the rows the pass builds from row `j` on are, in order, the rows `PassRow` gives |
| Elimination.EliminatePassRows | Matrix.java:107-120 | every row of the pass is the pivot row when it is the pivot row, and otherwise the row less its multiplier times the pivot row |
| Elimination.EliminateClearsColumn | Matrix.java:111-115 | with a finite non-zero pivot, the pass makes the pivot-column entry of every other finite row zero |
| Elimination.EliminateKeepsClearedColumn | Matrix.java:111-115 | a column in which the pivot row is zero is left as it was |
| Elimination.ReduceColumn | Matrix.java:100-120 | a column's turn keeps the shape; it ends the loop only on an exception or on a failed search, and then leaves the tableau as it was |
| Elimination.Reduce | Matrix.java:99-121 | the loop keeps the shape and fails only when equations outnumber unknowns |
| Elimination.ReduceSkipsExcessColumns | Matrix.java:100 | columns past the last equation change nothing |
| Classification.ScanRows | Matrix.java:129-144 | the scan stops exactly when some row is inconsistent, and otherwise counts the significant rows |
| Classification.SignificantFromBound | Matrix.java:129-144 | there are at most as many significant rows as rows |
| Classification.SolutionLines | Matrix.java:152-154 | one result line per existing line, line `z` being the text of the value of column `columnChanges[z]` |
| Classification.Classify | Matrix.java:126-161 | the status is "no solution" exactly when it was so or a row is inconsistent; otherwise, as many significant rows as unknowns give one solution with its values and result lines, fewer give infinitely many, and more leave the verdict unchanged |
| Classification.ClassifyIdempotent | Matrix.java:126-161 | classifying a second time changes nothing |
| Classification.OneSolutionValues | Matrix.java:146-151 | a unique solution's value times a finite non-zero diagonal entry is the row's constant, and is NaN when the diagonal is zero |
| Classification.SolutionLinesFollowExchanges | Matrix.java:152-154 | when the record is its own inverse, line `columnChanges[w]` reports the value computed for column `w` |
| LinearSystems.SwapRowsKeepsSolutions | Matrix.java:39-45 | a row exchange keeps the set of solutions |
| LinearSystems.SwapColumnsKeepsSolutions | Matrix.java:47-52 | a column exchange keeps the solutions, with the values exchanged alike |
| LinearSystems.EliminatePassKeepsSolutions | Matrix.java:107-120 | with a finite grid and a non-zero pivot, a pass keeps exactly the same solutions |
| LinearSystems.ExchangeKeepsSolutions | Matrix.java:47-56 | a recorded column exchange keeps the solutions in the original unknowns |
| LinearSystems.RowExchangeKeepsSolutions | Matrix.java:39-45 | a row exchange keeps the solutions in the original unknowns |
| LinearSystems.SwapsKeepFinite | Matrix.java:39-56 | exchanges keep a grid finite, and keep it non-finite |
| LinearSystems.EliminatePassKeepsNaN | Matrix.java:107-120 | a NaN entry survives a pass |
| LinearSystems.EliminatePassFinite | Matrix.java:107-120 | on a finite grid, a pass with a non-zero pivot stays finite, a zero pivot with another row to clear makes NaN, and a single equation is left as it was |
| LinearSystems.FinitePassKeepsSolutions | Matrix.java:107-120 | a pass with a finite result keeps the solutions in the original unknowns |
| LinearSystems.CornerKeepsSolutions | Matrix.java:70-84 | the corner stage, when it ends normally, keeps finiteness and the solutions |
| LinearSystems.SearchRightKeepsSolutions | Matrix.java:65-89 | stages two and three, when they end normally, keep finiteness and the solutions |
| LinearSystems.FindPivotKeepsSolutions | Matrix.java:58-96 | the pivot search, when it ends normally, keeps finiteness and the solutions |
| LinearSystems.ReduceColumnKeepsSolutions | Matrix.java:100-120 | a column's turn with a finite result started finite and kept the solutions |
| LinearSystems.ReduceKeepsSolutions | Matrix.java:99-121 | the loop, ending without an exception on a finite tableau, keeps exactly the solutions of the system it started from |
| LinearSystems.ZeroSystemSolvedByAll | Matrix.java:155-159 | every finite value solves the all-zero system of three equations |
| LinearSystems.DotZeroRow | Matrix.java:129-137 | a row with zero coefficients sums to zero against finite values |
| ReducedForm.Position | Matrix.java:152-153 | the place in the record where a given unknown's index stands |
| ReducedForm.Unarrange | Matrix.java:152-153 | values in column order, put back at the unknowns the record names, give values of the original unknowns that the record arranges back into the column values |
| ReducedForm.ArrangeInjective | Matrix.java:47-56 | two assignments of the original unknowns that agree column by column are equal |
| ReducedForm.SwapRowsKeepCleared | Matrix.java:39-45 | exchanging rows not yet used as pivots keeps every column already cleared |
| ReducedForm.SwapColumnsKeepCleared | Matrix.java:47-52 | exchanging columns not yet cleared keeps every column already cleared |
| ReducedForm.CornerTurnKeepsCleared | Matrix.java:72-84 | a turn of the corner loop keeps the columns left of the pivot cleared |
| ReducedForm.CornerKeepsCleared | Matrix.java:70-84 | the corner stage keeps the columns left of the pivot cleared |
| ReducedForm.FindPivotKeepsCleared | Matrix.java:58-96 | the pivot search keeps the columns left of the pivot cleared |
| ReducedForm.PassClears | Matrix.java:107-120 | a pass with a non-zero pivot on a finite grid clears the pivot column outside the pivot row and keeps the earlier columns cleared |
| ReducedForm.ReduceColumnKeepsCleared | Matrix.java:100-120 | a column's turn that ends on a finite grid adds its column to the cleared ones |
| ReducedForm.FiniteAfterReduce | Matrix.java:99-121 | a loop that ends on a finite tableau started from a finite one |
| ReducedForm.ReduceStep | Matrix.java:99-104 | one turn of the loop: it continues from the tableau the column's turn leaves, or ends as that turn reports |
| ReducedForm.ClearedTurn | Matrix.java:100-120 | a column's turn from a tableau cleared left of the column either continues from a tableau, cleared up to that column when finite, or keeps the loop from running to its end |
| ReducedForm.ClearedStep | Matrix.java:100-120 | when the loop runs to its end on a finite tableau, the tableau after one column's turn is cleared up to that column and the rest of the loop ends on the same tableau |
| ReducedForm.ClearedAtEnd | Matrix.java:99-121 | a loop from a tableau cleared left of its first column that runs to its end on a finite tableau leaves every column cleared |
| ReducedForm.ReduceClears | Matrix.java:99-121 | a loop that runs through every column and ends on a finite tableau leaves every column zero outside its diagonal entry |
| ReducedForm.ReduceColumnStops | Matrix.java:101-104 | a column's turn breaks the loop only at a zero diagonal entry, and leaves the tableau as it was |
| ReducedForm.ReduceStopsAtZeroPivot | Matrix.java:99-104 | a loop that breaks leaves a zero diagonal entry |
| ReducedForm.DotSingle | Matrix.java:150 | the left side of an equation whose row is zero except in one column is that column's term |
| ReducedForm.ClearedSolved | Matrix.java:146-151 | on a finite cleared tableau without inconsistent rows, the quotients of the constants by the diagonal solve every row |
| ReducedForm.ClearedSolvedOnlyBy | Matrix.java:146-151 | on a finite cleared tableau, finite values that solve it are those quotients |
| ReducedForm.ClearedSolvedBy | Matrix.java:146-153 | on a finite cleared tableau without inconsistent rows, the quotients placed back at the unknowns the record names solve it |
| ReducedForm.ClearedSolvedOnlyByArranged | Matrix.java:146-153 | on a finite cleared tableau, the only finite values of the unknowns that solve it are the quotients placed back through the record |
| ReducedForm.CyclicRecordExample | Matrix.java:152-154 | a cleared tableau of three equations whose record of column exchanges is a cycle of three |
| ReducedForm.CyclicRecordValue | Matrix.java:150 | in the example, a column's value is its constant |
| ReducedForm.CyclicRecordValues | Matrix.java:150 | in the example, every column's value is its constant |
| ReducedForm.CyclicRecordShape | Matrix.java:129-144 | the example is finite and cleared, and none of its rows is inconsistent |
| ReducedForm.CyclicRecordSolved | Matrix.java:146-151 | the example is solved when unknown 0 takes column 2's value |
| ReducedForm.CyclicRecordLines | Matrix.java:152-154 | line 0 of the example's result is the text of column 1's value |
| Solver.Solve | Matrix.java:98-124 | the run throws only when equations outnumber unknowns, and otherwise keeps the shape and a well-formed verdict |
| Solver.SolveKeepsSolutions | Matrix.java:98-124 | a run that ends on a finite tableau keeps exactly the solutions of the original system |
| Solver.OneSolutionReduced | Matrix.java:98-151 | a run that newly reports one solution with finite values ran the loop to its end and left a finite, cleared tableau without inconsistent rows, whose quotients are the reported values |
| Solver.OneSolutionSolvesSystem | Matrix.java:98-154 | the values of such a run, placed back through the record, satisfy every equation of the original system |
| Solver.OneSolutionIsUnique | Matrix.java:98-154 | any finite values of the original unknowns that satisfy every original equation are the values such a run reports, placed back through the record |
| Solver.ZeroSystemOneNaNSolution | Matrix.java:98-154 | the all-zero system of three equations is classified as having one solution, all of whose values are NaN |
| Solver.Matrix.constructor | Matrix.java:13-24 | the unknowns are the row length less one; the equations are the rows; the record is the identity; one null result line and one null value per unknown; status unsolved |
| Solver.Matrix.GetResult | Matrix.java:26-28 | returns the recorded result lines |
| Solver.Matrix.SwapRow | Matrix.java:39-45 | the matrix afterwards holds the grid with the two rows exchanged, and the record is untouched |
| Solver.Matrix.SwapColumn | Matrix.java:47-56 | the columns are exchanged in every row; the record is exchanged too, unless a column is the constants, which throws after the columns moved |
| Solver.Matrix.FindPivotElement | Matrix.java:58-96 | the arrays afterwards hold the tableau `FindPivot` gives, with its success flag and exception |
| Solver.Matrix.SearchRow | Matrix.java:65-89 | the arrays afterwards hold the tableau `SearchRight` gives |
| Solver.Matrix.SearchCorner | Matrix.java:70-84 | the arrays afterwards hold the tableau `Corner` gives |
| Solver.Matrix.CornerStep | Matrix.java:72-83 | one turn of the corner loop does what `CornerTurn` describes |
| Solver.Matrix.SwapRowAndColumn | Matrix.java:79-81 | the row exchange then the column exchange, with the exception for the column of constants |
| Solver.Matrix.EliminateColumn | Matrix.java:107-120 | the matrix afterwards holds the grid `EliminatePass` gives, and the record is untouched |
| Solver.Matrix.PivotColumn | Matrix.java:100-120 | one turn of the elimination loop does what `ReduceColumn` describes |
| Solver.Matrix.GjElimination | Matrix.java:98-124 | the arrays and the verdict afterwards are those `Solve` gives; an exception skips the classification |
| Solver.Matrix.CheckSolution | Matrix.java:126-161 | the verdict afterwards is the one `Classify` gives, and the matrix is untouched |
| Solver.Matrix.RecordSolution | Matrix.java:146-154 | status one solution; each value is the constant over the diagonal entry; line `z` is the text of the value of column `columnChanges[z]` |

## Left out

- Floating point: parts are exact reals. Float rounding, `-0.0`, Infinity
  and the difference between NaN and Infinity are not modelled. Every
  non-finite value is the single `NaN`. The parameter `parseFloat` yields
  only finite reals, so a text that Java's `Float.parseFloat` reads as NaN
  or Infinity, such as `NaN`, which `parseComplex` turns into a value with
  a NaN real part at `Complex.java:164`, has no counterpart in the model.
- `Float.parseFloat` and the float-to-text conversion are foreign library
  calls. They are the parameters `parseFloat` and `render`. The round trips
  hold for each part that the parser reads back from its rendering, where
  the rendering of a non-negative part holds no sign, no `i` and no space
  (`ComplexText.ReadsBack`). Java writes small floats with a negative
  exponent, such as `1.0E-5`, which this excludes.
- `abs`, `phase`, `exp`, `sin`, `cos`, `tan` and `hashCode`: transcendental
  functions and library hashing, which are outside the solver's core.
- Console output is treated as doing nothing. This covers
  `printCurrentMatrix`, `printSolution` and the narration of exchanges and
  row operations.
- Main.java is not part of this model: it reads files, writes the answer
  and handles arguments.
- Solver.Matrix.constructor: copies the caller's rows into a fresh array.
  The source's shallow `clone` aliases the caller's rows, and this aliasing
  is not modelled.
- Solver.Matrix.constructor: requires at least one row, which the source
  needs to read the row length; with no row Java throws
  ArrayIndexOutOfBoundsException at `Matrix.java:14`. It also requires a
  first row of at least one entry; with an empty first row the number of
  unknowns is -1 and Java throws NegativeArraySizeException at
  `Matrix.java:18`. Neither exception path is modelled. It also requires
  every row to have the same length. Ragged input is not modelled.
- Solver.Matrix.SwapColumn, Solver.Matrix.FindPivotElement,
  Solver.Matrix.GjElimination: an exception is reported by a `thrown`
  result. The model states the matrix at the point of the exception but
  does not model the propagation of the exception to callers.
- Solver.Matrix.GetResult: returns the lines as a value. The sharing of the
  returned array with the object is not modelled.
- The loop bodies of `findPivotElement` and `gjElimination` are separate
  methods: `SearchRow`, `SearchCorner`, `CornerStep`, `SwapRowAndColumn` and
  `PivotColumn`. `checkSolution` is split the same way, into
  `RecordSolution`. Their statements follow the source in the same order.
- LinearSystems.ReduceKeepsSolutions, Solver.SolveKeepsSolutions: the
  preservation of solutions is stated only for runs that leave a finite
  tableau. Once a NaN appears, the model says only that it stays.
- Solver.Matrix.GjElimination, Classification.SolutionLinesFollowExchanges:
  the model does not establish whether a run that reports one finite
  solution can leave a record of column exchanges that is not its own
  inverse. For such a record, the result lines would not follow the
  unknowns (`ReducedForm.CyclicRecordLines`).
