/** The augmented matrix of the solver as a value, with the record of column
    exchanges, and the two exchanges the elimination uses.

    Row `i` of `cells` holds the coefficients of equation `i` followed by its
    constant; `perm[z]` names the original unknown whose coefficients now stand
    in column `z`.
 */
module Grids {
  import opened ComplexNumbers

  datatype Tableau = Tableau(cells: seq<seq<Complex>>, perm: seq<int>)

  /** A grid of `rows` rows, each of `cols` entries. */
  predicate IsGrid(g: seq<seq<Complex>>, rows: nat, cols: nat)
  {
    |g| == rows && forall i :: 0 <= i < rows ==> |g[i]| == cols
  }

  /** `p` lists each of `0 .. n-1` exactly once. */
  predicate IsPermutation(p: seq<int>, n: nat)
  {
    |p| == n &&
    (forall k :: 0 <= k < n ==> 0 <= p[k] < n) &&
    (forall k, l :: 0 <= k < l < n ==> p[k] != p[l])
  }

  /** `nEq` equations over `nVar` unknowns, with a permutation of the
      unknowns. */
  predicate Shaped(t: Tableau, nEq: nat, nVar: nat)
  {
    IsGrid(t.cells, nEq, nVar + 1) && IsPermutation(t.perm, nVar)
  }

  /** The record of column exchanges before any exchange. */
  function Identity(n: nat): (p: seq<int>)
    ensures IsPermutation(p, n)
    ensures forall k :: 0 <= k < n ==> p[k] == k
  {
    seq(n, k => k)
  }

  /** Rows `r1` and `r2` exchanged. */
  function SwapRows(g: seq<seq<Complex>>, r1: nat, r2: nat): (r: seq<seq<Complex>>)
    requires r1 < |g| && r2 < |g|
    ensures |r| == |g|
    ensures r[r1] == g[r2] && r[r2] == g[r1]
    ensures forall k :: 0 <= k < |g| && k != r1 && k != r2 ==> r[k] == g[k]
  {
    g[r1 := g[r2]][r2 := g[r1]]
  }

  /** Columns `c1` and `c2` exchanged in every row. */
  function SwapColumns(g: seq<seq<Complex>>, c1: nat, c2: nat): (r: seq<seq<Complex>>)
    requires forall i :: 0 <= i < |g| ==> c1 < |g[i]| && c2 < |g[i]|
    ensures |r| == |g|
    ensures forall i :: 0 <= i < |g| ==> |r[i]| == |g[i]|
    ensures forall i :: 0 <= i < |g| ==> r[i][c1] == g[i][c2] && r[i][c2] == g[i][c1]
    ensures forall i, z :: 0 <= i < |g| && 0 <= z < |g[i]| && z != c1 && z != c2 ==> r[i][z] == g[i][z]
  {
    seq(|g|, i requires 0 <= i < |g| => g[i][c1 := g[i][c2]][c2 := g[i][c1]])
  }

  /** Entries `a` and `b` exchanged (in the record of column exchanges, or in
      a vector of values). */
  function SwapEntries<T>(p: seq<T>, a: nat, b: nat): (r: seq<T>)
    requires a < |p| && b < |p|
    ensures |r| == |p| && r[a] == p[b] && r[b] == p[a]
    ensures forall k :: 0 <= k < |p| && k != a && k != b ==> r[k] == p[k]
  {
    p[a := p[b]][b := p[a]]
  }

  lemma SwapRowsKeepsGrid(g: seq<seq<Complex>>, rows: nat, cols: nat, r1: nat, r2: nat)
    requires IsGrid(g, rows, cols) && r1 < rows && r2 < rows
    ensures IsGrid(SwapRows(g, r1, r2), rows, cols)
  {
  }

  lemma SwapColumnsKeepsGrid(g: seq<seq<Complex>>, rows: nat, cols: nat, c1: nat, c2: nat)
    requires IsGrid(g, rows, cols) && c1 < cols && c2 < cols
    ensures IsGrid(SwapColumns(g, c1, c2), rows, cols)
  {
  }

  /** Exchanging the same two rows twice restores the grid. */
  lemma SwapRowsInvolution(g: seq<seq<Complex>>, r1: nat, r2: nat)
    requires r1 < |g| && r2 < |g|
    ensures SwapRows(SwapRows(g, r1, r2), r1, r2) == g
  {
    var h := SwapRows(SwapRows(g, r1, r2), r1, r2);
    assert forall k :: 0 <= k < |g| ==> h[k] == g[k];
  }

  /** Exchanging the same two columns twice restores the grid. */
  lemma SwapColumnsInvolution(g: seq<seq<Complex>>, c1: nat, c2: nat)
    requires forall i :: 0 <= i < |g| ==> c1 < |g[i]| && c2 < |g[i]|
    ensures SwapColumns(SwapColumns(g, c1, c2), c1, c2) == g
  {
    var h := SwapColumns(SwapColumns(g, c1, c2), c1, c2);
    forall i | 0 <= i < |g|
      ensures h[i] == g[i]
    {
      assert forall z :: 0 <= z < |g[i]| ==> h[i][z] == g[i][z];
    }
  }

  /** Exchanging two entries of a permutation gives a permutation. */
  lemma SwapEntriesKeepsPermutation(p: seq<int>, n: nat, a: nat, b: nat)
    requires IsPermutation(p, n) && a < n && b < n
    ensures IsPermutation(SwapEntries(p, a, b), n)
  {
    var q := SwapEntries(p, a, b);
    forall k, l | 0 <= k < l < n
      ensures q[k] != q[l]
    {
      var k' := if k == a then b else if k == b then a else k;
      var l' := if l == a then b else if l == b then a else l;
      assert q[k] == p[k'] && q[l] == p[l'];
      assert k' != l';
      if k' < l' {
        assert p[k'] != p[l'];
      } else {
        assert p[l'] != p[k'];
      }
    }
  }

  /** The values of the first `m` entries of `p`. */
  ghost function Image(p: seq<int>, m: nat): set<int>
    requires m <= |p|
  {
    set x | x in p[..m]
  }

  /** Distinct entries give as many values as entries. */
  lemma {:induction false} ImageSize(p: seq<int>, m: nat)
    requires m <= |p| && forall k, l :: 0 <= k < l < |p| ==> p[k] != p[l]
    ensures |Image(p, m)| == m
  {
    if m > 0 {
      ImageSize(p, m - 1);
      assert p[..m] == p[..m - 1] + [p[m - 1]];
      assert Image(p, m) == Image(p, m - 1) + {p[m - 1]};
      assert p[m - 1] !in Image(p, m - 1);
    }
  }

  /** A subset as large as its superset is all of it. */
  lemma SubsetOfSameSize(small: set<int>, large: set<int>)
    requires small <= large && |small| == |large|
    ensures small == large
  {
    assert large == small + (large - small);
    assert |large - small| == 0;
  }

  /** A permutation of `0 .. n-1` holds each of those values: its `n`
      distinct values fill the `n` values of the range. */
  lemma PermutationCovers(p: seq<int>, n: nat, v: int)
    requires IsPermutation(p, n) && 0 <= v < n
    ensures v in p
  {
    var ident := Identity(n);
    assert p[..n] == p && ident[..n] == ident;
    ImageSize(p, n);
    ImageSize(ident, n);
    forall w | w in Image(p, n)
      ensures w in Image(ident, n)
    {
      assert ident[w] == w;
    }
    SubsetOfSameSize(Image(p, n), Image(ident, n));
    assert ident[v] == v && v in ident[..n];
    assert v in Image(p, n);
  }

  /** Two tableaus describe the same system when their constants agree row by
      row and every column of coefficients that belongs to the same original
      unknown agrees. */
  predicate SameSystem(t: Tableau, u: Tableau, nEq: nat, nVar: nat)
    requires Shaped(t, nEq, nVar) && Shaped(u, nEq, nVar)
  {
    (forall i :: 0 <= i < nEq ==> t.cells[i][nVar] == u.cells[i][nVar]) &&
    (forall i, z, w :: 0 <= i < nEq && 0 <= z < nVar && 0 <= w < nVar && t.perm[z] == u.perm[w] ==>
       t.cells[i][z] == u.cells[i][w])
  }

  /** A column exchange recorded in the permutation changes how the system is
      laid out, not the system: every original unknown keeps its
      coefficients. */
  lemma SwapColumnsKeepsSystem(t: Tableau, nEq: nat, nVar: nat, a: nat, b: nat)
    requires Shaped(t, nEq, nVar) && a < nVar && b < nVar
    ensures Shaped(Tableau(SwapColumns(t.cells, a, b), SwapEntries(t.perm, a, b)), nEq, nVar)
    ensures SameSystem(t, Tableau(SwapColumns(t.cells, a, b), SwapEntries(t.perm, a, b)), nEq, nVar)
  {
    var u := Tableau(SwapColumns(t.cells, a, b), SwapEntries(t.perm, a, b));
    SwapEntriesKeepsPermutation(t.perm, nVar, a, b);
    forall i, z, w | 0 <= i < nEq && 0 <= z < nVar && 0 <= w < nVar && t.perm[z] == u.perm[w]
      ensures t.cells[i][z] == u.cells[i][w]
    {
      var w' := if w == a then b else if w == b then a else w;
      assert u.perm[w] == t.perm[w'] && u.cells[i][w] == t.cells[i][w'];
    }
  }
}
