/** Pure facts about boards as grids of integers: shape, row-major search,
    the blank swap, the legal neighbours of the blank and the solved board. */
module Grids {
  import opened Wrappers
  import opened Positions

  /** A board as its rows; Java's int[][]. Rows may in principle differ in length. */
  type Grid = seq<seq<int>>

  /** Every one of the n rows has exactly n cells. */
  predicate IsGrid(g: Grid, n: int) {
    |g| == n && forall i :: 0 <= i < |g| ==> |g[i]| == n
  }

  /** (i, j) names an existing cell of g. */
  predicate InCell(g: Grid, i: int, j: int) {
    0 <= i < |g| && 0 <= j < |g[i]|
  }

  predicate InGrid(g: Grid, p: Position) {
    InCell(g, p.i, p.j)
  }

  /** The set of values held by the cells of g. */
  ghost function Values(g: Grid): set<int> {
    set i, j | 0 <= i < |g| && 0 <= j < |g[i]| :: g[i][j]
  }

  /** No value occurs in two different cells. */
  ghost predicate Distinct(g: Grid) {
    forall i1, j1, i2, j2 ::
      InCell(g, i1, j1) && InCell(g, i2, j2) && g[i1][j1] == g[i2][j2] ==> i1 == i2 && j1 == j2
  }

  /** An n x n board holding each of 0 .. n*n-1 exactly once: n*n distinct
      cells whose values all lie in that range. */
  ghost predicate IsPermutationGrid(g: Grid, n: int) {
    IsGrid(g, n) && Distinct(g) && forall i, j :: InCell(g, i, j) ==> 0 <= g[i][j] < n * n
  }

  // ---------------------------------------------------------------------------
  // Row-major search for the first cell holding a value (findEmpty and
  // getPositionInGoalState scan this way)

  /** The first column c >= j of row holding v. */
  function FindInRow(row: seq<int>, v: int, j: nat): (r: Option<nat>)
    requires j <= |row|
    ensures r.Some? ==> j <= r.value < |row|
    decreases |row| - j
  {
    if j == |row| then None
    else if row[j] == v then Some(j)
    else FindInRow(row, v, j + 1)
  }

  /** FindInRow stops at the first column from j on that holds v. */
  lemma {:induction false} FindInRowSound(row: seq<int>, v: int, j: nat)
    requires j <= |row|
    ensures var r := FindInRow(row, v, j);
      (r.Some? ==> row[r.value] == v && forall c :: j <= c < r.value ==> row[c] != v) &&
      (r.None? ==> forall c :: j <= c < |row| ==> row[c] != v)
    decreases |row| - j
  {
    if j < |row| && row[j] != v {
      FindInRowSound(row, v, j + 1);
    }
  }

  /** The first cell, in row-major order from row i on, holding v. */
  function FindFrom(g: Grid, v: int, i: nat): (r: Option<Position>)
    requires i <= |g|
    ensures r.Some? ==> i <= r.value.i && InGrid(g, r.value)
    decreases |g| - i
  {
    if i == |g| then None
    else match FindInRow(g[i], v, 0)
      case Some(j) => Some(Position(i, j))
      case None => FindFrom(g, v, i + 1)
  }

  /** FindFrom stops at the row-major first cell from row i on that holds v. */
  lemma {:induction false} FindFromSound(g: Grid, v: int, i: nat)
    requires i <= |g|
    ensures var r := FindFrom(g, v, i);
      (r.Some? ==> g[r.value.i][r.value.j] == v) &&
      (r.Some? ==> forall a, c :: i <= a < r.value.i && 0 <= c < |g[a]| ==> g[a][c] != v) &&
      (r.Some? ==> forall c :: 0 <= c < r.value.j ==> g[r.value.i][c] != v) &&
      (r.None? ==> forall a, c :: i <= a < |g| && 0 <= c < |g[a]| ==> g[a][c] != v)
    decreases |g| - i
  {
    if i < |g| {
      FindInRowSound(g[i], v, 0);
      if FindInRow(g[i], v, 0).None? {
        FindFromSound(g, v, i + 1);
      }
    }
  }

  /** The first cell of g in row-major order that holds v, if any. */
  function Find(g: Grid, v: int): Option<Position> {
    FindFrom(g, v, 0)
  }

  /** Find really is the row-major first occurrence, and it fails exactly
      when v is not on the board. */
  lemma FindIsFirst(g: Grid, v: int)
    ensures Find(g, v).None? <==> v !in Values(g)
    ensures Find(g, v).Some? ==>
      var p := Find(g, v).value;
      InGrid(g, p) && g[p.i][p.j] == v &&
      forall i, j :: InCell(g, i, j) && (i < p.i || (i == p.i && j < p.j)) ==> g[i][j] != v
  {
    FindFromSound(g, v, 0);
    if v in Values(g) {
      var i, j :| 0 <= i < |g| && 0 <= j < |g[i]| && g[i][j] == v;
    }
  }

  /** On a board without repeated values, the cell holding a value is where
      Find locates it. */
  lemma FindDistinct(g: Grid, i: int, j: int)
    requires Distinct(g) && InCell(g, i, j)
    ensures Find(g, g[i][j]) == Some(Position(i, j))
  {
    FindIsFirst(g, g[i][j]);
  }

  // ---------------------------------------------------------------------------
  // Moving the blank

  /** The board after the blank at e and the cell t are swapped: e receives
      t's value, t receives 0, every other cell is unchanged. */
  function SwapCells(g: Grid, e: Position, t: Position): (r: Grid)
    requires InGrid(g, e) && InGrid(g, t)
    ensures |r| == |g| && forall i :: 0 <= i < |g| ==> |r[i]| == |g[i]|
  {
    seq(|g|, i requires 0 <= i < |g| =>
      seq(|g[i]|, j requires 0 <= j < |g[i]| =>
        if i == t.i && j == t.j then 0
        else if i == e.i && j == e.j then g[t.i][t.j]
        else g[i][j]))
  }

  /** r is g after the swap of e and t, stated cell by cell: the same shape,
      t holds 0, e holds t's old value, every other cell is unchanged. */
  ghost predicate Swapped(g: Grid, r: Grid, e: Position, t: Position) {
    InGrid(g, e) && InGrid(g, t) &&
    |r| == |g| && (forall i :: 0 <= i < |g| ==> |r[i]| == |g[i]|) &&
    forall i, j :: InCell(g, i, j) ==>
      r[i][j] == (if i == t.i && j == t.j then 0 else if i == e.i && j == e.j then g[t.i][t.j] else g[i][j])
  }

  /** The cell-by-cell statement describes exactly the board SwapCells builds. */
  lemma SwappedIsSwapCells(g: Grid, r: Grid, e: Position, t: Position)
    requires InGrid(g, e) && InGrid(g, t)
    ensures Swapped(g, r, e, t) <==> r == SwapCells(g, e, t)
  {
    if Swapped(g, r, e, t) {
      var w := SwapCells(g, e, t);
      forall i | 0 <= i < |g| ensures r[i] == w[i] {
        assert |r[i]| == |w[i]|;
        forall j | 0 <= j < |g[i]| ensures r[i][j] == w[i][j] {
          assert InCell(g, i, j);
        }
      }
    }
  }

  /** Cell (i, j) after the swap holds the value of cell Source(e, t, i, j)
      before it, when e holds the blank. */
  lemma SwapCellsAt(g: Grid, e: Position, t: Position, i: int, j: int)
    requires InGrid(g, e) && InGrid(g, t) && g[e.i][e.j] == 0 && InCell(g, i, j)
    ensures InCell(g, Source(e, t, i, j).0, Source(e, t, i, j).1)
    ensures SwapCells(g, e, t)[i][j] == g[Source(e, t, i, j).0][Source(e, t, i, j).1]
  {
  }

  /** When e holds the blank, SwapCells exchanges the values of e and t and
      changes no other cell; for e != t the two cells differ from before
      exactly when t was not blank too. */
  lemma SwapExchanges(g: Grid, e: Position, t: Position)
    requires InGrid(g, e) && InGrid(g, t) && g[e.i][e.j] == 0
    ensures var r := SwapCells(g, e, t);
      r[e.i][e.j] == g[t.i][t.j] && r[t.i][t.j] == g[e.i][e.j] &&
      forall i, j :: InCell(g, i, j) && !(i == e.i && j == e.j) && !(i == t.i && j == t.j) ==> r[i][j] == g[i][j]
    ensures var r := SwapCells(g, e, t);
      e != t ==> forall i, j :: InCell(g, i, j) ==>
        (r[i][j] != g[i][j] <==> (g[t.i][t.j] != 0 && ((i == e.i && j == e.j) || (i == t.i && j == t.j))))
  {
  }

  /** The swap keeps the n x n shape and the blank, and brings in no new value. */
  lemma SwapKeepsBoard(g: Grid, n: int, e: Position, t: Position)
    requires IsGrid(g, n) && InGrid(g, e) && InGrid(g, t) && g[e.i][e.j] == 0
    ensures IsGrid(SwapCells(g, e, t), n)
    ensures Values(SwapCells(g, e, t)) == Values(g)
    ensures Find(SwapCells(g, e, t), 0).Some?
  {
    var r := SwapCells(g, e, t);
    forall v | v in Values(r) ensures v in Values(g) {
      var i, j :| 0 <= i < |r| && 0 <= j < |r[i]| && r[i][j] == v;
      assert |r[i]| == |g[i]|;
      SwapCellsAt(g, e, t, i, j);
      var (a, b) := Source(e, t, i, j);
      assert g[a][b] == v;
    }
    forall v | v in Values(g) ensures v in Values(r) {
      var i, j :| InCell(g, i, j) && g[i][j] == v;
      var (a, b) := Source(e, t, i, j);
      SwapCellsAt(g, e, t, a, b);
      assert r[a][b] == v;
    }
    assert r[t.i][t.j] == 0;
    FindIsFirst(r, 0);
  }

  /** A permutation board stays a permutation board after a blank swap. */
  lemma SwapKeepsPermutation(g: Grid, n: int, e: Position, t: Position)
    requires IsPermutationGrid(g, n) && InGrid(g, e) && InGrid(g, t) && g[e.i][e.j] == 0
    ensures IsPermutationGrid(SwapCells(g, e, t), n)
  {
    var r := SwapCells(g, e, t);
    SwapKeepsBoard(g, n, e, t);
    forall i1, j1, i2, j2 | InCell(r, i1, j1) && InCell(r, i2, j2) && r[i1][j1] == r[i2][j2]
      ensures i1 == i2 && j1 == j2
    {
      SwapCellsAt(g, e, t, i1, j1);
      SwapCellsAt(g, e, t, i2, j2);
      var (a1, b1) := Source(e, t, i1, j1);
      var (a2, b2) := Source(e, t, i2, j2);
      assert g[a1][b1] == g[a2][b2];
      assert a1 == a2 && b1 == b2;
      SourceInjective(e, t, i1, j1, i2, j2);
    }
    forall i, j | InCell(r, i, j) ensures 0 <= r[i][j] < n * n {
      SwapCellsAt(g, e, t, i, j);
    }
  }

  /** The cell of the original board whose value SwapCells moves to (i, j). */
  function Source(e: Position, t: Position, i: int, j: int): (int, int) {
    if i == t.i && j == t.j then (e.i, e.j)
    else if i == e.i && j == e.j then (t.i, t.j)
    else (i, j)
  }

  /** Two cells take their values from the same cell only if they are the same. */
  lemma SourceInjective(e: Position, t: Position, i1: int, j1: int, i2: int, j2: int)
    requires Source(e, t, i1, j1) == Source(e, t, i2, j2)
    ensures i1 == i2 && j1 == j2
  {
  }

  /** The neighbours the blank at e may move to on an n x n board, in the
      order successors() tries them: left, up, right, down. A direction is
      left out when the blank lies on that edge. */
  function LegalTargets(e: Position, n: int): seq<Position> {
    (if e.j == 0 then [] else [Position(e.i, e.j - 1)]) +
    (if e.i == 0 then [] else [Position(e.i - 1, e.j)]) +
    (if e.j == n - 1 then [] else [Position(e.i, e.j + 1)]) +
    (if e.i == n - 1 then [] else [Position(e.i + 1, e.j)])
  }

  function Abs(x: int): nat {
    if x < 0 then -x else x
  }

  /** Every legal target is an on-board orthogonal neighbour of the blank,
      no target is listed twice, and on a board of side n >= 2 there are
      between two and four of them (none at all when n == 1). */
  lemma LegalTargetsSound(e: Position, n: int)
    requires 0 <= e.i < n && 0 <= e.j < n
    ensures forall t :: t in LegalTargets(e, n) ==>
      0 <= t.i < n && 0 <= t.j < n && Abs(t.i - e.i) + Abs(t.j - e.j) == 1
    ensures forall a, b :: 0 <= a < b < |LegalTargets(e, n)| ==> LegalTargets(e, n)[a] != LegalTargets(e, n)[b]
    ensures n >= 2 ==> 2 <= |LegalTargets(e, n)| <= 4
    ensures n == 1 ==> LegalTargets(e, n) == []
  {
  }

  // ---------------------------------------------------------------------------
  // Row-major layout

  /** Cell (i, j) of an n x n board is cell number i*n + j in row-major order,
      and number k is cell (k / n, k % n). */
  lemma RowMajorIndex(n: int, i: int, j: int)
    requires 0 <= i < n && 0 <= j < n
    ensures 0 <= i * n + j < n * n
    ensures (i * n + j) / n == i && (i * n + j) % n == j
  {
    assert i * n + j < (i + 1) * n <= n * n by {
      assert (i + 1) * n == i * n + n;
    }
    var k := i * n + j;
    var q, r := k / n, k % n;
    assert k == q * n + r;
    MulMonotone(i + 1, q, n);
    MulMonotone(q, i - 1, n);
    assert (i + 1) * n == i * n + n && (i - 1) * n == i * n - n;
  }

  lemma MulMonotone(a: int, b: int, n: int)
    ensures a <= b && 0 <= n ==> a * n <= b * n
  {
    if a <= b && 0 <= n {
      assert b * n - a * n == (b - a) * n;
    }
  }

  /** The board of side n whose row-major cell k holds vals[k]. */
  function RowMajor(vals: seq<int>, n: nat): (g: Grid)
    requires |vals| == n * n
    ensures IsGrid(g, n)
  {
    seq(n, i requires 0 <= i < n =>
      seq(n, j requires 0 <= j < n => RowMajorIndex(n, i, j); vals[i * n + j]))
  }

  /** A board of side n whose cell (i, j) holds value number i*n + j of the
      list is the list laid out row by row. */
  lemma RowMajorOfCells(g: Grid, vals: seq<int>, n: nat)
    requires |vals| == n * n && IsGrid(g, n)
    requires forall k :: 0 <= k < n * n ==> 0 <= k / n < n && 0 <= k % n < n && g[k / n][k % n] == vals[k]
    ensures g == RowMajor(vals, n)
  {
    forall i | 0 <= i < n ensures g[i] == RowMajor(vals, n)[i] {
      forall j | 0 <= j < n ensures g[i][j] == RowMajor(vals, n)[i][j] {
        RowMajorIndex(n, i, j);
      }
    }
  }

  /** Value number k of the list lands in row k / n, column k % n. */
  lemma RowMajorPlacement(vals: seq<int>, n: nat, k: int)
    requires |vals| == n * n && 0 <= k < n * n
    ensures n > 0 && RowMajor(vals, n)[k / n][k % n] == vals[k]
  {
    assert n > 0;
    CellOfIndex(n, k);
  }

  /** Row-major number k of an n x n board is the cell (k / n, k % n). */
  lemma CellOfIndex(n: int, k: int)
    requires 0 < n && 0 <= k < n * n
    ensures 0 <= k / n < n && 0 <= k % n < n && (k / n) * n + k % n == k
  {
    var i := k / n;
    assert k == i * n + k % n;
    MulMonotone(n, i, n);
  }

  /** The solved board of side n: cells 1 .. n*n-1 in row-major order, the
      blank in the bottom-right corner. */
  function PerfectGrid(n: nat): (g: Grid)
    ensures IsGrid(g, n)
  {
    seq(n, i requires 0 <= i < n =>
      seq(n, j requires 0 <= j < n => if i == n - 1 && j == n - 1 then 0 else i * n + j + 1))
  }

  /** The solved board holds each of 0 .. n*n-1 exactly once, and the blank
      that Find locates is the bottom-right corner. */
  lemma PerfectGridIsPermutation(n: nat)
    requires n >= 1
    ensures IsPermutationGrid(PerfectGrid(n), n)
    ensures Find(PerfectGrid(n), 0) == Some(Position(n - 1, n - 1))
  {
    var g := PerfectGrid(n);
    forall i, j | InCell(g, i, j) ensures 0 <= g[i][j] < n * n {
      PerfectCell(n, i, j);
    }
    forall i1, j1, i2, j2 | InCell(g, i1, j1) && InCell(g, i2, j2) && g[i1][j1] == g[i2][j2]
      ensures i1 == i2 && j1 == j2
    {
      PerfectCell(n, i1, j1);
      PerfectCell(n, i2, j2);
      RowMajorIndex(n, i1, j1);
      RowMajorIndex(n, i2, j2);
    }
    FindDistinct(g, n - 1, n - 1);
  }

  /** An n x n board whose row-major cell k holds k + 1 for every k below
      n*n - 1 and whose last cell holds 0 is the solved board. */
  lemma PerfectOfCells(g: Grid, n: nat)
    requires n > 0 && IsGrid(g, n) && g[n - 1][n - 1] == 0
    requires forall k :: 0 <= k < n * n - 1 ==> 0 <= k / n < n && 0 <= k % n < n && g[k / n][k % n] == k + 1
    ensures g == PerfectGrid(n)
  {
    forall i | 0 <= i < n ensures g[i] == PerfectGrid(n)[i] {
      forall j | 0 <= j < n ensures g[i][j] == PerfectGrid(n)[i][j] {
        RowMajorIndex(n, i, j);
        LastCell(n, i, j);
        PerfectCell(n, i, j);
      }
    }
  }

  /** getPerfectState's loop: row-major cell k of the solved board holds
      k + 1 for every k < n*n - 1, and the last cell holds 0. */
  lemma PerfectGridRowMajor(n: nat, k: int)
    requires n >= 1 && 0 <= k < n * n - 1
    ensures PerfectGrid(n)[k / n][k % n] == k + 1
    ensures PerfectGrid(n)[n - 1][n - 1] == 0
  {
    CellOfIndex(n, k);
    PerfectCell(n, k / n, k % n);
  }

  /** One cell of the solved board: 0 in the corner, its row-major number
      plus one elsewhere, which lies in 1 .. n*n-1. */
  lemma PerfectCell(n: nat, i: int, j: int)
    requires 0 <= i < n && 0 <= j < n
    ensures i == n - 1 && j == n - 1 ==> PerfectGrid(n)[i][j] == 0
    ensures !(i == n - 1 && j == n - 1) ==> PerfectGrid(n)[i][j] == i * n + j + 1 < n * n
  {
    RowMajorIndex(n, i, j);
    LastCell(n, i, j);
  }

  /** The bottom-right cell is the only one whose row-major number is n*n - 1. */
  lemma LastCell(n: int, i: int, j: int)
    requires 0 <= i < n && 0 <= j < n
    ensures (i == n - 1 && j == n - 1) <==> i * n + j == n * n - 1
  {
    RowMajorIndex(n, i, j);
    RowMajorIndex(n, n - 1, n - 1);
    assert (n - 1) * n + (n - 1) == n * n - 1;
  }
}
