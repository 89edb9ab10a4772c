/** The two heuristics of a board measured against a goal board: the
    Manhattan distance and the number of misplaced tiles. Both sum one term
    per cell, the blank included, and look each value up at its first
    row-major position in the goal. */
module Heuristics {
  import opened Wrappers
  import opened Positions
  import opened Grids

  datatype Heuristic = Manhattan | Misplaced

  /** Every value of g occurs in goal, so each cell has a goal position. */
  ghost predicate Placed(g: Grid, goal: Grid) {
    forall i, j :: InCell(g, i, j) ==> Find(goal, g[i][j]).Some?
  }

  /** The contribution of value v standing at row i, column j. */
  function Term(h: Heuristic, goal: Grid, v: int, i: int, j: int): nat
    requires Find(goal, v).Some?
  {
    var p := Find(goal, v).value;
    match h
    case Manhattan => Abs(i - p.i) + Abs(j - p.j)
    case Misplaced => if p.i != i || p.j != j then 1 else 0
  }

  /** The terms of the first j cells of row i. */
  function RowSum(h: Heuristic, g: Grid, goal: Grid, i: int, j: nat): nat
    requires 0 <= i < |g| && j <= |g[i]| && Placed(g, goal)
  {
    if j == 0 then 0 else RowSum(h, g, goal, i, j - 1) + Term(h, goal, g[i][j - 1], i, j - 1)
  }

  /** The terms of every cell of the first i rows. */
  function GridSum(h: Heuristic, g: Grid, goal: Grid, i: nat): nat
    requires i <= |g| && Placed(g, goal)
  {
    if i == 0 then 0 else GridSum(h, g, goal, i - 1) + RowSum(h, g, goal, i - 1, |g[i - 1]|)
  }

  /** The heuristic value of the whole board g. */
  function Measure(h: Heuristic, g: Grid, goal: Grid): nat
    requires Placed(g, goal)
  {
    GridSum(h, g, goal, |g|)
  }

  /** A term vanishes exactly when the value stands at its goal position. */
  lemma TermZero(h: Heuristic, goal: Grid, v: int, i: int, j: int)
    requires Find(goal, v).Some?
    ensures Term(h, goal, v, i, j) == 0 <==> Find(goal, v) == Some(Position(i, j))
  {
  }

  /** A misplaced tile is at Manhattan distance 1 or more. */
  lemma TermMisplacedAtMostManhattan(goal: Grid, v: int, i: int, j: int)
    requires Find(goal, v).Some?
    ensures Term(Misplaced, goal, v, i, j) <= Term(Manhattan, goal, v, i, j)
  {
  }

  lemma {:induction false} RowSumZero(h: Heuristic, g: Grid, goal: Grid, i: int, j: nat)
    requires 0 <= i < |g| && j <= |g[i]| && Placed(g, goal)
    ensures RowSum(h, g, goal, i, j) == 0 <==> forall c :: 0 <= c < j ==> Find(goal, g[i][c]) == Some(Position(i, c))
  {
    if j > 0 {
      RowSumZero(h, g, goal, i, j - 1);
      TermZero(h, goal, g[i][j - 1], i, j - 1);
    }
  }

  lemma {:induction false} GridSumZero(h: Heuristic, g: Grid, goal: Grid, i: nat)
    requires i <= |g| && Placed(g, goal)
    ensures GridSum(h, g, goal, i) == 0 <==>
      forall a, c :: 0 <= a < i && 0 <= c < |g[a]| ==> Find(goal, g[a][c]) == Some(Position(a, c))
  {
    if i > 0 {
      GridSumZero(h, g, goal, i - 1);
      RowSumZero(h, g, goal, i - 1, |g[i - 1]|);
    }
  }

  /** A heuristic is 0 exactly when every value stands at its goal position. */
  lemma MeasureZero(h: Heuristic, g: Grid, goal: Grid)
    requires Placed(g, goal)
    ensures Measure(h, g, goal) == 0 <==> forall i, j :: InCell(g, i, j) ==> Find(goal, g[i][j]) == Some(Position(i, j))
  {
    GridSumZero(h, g, goal, |g|);
  }

  /** Every board is placed against itself. */
  lemma PlacedInSelf(g: Grid)
    ensures Placed(g, g)
  {
    forall i, j | InCell(g, i, j) ensures Find(g, g[i][j]).Some? {
      FindIsFirst(g, g[i][j]);
      assert g[i][j] in Values(g);
    }
  }

  /** Against a goal whose values are distinct, both heuristics are 0 on a
      board of the goal's shape exactly when the board is the goal. */
  lemma MeasureZeroIffGoal(h: Heuristic, g: Grid, goal: Grid, n: int)
    requires IsGrid(g, n) && IsGrid(goal, n) && Distinct(goal) && Placed(g, goal)
    ensures Measure(h, g, goal) == 0 <==> g == goal
  {
    MeasureZero(h, g, goal);
    if g == goal {
      forall i, j | InCell(g, i, j) ensures Find(goal, g[i][j]) == Some(Position(i, j)) {
        FindDistinct(goal, i, j);
      }
    }
    if Measure(h, g, goal) == 0 {
      forall i | 0 <= i < n ensures g[i] == goal[i] {
        forall j | 0 <= j < n ensures g[i][j] == goal[i][j] {
          assert InCell(g, i, j);
          FindIsFirst(goal, g[i][j]);
        }
      }
    }
  }

  lemma {:induction false} RowSumMisplacedAtMostManhattan(g: Grid, goal: Grid, i: int, j: nat)
    requires 0 <= i < |g| && j <= |g[i]| && Placed(g, goal)
    ensures RowSum(Misplaced, g, goal, i, j) <= RowSum(Manhattan, g, goal, i, j)
    ensures RowSum(Misplaced, g, goal, i, j) <= j
  {
    if j > 0 {
      RowSumMisplacedAtMostManhattan(g, goal, i, j - 1);
      TermMisplacedAtMostManhattan(goal, g[i][j - 1], i, j - 1);
    }
  }

  lemma {:induction false} GridSumMisplacedAtMostManhattan(g: Grid, goal: Grid, n: int, i: nat)
    requires i <= |g| && Placed(g, goal) && IsGrid(g, n)
    ensures GridSum(Misplaced, g, goal, i) <= GridSum(Manhattan, g, goal, i)
    ensures GridSum(Misplaced, g, goal, i) <= i * n
  {
    if i > 0 {
      GridSumMisplacedAtMostManhattan(g, goal, n, i - 1);
      RowSumMisplacedAtMostManhattan(g, goal, i - 1, |g[i - 1]|);
      assert (i - 1) * n + n == i * n;
    }
  }

  /** The misplaced count of an n x n board lies in [0, n*n] and never
      exceeds the Manhattan distance. */
  lemma MisplacedBounds(g: Grid, goal: Grid, n: int)
    requires Placed(g, goal) && IsGrid(g, n)
    ensures 0 <= Measure(Misplaced, g, goal) <= n * n
    ensures Measure(Misplaced, g, goal) <= Measure(Manhattan, g, goal)
  {
    GridSumMisplacedAtMostManhattan(g, goal, n, |g|);
  }
}
