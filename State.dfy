/** A board of the sliding puzzle (the State class): its cells, side n, the
    cost of the path that reached it, the blank's position, the parent it
    was reached from and the goal board the heuristics measure against. */
module Board {
  import opened Wrappers
  import opened Positions
  import opened Grids
  import opened Strings
  import opened Heuristics

  /** The exceptions the constructors of State throw. */
  datatype StateError =
    | InvalidShape       // IllegalArgumentException "size not compatible"
    | IndexOutOfBounds   // ArrayIndexOutOfBoundsException
    | NegativeArraySize  // NegativeArraySizeException from new int[n][n]
    | NumberFormat       // NumberFormatException from Integer.valueOf

  /** The rows of a freshly filled int[n][n], read back as a board. */
  function Snapshot(a: array2<int>): (g: Grid)
    reads a
    ensures |g| == a.Length0 && forall i :: 0 <= i < |g| ==> |g[i]| == a.Length1
    ensures forall i, j :: 0 <= i < a.Length0 && 0 <= j < a.Length1 ==> g[i][j] == a[i, j]
  {
    seq(a.Length0, i requires 0 <= i < a.Length0 reads a =>
      seq(a.Length1, j requires 0 <= j < a.Length1 reads a => a[i, j]))
  }

  /** s is p with the blank moved to t, one of the legal neighbours of p's
      blank: the two cells are swapped, the cost is one more, the parent is p. */
  ghost predicate IsMoveTo(p: State, s: State, t: Position) {
    IsGrid(p.cells, p.n) && p.Valid() && p.indexOfEmpty.Some? &&
    t in LegalTargets(p.indexOfEmpty.value, p.n) && InGrid(p.cells, t) &&
    Swapped(p.cells, s.cells, p.indexOfEmpty.value, t) &&
    s.n == p.n && s.cost == p.cost + 1 && s.parentState == p && s.Valid()
  }

  /** ss are the boards one move from p towards the targets ts, one for one. */
  ghost predicate Children(p: State, ss: seq<State>, ts: seq<Position>) {
    |ss| == |ts| && forall k :: 0 <= k < |ss| ==> IsMoveTo(p, ss[k], ts[k])
  }

  lemma ChildrenConcat(p: State, s1: seq<State>, t1: seq<Position>, s2: seq<State>, t2: seq<Position>)
    requires Children(p, s1, t1) && Children(p, s2, t2)
    ensures Children(p, s1 + s2, t1 + t2)
  {
    forall k | 0 <= k < |s1 + s2|
      ensures IsMoveTo(p, (s1 + s2)[k], (t1 + t2)[k])
    {
      if k >= |s1| {
        assert (s1 + s2)[k] == s2[k - |s1|] && (t1 + t2)[k] == t2[k - |s1|];
      }
    }
  }

  /** A move that may be impossible: null when cond holds, else the move to t. */
  lemma OptionalChild(p: State, r: State?, cond: bool, t: Position)
    requires r == null <==> cond
    requires r != null ==> IsMoveTo(p, r, t)
    ensures Children(p, Present(r), if cond then [] else [t])
  {
  }

  /** The list holding s, or no element for null. */
  function Present(s: State?): seq<State> {
    if s == null then [] else [s]
  }

  /** The four optional moves of p's blank, listed in order, are the moves
      to its legal targets. */
  lemma FourChildren(p: State, left: State?, up: State?, right: State?, down: State?)
    requires IsGrid(p.cells, p.n) && p.Valid() && p.indexOfEmpty.Some?
    requires left == null <==> p.indexOfEmpty.value.j == 0
    requires left != null ==> IsMoveTo(p, left, Position(p.indexOfEmpty.value.i, p.indexOfEmpty.value.j - 1))
    requires up == null <==> p.indexOfEmpty.value.i == 0
    requires up != null ==> IsMoveTo(p, up, Position(p.indexOfEmpty.value.i - 1, p.indexOfEmpty.value.j))
    requires right == null <==> p.indexOfEmpty.value.j == p.n - 1
    requires right != null ==> IsMoveTo(p, right, Position(p.indexOfEmpty.value.i, p.indexOfEmpty.value.j + 1))
    requires down == null <==> p.indexOfEmpty.value.i == p.n - 1
    requires down != null ==> IsMoveTo(p, down, Position(p.indexOfEmpty.value.i + 1, p.indexOfEmpty.value.j))
    ensures Children(p, Present(left) + Present(up) + Present(right) + Present(down), LegalTargets(p.indexOfEmpty.value, p.n))
  {
    var e := p.indexOfEmpty.value;
    var tl: seq<Position> := if e.j == 0 then [] else [Position(e.i, e.j - 1)];
    var tu: seq<Position> := if e.i == 0 then [] else [Position(e.i - 1, e.j)];
    var tr: seq<Position> := if e.j == p.n - 1 then [] else [Position(e.i, e.j + 1)];
    var td: seq<Position> := if e.i == p.n - 1 then [] else [Position(e.i + 1, e.j)];
    OptionalChild(p, left, e.j == 0, Position(e.i, e.j - 1));
    OptionalChild(p, up, e.i == 0, Position(e.i - 1, e.j));
    OptionalChild(p, right, e.j == p.n - 1, Position(e.i, e.j + 1));
    OptionalChild(p, down, e.i == p.n - 1, Position(e.i + 1, e.j));
    ChildrenConcat(p, Present(left), tl, Present(up), tu);
    ChildrenConcat(p, Present(left) + Present(up), tl + tu, Present(right), tr);
    ChildrenConcat(p, Present(left) + Present(up) + Present(right), tl + tu + tr, Present(down), td);
    assert tl + tu + tr + td == LegalTargets(e, p.n);
  }

  lemma SameGoal(left: State?, up: State?, right: State?, down: State?, g: State?)
    requires left != null ==> left.goalState == g
    requires up != null ==> up.goalState == g
    requires right != null ==> right.goalState == g
    requires down != null ==> down.goalState == g
    ensures forall s :: s in Present(left) + Present(up) + Present(right) + Present(down) ==> s.goalState == g
  {
  }

  class State {
    const cells: Grid
    const n: int
    const cost: int
    const indexOfEmpty: Option<Position>
    const parentState: State?
    var goalState: State?

    /** The blank's position is the first cell holding 0. */
    predicate Valid() {
      indexOfEmpty == Find(cells, 0)
    }

    /** Stores the fields and locates the blank; the shape checks of the
        Java constructors are in FromGrid and FromString. */
    constructor (cells: Grid, n: int, cost: int, parentState: State?, goalState: State?)
      ensures this.cells == cells && this.n == n && this.cost == cost
      ensures this.parentState == parentState && this.goalState == goalState
      ensures Valid()
    {
      var e := FindEmpty(cells);
      this.cells := cells;
      this.n := n;
      this.cost := cost;
      this.indexOfEmpty := e;
      this.parentState := parentState;
      this.goalState := goalState;
    }

    /** The constructors from a two-dimensional array (the goal is null for
        the four-argument one). Only the number of rows and the length of the
        first row are checked. */
    static method FromGrid(state: Grid, n: int, cost: int, parentState: State?, goalState: State?)
      returns (r: Result<State, StateError>)
      ensures |state| != n ==> r == Failure(InvalidShape)
      ensures |state| == n && n == 0 ==> r == Failure(IndexOutOfBounds)
      ensures |state| == n && n > 0 && |state[0]| != n ==> r == Failure(InvalidShape)
      ensures |state| == n && n > 0 && |state[0]| == n ==>
        r.Success? && fresh(r.value) && r.value.Valid() &&
        r.value.cells == state && r.value.n == n && r.value.cost == cost &&
        r.value.parentState == parentState && r.value.goalState == goalState
    {
      if |state| != n {
        return Failure(InvalidShape);
      }
      if |state| == 0 {
        return Failure(IndexOutOfBounds);
      }
      if |state[0]| != n {
        return Failure(InvalidShape);
      }
      var s := new State(state, n, cost, parentState, goalState);
      return Success(s);
    }

    /** The constructor from a `-`-separated string: token k goes to row
        k / n, column k % n; the goal is null. */
    static method FromString(state: string, n: int, cost: int, parentState: State?)
      returns (r: Result<State, StateError>)
      ensures n < 0 ==> r == Failure(NegativeArraySize)
      ensures n >= 0 && |Split(state)| != n * n ==> r == Failure(InvalidShape)
      ensures n >= 0 && |Split(state)| == n * n && ParseAll(Split(state)).None? ==> r == Failure(NumberFormat)
      ensures n >= 0 && |Split(state)| == n * n && ParseAll(Split(state)).Some? ==>
        r.Success? && fresh(r.value) && r.value.Valid() &&
        r.value.cells == RowMajor(ParseAll(Split(state)).value, n) && r.value.n == n &&
        r.value.cost == cost && r.value.parentState == parentState && r.value.goalState == null
    {
      if n < 0 {
        return Failure(NegativeArraySize);
      }
      var tokens := Split(state);
      if |tokens| != n * n {
        return Failure(InvalidShape);
      }
      var tab := ParseCells(tokens, n);
      if tab.None? {
        return Failure(NumberFormat);
      }
      var s := new State(tab.value, n, cost, parentState, null);
      return Success(s);
    }

    /** The filling loop of the string constructor: Integer.valueOf of token
        i stored at row i / n, column i % n of a new int[n][n]; None as soon
        as a token is not a number. */
    static method ParseCells(tokens: seq<string>, n: nat) returns (r: Option<Grid>)
      requires |tokens| == n * n
      ensures r.None? <==> ParseAll(tokens).None?
      ensures r.Some? ==> r.value == RowMajor(ParseAll(tokens).value, n)
    {
      var tab := new int[n, n]((_, _) => 0);
      ghost var parsed := ParseAll(tokens);
      var i := 0;
      while i < |tokens|
        invariant 0 <= i <= |tokens|
        invariant PrefixParses(tokens, i)
        invariant parsed.Some? ==> forall k :: 0 <= k < i ==>
          0 <= k / n < n && 0 <= k % n < n && tab[k / n, k % n] == parsed.value[k]
      {
        var v := ParseToken(tokens[i]);
        ParseAllAt(tokens, i);
        if v.None? {
          return None;
        }
        CellOfIndex(n, i);
        tab[i / n, i % n] := v.value;
        forall k | 0 <= k < i
          ensures k / n != i / n || k % n != i % n
        {
          CellOfIndex(n, k);
        }
        i := i + 1;
      }
      ParseAllOfPrefix(tokens);
      var g := Snapshot(tab);
      RowMajorOfCells(g, parsed.value, n);
      return Some(g);
    }

    /** findEmpty: the first cell, row by row, holding 0. */
    static method FindEmpty(tab: Grid) returns (r: Option<Position>)
      ensures r == Find(tab, 0)
    {
      var i := 0;
      while i < |tab|
        invariant 0 <= i <= |tab|
        invariant Find(tab, 0) == FindFrom(tab, 0, i)
      {
        var j := 0;
        while j < |tab[i]|
          invariant 0 <= j <= |tab[i]|
          invariant FindInRow(tab[i], 0, 0) == FindInRow(tab[i], 0, j)
        {
          if tab[i][j] == 0 {
            return Some(Position(i, j));
          }
          j := j + 1;
        }
        i := i + 1;
      }
      return None;
    }

    /** getPerfectState: the solved board of side n, 1 .. n*n-1 row by row
        and the blank last, at cost 0 without parent or goal. */
    static method PerfectState(n: int) returns (r: Result<State, StateError>)
      ensures n < 0 ==> r == Failure(NegativeArraySize)
      ensures n == 0 ==> r == Failure(IndexOutOfBounds)
      ensures n > 0 ==>
        r.Success? && fresh(r.value) && r.value.Valid() && r.value.cells == PerfectGrid(n) &&
        r.value.n == n && r.value.cost == 0 && r.value.parentState == null && r.value.goalState == null
    {
      if n < 0 {
        return Failure(NegativeArraySize);
      }
      var goal := PerfectCells(n);
      if goal.None? {
        return Failure(IndexOutOfBounds);
      }
      var s := new State(goal.value, n, 0, null, null);
      return Success(s);
    }

    /** The filling of getPerfectState: cell i / n, i % n of a new int[n][n]
        receives i + 1 for every i below n*n - 1, then the bottom-right cell
        receives 0, which is out of bounds when n is 0 (None). */
    static method PerfectCells(n: nat) returns (r: Option<Grid>)
      ensures r.None? <==> n == 0
      ensures r.Some? ==> r.value == PerfectGrid(n)
    {
      var goal := new int[n, n]((_, _) => 0);
      var i := 0;
      while i < n * n - 1
        invariant 0 <= i <= if n == 0 then 0 else n * n - 1
        invariant forall k :: 0 <= k < i ==> 0 <= k / n < n && 0 <= k % n < n && goal[k / n, k % n] == k + 1
      {
        CellOfIndex(n, i);
        goal[i / n, i % n] := i + 1;
        forall k | 0 <= k < i
          ensures k / n != i / n || k % n != i % n
        {
          CellOfIndex(n, k);
        }
        i := i + 1;
      }
      if n == 0 {
        return None;
      }
      forall k | 0 <= k < n * n - 1
        ensures k / n != n - 1 || k % n != n - 1
      {
        CellOfIndex(n, k);
        LastCell(n, k / n, k % n);
      }
      goal[n - 1, n - 1] := 0;
      var g := Snapshot(goal);
      PerfectOfCells(g, n);
      return Some(g);
    }

    /** swapEmptyWith: a copy of the board in a fresh array, with the blank
        and newIndex exchanged, one move deeper and with the same goal. */
    method SwapEmptyWith(newIndex: Position) returns (r: State)
      requires IsGrid(cells, n) && Valid() && indexOfEmpty.Some? && InGrid(cells, newIndex)
      ensures fresh(r) && r.Valid()
      ensures r.cells == SwapCells(cells, indexOfEmpty.value, newIndex)
      ensures r.n == n && r.cost == cost + 1 && r.parentState == this && r.goalState == goalState
    {
      var g := CopySwapped(cells, n, indexOfEmpty.value, newIndex);
      r := new State(g, n, cost + 1, this, goalState);
    }

    /** The copying of swapEmptyWith: every cell of tab into a new int[n][n],
        then cell e receives the value of cell t and cell t receives 0. */
    static method CopySwapped(tab: Grid, n: int, e: Position, t: Position) returns (g: Grid)
      requires IsGrid(tab, n) && InGrid(tab, e) && InGrid(tab, t)
      ensures g == SwapCells(tab, e, t)
    {
      var a := new int[n, n]((_, _) => 0);
      var i := 0;
      while i < |tab|
        invariant 0 <= i <= n
        invariant forall x, y :: 0 <= x < i && 0 <= y < n ==> a[x, y] == tab[x][y]
      {
        var j := 0;
        while j < |tab[i]|
          invariant 0 <= j <= n
          invariant forall x, y :: 0 <= x < i && 0 <= y < n ==> a[x, y] == tab[x][y]
          invariant forall y :: 0 <= y < j ==> a[i, y] == tab[i][y]
        {
          a[i, j] := tab[i][j];
          j := j + 1;
        }
        i := i + 1;
      }
      assert a[t.i, t.j] == tab[t.i][t.j];
      a[e.i, e.j] := a[t.i, t.j];
      a[t.i, t.j] := 0;
      g := Snapshot(a);
      assert Swapped(tab, g, e, t);
      SwappedIsSwapCells(tab, g, e, t);
    }

    method MoveLeft() returns (r: State?)
      requires IsGrid(cells, n) && Valid() && indexOfEmpty.Some?
      ensures r == null <==> indexOfEmpty.value.j == 0
      ensures r != null ==>
        fresh(r) && r.goalState == goalState &&
        IsMoveTo(this, r, Position(indexOfEmpty.value.i, indexOfEmpty.value.j - 1))
    {
      var e := indexOfEmpty.value;
      if e.j == 0 {
        return null;
      }
      r := SwapEmptyWith(Position(e.i, e.j - 1));
      SwappedIsSwapCells(cells, r.cells, e, Position(e.i, e.j - 1));
    }

    method MoveRight() returns (r: State?)
      requires IsGrid(cells, n) && Valid() && indexOfEmpty.Some?
      ensures r == null <==> indexOfEmpty.value.j == n - 1
      ensures r != null ==>
        fresh(r) && r.goalState == goalState &&
        IsMoveTo(this, r, Position(indexOfEmpty.value.i, indexOfEmpty.value.j + 1))
    {
      var e := indexOfEmpty.value;
      if e.j == n - 1 {
        return null;
      }
      r := SwapEmptyWith(Position(e.i, e.j + 1));
      SwappedIsSwapCells(cells, r.cells, e, Position(e.i, e.j + 1));
    }

    method MoveUp() returns (r: State?)
      requires IsGrid(cells, n) && Valid() && indexOfEmpty.Some?
      ensures r == null <==> indexOfEmpty.value.i == 0
      ensures r != null ==>
        fresh(r) && r.goalState == goalState &&
        IsMoveTo(this, r, Position(indexOfEmpty.value.i - 1, indexOfEmpty.value.j))
    {
      var e := indexOfEmpty.value;
      if e.i == 0 {
        return null;
      }
      r := SwapEmptyWith(Position(e.i - 1, e.j));
      SwappedIsSwapCells(cells, r.cells, e, Position(e.i - 1, e.j));
    }

    method MoveDown() returns (r: State?)
      requires IsGrid(cells, n) && Valid() && indexOfEmpty.Some?
      ensures r == null <==> indexOfEmpty.value.i == n - 1
      ensures r != null ==>
        fresh(r) && r.goalState == goalState &&
        IsMoveTo(this, r, Position(indexOfEmpty.value.i + 1, indexOfEmpty.value.j))
    {
      var e := indexOfEmpty.value;
      if e.i == n - 1 {
        return null;
      }
      r := SwapEmptyWith(Position(e.i + 1, e.j));
      SwappedIsSwapCells(cells, r.cells, e, Position(e.i + 1, e.j));
    }

    /** The states one move away, in the order left, up, right, down. */
    method Successors() returns (succ: seq<State>)
      requires IsGrid(cells, n) && Valid() && indexOfEmpty.Some?
      ensures Children(this, succ, LegalTargets(indexOfEmpty.value, n))
      ensures forall s :: s in succ ==> s.goalState == goalState
    {
      var left := MoveLeft();
      succ := Present(left);
      var up := MoveUp();
      succ := succ + Present(up);
      var right := MoveRight();
      succ := succ + Present(right);
      var down := MoveDown();
      succ := succ + Present(down);
      FourChildren(this, left, up, right, down);
      SameGoal(left, up, right, down, goalState);
    }

    /** hashCode: the String.hashCode of the cells' decimal strings
        concatenated row by row. */
    method HashCode() returns (h: int)
      ensures h == Hash(cells)
    {
      var str := "";
      var i := 0;
      while i < |cells|
        invariant 0 <= i <= |cells|
        invariant str == GridString(cells, i)
      {
        var j := 0;
        while j < |cells[i]|
          invariant 0 <= j <= |cells[i]|
          invariant str == GridString(cells, i) + RowString(cells[i], j)
        {
          AppendCell(cells, i, j, str);
          str := str + IntString(cells[i][j]);
          j := j + 1;
        }
        AppendRow(cells, i, str);
        i := i + 1;
      }
      h := StringHashCode(str);
    }

    /** equals: the two hash codes agree. It looks at the boards only, never
        at cost, parent or goal. */
    method Equals(obj: State) returns (b: bool)
      ensures b <==> Hash(cells) == Hash(obj.cells)
    {
      var h1 := HashCode();
      var h2 := obj.HashCode();
      b := h1 == h2;
    }

    /** getPositionInGoalState: the first cell of the goal board holding number. */
    method PositionInGoalState(number: int) returns (r: Option<Position>)
      requires goalState != null && IsGrid(goalState.cells, n)
      ensures r == Find(goalState.cells, number)
    {
      var tab := goalState.cells;
      var i := 0;
      while i < n
        invariant 0 <= i <= n
        invariant Find(tab, number) == FindFrom(tab, number, i)
      {
        var j := 0;
        while j < n
          invariant 0 <= j <= n
          invariant FindInRow(tab[i], number, 0) == FindInRow(tab[i], number, j)
        {
          if tab[i][j] == number {
            return Some(Position(i, j));
          }
          j := j + 1;
        }
        i := i + 1;
      }
      return None;
    }

    /** getManhattanDistance: over every cell, blank included, the distance
        between the cell and its value's position in the goal. */
    method ManhattanDistance() returns (distance: int)
      requires goalState != null && IsGrid(goalState.cells, n) && Placed(cells, goalState.cells)
      ensures distance == Measure(Manhattan, cells, goalState.cells)
    {
      distance := 0;
      var i := 0;
      while i < |cells|
        invariant 0 <= i <= |cells|
        invariant distance == GridSum(Manhattan, cells, goalState.cells, i)
      {
        var j := 0;
        while j < |cells[i]|
          invariant 0 <= j <= |cells[i]|
          invariant distance == GridSum(Manhattan, cells, goalState.cells, i) + RowSum(Manhattan, cells, goalState.cells, i, j)
        {
          assert InCell(cells, i, j);
          var goalPos := PositionInGoalState(cells[i][j]);
          distance := distance + Abs(i - goalPos.value.i) + Abs(j - goalPos.value.j);
          j := j + 1;
        }
        i := i + 1;
      }
    }

    /** getMisplacedTiles: the number of cells, blank included, that are not
        their value's position in the goal. */
    method MisplacedTiles() returns (value: int)
      requires goalState != null && IsGrid(goalState.cells, n) && Placed(cells, goalState.cells)
      ensures value == Measure(Misplaced, cells, goalState.cells)
    {
      value := 0;
      var i := 0;
      while i < |cells|
        invariant 0 <= i <= |cells|
        invariant value == GridSum(Misplaced, cells, goalState.cells, i)
      {
        var j := 0;
        while j < |cells[i]|
          invariant 0 <= j <= |cells[i]|
          invariant value == GridSum(Misplaced, cells, goalState.cells, i) + RowSum(Misplaced, cells, goalState.cells, i, j)
        {
          assert InCell(cells, i, j);
          var goalPos := PositionInGoalState(cells[i][j]);
          if goalPos.value.i != i || goalPos.value.j != j {
            value := value + 1;
          }
          j := j + 1;
        }
        i := i + 1;
      }
    }

    method SetGoalState(goalState: State?)
      modifies this
      ensures this.goalState == goalState
    {
      this.goalState := goalState;
    }
  }

  /** A move keeps an n x n permutation board a permutation board, changes
      exactly the old and the new blank cell, and the blank ends up at t. */
  lemma MoveKeepsPermutation(p: State, s: State, t: Position)
    requires IsMoveTo(p, s, t) && IsPermutationGrid(p.cells, p.n)
    ensures IsPermutationGrid(s.cells, s.n)
    ensures s.indexOfEmpty == Some(t)
    ensures forall i, j :: InCell(p.cells, i, j) ==>
      (s.cells[i][j] != p.cells[i][j] <==> Position(i, j) == t || Position(i, j) == p.indexOfEmpty.value)
  {
    var e := p.indexOfEmpty.value;
    FindIsFirst(p.cells, 0);
    SwappedIsSwapCells(p.cells, s.cells, e, t);
    LegalTargetsSound(e, p.n);
    SwapKeepsPermutation(p.cells, p.n, e, t);
    SwapExchanges(p.cells, e, t);
    assert s.cells[t.i][t.j] == 0;
    FindDistinct(s.cells, t.i, t.j);
    assert p.cells[t.i][t.j] != 0 by {
      FindDistinct(p.cells, e.i, e.j);
    }
  }

  /** A move keeps the board square, its blank present and its set of values. */
  lemma MoveKeepsBoard(p: State, s: State, t: Position)
    requires IsMoveTo(p, s, t)
    ensures IsGrid(s.cells, s.n) && s.indexOfEmpty.Some? && Values(s.cells) == Values(p.cells)
  {
    FindIsFirst(p.cells, 0);
    SwappedIsSwapCells(p.cells, s.cells, p.indexOfEmpty.value, t);
    SwapKeepsBoard(p.cells, p.n, p.indexOfEmpty.value, t);
  }
}
