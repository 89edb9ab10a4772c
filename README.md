# Taquin: a verified model of the sliding-puzzle solver

This project models the core of the Taquin solver for the n x n sliding
puzzle (the 15-puzzle and its relatives) in Dafny, and proves properties of
the model. The core is three Java classes.

- **`Position`** is an immutable (row, column) pair. It is modelled as the
  datatype `Positions.Position(i, j)`. The getters `getI`/`getJ` are the
  destructors `.i`/`.j`, so each returns the value given to the constructor.
  A datatype value cannot be written after construction, and no bounds check
  exists: any pair of integers is a position. `findEmpty` and
  `getPositionInGoalState` build positions from on-board loop indices. The
  four moves build them by arithmetic, and `Grids.LegalTargetsSound` proves
  that those stay on the board.
- **`State`** is the class `Board.State`.
  - Its fields are the cells, the side `n`, the path cost, the blank's
    position and the parent. They are `const`, because the Java code never
    writes them after construction or writes into the array.
  - The goal board is a `var`, because `setGoalState` changes it in place.
  - The two throwing Java constructors are static methods returning a
    `Result`. Each exception is one `StateError` case.
  - The filling loops (the string constructor, `swapEmptyWith`,
    `getPerfectState`) write into a fresh `array2` and then read it back as
    rows.
  - `findEmpty`, `getPositionInGoalState`, `hashCode` and both heuristics are
    nested loops. Each is proved equal to a specification function: `Find`,
    `Hash` or `Measure`.
  - Hashing is modelled exactly: Java's `String.hashCode` over the cells'
    decimal strings, with 32-bit wrap-around. `equals` is hash equality, as in
    the source.
  - `Strings.HashCollision` proves that two different boards can compare
    equal: on a 4 x 4 board, the rows `1 12 11 2` and `11 2 1 12` both spell
    `112112`.
- **`Solver`** is the module `Search` plus a class `Search.Solver`. The class
  holds the expansion counter, which the Java code keeps as a static field.
  - `blindSolve` is a FIFO breadth-first search. It has an optional visited
    set and gives up when the queue holds more than `MaxSizeQueue` states on
    a board wider than 3.
  - `heuristicsSolve` is a greedy best-first search. It polls a state of least
    Manhattan or misplaced-tiles value. A successor is queued only when no
    visited state and no queued state equals it.
  - The queues are sequences.
  - `HashSet<State>` is a set of hash codes. That is exact, because
    `State.equals` and `State.hashCode` agree.
  - The parent walk of `displayFullPathOfResult` is `ParentPath`.

### What the proofs establish about the searches

- **Cost and parent chain.**
  - Every state either search queues or polls is reached from the initial
    state by `cost` legal blank moves, following parent links (`Reached`).
  - From such a state, walking parent links visits `cost + 1` states, each
    one legal move from the next (`ParentPath`, `WalkIsMoves`).
- **The counter** grows by exactly one per state polled, in both searches.
- **`blindSolve`.** `BlindSolve` returns, as ghost results, a record of
  its run: `polled[k]` is the state polled in round k, and `frontiers[k]` is
  the queue before that poll, with `frontiers[0] == [initialState]`. The
  result satisfies `BlindOutcome`, built on `BlindRun` and `BlindNext`:
  - Every polled state is the head of its frontier.
  - Each round that goes on takes its frontier to the next. With the visited
    set, a head whose hash a state polled earlier had is dropped, and the
    next frontier is the rest of the queue. Otherwise the head is not the
    goal, and the next frontier is the rest of the queue followed by the
    head's successors, which are the moves to its legal targets in order.
  - `Found` returns the last polled state. It passed the cutoff, hashes like
    the goal, and with the visited set no earlier poll had its hash. The
    record ends with the rest of its queue.
  - `Cutoff` returns the last polled state, and only when `size > 3` and more
    than `MaxSizeQueue` states remain after the poll.
  - `Exhausted` (the null result) ends with an empty frontier. `OutOfFuel`
    happens only without the visited set, after exactly `fuel` rounds, with
    states still queued.
  - With the visited set, a configuration polled a second time leaves the queue
    as its poll left it (`BlindSkipsRepeats`).
  - With the visited set, termination is proved: the set of unvisited 32-bit
    hash codes shrinks.
- **`heuristicsSolve`.** `HeuristicsSolve` returns a record `polled`,
  `frontiers`, `picks`, `children` of its run, with `frontiers[0] ==
  [initialState]`. It satisfies `HeurRun`:
  - Round k polls `frontiers[k][picks[k]]`, a state whose heuristic value is
    at most that of every state of `frontiers[k]`.
  - In each round that goes on, the polled state is not the goal, and
    `children[k]` are its successors. The next frontier is `Insert(Remove(frontiers[k],
    picks[k]), children[k], Hashes(polled[..k]))`. That is, each successor in
    order is appended unless a state polled earlier (a visited one) or a
    queued state equals it.
  - `InsertNew` computes `Insert`, and the loop of `Offer` calls computes
    `Enqueue`. About `Insert`:
    - the queue it starts from stays a prefix (`InsertPrefix`);
    - every appended state is a successor with an unvisited hash
      (`InsertFromSuccessors`);
    - every successor with an unvisited hash ends up equal to a queued state
      (`InsertCovers`);
    - the queue keeps no two equal states (`InsertDistinct`).
  - Every frontier up to the last expanded round holds no two equal states
    (`HeurDistinct`). No later round inserts a state equal to one already polled and
    expanded (`HeurNoReinsert`).
  - The result is the last polled state, never null. If it equals the goal,
    every earlier round went on, and the record ends with its frontier minus
    that state. Otherwise every round went on and the last frontier is empty.
  - Termination is proved from the number of 32-bit hash codes.

Where the documented behaviour and the code disagree, the model follows
the code.
- The comment on `successors` promises 2 to 4 successors for every board.
  The code gives none on a 1 x 1 board, and `LegalTargetsSound` states that
  case.
- The cutoff tests the queue after the poll, as the code does.

## Model

| member | source | states |
|---|---|---|
| Board.State.constructor | src/State.java:27-37 | stores cells, side, cost, parent and goal, and sets the blank's position to the first cell holding 0 (`Valid`) |
| Board.State.FromGrid | src/State.java:27-80 | when the row count is not n, or the first row's length is not n, fails with InvalidShape; with n = 0 it fails with IndexOutOfBounds (the read of `state[0]`); otherwise it gives a fresh valid state with exactly the given cells, side, cost, parent and goal |
| Board.State.FromString | src/State.java:48-65 | negative n fails as `new int[n][n]` does; a token count other than n*n fails with InvalidShape; a token that is not a number fails with NumberFormat; otherwise token k lands at row k / n, column k % n, with the given cost and parent and a null goal |
| Board.State.ParseCells | src/State.java:55-57 | the filling loop fails exactly when some token does not parse, and otherwise yields the row-major board of the parsed values |
| Board.State.FindEmpty | src/State.java:88-100 | returns exactly the row-major first cell holding 0, and None when no cell holds 0 |
| Grids.FindIsFirst | src/State.java:88-100 | Find fails exactly when the value is absent; otherwise it is an occurrence and no earlier cell in row-major order holds the value |
| Grids.FindDistinct | src/State.java:420-431 | on a board without repeated values, the search for a cell's value finds that very cell |
| Board.State.SwapEmptyWith | src/State.java:214-242 | a fresh valid state whose cells are the old cells with the blank and newIndex exchanged, cost one more, parent this and the same goal |
| Board.State.CopySwapped | src/State.java:216-229 | the copy-then-overwrite loop yields SwapCells of the source board (the source grid is a value and is untouched) |
| Grids.SwappedIsSwapCells | src/State.java:219-229 | the cell-by-cell description of the swap (the two cells exchanged, every other cell the same) holds exactly for SwapCells |
| Grids.SwapExchanges | src/State.java:227-229 | with the blank at e, after the swap the cell e holds t's old value and t holds 0 |
| Grids.SwapKeepsBoard | src/State.java:214-242 | the swap keeps the n x n shape and the set of values, and a blank remains |
| Grids.SwapKeepsPermutation | src/State.java:214-242 | a board holding each of 0 .. n*n-1 once still does after a blank swap |
| Board.MoveKeepsPermutation | src/State.java:214-242 | a move keeps a permutation board a permutation board, changes exactly the old and new blank cell, and leaves the blank at the target |
| Board.MoveKeepsBoard | src/State.java:214-242 | a move keeps the board square, keeps a blank and keeps the values |
| Board.State.MoveLeft | src/State.java:147-155 | null exactly when the blank is in column 0, otherwise the move to the cell on the left |
| Board.State.MoveRight | src/State.java:161-169 | null exactly when the blank is in column n-1, otherwise the move to the cell on the right |
| Board.State.MoveUp | src/State.java:175-183 | null exactly when the blank is in row 0, otherwise the move to the cell above |
| Board.State.MoveDown | src/State.java:189-197 | null exactly when the blank is in row n-1, otherwise the move to the cell below |
| Board.State.Successors | src/State.java:108-141 | the successors are, one for one and in order, the moves to the legal targets left, up, right, down, each carrying this state's goal |
| Board.FourChildren | src/State.java:108-141 | the four optional moves, kept where non-null and in order, are exactly the moves to LegalTargets |
| Grids.LegalTargetsSound | src/State.java:103-197 | every target is an on-board orthogonal neighbour of the blank; no target repeats; there are 2 to 4 targets when n >= 2 and none when n = 1 |
| Board.State.HashCode | src/State.java:273-281 | the nested loop's string hash equals Hash of the cells, which depends on the cells only |
| Board.State.Equals | src/State.java:205-207 | true exactly when the two boards' hashes agree, whatever the cost, parent or goal |
| Strings.StringHashCodeStep | src/State.java:280 | the hash of the empty string is 0, and each further character c maps h to 31*h + c wrapped to 32 bits, as Java int arithmetic does |
| Strings.Wrap32 | src/State.java:280 | the result is a Java int congruent to its argument modulo 2^32 |
| Strings.Hash | src/State.java:273-281 | a board's hash code is a 32-bit int |
| Strings.GridStringSameRows | src/State.java:274-279 | boards whose rows spell the same digit strings build the same hashed string |
| Strings.RowsCollide | src/State.java:277 | the rows 1, 12, 11, 2 and 11, 2, 1, 12 spell the same string |
| Strings.HashCollision | src/State.java:205-281 | there are different boards with equal hashes, so `equals` does not imply an equal board |
| Strings.DigitsOfNat | src/State.java:277 | the decimal string of a natural number is non-empty, all digits, and reads back as the number |
| Strings.ParseIntString | src/State.java:56 | parsing a token inverts printing it, for every Java int |
| Strings.ParseAllSound | src/State.java:55-57 | parsing all tokens succeeds exactly when each token parses, and then yields each token's value in order |
| Strings.JoinFields | src/State.java:51 | the `-`-separated fields joined back with `-` give the string again |
| Strings.FieldsOfJoin | src/State.java:51 | splitting a `-`-join of `-`-free pieces gives back the pieces |
| Strings.EncodeRoundTrip | src/State.java:48-57 | splitting and parsing the `-`-encoding of a list of non-negative ints gives back the list |
| Grids.RowMajorIndex | src/State.java:55-57 | cell (i, j) of an n x n board is row-major number i*n + j, and dividing that number by n gives back i and j |
| Grids.CellOfIndex | src/State.java:55-57 | row-major number k of an n x n board names an on-board cell (k / n, k % n) |
| Grids.RowMajorPlacement | src/State.java:55-57 | value number k of the list stands at row k / n, column k % n |
| Grids.RowMajorOfCells | src/State.java:55-59 | a board holding value k at (k / n, k % n) for every k is the row-major board of the values |
| Board.State.PerfectState | src/State.java:320-330 | negative n fails as `new int[n][n]` does and n = 0 fails at the corner write; otherwise a fresh valid state holding the solved board, at cost 0, with no parent and no goal |
| Board.State.PerfectCells | src/State.java:321-327 | the filling loop yields None exactly when n = 0, and otherwise the solved board |
| Grids.PerfectGridRowMajor | src/State.java:324-327 | row-major cell k of the solved board holds k + 1 for k < n*n - 1, and the bottom-right cell holds 0 |
| Grids.PerfectOfCells | src/State.java:324-327 | a board filled as getPerfectState fills it is the solved board |
| Grids.PerfectCell | src/State.java:320-330 | each cell of the solved board: 0 in the corner, otherwise its row-major number plus one |
| Grids.PerfectGridIsPermutation | src/State.java:320-330 | the solved board holds each of 0 .. n*n-1 once, with the blank in the bottom-right corner |
| Grids.LastCell | src/State.java:324-327 | the bottom-right cell is the only one whose row-major number is n*n - 1 |
| Board.State.PositionInGoalState | src/State.java:420-431 | the row-major first cell of the goal board holding the number, or None when the goal lacks it |
| Board.State.ManhattanDistance | src/State.java:369-386 | the loop's total is exactly the Manhattan measure: the sum over all cells, blank included, of the distance to the value's goal cell |
| Board.State.MisplacedTiles | src/State.java:393-413 | the loop's total is exactly the misplaced measure: the number of cells, blank included, that are not their value's goal cell |
| Heuristics.TermZero | src/State.java:378-380 | a cell contributes 0 exactly when its value's goal cell is that cell |
| Heuristics.TermMisplacedAtMostManhattan | src/State.java:402-407 | a cell contributes no more to the misplaced count than to the Manhattan distance |
| Heuristics.MeasureZero | src/State.java:369-413 | a heuristic is 0 exactly when every value stands at its goal cell |
| Heuristics.MeasureZeroIffGoal | src/State.java:369-413 | against a goal of the same size without repeated values, each heuristic is 0 exactly when the board is the goal |
| Heuristics.PlacedInSelf | src/State.java:420-431 | every value of a board has a position in that same board, so a board can be scored against itself |
| Heuristics.MisplacedBounds | src/State.java:393-413 | the misplaced count of an n x n board lies in [0, n*n] and never exceeds the Manhattan distance |
| Board.State.SetGoalState | src/State.java:437-439 | the goal field becomes the given state |
| Search.Solver.constructor | src/Solver.java:14 | the counter starts at 0 |
| Search.Solver.BlindSolve | src/Solver.java:134-188 | the counter grows by the number of polls; BlindOutcome holds of the run's record: every polled state is reached and is the head of its frontier, each round that went on is a BlindNext step, Found is a last poll that passed the cutoff, hashes like the goal and was not seen before, Cutoff fires exactly on an oversized rest, Exhausted ends with an empty queue and OutOfFuel only without the visited set after fuel rounds |
| Search.Solver.BlindRound | src/Solver.java:149-184 | one loop iteration: one count, the poll of the queue's head recorded, then either a stop as Found or Cutoff with BlindOutcome, or a BlindNext step that keeps the loop's record and, with optimize, lowers the measure |
| Search.BlindStep | src/Solver.java:162-183 | the goal is found exactly when the state is not a visited one and hashes like the goal; with optimize the visited set gains the state's hash; any other outcome is a BlindNext step: a visited state leaves the rest of the queue, any other has its successors appended, in order, after the rest |
| Search.BlindAppend | src/Solver.java:152 | recording one more poll of the queue's head keeps the record of the earlier rounds |
| Search.BlindExtend | src/Solver.java:157-183 | a round that passed the cutoff and took its step extends the record by that round |
| Search.BlindQuit | src/Solver.java:149-187 | the loop ends with Exhausted when the queue is empty, and with OutOfFuel when the rounds run out without a visited set |
| Search.BlindSkipsRepeats | src/Solver.java:162-164 | with the visited set, a later poll of an already polled configuration leaves the queue as its poll left it |
| Search.DistinctAppend | src/Solver.java:254-255 | adding a state whose hash is new keeps the hashes of a list distinct |
| Search.VisitShrinks | src/Solver.java:164-166 | marking a new 32-bit hash visited shrinks the set of unvisited hashes |
| Search.ChildReached | src/State.java:241 | a legal move from a state reached by k moves gives a state reached by k + 1 moves, with the same side and values |
| Search.SuccessorsReached | src/Solver.java:172-182 | the successors of a reached state are reached, expandable and of the same side |
| Search.DescendsParent | src/State.java:241 | a state reached by k > 0 moves has a parent reached by k - 1 moves, one legal move away |
| Search.DescendsAncestry | src/Solver.java:205-211 | from a state reached by k moves, k parent links lead back to the root |
| Search.ParentPath | src/Solver.java:205-211 | the walk from the result lists result, its parent and so on, k + 1 states ending at the root; nothing for a null result |
| Search.WalkIsMoves | src/Solver.java:205-211 | along that walk each state is one legal move from the next, and the walk ends at the root |
| Search.Kind | src/Solver.java:235-236 | the Manhattan heuristic is chosen exactly when the flag is set |
| Search.Score | src/Solver.java:234-238 | the comparator's value is the chosen heuristic of the state against its goal |
| Search.PollMin | src/Solver.java:234-247 | the polled index holds a state whose chosen heuristic is at most that of every queued state |
| Search.PlacedByValues | src/State.java:420-431 | every value of a board has a goal position exactly when its values are among the goal's |
| Search.SuccessorsScorable | src/State.java:241 | successors carry the goal and the values of their parent, so they can be scored against the same goal |
| Search.FrontierContains | src/Solver.java:254 | true exactly when some queued state equals the successor |
| Search.Offer | src/Solver.java:254-255 | the queue after one successor is Enqueue: the successor appended when its hash is neither visited nor queued, and the queue unchanged otherwise |
| Search.InsertNew | src/Solver.java:253-256 | the loop's queue is Insert of the frontier and the successors: each successor, in order, offered by Enqueue |
| Search.InsertPrefix | src/Solver.java:253-256 | the insertion loop only appends: the frontier it starts from is a prefix of its result |
| Search.InsertFromSuccessors | src/Solver.java:253-256 | every state the loop appends is one of the successors, with a hash that was not visited |
| Search.InsertCovers | src/Solver.java:253-256 | every queued hash stays queued, and every successor whose hash was not visited ends up equal to a queued state |
| Search.InsertDistinct | src/Solver.java:253-256 | a queue without two equal states keeps that property through the loop |
| Search.InsertGrows | src/Solver.java:253-256 | a loop that changes the queue appends first a state whose hash is neither visited nor queued |
| Search.InsertKeeps | src/Solver.java:253-256 | the loop keeps every queued state reached from the root and scorable against the goal |
| Search.RemoveKeeps | src/Solver.java:247 | removing the polled state keeps the rest reached and scorable |
| Search.DistinctRemove | src/Solver.java:247 | removing the polled state keeps the rest free of equal states |
| Search.RoundShrinks | src/Solver.java:246-258 | a round lowers the termination measure: either a new hash enters the queue, or the polled hash becomes visited, or the queue shrinks |
| Search.Grow | src/Solver.java:251-257 | after a non-goal poll: the successors are the moves to the legal targets, the new queue is Insert of the rest and those successors against the visited hashes, it stays reached and scorable, and marking the polled hash visited lowers the termination measure |
| Search.Solver.Poll | src/Solver.java:247-250 | the counter grows by one; the polled state is at the returned index, has the least heuristic value in the queue and is compared with the goal by hash; the rest is the queue without that index, still reached and scorable |
| Search.HeurAppend | src/Solver.java:246-258 | recording one more round, with its pick and, when it went on, its successors, keeps the record of the run |
| Search.HeurDistinct | src/Solver.java:253-256 | every frontier of the run up to the last expanded round holds no two equal states |
| Search.HeurNoReinsert | src/Solver.java:254-257 | a state added in a later round never equals a state polled and expanded earlier |
| Search.Solver.Round | src/Solver.java:246-258 | one loop iteration: one count, then the record of the run extended by this round: a least poll, a goal test by hash, and, if the state is not the goal, the successors inserted by Insert, the polled state's hash visited, and a lower termination measure |
| Search.Solver.HeuristicsSolve | src/Solver.java:233-261 | never returns null; returns the last polled state; the counter grows by the number of polls; HeurRun holds of the record: each poll is a least state of its frontier, and each round that went on polled a non-goal and computed the next frontier by Insert; if the result equals the goal, the record ends with its frontier minus that state, and otherwise every round went on and the last frontier is empty |

## Left out

- `getRandomState` depends on `java.util.Random`. Initial and goal boards are inputs instead.
- `main` is left out: the argument handling, `System.exit`, result printing and `toString`. So is the printing half of `displayFullPathOfResult`, that is the stack pop loop and the output. The debug prints in the two heuristics are dropped as well.
- `Math.pow(n, 2)` is a double in the source. The model compares with the integer n*n.
- Board.State.FromString: Java splits on a regular expression and `Integer.valueOf` accepts any int with a leading `+` or `-`. The model splits on the character `-`, drops trailing empty fields as Java does, and parses an optional sign followed by digits, rejecting values outside the 32-bit range as `Integer.valueOf` does.
- Strings.ParseToken: `Integer.valueOf` accepts any Unicode decimal digit through `Character.digit`, such as the fullwidth digit `１`. The model accepts only `0` to `9`, so such tokens fail with NumberFormat.
- Board.State.FromGrid: only the row count and the first row's length are checked, as in the source. Ragged later rows are accepted; the moves and successors then require a square board.
- Board.State.Successors: it requires a square board with a blank. Without a blank the source throws a NullPointerException, which is not modelled. Its contract does not state that the successors are fresh objects.
- Board.State.ManhattanDistance: it requires a goal of the same size that holds every value of the board. A value missing from the goal makes the source throw a NullPointerException, which is not modelled. The same holds for Board.State.MisplacedTiles and Search.Score.
- Overflow of the Java `int` fields `cost` and `count`, and of the heuristic sums, is not modelled. They are unbounded integers. Hash codes do wrap to 32 bits.
- Aliasing of the board arrays is not modelled. Boards are immutable values, because no method of the core writes into an existing array.
- `PriorityQueue` heap layout and tie-breaking are not modelled. The poll takes the first state of least value; any least state satisfies the contract.
- Search.PollMin: the Java comparator re-evaluates heuristics on every comparison. The model evaluates each queued state once per poll.
- Search.Solver.BlindSolve: without `optimize`, the source can loop forever. The model stops after `fuel` rounds and returns `OutOfFuel`. The result is an `Outcome` that tells Found, Cutoff and Exhausted apart, where Java returns the same `State` or `null` in those cases. Minimality of the path cost for breadth-first search is not proved.
- Search.Solver.HeuristicsSolve: it requires the initial state's goal to be set, as `main` does before the search, and the initial board to be scorable against it, which `main` does not check. An initial board holding a value the goal lacks makes the source throw a NullPointerException in the comparator; that is not modelled (see Board.State.ManhattanDistance). The `size` parameter is unused. A successor with the same hash as its own parent can enter the queue in the parent's round, because the source marks the parent visited only after the insertion loop; `HeurNoReinsert` covers the later rounds only.
- Search.Solver.HeuristicsSolve: it also requires the initial board to be square with a blank (`Fit`). The source returns a blankless initial board that equals the goal at once, and throws only when it expands one. The model does not cover a blankless initial board.
- Search.Solver.BlindSolve: it requires the initial board to be square with a blank (`Fit`). The source returns a blankless initial board that equals the goal at once, and throws only when it expands one. The model does not cover a blankless initial board.
- Search.Solver.Poll: the counter is incremented before the goal test, as in the source. The poll and the goal test are modelled together in one method.
- `getState`, `getN`, `getCost`, `getParentState` and `getGoalState` are the fields `cells`, `n`, `cost`, `parentState` and `goalState`.
- The Java static `count` is a field of a `Solver` object. Its use across calls, in `main`, is not modelled.
