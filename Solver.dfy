/** The search strategies of the solver: breadth-first search with an
    optional visited set and a frontier cutoff, greedy best-first search
    ordered by one heuristic, and the parent walk that recovers a path. */
module Search {
  import opened Wrappers
  import opened Positions
  import opened Grids
  import opened Strings
  import opened Heuristics
  import opened Board

  /** Above this many queued states a search on a board wider than 3 gives up. */
  const MaxSizeQueue: int := 1000000

  /** Every value a 32-bit hash code can take. */
  ghost const Int32s: set<int> := set x | MinInt32 <= x <= MaxInt32

  /** The boards Successors accepts: square, with the blank located. */
  ghost predicate Fit(s: State) {
    IsGrid(s.cells, s.n) && s.Valid() && s.indexOfEmpty.Some?
  }

  /** s is reached from root by k legal blank moves, following parent links. */
  ghost predicate Descends(s: State, root: State, k: nat)
    decreases k, 2
  {
    if k == 0 then s == root else Linked(s, root, k)
  }

  /** The last of those k moves starts at the parent of s. */
  ghost predicate Linked(s: State, root: State, k: nat)
    requires k > 0
    decreases k, 1
  {
    s.parentState != null && Moved(s.parentState, s, root, k)
  }

  /** s is one legal blank move from p. */
  ghost predicate Step(p: State, s: State) {
    exists t :: IsMoveTo(p, s, t)
  }

  /** s is one legal move from p, and p descends from root by k - 1 moves. */
  ghost predicate Moved(p: State, s: State, root: State, k: nat)
    requires k > 0
    decreases k, 0
  {
    Step(p, s) && Descends(p, root, k - 1)
  }

  lemma {:induction false} DescendsParent(s: State, root: State, k: nat)
    requires k > 0 && Descends(s, root, k)
    ensures s.parentState != null && Descends(s.parentState, root, k - 1)
    ensures Step(s.parentState, s)
  {
    assert Linked(s, root, k);
    assert Moved(s.parentState, s, root, k);
  }

  /** The cost of s is the number of moves separating it from root. */
  ghost predicate Reached(s: State, root: State) {
    s.cost >= root.cost && Descends(s, root, s.cost - root.cost)
  }

  /** Every queued state is reached from root, can be expanded and has
      root's side. */
  ghost predicate Tree(q: seq<State>, root: State) {
    forall k :: 0 <= k < |q| ==> Reached(q[k], root) && Fit(q[k]) && q[k].n == root.n
  }

  /** The hash codes of the states of q. */
  function Hashes(q: seq<State>): set<int> {
    set k | 0 <= k < |q| :: Hash(q[k].cells)
  }

  /** No two states of q are equal in the sense of State.Equals. */
  ghost predicate DistinctHashes(q: seq<State>) {
    forall a, b :: 0 <= a < b < |q| ==> Hash(q[a].cells) != Hash(q[b].cells)
  }

  /** The heuristic chosen by the flag of heuristicsSolve. */
  function Kind(manhattan: bool): (h: Heuristic)
    ensures h == Manhattan <==> manhattan
  {
    if manhattan then Manhattan else Misplaced
  }

  /** s can be scored against the goal board g0 that every state of the
      search carries. */
  ghost predicate Scorable(s: State, g0: State)
    reads s
  {
    s.goalState == g0 && IsGrid(g0.cells, s.n) && Placed(s.cells, g0.cells)
  }

  ghost predicate AllScorable(q: seq<State>, g0: State)
    reads q
  {
    forall k :: 0 <= k < |q| ==> Scorable(q[k], g0)
  }

  /** s is one of the states of q with the least heuristic value. */
  ghost predicate IsMinOf(s: State, q: seq<State>, h: Heuristic, goal: Grid) {
    s in q && Placed(s.cells, goal) &&
    forall k :: 0 <= k < |q| ==> Placed(q[k].cells, goal) && Measure(h, s.cells, goal) <= Measure(h, q[k].cells, goal)
  }

  /** One legal move from a reached state gives a reached state one deeper,
      with the same side and the same set of values. */
  lemma ChildReached(p: State, s: State, t: Position, root: State)
    requires Reached(p, root) && IsMoveTo(p, s, t)
    ensures Reached(s, root) && Fit(s) && s.n == p.n && Values(s.cells) == Values(p.cells)
  {
    MoveKeepsBoard(p, s, t);
    var k := p.cost - root.cost;
    assert s.cost - root.cost == k + 1;
    assert Step(p, s);
    assert Moved(p, s, root, k + 1);
    assert Linked(s, root, k + 1);
  }

  /** The successors of a reached state are reached states of the same side. */
  lemma {:induction false} SuccessorsReached(p: State, succ: seq<State>, root: State)
    requires Reached(p, root) && Fit(p) && p.n == root.n
    requires Children(p, succ, LegalTargets(p.indexOfEmpty.value, p.n))
    ensures Tree(succ, root)
    ensures forall k :: 0 <= k < |succ| ==> Values(succ[k].cells) == Values(p.cells)
  {
    forall k | 0 <= k < |succ|
      ensures Reached(succ[k], root) && Fit(succ[k]) && succ[k].n == root.n
      ensures Values(succ[k].cells) == Values(p.cells)
    {
      ChildReached(p, succ[k], LegalTargets(p.indexOfEmpty.value, p.n)[k], root);
    }
  }

  lemma {:induction false} TreeAppend(q1: seq<State>, q2: seq<State>, root: State)
    requires Tree(q1, root) && Tree(q2, root)
    ensures Tree(q1 + q2, root)
  {
    forall k | 0 <= k < |q1 + q2|
      ensures Reached((q1 + q2)[k], root) && Fit((q1 + q2)[k]) && (q1 + q2)[k].n == root.n
    {
      if k >= |q1| {
        assert (q1 + q2)[k] == q2[k - |q1|];
      }
    }
  }

  /** A board is placed against a goal exactly when its values occur there. */
  lemma PlacedByValues(g: Grid, goal: Grid)
    ensures Placed(g, goal) <==> Values(g) <= Values(goal)
  {
    if Placed(g, goal) {
      forall v | v in Values(g) ensures v in Values(goal) {
        var i, j :| 0 <= i < |g| && 0 <= j < |g[i]| && g[i][j] == v;
        assert InCell(g, i, j);
        FindIsFirst(goal, v);
      }
    }
    if Values(g) <= Values(goal) {
      forall i, j | InCell(g, i, j) ensures Find(goal, g[i][j]).Some? {
        assert g[i][j] in Values(g);
        FindIsFirst(goal, g[i][j]);
      }
    }
  }

  /** The successors of a scorable state are scorable against the same goal. */
  lemma {:induction false} SuccessorsScorable(p: State, succ: seq<State>, g0: State)
    requires Scorable(p, g0)
    requires forall k :: 0 <= k < |succ| ==> succ[k].n == p.n && Values(succ[k].cells) == Values(p.cells)
    requires forall s :: s in succ ==> s.goalState == p.goalState
    ensures AllScorable(succ, g0)
  {
    PlacedByValues(p.cells, g0.cells);
    forall k | 0 <= k < |succ| ensures Scorable(succ[k], g0) {
      PlacedByValues(succ[k].cells, g0.cells);
    }
  }

  lemma {:induction false} HashesConcat(a: seq<State>, b: seq<State>)
    ensures Hashes(a + b) == Hashes(a) + Hashes(b)
  {
    var r := a + b;
    forall x | x in Hashes(r) ensures x in Hashes(a) + Hashes(b) {
      var k :| 0 <= k < |r| && Hash(r[k].cells) == x;
      if k < |a| {
        assert r[k] == a[k];
      } else {
        assert r[k] == b[k - |a|];
      }
    }
    forall x | x in Hashes(a) ensures x in Hashes(r) {
      var k :| 0 <= k < |a| && Hash(a[k].cells) == x;
      assert r[k] == a[k];
    }
    forall x | x in Hashes(b) ensures x in Hashes(r) {
      var k :| 0 <= k < |b| && Hash(b[k].cells) == x;
      assert r[k + |a|] == b[k];
    }
  }

  lemma {:induction false} HashesAppend(q: seq<State>, s: State)
    ensures Hashes(q + [s]) == Hashes(q) + {Hash(s.cells)}
  {
    HashesConcat(q, [s]);
    assert [s][0] == s;
  }

  /** A state whose hash is new keeps the hashes of q distinct. */
  lemma {:induction false} DistinctAppend(q: seq<State>, s: State)
    requires DistinctHashes(q) && Hash(s.cells) !in Hashes(q)
    ensures DistinctHashes(q + [s])
  {
    var r := q + [s];
    forall a, b | 0 <= a < b < |r| ensures Hash(r[a].cells) != Hash(r[b].cells) {
      assert r[a] == q[a];
      if b < |q| {
        assert r[b] == q[b];
      } else {
        assert Hash(q[a].cells) in Hashes(q);
      }
    }
  }

  /** Removing the state at idx removes its hash and keeps the others. */
  lemma {:induction false} HashesRemove(q: seq<State>, idx: int)
    requires 0 <= idx < |q|
    ensures Hashes(q) == Hashes(q[..idx] + q[idx + 1..]) + {Hash(q[idx].cells)}
  {
    assert q == q[..idx] + [q[idx]] + q[idx + 1..];
    HashesConcat(q[..idx] + [q[idx]], q[idx + 1..]);
    HashesConcat(q[..idx], [q[idx]]);
    HashesConcat(q[..idx], q[idx + 1..]);
    assert Hashes([q[idx]]) == {Hash(q[idx].cells)} by {
      assert [q[idx]][0] == q[idx];
    }
  }

  /** Marking a new 32-bit hash as visited shrinks the unvisited hashes. */
  lemma VisitShrinks(visited: set<int>, h: int)
    requires IsInt32(h) && h !in visited
    ensures Int32s - (visited + {h}) < Int32s - visited
  {
    assert h in Int32s - visited;
  }

  /** The termination measure of the best-first search, ordered
      lexicographically: the 32-bit hashes neither visited nor queued, the
      hashes not visited, and the length of the frontier. */
  ghost predicate Progress(v: set<int>, q: seq<State>, v': set<int>, q': seq<State>) {
    Int32s - (v' + Hashes(q')) < Int32s - (v + Hashes(q)) ||
    (Int32s - (v' + Hashes(q')) == Int32s - (v + Hashes(q)) &&
      (Int32s - v' < Int32s - v || (Int32s - v' == Int32s - v && |q'| < |q|)))
  }

  /** How blindSolve ended. Found and Cutoff carry the state it returns;
      Exhausted is its null result. */
  datatype Outcome =
    | Found(s: State)     // a polled state equal to the goal
    | Cutoff(s: State)    // the frontier outgrew MaxSizeQueue on a board wider than 3
    | Exhausted           // the queue became empty
    | OutOfFuel           // the bound on rounds without a visited set ran out

  /** The heuristic of s, as the comparator of heuristicsSolve computes it. */
  method Score(s: State, manhattan: bool) returns (v: int)
    requires s.goalState != null && IsGrid(s.goalState.cells, s.n) && Placed(s.cells, s.goalState.cells)
    ensures v == Measure(Kind(manhattan), s.cells, s.goalState.cells)
  {
    if manhattan {
      v := s.ManhattanDistance();
    } else {
      v := s.MisplacedTiles();
    }
  }

  /** The poll of the priority queue: the index of a state with the least
      heuristic value (the first one found). */
  method PollMin(q: seq<State>, manhattan: bool, ghost g0: State) returns (idx: int)
    requires |q| > 0 && AllScorable(q, g0)
    ensures 0 <= idx < |q| && IsMinOf(q[idx], q, Kind(manhattan), g0.cells)
  {
    assert Scorable(q[0], g0);
    idx := 0;
    var best := Score(q[0], manhattan);
    var k := 1;
    while k < |q|
      invariant 1 <= k <= |q| && 0 <= idx < k
      invariant Placed(q[idx].cells, g0.cells) && best == Measure(Kind(manhattan), q[idx].cells, g0.cells)
      invariant forall j :: 0 <= j < k ==> Placed(q[j].cells, g0.cells) && best <= Measure(Kind(manhattan), q[j].cells, g0.cells)
    {
      assert Scorable(q[k], g0);
      var v := Score(q[k], manhattan);
      if v < best {
        idx := k;
        best := v;
      }
      k := k + 1;
    }
  }

  /** The contains test of the priority queue: some queued state equals s. */
  method FrontierContains(q: seq<State>, s: State) returns (b: bool)
    ensures b <==> Hash(s.cells) in Hashes(q)
  {
    var k := 0;
    while k < |q|
      invariant 0 <= k <= |q|
      invariant Hash(s.cells) !in Hashes(q[..k])
    {
      var eq := s.Equals(q[k]);
      if eq {
        assert Hash(q[k].cells) in Hashes(q);
        return true;
      }
      HashesAppend(q[..k], q[k]);
      assert q[..k + 1] == q[..k] + [q[k]];
      k := k + 1;
    }
    assert q[..|q|] == q;
    return false;
  }

  /** Following k parent links from s leads to root. */
  ghost predicate Ancestry(s: State, root: State, k: nat)
    decreases k
  {
    if k == 0 then s == root else s.parentState != null && Ancestry(s.parentState, root, k - 1)
  }

  lemma {:induction false} DescendsAncestry(s: State, root: State, k: nat)
    requires Descends(s, root, k)
    ensures Ancestry(s, root, k)
    decreases k
  {
    if k > 0 {
      DescendsParent(s, root, k);
      DescendsAncestry(s.parentState, root, k - 1);
    }
  }

  /** The parent walk of displayFullPathOfResult: result, its parent, and so
      on up to the state without parent; nothing for a null result. */
  method ParentPath(result: State?, ghost root: State, ghost k: nat) returns (path: seq<State>)
    requires result != null ==> Ancestry(result, root, k) && root.parentState == null
    ensures result == null ==> path == []
    ensures result != null ==> |path| == k + 1 && path[0] == result && path[k] == root
    ensures forall i :: 0 <= i < |path| - 1 ==> path[i + 1] == path[i].parentState
  {
    if result == null {
      return [];
    }
    path := [];
    var temp: State? := result;
    ghost var d: int := k;
    while temp != null
      invariant -1 <= d <= k && |path| == k - d
      invariant temp != null ==> 0 <= d && Ancestry(temp, root, d)
      invariant temp == null ==> d == -1 && path[k] == root
      invariant path == [] ==> temp == result
      invariant path != [] ==> path[0] == result && temp == path[|path| - 1].parentState
      invariant forall i :: 0 <= i < |path| - 1 ==> path[i + 1] == path[i].parentState
      decreases d + 1
    {
      path := path + [temp];
      temp := temp.parentState;
      d := d - 1;
    }
  }

  lemma {:induction false} WalkDescends(path: seq<State>, root: State, k: nat, i: int)
    requires |path| == k + 1 && Descends(path[0], root, k)
    requires forall j :: 0 <= j < k ==> path[j + 1] == path[j].parentState
    requires 0 <= i <= k
    ensures Descends(path[i], root, k - i)
    decreases i
  {
    if i > 0 {
      WalkDescends(path, root, k, i - 1);
      DescendsParent(path[i - 1], root, k - i + 1);
    }
  }

  /** Along a walk of parent links from a state that descends from root by
      k moves, each state is a legal move from the next one. */
  lemma {:induction false} WalkIsMoves(path: seq<State>, root: State, k: nat)
    requires |path| == k + 1 && Descends(path[0], root, k)
    requires forall i :: 0 <= i < k ==> path[i + 1] == path[i].parentState
    ensures path[k] == root
    ensures forall i :: 0 <= i < k ==> Step(path[i + 1], path[i])
  {
    WalkDescends(path, root, k, k);
    forall i | 0 <= i < k ensures Step(path[i + 1], path[i]) {
      WalkDescends(path, root, k, i);
      DescendsParent(path[i], root, k - i);
    }
  }

  /** The queue once the state at index i is polled out of it. */
  function Remove(q: seq<State>, i: int): seq<State>
    requires 0 <= i < |q|
  {
    q[..i] + q[i + 1..]
  }

  /** One successor offered to the priority queue: it joins the end unless
      its hash was visited or a queued state equals it. */
  function Enqueue(q: seq<State>, s: State, visited: set<int>): seq<State> {
    if Hash(s.cells) !in visited && Hash(s.cells) !in Hashes(q) then q + [s] else q
  }

  /** The successor loop of heuristicsSolve: the successors offered in order. */
  function Insert(q: seq<State>, succ: seq<State>, visited: set<int>): seq<State>
    decreases |succ|
  {
    if succ == [] then q else Insert(Enqueue(q, succ[0], visited), succ[1..], visited)
  }

  /** The successor loop only appends: the queue it starts from stays a prefix. */
  lemma {:induction false} InsertPrefix(q: seq<State>, succ: seq<State>, visited: set<int>)
    ensures |q| <= |Insert(q, succ, visited)| && Insert(q, succ, visited)[..|q|] == q
    decreases |succ|
  {
    if succ != [] {
      var q1 := Enqueue(q, succ[0], visited);
      InsertPrefix(q1, succ[1..], visited);
      var r := Insert(q, succ, visited);
      assert r == Insert(q1, succ[1..], visited);
      assert q1[..|q|] == q;
      assert r[..|q|] == r[..|q1|][..|q|];
    }
  }

  /** Every state the loop appends is one of the successors, with a hash
      that was not visited. */
  lemma {:induction false} InsertFromSuccessors(q: seq<State>, succ: seq<State>, visited: set<int>)
    ensures forall k :: |q| <= k < |Insert(q, succ, visited)| ==>
      Insert(q, succ, visited)[k] in succ && Hash(Insert(q, succ, visited)[k].cells) !in visited
    decreases |succ|
  {
    if succ != [] {
      var q1 := Enqueue(q, succ[0], visited);
      var r := Insert(q, succ, visited);
      assert r == Insert(q1, succ[1..], visited);
      InsertFromSuccessors(q1, succ[1..], visited);
      InsertPrefix(q1, succ[1..], visited);
      forall k | |q| <= k < |r| ensures r[k] in succ && Hash(r[k].cells) !in visited {
        if k < |q1| {
          assert r[k] == r[..|q1|][k] == q1[k] == succ[0];
        } else {
          assert r[k] in succ[1..];
        }
      }
    }
  }

  /** Nothing the loop is offered is lost: each successor whose hash was not
      visited ends up equal to some queued state, and every queued hash stays. */
  lemma {:induction false} InsertCovers(q: seq<State>, succ: seq<State>, visited: set<int>)
    ensures Hashes(q) <= Hashes(Insert(q, succ, visited))
    ensures forall k :: 0 <= k < |succ| && Hash(succ[k].cells) !in visited ==>
      Hash(succ[k].cells) in Hashes(Insert(q, succ, visited))
    decreases |succ|
  {
    if succ != [] {
      var q1 := Enqueue(q, succ[0], visited);
      var r := Insert(q, succ, visited);
      assert r == Insert(q1, succ[1..], visited);
      InsertCovers(q1, succ[1..], visited);
      if q1 != q {
        HashesAppend(q, succ[0]);
      }
      forall k | 0 <= k < |succ| && Hash(succ[k].cells) !in visited ensures Hash(succ[k].cells) in Hashes(r) {
        if k > 0 {
          assert succ[k] == succ[1..][k - 1];
        }
      }
    }
  }

  /** The loop keeps the queued states pairwise unequal. */
  lemma {:induction false} InsertDistinct(q: seq<State>, succ: seq<State>, visited: set<int>)
    requires DistinctHashes(q)
    ensures DistinctHashes(Insert(q, succ, visited))
    decreases |succ|
  {
    if succ != [] {
      var q1 := Enqueue(q, succ[0], visited);
      if q1 != q {
        DistinctAppend(q, succ[0]);
      }
      InsertDistinct(q1, succ[1..], visited);
    }
  }

  /** A loop that changes the queue appends, first, a state whose hash is
      neither visited nor queued. */
  lemma {:induction false} InsertGrows(q: seq<State>, succ: seq<State>, visited: set<int>)
    ensures Insert(q, succ, visited) == q ||
      (|Insert(q, succ, visited)| > |q| && Hash(Insert(q, succ, visited)[|q|].cells) !in visited + Hashes(q))
    decreases |succ|
  {
    if succ != [] {
      var q1 := Enqueue(q, succ[0], visited);
      if q1 == q {
        InsertGrows(q, succ[1..], visited);
      } else {
        var r := Insert(q1, succ[1..], visited);
        InsertPrefix(q1, succ[1..], visited);
        assert r[|q|] == r[..|q1|][|q|] == succ[0];
      }
    }
  }

  /** Appending one reached, scorable state keeps a frontier a tree of
      scorable states. */
  lemma {:induction false} KeepAppend(q: seq<State>, s: State, root: State, g0: State)
    requires Tree(q, root) && AllScorable(q, g0)
    requires Reached(s, root) && Fit(s) && s.n == root.n && Scorable(s, g0)
    ensures Tree(q + [s], root) && AllScorable(q + [s], g0)
  {
    var r := q + [s];
    forall k | 0 <= k < |r| ensures Reached(r[k], root) && Fit(r[k]) && r[k].n == root.n && Scorable(r[k], g0) {
      if k < |q| {
        assert r[k] == q[k];
      }
    }
  }

  /** Inserting successors keeps a frontier a tree of scorable states. */
  lemma {:induction false} InsertKeeps(q: seq<State>, succ: seq<State>, visited: set<int>, root: State, g0: State)
    requires Tree(q, root) && AllScorable(q, g0) && Tree(succ, root) && AllScorable(succ, g0)
    ensures Tree(Insert(q, succ, visited), root) && AllScorable(Insert(q, succ, visited), g0)
    decreases |succ|
  {
    if succ != [] {
      var q1 := Enqueue(q, succ[0], visited);
      assert Scorable(succ[0], g0) && Reached(succ[0], root);
      if q1 != q {
        KeepAppend(q, succ[0], root, g0);
      }
      forall k | 0 <= k < |succ[1..]|
        ensures Reached(succ[1..][k], root) && Fit(succ[1..][k]) && succ[1..][k].n == root.n && Scorable(succ[1..][k], g0)
      {
        assert succ[1..][k] == succ[k + 1];
      }
      InsertKeeps(q1, succ[1..], visited, root, g0);
    }
  }

  /** Removing one state keeps a frontier a tree of scorable states. */
  lemma RemoveKeeps(q: seq<State>, idx: int, root: State, g0: State)
    requires 0 <= idx < |q| && Tree(q, root) && AllScorable(q, g0)
    ensures Tree(Remove(q, idx), root) && AllScorable(Remove(q, idx), g0)
  {
    var r := Remove(q, idx);
    forall k | 0 <= k < |r| ensures Reached(r[k], root) && Fit(r[k]) && r[k].n == root.n && Scorable(r[k], g0) {
      if k < idx {
        assert r[k] == q[k];
      } else {
        assert r[k] == q[k + 1];
      }
    }
  }

  /** Removing one state keeps the hashes of a frontier distinct. */
  lemma DistinctRemove(q: seq<State>, idx: int)
    requires 0 <= idx < |q| && DistinctHashes(q)
    ensures DistinctHashes(Remove(q, idx))
  {
    var r := Remove(q, idx);
    forall a, b | 0 <= a < b < |r| ensures Hash(r[a].cells) != Hash(r[b].cells) {
      var a', b' := if a < idx then a else a + 1, if b < idx then b else b + 1;
      assert r[a] == q[a'] && r[b] == q[b'];
    }
  }

  /** A round polls hc out of before, leaving f0, and inserts into f0 to get
      q, then marks hc visited. If the first state it inserted has a hash
      other than hc, the unseen hashes shrink; otherwise hc is newly visited
      or nothing was inserted. */
  lemma RoundShrinks(v: set<int>, before: seq<State>, f0: seq<State>, hc: int, q: seq<State>)
    requires Hashes(before) == Hashes(f0) + {hc} && IsInt32(hc) && |f0| < |before|
    requires Hashes(f0) <= Hashes(q)
    requires q == f0 || (|q| > |f0| && Hash(q[|f0|].cells) !in v + Hashes(f0))
    ensures Progress(v, before, v + {hc}, q)
  {
    if q == f0 {
      assert (v + {hc}) + Hashes(q) == v + Hashes(before);
      if hc !in v {
        VisitShrinks(v, hc);
      } else {
        assert v + {hc} == v;
      }
    } else {
      var w := Hash(q[|f0|].cells);
      assert w in Hashes(q);
      if w != hc {
        assert w in Int32s - (v + Hashes(before));
      } else {
        VisitShrinks(v, hc);
      }
    }
  }

  /** One successor of the loop: queue it unless its hash was visited or a
      queued state equals it. */
  method Offer(q: seq<State>, successor: State, visited: set<int>) returns (q': seq<State>)
    ensures q' == Enqueue(q, successor, visited)
  {
    q' := q;
    var h := successor.HashCode();
    if h !in visited {
      var queued := FrontierContains(q, successor);
      if !queued {
        q' := q + [successor];
      }
    }
  }

  /** The insertion loop of heuristicsSolve: each successor, in order, is
      appended to the queue when no visited state and no queued state equals it. */
  method InsertNew(frontier: seq<State>, succ: seq<State>, visited: set<int>) returns (q: seq<State>)
    ensures q == Insert(frontier, succ, visited)
  {
    q := frontier;
    var i := 0;
    while i < |succ|
      invariant 0 <= i <= |succ|
      invariant Insert(q, succ[i..], visited) == Insert(frontier, succ, visited)
    {
      assert succ[i..][1..] == succ[i + 1..];
      q := Offer(q, succ[i], visited);
      i := i + 1;
    }
  }

  /** The rest of a round of heuristicsSolve once the polled state current
      is not the goal: queue its new successors, then hash current to mark
      it visited. */
  method Grow(current: State, rest: seq<State>, visited: set<int>,
              ghost root: State, ghost g0: State, ghost before: seq<State>)
    returns (succ: seq<State>, q: seq<State>, hcode: int)
    requires Reached(current, root) && Fit(current) && current.n == root.n && Scorable(current, g0)
    requires Tree(rest, root) && AllScorable(rest, g0)
    requires Hashes(before) == Hashes(rest) + {Hash(current.cells)} && |rest| < |before|
    ensures Children(current, succ, LegalTargets(current.indexOfEmpty.value, current.n))
    ensures q == Insert(rest, succ, visited) && hcode == Hash(current.cells)
    ensures Tree(q, root) && AllScorable(q, g0)
    ensures Progress(visited, before, visited + {hcode}, q)
  {
    succ := current.Successors();
    SuccessorsReached(current, succ, root);
    SuccessorsScorable(current, succ, g0);
    q := InsertNew(rest, succ, visited);
    InsertKeeps(rest, succ, visited, root, g0);
    InsertCovers(rest, succ, visited);
    InsertGrows(rest, succ, visited);
    RoundShrinks(visited, before, rest, Hash(current.cells), q);
    hcode := current.HashCode();
  }

  /** In round k of heuristicsSolve the state c at index i of the frontier
      f was polled: it is reached from root and has the least heuristic
      value in f. */
  ghost predicate PolledAt(f: seq<State>, i: int, c: State, root: State, h: Heuristic, goal: Grid) {
    0 <= i < |f| && c == f[i] && Reached(c, root) && IsMinOf(c, f, h, goal)
  }

  /** The polled state c was not the goal, so the round went on: the
      successors succ of c were inserted, in order, into f without c, against
      the visited hashes, giving the next frontier f'. */
  ghost predicate Expanded(f: seq<State>, i: int, c: State, succ: seq<State>, f': seq<State>,
                           visited: set<int>, gh: int) {
    0 <= i < |f| && Hash(c.cells) != gh && Fit(c) &&
    Children(c, succ, LegalTargets(c.indexOfEmpty.value, c.n)) &&
    f' == Insert(Remove(f, i), succ, visited)
  }

  /** The record of a run of heuristicsSolve from root: frontiers[k] is the
      queue at the start of round k. Round k polled polled[k] at index
      picks[k]; for each round with children[k], the polled state was not
      the goal, and the next frontier is computed from the successors
      children[k], the states polled before being the visited ones. */
  ghost predicate HeurRun(polled: seq<State>, frontiers: seq<seq<State>>, picks: seq<int>,
                          children: seq<seq<State>>, root: State, h: Heuristic, goal: Grid, gh: int) {
    |frontiers| == |polled| + 1 && |picks| == |polled| && |children| <= |polled| && frontiers[0] == [root] &&
    (forall k :: 0 <= k < |polled| ==> PolledAt(frontiers[k], picks[k], polled[k], root, h, goal)) &&
    (forall k :: 0 <= k < |children| ==>
      Expanded(frontiers[k], picks[k], polled[k], children[k], frontiers[k + 1], Hashes(polled[..k]), gh))
  }

  /** Recording one more round keeps the record of a run. */
  lemma {:induction false} HeurAppend(polled: seq<State>, frontiers: seq<seq<State>>, picks: seq<int>,
                                      children: seq<seq<State>>, root: State, h: Heuristic, goal: Grid, gh: int,
                                      i: int, c: State, succ: seq<State>, f': seq<State>, expand: bool)
    requires HeurRun(polled, frontiers, picks, children, root, h, goal, gh) && |children| == |polled|
    requires PolledAt(frontiers[|polled|], i, c, root, h, goal)
    requires expand ==> Expanded(frontiers[|polled|], i, c, succ, f', Hashes(polled), gh)
    ensures HeurRun(polled + [c], frontiers + [f'], picks + [i], if expand then children + [succ] else children,
                    root, h, goal, gh)
  {
    var p, fs, ps, cs := polled + [c], frontiers + [f'], picks + [i], if expand then children + [succ] else children;
    forall k | 0 <= k < |p| ensures PolledAt(fs[k], ps[k], p[k], root, h, goal) {
      if k < |polled| {
        assert fs[k] == frontiers[k] && ps[k] == picks[k] && p[k] == polled[k];
      }
    }
    forall k | 0 <= k < |cs| ensures Expanded(fs[k], ps[k], p[k], cs[k], fs[k + 1], Hashes(p[..k]), gh) {
      assert p[..k] == polled[..k];
      if k < |polled| {
        assert fs[k] == frontiers[k] && ps[k] == picks[k] && p[k] == polled[k] && cs[k] == children[k];
        assert fs[k + 1] == frontiers[k + 1];
      } else {
        assert polled[..k] == polled;
      }
    }
  }

  /** Every frontier of a run up to the last expanded round holds no two equal states. */
  lemma {:induction false} HeurDistinct(polled: seq<State>, frontiers: seq<seq<State>>, picks: seq<int>,
                                        children: seq<seq<State>>, root: State, h: Heuristic, goal: Grid,
                                        gh: int, k: int)
    requires HeurRun(polled, frontiers, picks, children, root, h, goal, gh) && 0 <= k <= |children|
    ensures DistinctHashes(frontiers[k])
    decreases k
  {
    if k > 0 {
      HeurDistinct(polled, frontiers, picks, children, root, h, goal, gh, k - 1);
      assert Expanded(frontiers[k - 1], picks[k - 1], polled[k - 1], children[k - 1], frontiers[k],
                      Hashes(polled[..k - 1]), gh);
      DistinctRemove(frontiers[k - 1], picks[k - 1]);
      InsertDistinct(Remove(frontiers[k - 1], picks[k - 1]), children[k - 1], Hashes(polled[..k - 1]));
    }
  }

  /** A state polled and expanded in some round is never inserted again:
      every state added in a later round has a different hash. */
  lemma HeurNoReinsert(polled: seq<State>, frontiers: seq<seq<State>>, picks: seq<int>,
                       children: seq<seq<State>>, root: State, h: Heuristic, goal: Grid, gh: int,
                       a: int, b: int, j: int)
    requires HeurRun(polled, frontiers, picks, children, root, h, goal, gh) && 0 <= a < b < |children|
    requires |Remove(frontiers[b], picks[b])| <= j < |frontiers[b + 1]|
    ensures Hash(frontiers[b + 1][j].cells) != Hash(polled[a].cells)
  {
    assert Expanded(frontiers[b], picks[b], polled[b], children[b], frontiers[b + 1], Hashes(polled[..b]), gh);
    InsertFromSuccessors(Remove(frontiers[b], picks[b]), children[b], Hashes(polled[..b]));
    assert polled[..b][a] == polled[a];
  }

  /** One round of blindSolve takes the frontier f to f': the head of f is
      polled. With the visited set, a head whose hash was seen is dropped;
      otherwise the head is not the goal, and f' is the rest of f followed
      by the successors of the head. */
  ghost predicate BlindNext(f: seq<State>, f': seq<State>, seen: set<int>, optimize: bool, gh: int) {
    f != [] &&
    if optimize && Hash(f[0].cells) in seen then f' == f[1..]
    else
      Hash(f[0].cells) != gh && Fit(f[0]) && |f| - 1 <= |f'| && f'[..|f| - 1] == f[1..] &&
      Children(f[0], f'[|f| - 1..], LegalTargets(f[0].indexOfEmpty.value, f[0].n))
  }

  /** The cutoff of blindSolve: after polling from f on a board wider than 3,
      more than MaxSizeQueue states are left. */
  ghost predicate Cut(f: seq<State>, size: int) {
    size > 3 && |f| - 1 > MaxSizeQueue
  }

  /** The record of a run of blindSolve from root: frontiers[k] is the queue
      at the start of round k and polled[k] its head. Each of the first m
      rounds passed the cutoff and took its frontier to the next by BlindNext,
      the states polled before being the seen ones. */
  ghost predicate BlindRun(polled: seq<State>, frontiers: seq<seq<State>>, root: State, size: int,
                           optimize: bool, gh: int, m: int) {
    |frontiers| == |polled| + 1 && 0 <= m <= |polled| && frontiers[0] == [root] &&
    (forall k :: 0 <= k < |polled| ==> frontiers[k] != [] && polled[k] == frontiers[k][0]) &&
    (forall k :: 0 <= k < m ==>
      !Cut(frontiers[k], size) && BlindNext(frontiers[k], frontiers[k + 1], Hashes(polled[..k]), optimize, gh))
  }

  /** Recording one more poll keeps the record of the rounds before it. */
  lemma {:induction false} BlindAppend(polled: seq<State>, frontiers: seq<seq<State>>, root: State, size: int,
                                       optimize: bool, gh: int, c: State, f': seq<State>)
    requires BlindRun(polled, frontiers, root, size, optimize, gh, |polled|)
    requires frontiers[|polled|] != [] && c == frontiers[|polled|][0]
    ensures BlindRun(polled + [c], frontiers + [f'], root, size, optimize, gh, |polled|)
  {
    var p, fs := polled + [c], frontiers + [f'];
    forall k | 0 <= k < |p| ensures fs[k] != [] && p[k] == fs[k][0] {
      if k < |polled| {
        assert fs[k] == frontiers[k] && p[k] == polled[k];
      }
    }
    forall k | 0 <= k < |polled|
      ensures !Cut(fs[k], size) && BlindNext(fs[k], fs[k + 1], Hashes(p[..k]), optimize, gh)
    {
      assert p[..k] == polled[..k];
      assert fs[k] == frontiers[k] && fs[k + 1] == frontiers[k + 1];
    }
  }

  /** A round that passed the cutoff and took its step extends the record. */
  lemma {:induction false} BlindExtend(polled: seq<State>, frontiers: seq<seq<State>>, root: State, size: int,
                                       optimize: bool, gh: int, m: int)
    requires BlindRun(polled, frontiers, root, size, optimize, gh, m) && m < |polled|
    requires !Cut(frontiers[m], size) && BlindNext(frontiers[m], frontiers[m + 1], Hashes(polled[..m]), optimize, gh)
    ensures BlindRun(polled, frontiers, root, size, optimize, gh, m + 1)
  {
  }

  /** What the loop of blindSolve keeps: the queue is the last frontier of
      the record, every queued and polled state is reached from root, and
      with optimize the visited hashes are those of the polled states. */
  ghost predicate BlindLoop(queue: seq<State>, visited: set<int>, polled: seq<State>, frontiers: seq<seq<State>>,
                            root: State, size: int, optimize: bool, gh: int) {
    Tree(queue, root) && Tree(polled, root) && BlindRun(polled, frontiers, root, size, optimize, gh, |polled|) &&
    queue == frontiers[|polled|] && (optimize ==> visited == Hashes(polled))
  }

  /** How a run of blindSolve with record polled, frontiers ended in r:
      Found and Cutoff stop in the last round, after its poll, every round
      before having taken its step; Found returns a polled state equal to the
      goal that passed the cutoff and, with optimize, was not seen before;
      Cutoff returns a state polled from an oversized frontier; Exhausted
      ends with an empty queue; OutOfFuel stops after fuel full rounds
      without a visited set, with states still queued. */
  ghost predicate BlindOutcome(r: Outcome, polled: seq<State>, frontiers: seq<seq<State>>, root: State,
                               size: int, optimize: bool, gh: int, fuel: nat) {
    Tree(polled, root) &&
    if r.Found? || r.Cutoff? then
      |polled| > 0 && r.s == polled[|polled| - 1] &&
      BlindRun(polled, frontiers, root, size, optimize, gh, |polled| - 1) &&
      frontiers[|polled|] == frontiers[|polled| - 1][1..] &&
      (r.Found? ==> !Cut(frontiers[|polled| - 1], size) && Hash(r.s.cells) == gh &&
                    !(optimize && Hash(r.s.cells) in Hashes(polled[..|polled| - 1]))) &&
      (r.Cutoff? ==> Cut(frontiers[|polled| - 1], size))
    else
      BlindRun(polled, frontiers, root, size, optimize, gh, |polled|) &&
      (r.Exhausted? ==> frontiers[|polled|] == []) &&
      (r.OutOfFuel? ==> !optimize && |polled| == fuel && frontiers[|polled|] != [])
  }

  /** The loop of blindSolve ends well when the queue is empty, or when the
      rounds without a visited set ran out with states still queued. */
  lemma BlindQuit(r: Outcome, queue: seq<State>, visited: set<int>, polled: seq<State>, frontiers: seq<seq<State>>,
                  root: State, size: int, optimize: bool, gh: int, fuel: nat)
    requires BlindLoop(queue, visited, polled, frontiers, root, size, optimize, gh)
    requires (r.Exhausted? && queue == []) || (r.OutOfFuel? && !optimize && |polled| == fuel && queue != [])
    ensures BlindOutcome(r, polled, frontiers, root, size, optimize, gh, fuel)
  {
  }

  /** With the visited set, a configuration polled a second time is
      skipped: that round leaves the queue as the poll left it. */
  lemma BlindSkipsRepeats(polled: seq<State>, frontiers: seq<seq<State>>, root: State, size: int,
                          gh: int, m: int, a: int, b: int)
    requires BlindRun(polled, frontiers, root, size, true, gh, m) && 0 <= a < b < m
    requires Hash(polled[a].cells) == Hash(polled[b].cells)
    ensures frontiers[b + 1] == frontiers[b][1..]
  {
    assert polled[..b][a] == polled[a];
    assert Hash(polled[a].cells) in Hashes(polled[..b]);
  }

  /** A round of blindSolve after the poll of current, the head of queue,
      and the size check: with optimize, skip current if its hash was
      visited and mark it visited otherwise; compare it with the goal; if it
      is not the goal, enqueue its successors. */
  method BlindStep(current: State, rest: seq<State>, visited: set<int>, optimize: bool, goalState: State,
                   ghost root: State, ghost queue: seq<State>, ghost seen: set<int>)
    returns (found: bool, q: seq<State>, visited': set<int>)
    requires queue != [] && current == queue[0] && rest == queue[1..]
    requires Reached(current, root) && Fit(current) && current.n == root.n && Tree(rest, root)
    requires optimize ==> visited == seen
    ensures found <==> !(optimize && Hash(current.cells) in visited) && Hash(current.cells) == Hash(goalState.cells)
    ensures visited' == if optimize then visited + {Hash(current.cells)} else visited
    ensures !found ==> Tree(q, root) && BlindNext(queue, q, seen, optimize, Hash(goalState.cells))
    ensures !found && optimize ==>
      Int32s - visited' < Int32s - visited || (Int32s - visited' == Int32s - visited && q == rest)
  {
    found, q, visited' := false, rest, visited;
    if optimize {
      var h := current.HashCode();
      if h in visited {
        assert visited + {h} == visited;
        return;
      }
      VisitShrinks(visited, h);
      visited' := visited + {h};
    }
    found := current.Equals(goalState);
    if found {
      return;
    }
    var succ := current.Successors();
    SuccessorsReached(current, succ, root);
    TreeAppend(rest, succ, root);
    q := rest + succ;
    assert q[..|queue| - 1] == rest && q[|queue| - 1..] == succ;
  }

  /** The solver's expansion counter (the static count field). */
  class Solver {
    var count: int

    constructor ()
      ensures count == 0
    {
      count := 0;
    }

    /** blindSolve: breadth-first search from initialState, polling the head
        of a FIFO queue and counting every poll. With optimize, a state whose
        hash was visited before is skipped. Without it the search may run
        forever, so the model stops after fuel rounds. polled and frontiers
        record the run: the polled states and the queue before each poll. */
    method BlindSolve(initialState: State, goalState: State, size: int, optimize: bool, fuel: nat)
      returns (r: Outcome, ghost polled: seq<State>, ghost frontiers: seq<seq<State>>)
      requires Fit(initialState)
      modifies this
      ensures count == old(count) + |polled|
      ensures BlindOutcome(r, polled, frontiers, initialState, size, optimize, Hash(goalState.cells), fuel)
    {
      ghost var gh := Hash(goalState.cells);
      var queue := [initialState];
      var visited: set<int> := {};
      var rounds: nat := fuel;
      polled, frontiers := [], [[initialState]];
      assert Reached(initialState, initialState);
      assert BlindLoop(queue, visited, polled, frontiers, initialState, size, optimize, gh);
      while queue != []
        invariant BlindLoop(queue, visited, polled, frontiers, initialState, size, optimize, gh)
        invariant count == old(count) + |polled|
        invariant !optimize ==> rounds + |polled| == fuel
        decreases if optimize then 0 else rounds, Int32s - visited, |queue|
      {
        if !optimize && rounds == 0 {
          BlindQuit(OutOfFuel, queue, visited, polled, frontiers, initialState, size, optimize, gh, fuel);
          return OutOfFuel, polled, frontiers;
        }
        if !optimize {
          rounds := rounds - 1;
        }
        var done, q, visited';
        r, done, q, visited', polled, frontiers :=
          BlindRound(queue, visited, size, optimize, goalState, initialState, polled, frontiers, fuel);
        if done {
          return;
        }
        queue, visited := q, visited';
      }
      BlindQuit(Exhausted, queue, visited, polled, frontiers, initialState, size, optimize, gh, fuel);
      return Exhausted, polled, frontiers;
    }

    /** One round of blindSolve: poll and count the head of the queue, stop
        with Cutoff when the rest outgrows MaxSizeQueue on a board wider than
        3, then take the step. done tells that the search returns r. The
        ghost parameters are the record of the run so far, and the results
        extend it by this round. */
    method BlindRound(queue: seq<State>, visited: set<int>, size: int, optimize: bool, goalState: State,
                      ghost root: State, ghost polled: seq<State>, ghost frontiers: seq<seq<State>>,
                      ghost fuel: nat)
      returns (r: Outcome, done: bool, q: seq<State>, visited': set<int>,
               ghost polled': seq<State>, ghost frontiers': seq<seq<State>>)
      requires queue != [] && BlindLoop(queue, visited, polled, frontiers, root, size, optimize, Hash(goalState.cells))
      modifies this
      ensures count == old(count) + 1
      ensures polled' == polled + [queue[0]] && Tree(polled', root)
      ensures done ==> r.Found? || r.Cutoff?
      ensures done ==> BlindOutcome(r, polled', frontiers', root, size, optimize, Hash(goalState.cells), fuel)
      ensures !done ==> BlindLoop(q, visited', polled', frontiers', root, size, optimize, Hash(goalState.cells))
      ensures !done && optimize ==>
        Int32s - visited' < Int32s - visited || (Int32s - visited' == Int32s - visited && |q| < |queue|)
    {
      ghost var gh := Hash(goalState.cells);
      var current := queue[0];
      var rest := queue[1..];
      TreeAppend(polled, [current], root);
      count := count + 1;
      polled' := polled + [current];
      assert polled'[..|polled'| - 1] == polled;
      if size > 3 && |rest| > MaxSizeQueue {
        BlindAppend(polled, frontiers, root, size, optimize, gh, current, rest);
        frontiers' := frontiers + [rest];
        return Cutoff(current), true, rest, visited, polled', frontiers';
      }
      var found;
      found, q, visited' := BlindStep(current, rest, visited, optimize, goalState, root, queue, Hashes(polled));
      if found {
        BlindAppend(polled, frontiers, root, size, optimize, gh, current, rest);
        frontiers' := frontiers + [rest];
        return Found(current), true, q, visited', polled', frontiers';
      }
      BlindAppend(polled, frontiers, root, size, optimize, gh, current, q);
      frontiers' := frontiers + [q];
      assert frontiers'[|polled|] == queue && frontiers'[|polled| + 1] == q;
      BlindExtend(polled', frontiers', root, size, optimize, gh, |polled|);
      HashesAppend(polled, current);
      r, done := Exhausted, false;
    }

    /** The start of a round of heuristicsSolve: poll a state of least
        heuristic value, count it, and compare it with the goal. */
    method Poll(priority: seq<State>, manhattan: bool, goalState: State, ghost root: State, ghost g0: State)
      returns (idx: int, current: State, rest: seq<State>, eq: bool)
      requires priority != [] && Tree(priority, root) && AllScorable(priority, g0)
      modifies this
      ensures count == old(count) + 1
      ensures 0 <= idx < |priority| && current == priority[idx] && rest == Remove(priority, idx)
      ensures eq <==> Hash(current.cells) == Hash(goalState.cells)
      ensures IsMinOf(current, priority, Kind(manhattan), g0.cells)
      ensures Reached(current, root) && Fit(current) && current.n == root.n && Scorable(current, g0)
      ensures Tree(rest, root) && AllScorable(rest, g0)
      ensures Hashes(priority) == Hashes(rest) + {Hash(current.cells)} && |rest| < |priority|
    {
      idx := PollMin(priority, manhattan, g0);
      current := priority[idx];
      rest := priority[..idx] + priority[idx + 1..];
      count := count + 1;
      eq := current.Equals(goalState);
      HashesRemove(priority, idx);
      RemoveKeeps(priority, idx, root, g0);
    }

    /** One round of heuristicsSolve: poll and count a state of least
        heuristic value and compare it with the goal; unless it is the goal,
        queue its new successors and mark it visited. The ghost parameters
        are the record of the run so far, and the results extend it by this
        round. */
    method Round(priority: seq<State>, visited: set<int>, manhattan: bool, goalState: State,
                 ghost root: State, ghost g0: State, ghost polled: seq<State>, ghost frontiers: seq<seq<State>>,
                 ghost picks: seq<int>, ghost children: seq<seq<State>>)
      returns (current: State, priority': seq<State>, visited': set<int>, eq: bool,
               ghost polled': seq<State>, ghost frontiers': seq<seq<State>>,
               ghost picks': seq<int>, ghost children': seq<seq<State>>)
      requires priority != [] && Tree(priority, root) && AllScorable(priority, g0)
      requires HeurRun(polled, frontiers, picks, children, root, Kind(manhattan), g0.cells, Hash(goalState.cells))
      requires |children| == |polled| && priority == frontiers[|polled|] && visited == Hashes(polled)
      modifies this
      ensures count == old(count) + 1
      ensures polled' == polled + [current] && frontiers' == frontiers + [priority']
      ensures HeurRun(polled', frontiers', picks', children', root, Kind(manhattan), g0.cells, Hash(goalState.cells))
      ensures eq <==> Hash(current.cells) == Hash(goalState.cells)
      ensures eq ==> |children'| == |polled| && priority' == Remove(priority, picks'[|polled|])
      ensures !eq ==> |children'| == |polled'| && visited' == Hashes(polled')
      ensures !eq ==> Tree(priority', root) && AllScorable(priority', g0)
      ensures !eq ==> Progress(visited, priority, visited', priority')
    {
      ghost var gh := Hash(goalState.cells);
      var idx, rest;
      idx, current, rest, eq := Poll(priority, manhattan, goalState, root, g0);
      polled', picks' := polled + [current], picks + [idx];
      if eq {
        HeurAppend(polled, frontiers, picks, children, root, Kind(manhattan), g0.cells, gh,
                   idx, current, [], rest, false);
        frontiers', children' := frontiers + [rest], children;
        return current, rest, visited, eq, polled', frontiers', picks', children';
      }
      var succ, hcode;
      succ, priority', hcode := Grow(current, rest, visited, root, g0, priority);
      visited' := visited + {hcode};
      HeurAppend(polled, frontiers, picks, children, root, Kind(manhattan), g0.cells, gh,
                 idx, current, succ, priority', true);
      HashesAppend(polled, current);
      frontiers', children' := frontiers + [priority'], children + [succ];
    }

    /** heuristicsSolve: greedy best-first search. Each round polls a state
        of least heuristic value and counts it; it returns that state when it
        equals the goal, and otherwise inserts each successor equal to no
        visited and no queued state, then marks the polled state visited.
        When the queue empties, the last polled state is returned. The side
        parameter of the source plays no part. The ghost results are the
        record of the run. */
    method HeuristicsSolve(initialState: State, goalState: State, size: int, manhattan: bool)
      returns (r: State?, ghost polled: seq<State>, ghost frontiers: seq<seq<State>>,
               ghost picks: seq<int>, ghost children: seq<seq<State>>)
      requires Fit(initialState) && initialState.goalState != null
      requires Scorable(initialState, initialState.goalState)
      modifies this
      ensures r != null && |polled| > 0 && r == polled[|polled| - 1]
      ensures count == old(count) + |polled|
      ensures HeurRun(polled, frontiers, picks, children, initialState, Kind(manhattan),
                      initialState.goalState.cells, Hash(goalState.cells))
      ensures Hash(r.cells) == Hash(goalState.cells) ==>
        |children| == |polled| - 1 && frontiers[|polled|] == Remove(frontiers[|polled| - 1], picks[|polled| - 1])
      ensures Hash(r.cells) != Hash(goalState.cells) ==> |children| == |polled| && frontiers[|polled|] == []
    {
      ghost var g0 := initialState.goalState;
      ghost var gh := Hash(goalState.cells);
      var priority := [initialState];
      var visited: set<int> := {};
      r := null;
      polled, frontiers, picks, children := [], [[initialState]], [], [];
      assert Reached(initialState, initialState);
      while priority != []
        invariant Tree(priority, initialState) && AllScorable(priority, g0)
        invariant count == old(count) + |polled|
        invariant HeurRun(polled, frontiers, picks, children, initialState, Kind(manhattan), g0.cells, gh)
        invariant |children| == |polled| && priority == frontiers[|polled|] && visited == Hashes(polled)
        invariant polled == [] ==> r == null
        invariant polled != [] ==> r == polled[|polled| - 1]
        decreases Int32s - (visited + Hashes(priority)), Int32s - visited, |priority|
      {
        var current, eq;
        current, priority, visited, eq, polled, frontiers, picks, children :=
          Round(priority, visited, manhattan, goalState, initialState, g0, polled, frontiers, picks, children);
        r := current;
        if eq {
          return;
        }
      }
      assert Expanded(frontiers[|polled| - 1], picks[|polled| - 1], polled[|polled| - 1], children[|polled| - 1],
                      frontiers[|polled|], Hashes(polled[..|polled| - 1]), gh);
    }
  }
}
