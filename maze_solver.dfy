/**
 * The `Maze` object of test.py: the player's position, and the two searches
 * `solve` (graph search over a stack frontier) and `solveA` (best-first search
 * over a priority queue), with the path rebuilt from parent links.
 */
module MazeSolver {
  import opened Wrappers
  import opened Cells
  import opened Grids
  import opened Frontiers
  import opened MazeText

  /** `(actions, cells)`: the moves taken from the start and the cell each one reaches. */
  datatype Solution = Solution(actions: seq<Action>, cells: seq<Cell>)

  datatype SearchError = NoSolution

  /** `list.reverse` on a copy. */
  function Reverse<T>(s: seq<T>): (r: seq<T>)
    ensures |r| == |s|
    ensures forall i :: 0 <= i < |s| ==> r[i] == s[|s| - 1 - i]
  {
    if s == [] then [] else [s[|s| - 1]] + Reverse(s[..|s| - 1])
  }

  /** Every node on the parent chain of `n` that has a parent also has an action. */
  ghost predicate Linked(n: Node)
    decreases n
  {
    match n.parent
    case None => n.action.None?
    case Some(p) => n.action.Some? && Linked(p)
  }

  /** The states on the parent chain of `n`, root first, `n.state` last. */
  function Path(n: Node): (p: seq<Cell>)
    ensures |p| >= 1 && p[|p| - 1] == n.state
    decreases n
  {
    match n.parent
    case None => [n.state]
    case Some(q) => Path(q) + [n.state]
  }

  /** The actions on the parent chain of `n`, first move first. */
  function Moves(n: Node): seq<Action>
    requires Linked(n)
    decreases n
  {
    match n.parent
    case None => []
    case Some(q) => Moves(q) + [n.action.value]
  }

  /** The solution a node stands for: its moves and every state after the root's. */
  function Trail(n: Node): Solution
    requires Linked(n)
  {
    Solution(Moves(n), Path(n)[1..])
  }

  /** Each cell of `sol` is reached from its predecessor (the first from `from`) by its action. */
  ghost predicate IsWalk(g: Grid, from: Cell, sol: Solution)
    requires Shaped(g)
  {
    && |sol.actions| == |sol.cells|
    && (|sol.cells| > 0 ==> Legal(g, from, sol.actions[0], sol.cells[0]))
    && forall k :: 0 < k < |sol.cells| ==> Legal(g, sol.cells[k - 1], sol.actions[k], sol.cells[k])
  }

  ghost predicate Distinct(s: seq<Cell>) {
    forall i, j :: 0 <= i < j < |s| ==> s[i] != s[j]
  }

  /**
   * What a successful search stores: a walk from the start ending at the goal
   * (empty only when the start is the goal) that visits no cell twice and never
   * comes back to the start.
   */
  ghost predicate IsSolution(g: Grid, sol: Solution)
    requires Shaped(g)
  {
    && IsWalk(g, g.start, sol)
    && (if sol.cells == [] then g.start == g.goal else sol.cells[|sol.cells| - 1] == g.goal)
    && Distinct([g.start] + sol.cells)
  }

  /** The parent chain of `n` starts at the start cell and takes legal moves only. */
  ghost predicate Chain(g: Grid, n: Node)
    requires Shaped(g)
    decreases n
  {
    match n.parent
    case None => n.action.None? && n.state == g.start
    case Some(p) => n.action.Some? && Legal(g, p.state, n.action.value, n.state) && Chain(g, p)
  }

  /** A node a search may hold: a legal chain without repeated cells, every ancestor explored. */
  ghost predicate Sound(g: Grid, n: Node, explored: set<Cell>)
    requires Shaped(g)
  {
    && Chain(g, n)
    && Distinct(Path(n))
    && forall i :: 0 <= i < |Path(n)| - 1 ==> Path(n)[i] in explored
  }

  lemma {:induction false} ChainLinked(g: Grid, n: Node)
    requires Shaped(g) && Chain(g, n)
    ensures Linked(n)
    decreases n
  {
    if n.parent.Some? {
      ChainLinked(g, n.parent.value);
    }
  }

  /** A chain's path begins at the start and its states are open when the start is. */
  lemma {:induction false} ChainRoot(g: Grid, n: Node)
    requires WellFormed(g) && Chain(g, n)
    ensures Path(n)[0] == g.start && IsOpen(g, n.state)
    decreases n
  {
    if n.parent.Some? {
      ChainRoot(g, n.parent.value);
    }
  }

  /** The moves and cells rebuilt from a chain form a walk from the start. */
  lemma {:induction false} ChainWalk(g: Grid, n: Node)
    requires WellFormed(g) && Chain(g, n)
    ensures Linked(n) && IsWalk(g, g.start, Trail(n))
    decreases n
  {
    ChainLinked(g, n);
    match n.parent
    case None =>
    case Some(p) =>
      ChainWalk(g, p);
      ChainRoot(g, p);
      var before, after := Trail(p), Trail(n);
      assert after.actions == before.actions + [n.action.value];
      assert Path(n) == Path(p) + [n.state];
      assert after.cells == before.cells + [n.state];
      assert IsWalk(g, g.start, before);
      assert |Path(p)| == |before.cells| + 1;
      forall k | 0 < k < |after.cells|
        ensures Legal(g, after.cells[k - 1], after.actions[k], after.cells[k])
      {
        if k < |before.cells| {
          assert Legal(g, before.cells[k - 1], before.actions[k], before.cells[k]);
          assert after.cells[k] == before.cells[k] && after.actions[k] == before.actions[k];
          assert after.cells[k - 1] == before.cells[k - 1];
        } else {
          assert after.cells[k - 1] == Path(p)[|Path(p)| - 1];
        }
      }
      if |before.cells| > 0 {
        assert after.cells[0] == before.cells[0] && after.actions[0] == before.actions[0];
      } else {
        assert Path(p) == [p.state];
      }
  }

  /** A sound node at the goal yields a solution. */
  lemma GoalTrail(g: Grid, n: Node, explored: set<Cell>)
    requires WellFormed(g) && Sound(g, n, explored) && n.state == g.goal
    ensures Linked(n) && IsSolution(g, Trail(n))
  {
    ChainWalk(g, n);
    ChainRoot(g, n);
    assert [g.start] + Path(n)[1..] == Path(n);
  }

  /**
   * A search that takes a sound node for the goal has found a solution: the
   * goal is reachable, and it and the explored cells are all open.
   */
  lemma ReachedGoal(g: Grid, n: Node, explored: set<Cell>)
    requires WellFormed(g) && Sound(g, n, explored) && n.state == g.goal && explored <= OpenCells(g)
    ensures Linked(n) && IsSolution(g, Trail(n)) && Reach(OpenCells(g), g.start, g.goal)
    ensures |explored + {g.goal}| <= |OpenCells(g)|
  {
    GoalTrail(g, n, explored);
    SolutionReaches(g, Trail(n));
    ChainRoot(g, n);
    SubsetSize(explored + {g.goal}, OpenCells(g));
  }

  /** A solution witnesses that the goal is reachable through open cells. */
  lemma SolutionReaches(g: Grid, sol: Solution)
    requires WellFormed(g) && IsSolution(g, sol)
    ensures Reach(OpenCells(g), g.start, g.goal)
  {
    assert IsWalk(g, g.start, sol);
    var p := [g.start] + sol.cells;
    forall i | 0 < i < |p|
      ensures Adjacent(p[i - 1], p[i]) && p[i] in OpenCells(g)
    {
      if i == 1 {
        assert Legal(g, g.start, sol.actions[0], sol.cells[0]);
      } else {
        assert Legal(g, sol.cells[i - 2], sol.actions[i - 1], sol.cells[i - 1]);
      }
    }
    assert IsWalkIn(p, OpenCells(g));
  }

  /** `t` is explored or the state of some frontier entry. */
  ghost predicate Covered(explored: set<Cell>, f: seq<Node>, t: Cell) {
    t in explored || AnyState(f, t)
  }

  /** Every open move out of an explored cell other than those in `skip` is covered. */
  ghost predicate ClosedBut(g: Grid, explored: set<Cell>, f: seq<Node>, skip: set<Cell>)
    requires Shaped(g)
  {
    forall e, a :: e in explored && e !in skip && IsOpen(g, Step(e, a)) ==> Covered(explored, f, Step(e, a))
  }

  /** What both searches keep at the head of their main loop. */
  ghost predicate SearchInv(g: Grid, f: seq<Node>, explored: set<Cell>)
    requires Shaped(g)
  {
    && (forall k :: 0 <= k < |f| ==> Sound(g, f[k], explored))
    && explored <= OpenCells(g)
    && g.goal !in explored
    && Covered(explored, f, g.start)
    && ClosedBut(g, explored, f, {})
  }

  /** `solve` besides: no frontier state is explored and no state is in the frontier twice. */
  ghost predicate StackInv(g: Grid, f: seq<Node>, explored: set<Cell>)
    requires Shaped(g)
  {
    && SearchInv(g, f, explored)
    && (forall k :: 0 <= k < |f| ==> f[k].state !in explored)
    && (forall k, l :: 0 <= k < l < |f| ==> f[k].state != f[l].state)
  }

  /** `solveA`'s priority: 0 for the root, `1 + get_distance(state, goal)` for every child. */
  predicate Prioritized(g: Grid, n: Node) {
    n.priority == if n.parent.None? then 0 else 1 + GetDistance(n.state, g.goal)
  }

  /** `solveA` besides: every entry carries its priority. */
  ghost predicate QueueInv(g: Grid, f: seq<Node>, explored: set<Cell>)
    requires Shaped(g)
  {
    SearchInv(g, f, explored) && forall k :: 0 <= k < |f| ==> Prioritized(g, f[k])
  }

  /** When the frontier runs out, the goal cannot be reached. */
  lemma Exhausted(g: Grid, explored: set<Cell>)
    requires WellFormed(g) && SearchInv(g, [], explored)
    ensures !Reach(OpenCells(g), g.start, g.goal)
  {
    forall x, y | x in explored && y in OpenCells(g) && Adjacent(x, y)
      ensures y in explored
    {
      var a := AdjacentIsStep(x, y);
      assert Covered(explored, [], Step(x, a));
    }
    ClosedBlocks(OpenCells(g), explored, g.start, g.goal);
  }

  /** Taking entry `i` out and exploring its state keeps `t` covered. */
  lemma RemoveEntry(f: seq<Node>, i: nat, explored: set<Cell>, t: Cell)
    requires i < |f| && Covered(explored, f, t)
    ensures Covered(explored + {f[i].state}, f[..i] + f[i + 1..], t)
  {
    var rest := f[..i] + f[i + 1..];
    if t !in explored + {f[i].state} {
      var k :| 0 <= k < |f| && f[k].state == t;
      if k < i {
        assert rest[k] == f[k];
      } else {
        assert rest[k - 1] == f[k];
      }
    }
  }

  /** Adding an entry keeps `t` covered. */
  lemma AddEntry(f: seq<Node>, n: Node, explored: set<Cell>, t: Cell)
    requires Covered(explored, f, t)
    ensures Covered(explored, f + [n], t)
  {
    if t !in explored {
      var k :| 0 <= k < |f| && f[k].state == t;
      assert (f + [n])[k] == f[k];
    }
  }

  /** The state after removing entry `i` (not the goal) and marking its state explored. */
  lemma Pop(g: Grid, f: seq<Node>, i: nat, explored: set<Cell>)
    requires WellFormed(g) && SearchInv(g, f, explored) && i < |f| && f[i].state != g.goal
    ensures var f', e' := f[..i] + f[i + 1..], explored + {f[i].state};
            && (forall k :: 0 <= k < |f'| ==> Sound(g, f'[k], e'))
            && Sound(g, f[i], e')
            && e' <= OpenCells(g) && g.goal !in e'
            && Covered(e', f', g.start)
            && ClosedBut(g, e', f', {f[i].state})
  {
    var f', e' := f[..i] + f[i + 1..], explored + {f[i].state};
    forall k | 0 <= k < |f'|
      ensures Sound(g, f'[k], e')
    {
      if k < i {
        assert f'[k] == f[k];
      } else {
        assert f'[k] == f[k + 1];
      }
    }
    ChainRoot(g, f[i]);
    RemoveEntry(f, i, explored, g.start);
    forall e, a | e in e' && e != f[i].state && IsOpen(g, Step(e, a))
      ensures Covered(e', f', Step(e, a))
    {
      RemoveEntry(f, i, explored, Step(e, a));
    }
  }

  /** A child of an explored sound node, at an unexplored open neighbour, is sound. */
  lemma ChildSound(g: Grid, p: Node, explored: set<Cell>, a: Action, s: Cell, priority: int)
    requires Shaped(g) && Sound(g, p, explored) && p.state in explored
    requires Legal(g, p.state, a, s) && s !in explored
    ensures Sound(g, Node(s, Some(p), Some(a), priority), explored)
  {
    var c := Node(s, Some(p), Some(a), priority);
    assert Path(c) == Path(p) + [s];
    forall i | 0 <= i < |Path(p)|
      ensures Path(p)[i] in explored
    {
    }
  }

  /** Once every neighbour of `s` is covered, the whole explored set is closed. */
  lemma CloseCell(g: Grid, explored: set<Cell>, f: seq<Node>, s: Cell)
    requires Shaped(g) && ClosedBut(g, explored, f, {s})
    requires forall k :: 0 <= k < |Neighbors(g, s)| ==> Covered(explored, f, Neighbors(g, s)[k].1)
    ensures ClosedBut(g, explored, f, {})
  {
    forall e, a | e in explored && IsOpen(g, Step(e, a))
      ensures Covered(explored, f, Step(e, a))
    {
      if e == s {
        assert (a, Step(s, a)) in Neighbors(g, s);
      }
    }
  }

  /** Entries whose state is already explored; `solveA` pops these without new exploration. */
  ghost function ExploredEntries(f: seq<Node>, explored: set<Cell>): nat {
    if f == [] then 0 else (if f[0].state in explored then 1 else 0) + ExploredEntries(f[1..], explored)
  }

  lemma {:induction false} ExploredEntriesConcat(a: seq<Node>, b: seq<Node>, explored: set<Cell>)
    ensures ExploredEntries(a + b, explored) == ExploredEntries(a, explored) + ExploredEntries(b, explored)
  {
    if a == [] {
      assert a + b == b;
    } else {
      assert (a + b)[1..] == a[1..] + b;
      ExploredEntriesConcat(a[1..], b, explored);
    }
  }

  /** Removing an entry at an explored state lowers the count by one. */
  lemma ExploredEntriesRemove(f: seq<Node>, i: nat, explored: set<Cell>)
    requires i < |f| && f[i].state in explored
    ensures ExploredEntries(f[..i] + f[i + 1..], explored) + 1 == ExploredEntries(f, explored)
  {
    assert f == f[..i] + ([f[i]] + f[i + 1..]);
    ExploredEntriesConcat(f[..i], [f[i]] + f[i + 1..], explored);
    ExploredEntriesConcat([f[i]], f[i + 1..], explored);
    ExploredEntriesConcat(f[..i], f[i + 1..], explored);
  }

  /** Every subset is no larger than its superset. */
  lemma SubsetSize(a: set<Cell>, b: set<Cell>)
    requires a <= b
    ensures |a| <= |b|
  {
    assert b == a + (b - a);
    assert a * (b - a) == {};
  }

  /** Exploring one more open cell leaves fewer unexplored open cells. */
  lemma FewerUnexplored(open: set<Cell>, explored: set<Cell>, s: Cell)
    requires s in open && s !in explored
    ensures |open - (explored + {s})| < |open - explored|
  {
    assert open - (explored + {s}) == (open - explored) - {s};
  }

  /** The root of either search satisfies both loop invariants. */
  lemma RootInv(g: Grid)
    requires WellFormed(g)
    ensures StackInv(g, [Node(g.start, None, None, 0)], {})
    ensures QueueInv(g, [Node(g.start, None, None, 0)], {})
  {
    var root := Node(g.start, None, None, 0);
    assert Sound(g, root, {});
    assert [root][0].state == g.start;
  }

  /**
   * Queueing `n` at the `k`-th neighbour of `node` keeps covered what was
   * covered, and covers one more neighbour.
   */
  lemma AddKeepsCovered(g: Grid, f: seq<Node>, n: Node, explored: set<Cell>, node: Node, k: nat)
    requires Shaped(g) && k < |Neighbors(g, node.state)| && n.state == Neighbors(g, node.state)[k].1
    requires Covered(explored, f, g.start) && ClosedBut(g, explored, f, {node.state})
    requires forall j :: 0 <= j < k ==> Covered(explored, f, Neighbors(g, node.state)[j].1)
    ensures Covered(explored, f + [n], g.start) && ClosedBut(g, explored, f + [n], {node.state})
    ensures forall j :: 0 <= j < k + 1 ==> Covered(explored, f + [n], Neighbors(g, node.state)[j].1)
  {
    var nbrs := Neighbors(g, node.state);
    AddEntry(f, n, explored, g.start);
    forall e, b | e in explored && e != node.state && IsOpen(g, Step(e, b))
      ensures Covered(explored, f + [n], Step(e, b))
    {
      AddEntry(f, n, explored, Step(e, b));
    }
    forall j | 0 <= j < k + 1
      ensures Covered(explored, f + [n], nbrs[j].1)
    {
      if j < k {
        AddEntry(f, n, explored, nbrs[j].1);
      } else {
        assert (f + [n])[|f|].state == n.state;
      }
    }
  }

  /** Queueing an entry at an unexplored state leaves the count of explored entries alone. */
  lemma AddUnexplored(f: seq<Node>, n: Node, explored: set<Cell>)
    requires n.state !in explored
    ensures ExploredEntries(f + [n], explored) == ExploredEntries(f, explored)
  {
    assert [n][1..] == [];
    ExploredEntriesConcat(f, [n], explored);
  }

  /** The inner loop of `solve` once the first `k` neighbours of `node` have been considered. */
  ghost predicate StackExpanding(g: Grid, f: seq<Node>, explored: set<Cell>, node: Node, k: nat)
    requires Shaped(g)
  {
    && k <= |Neighbors(g, node.state)|
    && Sound(g, node, explored) && node.state in explored
    && (forall j :: 0 <= j < |f| ==> Sound(g, f[j], explored) && f[j].state !in explored)
    && (forall j, l :: 0 <= j < l < |f| ==> f[j].state != f[l].state)
    && explored <= OpenCells(g) && g.goal !in explored
    && Covered(explored, f, g.start)
    && ClosedBut(g, explored, f, {node.state})
    && (forall j :: 0 <= j < k ==> Covered(explored, f, Neighbors(g, node.state)[j].1))
  }

  /** Popping the top of the stack (not the goal) and exploring it starts the inner loop. */
  lemma StackPop(g: Grid, f: seq<Node>, explored: set<Cell>)
    requires WellFormed(g) && StackInv(g, f, explored) && f != []
    requires f[|f| - 1].state != g.goal
    ensures StackExpanding(g, f[..|f| - 1], explored + {f[|f| - 1].state}, f[|f| - 1], 0)
  {
    var i := |f| - 1;
    Pop(g, f, i, explored);
    assert f[..i] + f[i + 1..] == f[..i];
    forall j | 0 <= j < i
      ensures f[..i][j].state != f[i].state
    {
    }
  }

  /** One step of the inner loop of `solve`: the neighbour is new, so it is pushed. */
  lemma StackAdd(g: Grid, f: seq<Node>, explored: set<Cell>, node: Node, k: nat, a: Action, s: Cell)
    requires WellFormed(g) && StackExpanding(g, f, explored, node, k)
    requires k < |Neighbors(g, node.state)| && Neighbors(g, node.state)[k] == (a, s)
    requires !AnyState(f, s) && s !in explored
    ensures StackExpanding(g, f + [Node(s, Some(node), Some(a), 0)], explored, node, k + 1)
  {
    var child := Node(s, Some(node), Some(a), 0);
    var f' := f + [child];
    ChildSound(g, node, explored, a, s, 0);
    AddKeepsCovered(g, f, child, explored, node, k);
    forall j | 0 <= j < |f'|
      ensures Sound(g, f'[j], explored) && f'[j].state !in explored
    {
      if j < |f| {
        assert f'[j] == f[j];
      }
    }
  }

  /** One step of the inner loop of `solve`: the neighbour is already covered, so it is skipped. */
  lemma StackSkip(g: Grid, f: seq<Node>, explored: set<Cell>, node: Node, k: nat)
    requires WellFormed(g) && StackExpanding(g, f, explored, node, k)
    requires k < |Neighbors(g, node.state)|
    requires var s := Neighbors(g, node.state)[k].1; AnyState(f, s) || s in explored
    ensures StackExpanding(g, f, explored, node, k + 1)
  {
  }

  /** The inner loop of `solve` done: the main loop's invariant holds again. */
  lemma StackDone(g: Grid, f: seq<Node>, explored: set<Cell>, node: Node)
    requires WellFormed(g) && StackExpanding(g, f, explored, node, |Neighbors(g, node.state)|)
    ensures StackInv(g, f, explored)
  {
    CloseCell(g, explored, f, node.state);
  }

  /** The inner loop of `solveA` once the first `k` neighbours of `node` have been considered. */
  ghost predicate QueueExpanding(g: Grid, f: seq<Node>, explored: set<Cell>, node: Node, k: nat)
    requires Shaped(g)
  {
    && k <= |Neighbors(g, node.state)|
    && Sound(g, node, explored) && node.state in explored
    && (forall j :: 0 <= j < |f| ==> Sound(g, f[j], explored) && Prioritized(g, f[j]))
    && explored <= OpenCells(g) && g.goal !in explored
    && Covered(explored, f, g.start)
    && ClosedBut(g, explored, f, {node.state})
    && (forall j :: 0 <= j < k ==> Covered(explored, f, Neighbors(g, node.state)[j].1))
  }

  /** Taking entry `i` (not the goal) from the queue and exploring it starts the inner loop. */
  lemma QueuePop(g: Grid, f: seq<Node>, i: nat, explored: set<Cell>)
    requires WellFormed(g) && QueueInv(g, f, explored) && i < |f| && f[i].state != g.goal
    ensures QueueExpanding(g, f[..i] + f[i + 1..], explored + {f[i].state}, f[i], 0)
  {
    var f' := f[..i] + f[i + 1..];
    Pop(g, f, i, explored);
    forall j | 0 <= j < |f'|
      ensures Prioritized(g, f'[j])
    {
      if j < i {
        assert f'[j] == f[j];
      } else {
        assert f'[j] == f[j + 1];
      }
    }
  }

  /**
   * One round of `solveA` makes progress: it explores a new open cell, or it
   * drops an entry whose state was explored already.
   */
  lemma QueueProgress(open: set<Cell>, explored: set<Cell>, f: seq<Node>, i: nat, f': seq<Node>)
    requires i < |f| && f[i].state in open
    requires var e' := explored + {f[i].state};
             ExploredEntries(f', e') == ExploredEntries(f[..i] + f[i + 1..], e')
    ensures var e' := explored + {f[i].state};
            || |open - e'| < |open - explored|
            || (|open - e'| == |open - explored| && ExploredEntries(f', e') < ExploredEntries(f, explored))
  {
    if f[i].state in explored {
      assert explored + {f[i].state} == explored;
      ExploredEntriesRemove(f, i, explored);
    } else {
      FewerUnexplored(open, explored, f[i].state);
    }
  }

  /** One step of the inner loop of `solveA`: the neighbour is unexplored, so it is queued. */
  lemma QueueAdd(g: Grid, f: seq<Node>, explored: set<Cell>, node: Node, k: nat, a: Action, s: Cell)
    requires WellFormed(g) && QueueExpanding(g, f, explored, node, k)
    requires k < |Neighbors(g, node.state)| && Neighbors(g, node.state)[k] == (a, s)
    requires s !in explored
    ensures var child := Node(s, Some(node), Some(a), 1 + GetDistance(s, g.goal));
            && QueueExpanding(g, f + [child], explored, node, k + 1)
            && ExploredEntries(f + [child], explored) == ExploredEntries(f, explored)
  {
    var child := Node(s, Some(node), Some(a), 1 + GetDistance(s, g.goal));
    var f' := f + [child];
    ChildSound(g, node, explored, a, s, child.priority);
    AddUnexplored(f, child, explored);
    AddKeepsCovered(g, f, child, explored, node, k);
    forall j | 0 <= j < |f'|
      ensures Sound(g, f'[j], explored) && Prioritized(g, f'[j])
    {
      if j < |f| {
        assert f'[j] == f[j];
      }
    }
  }

  /** One step of the inner loop of `solveA`: the neighbour is explored, so it is skipped. */
  lemma QueueSkip(g: Grid, f: seq<Node>, explored: set<Cell>, node: Node, k: nat)
    requires WellFormed(g) && QueueExpanding(g, f, explored, node, k)
    requires k < |Neighbors(g, node.state)| && Neighbors(g, node.state)[k].1 in explored
    ensures QueueExpanding(g, f, explored, node, k + 1)
  {
  }

  /** The inner loop of `solveA` done: the main loop's invariant holds again. */
  lemma QueueDone(g: Grid, f: seq<Node>, explored: set<Cell>, node: Node)
    requires WellFormed(g) && QueueExpanding(g, f, explored, node, |Neighbors(g, node.state)|)
    ensures QueueInv(g, f, explored)
  {
    CloseCell(g, explored, f, node.state);
  }

  /**
   * The children the inner loop of `solve` pushes onto the stack `f` for the
   * first `k` entries of the neighbour list `ns` of `node`, in order: one per
   * neighbour whose state is neither explored nor on the stack, counting the
   * children pushed before it.
   */
  function StackChildren(f: seq<Node>, explored: set<Cell>, node: Node, ns: seq<(Action, Cell)>, k: nat): seq<Node>
    requires k <= |ns|
    decreases k
  {
    if k == 0 then []
    else
      var rest := StackChildren(f, explored, node, ns, k - 1);
      var (a, s) := ns[k - 1];
      if !AnyState(f + rest, s) && s !in explored then rest + [Node(s, Some(node), Some(a), 0)] else rest
  }

  /** Considering neighbour `k`, `(a, s)`, extends the stack `f0 + ` the children pushed before it. */
  lemma StackChildrenStep(f0: seq<Node>, explored: set<Cell>, node: Node, ns: seq<(Action, Cell)>, k: nat,
                          a: Action, s: Cell)
    requires k < |ns| && ns[k] == (a, s)
    ensures var f := f0 + StackChildren(f0, explored, node, ns, k);
            f0 + StackChildren(f0, explored, node, ns, k + 1)
            == if !AnyState(f, s) && s !in explored then f + [Node(s, Some(node), Some(a), 0)] else f
  {
    var rest := StackChildren(f0, explored, node, ns, k);
    assert f0 + (rest + [Node(s, Some(node), Some(a), 0)]) == (f0 + rest) + [Node(s, Some(node), Some(a), 0)];
  }

  /**
   * Every child pushed is a move from `node` to a neighbour that was neither
   * explored nor on the stack, and every such neighbour ends up on the stack.
   */
  lemma {:induction false} StackChildrenStates(f: seq<Node>, explored: set<Cell>, node: Node, ns: seq<(Action, Cell)>,
                                               k: nat)
    requires k <= |ns|
    ensures |StackChildren(f, explored, node, ns, k)| <= k
    ensures forall c :: c in StackChildren(f, explored, node, ns, k) ==>
              && c.parent == Some(node) && c.state !in explored && !AnyState(f, c.state)
              && c.action.Some? && (c.action.value, c.state) in ns
    ensures forall j :: 0 <= j < k && ns[j].1 !in explored && !AnyState(f, ns[j].1) ==>
              AnyState(StackChildren(f, explored, node, ns, k), ns[j].1)
    decreases k
  {
    if k != 0 {
      var rest := StackChildren(f, explored, node, ns, k - 1);
      var out := StackChildren(f, explored, node, ns, k);
      StackChildrenStates(f, explored, node, ns, k - 1);
      assert rest <= out;
      forall j | 0 <= j < k && ns[j].1 !in explored && !AnyState(f, ns[j].1)
        ensures AnyState(out, ns[j].1)
      {
        if j < k - 1 {
          var i :| 0 <= i < |rest| && rest[i].state == ns[j].1;
          assert out[i] == rest[i];
        } else if AnyState(f + rest, ns[j].1) {
          var i :| 0 <= i < |f + rest| && (f + rest)[i].state == ns[j].1;
          assert out[i - |f|] == rest[i - |f|];
        } else {
          assert out[|out| - 1].state == ns[j].1;
        }
      }
      forall c | c in out
        ensures && c.parent == Some(node) && c.state !in explored && !AnyState(f, c.state)
                && c.action.Some? && (c.action.value, c.state) in ns
      {
        if c !in rest {
          assert !AnyState(f + rest, c.state);
          forall i | 0 <= i < |f|
            ensures f[i].state != c.state
          {
            assert (f + rest)[i] == f[i];
          }
        }
      }
    }
  }

  /**
   * Each child pushed comes from one of the first `k` neighbours, and no two
   * children share a state: a neighbour already pushed is on the stack.
   */
  lemma {:induction false} StackChildrenOnce(f: seq<Node>, explored: set<Cell>, node: Node, ns: seq<(Action, Cell)>,
                                             k: nat)
    requires k <= |ns|
    ensures forall c :: c in StackChildren(f, explored, node, ns, k) ==>
              c.action.Some? && exists j :: 0 <= j < k && ns[j] == (c.action.value, c.state)
    ensures forall i, j :: 0 <= i < j < |StackChildren(f, explored, node, ns, k)| ==>
              StackChildren(f, explored, node, ns, k)[i].state != StackChildren(f, explored, node, ns, k)[j].state
    decreases k
  {
    if k != 0 {
      StackChildrenOnce(f, explored, node, ns, k - 1);
      var rest := StackChildren(f, explored, node, ns, k - 1);
      var out := StackChildren(f, explored, node, ns, k);
      assert rest <= out;
      forall c | c in out
        ensures c.action.Some? && exists j :: 0 <= j < k && ns[j] == (c.action.value, c.state)
      {
        if c !in rest {
          assert ns[k - 1] == (c.action.value, c.state);
        }
      }
      forall i, j | 0 <= i < j < |out|
        ensures out[i].state != out[j].state
      {
        if j == |rest| {
          assert (f + rest)[|f| + i] == rest[i] == out[i];
        } else {
          assert out[i] == rest[i] && out[j] == rest[j];
        }
      }
    }
  }

  /**
   * The children the inner loop of `solveA` queues for the first `k` entries
   * of the neighbour list `ns` of `node`, in order: one per unexplored
   * neighbour, with priority `1 + get_distance(state, goal)`.
   */
  function QueueChildren(g: Grid, explored: set<Cell>, node: Node, ns: seq<(Action, Cell)>, k: nat): seq<Node>
    requires k <= |ns|
    decreases k
  {
    if k == 0 then []
    else
      var rest := QueueChildren(g, explored, node, ns, k - 1);
      var (a, s) := ns[k - 1];
      if s !in explored then rest + [Node(s, Some(node), Some(a), 1 + GetDistance(s, g.goal))] else rest
  }

  /** Considering neighbour `k`, `(a, s)`, extends the queue `f0 + ` the children queued before it. */
  lemma QueueChildrenStep(g: Grid, f0: seq<Node>, explored: set<Cell>, node: Node, ns: seq<(Action, Cell)>, k: nat,
                          a: Action, s: Cell)
    requires k < |ns| && ns[k] == (a, s)
    ensures var f := f0 + QueueChildren(g, explored, node, ns, k);
            f0 + QueueChildren(g, explored, node, ns, k + 1)
            == if s !in explored then f + [Node(s, Some(node), Some(a), 1 + GetDistance(s, g.goal))] else f
  {
    var rest := QueueChildren(g, explored, node, ns, k);
    var child := Node(s, Some(node), Some(a), 1 + GetDistance(s, g.goal));
    assert f0 + (rest + [child]) == (f0 + rest) + [child];
  }

  /**
   * Every neighbour of `node` is queued exactly when it is unexplored:
   * `solveA` checks neither the queue nor the order of removal.
   */
  lemma {:induction false} QueueChildrenStates(g: Grid, explored: set<Cell>, node: Node, ns: seq<(Action, Cell)>,
                                               k: nat)
    requires k <= |ns|
    ensures |QueueChildren(g, explored, node, ns, k)| <= k
    ensures forall c :: c in QueueChildren(g, explored, node, ns, k) ==>
              c.parent == Some(node) && c.state !in explored && c.action.Some? && (c.action.value, c.state) in ns
    ensures forall j :: 0 <= j < k && ns[j].1 !in explored ==>
              exists c :: c in QueueChildren(g, explored, node, ns, k) && c.state == ns[j].1 && c.action == Some(ns[j].0)
    decreases k
  {
    if k != 0 {
      QueueChildrenStates(g, explored, node, ns, k - 1);
      var rest := QueueChildren(g, explored, node, ns, k - 1);
      var out := QueueChildren(g, explored, node, ns, k);
      assert rest <= out;
      forall j | 0 <= j < k && ns[j].1 !in explored
        ensures exists c :: c in out && c.state == ns[j].1 && c.action == Some(ns[j].0)
      {
        if j == k - 1 {
          assert out[|out| - 1].state == ns[j].1;
        }
      }
    }
  }

  /**
   * Each child queued comes from one of the first `k` neighbours, and when
   * the neighbours' cells are distinct (as `NeighborsDistinct` shows of
   * `neighbors`) no two children share a state: one child per unexplored neighbour.
   */
  lemma {:induction false} QueueChildrenOnce(g: Grid, explored: set<Cell>, node: Node, ns: seq<(Action, Cell)>, k: nat)
    requires k <= |ns|
    requires forall i, j :: 0 <= i < j < |ns| ==> ns[i].1 != ns[j].1
    ensures forall c :: c in QueueChildren(g, explored, node, ns, k) ==>
              c.action.Some? && exists j :: 0 <= j < k && ns[j] == (c.action.value, c.state)
    ensures forall i, j :: 0 <= i < j < |QueueChildren(g, explored, node, ns, k)| ==>
              QueueChildren(g, explored, node, ns, k)[i].state != QueueChildren(g, explored, node, ns, k)[j].state
    decreases k
  {
    if k != 0 {
      QueueChildrenOnce(g, explored, node, ns, k - 1);
      var rest := QueueChildren(g, explored, node, ns, k - 1);
      var out := QueueChildren(g, explored, node, ns, k);
      assert rest <= out;
      forall c | c in out
        ensures c.action.Some? && exists j :: 0 <= j < k && ns[j] == (c.action.value, c.state)
      {
        if c !in rest {
          assert ns[k - 1] == (c.action.value, c.state);
        }
      }
      forall i, j | 0 <= i < j < |out|
        ensures out[i].state != out[j].state
      {
        if j == |rest| {
          assert out[i] == rest[i] && rest[i] in rest;
          var l :| 0 <= l < k - 1 && ns[l] == (rest[i].action.value, rest[i].state);
          assert out[j].state == ns[k - 1].1;
        } else {
          assert out[i] == rest[i] && out[j] == rest[j];
        }
      }
    }
  }

  /** One step of the inner loop of `solve`: the child is pushed exactly when its state is new. */
  lemma StackPushStep(g: Grid, f: seq<Node>, f': seq<Node>, explored: set<Cell>, node: Node, k: nat, k': nat,
                      a: Action, s: Cell)
    requires WellFormed(g) && StackExpanding(g, f, explored, node, k) && k' == k + 1
    requires k < |Neighbors(g, node.state)| && Neighbors(g, node.state)[k] == (a, s)
    requires f' == if !AnyState(f, s) && s !in explored then f + [Node(s, Some(node), Some(a), 0)] else f
    ensures StackExpanding(g, f', explored, node, k')
  {
    if !AnyState(f, s) && s !in explored {
      StackAdd(g, f, explored, node, k, a, s);
    } else {
      StackSkip(g, f, explored, node, k);
    }
  }

  /** Considering neighbour `k` after the children of the ones before it keeps the inner loop of `solve` on track. */
  lemma StackChildrenAdvance(g: Grid, f0: seq<Node>, explored: set<Cell>, node: Node, k: nat, k': nat)
    requires WellFormed(g) && k < |Neighbors(g, node.state)| && k' == k + 1
    requires StackExpanding(g, f0 + StackChildren(f0, explored, node, Neighbors(g, node.state), k), explored, node, k)
    ensures StackExpanding(g, f0 + StackChildren(f0, explored, node, Neighbors(g, node.state), k'), explored, node, k')
  {
    var ns := Neighbors(g, node.state);
    var (a, s) := ns[k];
    StackChildrenStep(f0, explored, node, ns, k, a, s);
    StackPushStep(g, f0 + StackChildren(f0, explored, node, ns, k), f0 + StackChildren(f0, explored, node, ns, k'),
                  explored, node, k, k', a, s);
  }

  /** Pushing the children of the first `k` neighbours keeps the inner loop of `solve` on track. */
  lemma {:induction false} StackChildrenExpanding(g: Grid, f0: seq<Node>, explored: set<Cell>, node: Node, k: nat)
    requires WellFormed(g) && StackExpanding(g, f0, explored, node, 0) && k <= |Neighbors(g, node.state)|
    ensures StackExpanding(g, f0 + StackChildren(f0, explored, node, Neighbors(g, node.state), k), explored, node, k)
    decreases k
  {
    var ns := Neighbors(g, node.state);
    if k == 0 {
      assert f0 + [] == f0;
    } else {
      StackChildrenExpanding(g, f0, explored, node, k - 1);
      StackChildrenAdvance(g, f0, explored, node, k - 1, k);
    }
  }

  /** One step of the inner loop of `solveA`: the child is queued exactly when its state is unexplored. */
  lemma QueuePutStep(g: Grid, f: seq<Node>, f': seq<Node>, explored: set<Cell>, node: Node, k: nat, k': nat,
                     a: Action, s: Cell)
    requires WellFormed(g) && QueueExpanding(g, f, explored, node, k) && k' == k + 1
    requires k < |Neighbors(g, node.state)| && Neighbors(g, node.state)[k] == (a, s)
    requires f' == if s !in explored then f + [Node(s, Some(node), Some(a), 1 + GetDistance(s, g.goal))] else f
    ensures QueueExpanding(g, f', explored, node, k')
  {
    if s !in explored {
      QueueAdd(g, f, explored, node, k, a, s);
    } else {
      QueueSkip(g, f, explored, node, k);
    }
  }

  /** The children queued are all unexplored, so they add no explored entries. */
  lemma {:induction false} QueueChildrenUnexplored(g: Grid, explored: set<Cell>, node: Node, ns: seq<(Action, Cell)>,
                                                   k: nat)
    requires k <= |ns|
    ensures ExploredEntries(QueueChildren(g, explored, node, ns, k), explored) == 0
    decreases k
  {
    if k != 0 {
      QueueChildrenUnexplored(g, explored, node, ns, k - 1);
      var rest := QueueChildren(g, explored, node, ns, k - 1);
      var (a, s) := ns[k - 1];
      if s !in explored {
        AddUnexplored(rest, Node(s, Some(node), Some(a), 1 + GetDistance(s, g.goal)), explored);
      }
    }
  }

  /** Queueing the children leaves the number of explored entries as it was. */
  lemma QueueChildrenExplored(g: Grid, f0: seq<Node>, explored: set<Cell>, node: Node, ns: seq<(Action, Cell)>, k: nat)
    requires k <= |ns|
    ensures ExploredEntries(f0 + QueueChildren(g, explored, node, ns, k), explored) == ExploredEntries(f0, explored)
  {
    QueueChildrenUnexplored(g, explored, node, ns, k);
    ExploredEntriesConcat(f0, QueueChildren(g, explored, node, ns, k), explored);
  }

  /** Considering neighbour `k` after the children of the ones before it keeps the inner loop of `solveA` on track. */
  lemma QueueChildrenAdvance(g: Grid, f0: seq<Node>, explored: set<Cell>, node: Node, k: nat, k': nat)
    requires WellFormed(g) && k < |Neighbors(g, node.state)| && k' == k + 1
    requires QueueExpanding(g, f0 + QueueChildren(g, explored, node, Neighbors(g, node.state), k), explored, node, k)
    ensures QueueExpanding(g, f0 + QueueChildren(g, explored, node, Neighbors(g, node.state), k'), explored, node, k')
  {
    var ns := Neighbors(g, node.state);
    var (a, s) := ns[k];
    QueueChildrenStep(g, f0, explored, node, ns, k, a, s);
    QueuePutStep(g, f0 + QueueChildren(g, explored, node, ns, k), f0 + QueueChildren(g, explored, node, ns, k'),
                 explored, node, k, k', a, s);
  }

  /** Queueing the children of the first `k` neighbours keeps the inner loop of `solveA` on track. */
  lemma {:induction false} QueueChildrenExpanding(g: Grid, f0: seq<Node>, explored: set<Cell>, node: Node, k: nat)
    requires WellFormed(g) && QueueExpanding(g, f0, explored, node, 0) && k <= |Neighbors(g, node.state)|
    ensures QueueExpanding(g, f0 + QueueChildren(g, explored, node, Neighbors(g, node.state), k), explored, node, k)
    decreases k
  {
    var ns := Neighbors(g, node.state);
    if k == 0 {
      assert f0 + [] == f0;
    } else {
      QueueChildrenExpanding(g, f0, explored, node, k - 1);
      QueueChildrenAdvance(g, f0, explored, node, k - 1, k);
    }
  }

  /**
   * The inner loop of `solve`: push a child for every neighbour of the
   * explored `node` that is neither explored nor already on the stack.
   */
  method PushNeighbors(g: Grid, frontier: Frontier, node: Node, explored: set<Cell>)
    requires WellFormed(g) && StackExpanding(g, frontier.nodes, explored, node, 0)
    modifies frontier
    ensures StackInv(g, frontier.nodes, explored)
    ensures frontier.nodes
            == old(frontier.nodes)
               + StackChildren(old(frontier.nodes), explored, node, Neighbors(g, node.state), |Neighbors(g, node.state)|)
  {
    var neighbors := Neighbors(g, node.state);
    var k := 0;
    assert frontier.nodes + [] == frontier.nodes;
    while k < |neighbors|
      invariant k <= |neighbors|
      invariant frontier.nodes == old(frontier.nodes) + StackChildren(old(frontier.nodes), explored, node, neighbors, k)
      modifies frontier
    {
      var (action, state) := neighbors[k];
      StackChildrenStep(old(frontier.nodes), explored, node, neighbors, k, action, state);
      assert frontier.ContainsState(state) == AnyState(frontier.nodes, state);
      if !frontier.ContainsState(state) && state !in explored {
        var child := Node(state, Some(node), Some(action), 0);
        frontier.Add(child);
      }
      k := k + 1;
    }
    StackChildrenExpanding(g, old(frontier.nodes), explored, node, k);
    StackDone(g, frontier.nodes, explored, node);
  }

  /**
   * The inner loop of `solveA`: queue a child, with priority
   * `1 + get_distance(state, goal)`, for every unexplored neighbour of `node`.
   */
  method QueueNeighbors(g: Grid, frontier: PriorityFrontier, node: Node, explored: set<Cell>)
    requires WellFormed(g) && QueueExpanding(g, frontier.items, explored, node, 0)
    modifies frontier
    ensures QueueInv(g, frontier.items, explored)
    ensures frontier.items
            == old(frontier.items)
               + QueueChildren(g, explored, node, Neighbors(g, node.state), |Neighbors(g, node.state)|)
    ensures ExploredEntries(frontier.items, explored) == ExploredEntries(old(frontier.items), explored)
  {
    var neighbors := Neighbors(g, node.state);
    var k := 0;
    assert frontier.items + [] == frontier.items;
    while k < |neighbors|
      invariant k <= |neighbors|
      invariant frontier.items == old(frontier.items) + QueueChildren(g, explored, node, neighbors, k)
      modifies frontier
    {
      var (action, state) := neighbors[k];
      QueueChildrenStep(g, old(frontier.items), explored, node, neighbors, k, action, state);
      if state !in explored {
        var child := Node(state, Some(node), Some(action), 1 + GetDistance(state, g.goal));
        frontier.Put(child);
      }
      k := k + 1;
    }
    QueueChildrenExpanding(g, old(frontier.items), explored, node, k);
    QueueChildrenExplored(g, old(frontier.items), explored, node, neighbors, k);
    QueueDone(g, frontier.items, explored, node);
  }

  /** Walk the parent links of `node` (as the loops at the end of both searches do) and reverse. */
  method Backtrack(node: Node) returns (sol: Solution)
    requires Linked(node)
    ensures sol == Trail(node)
  {
    var actions: seq<Action> := [];
    var cells: seq<Cell> := [];
    var cur := node;
    while cur.parent.Some?
      invariant Linked(cur)
      invariant Moves(node) == Moves(cur) + Reverse(actions)
      invariant Path(node) == Path(cur) + Reverse(cells)
      decreases cur
    {
      assert Reverse(actions + [cur.action.value]) == [cur.action.value] + Reverse(actions);
      assert Reverse(cells + [cur.state]) == [cur.state] + Reverse(cells);
      actions := actions + [cur.action.value];
      cells := cells + [cur.state];
      cur := cur.parent.value;
    }
    sol := Solution(Reverse(actions), Reverse(cells));
  }

  /** Adding one cell grows a set by at most one. */
  lemma AddOneSize(e: set<Cell>, s: Cell)
    ensures |e + {s}| <= |e| + 1
  {
    if s in e {
      assert e + {s} == e;
    }
  }

  /**
   * The body of `solve`: graph search with a stack frontier from the start,
   * returning the outcome, the explored set and the count of removed nodes.
   */
  method StackSearch(g: Grid) returns (r: Result<Solution, SearchError>, explored: set<Cell>, numExplored: nat)
    requires WellFormed(g)
    ensures r.Success? <==> Reach(OpenCells(g), g.start, g.goal)
    ensures r.Success? ==> IsSolution(g, r.value)
    ensures explored <= OpenCells(g) && g.goal !in explored
    ensures numExplored == |explored| + (if r.Success? then 1 else 0)
    ensures numExplored <= |OpenCells(g)|
  {
    numExplored := 0;
    var start := Node(g.start, None, None, 0);
    var frontier := new Frontier(Lifo);
    frontier.Add(start);
    explored := {};
    ghost var open := OpenCells(g);
    RootInv(g);
    while true
      invariant fresh(frontier) && frontier.discipline == Lifo
      invariant StackInv(g, frontier.nodes, explored)
      invariant numExplored == |explored|
      decreases |open - explored|
    {
      if frontier.Empty() {
        Exhausted(g, explored);
        SubsetSize(explored, open);
        return Failure(NoSolution), explored, numExplored;
      }
      ghost var f := frontier.nodes;
      var removed := frontier.Remove();
      var node := removed.value;
      numExplored := numExplored + 1;
      if node.state == g.goal {
        ChainLinked(g, node);
        var sol := Backtrack(node);
        GoalTrail(g, node, explored);
        SolutionReaches(g, sol);
        ChainRoot(g, node);
        SubsetSize(explored + {g.goal}, open);
        return Success(sol), explored, numExplored;
      }
      StackPop(g, f, explored);
      ChainRoot(g, node);
      FewerUnexplored(open, explored, node.state);
      explored := explored + {node.state};
      PushNeighbors(g, frontier, node, explored);
    }
  }

  /**
   * The body of `solveA`: best-first search over a priority queue, each child
   * queued with priority `1 + get_distance(child, goal)`, with neither a
   * frontier-membership test nor an explored test on removal.
   */
  method PrioritySearch(g: Grid) returns (r: Result<Solution, SearchError>, explored: set<Cell>, numExplored: nat)
    requires WellFormed(g)
    ensures r.Success? <==> Reach(OpenCells(g), g.start, g.goal)
    ensures r.Success? ==> IsSolution(g, r.value)
    ensures explored <= OpenCells(g) && g.goal !in explored
    ensures |explored| <= numExplored
  {
    numExplored := 0;
    var start := Node(g.start, None, None, 0);
    var frontier := new PriorityFrontier();
    frontier.Put(start);
    explored := {};
    ghost var open := OpenCells(g);
    RootInv(g);
    while !frontier.Empty()
      invariant fresh(frontier)
      invariant QueueInv(g, frontier.items, explored)
      invariant |explored| <= numExplored
      decreases |open - explored|, ExploredEntries(frontier.items, explored)
    {
      ghost var f := frontier.items;
      var node := frontier.Get();
      ghost var i :| 0 <= i < |f| && node == f[i] && frontier.items == f[..i] + f[i + 1..];
      numExplored := numExplored + 1;
      if node.state == g.goal {
        ReachedGoal(g, node, explored);
        var sol := Backtrack(node);
        return Success(sol), explored, numExplored;
      }
      QueuePop(g, f, i, explored);
      ChainRoot(g, node);
      AddOneSize(explored, node.state);
      ghost var before := explored;
      explored := explored + {node.state};
      QueueNeighbors(g, frontier, node, explored);
      QueueProgress(open, before, f, i, frontier.items);
    }
    Exhausted(g, explored);
    return Failure(NoSolution), explored, numExplored;
  }

  /** The maze once read: its grid, the player, and what the last search recorded. */
  class Maze {
    const grid: Grid
    var playerPos: Cell
    var solution: Option<Solution>
    var explored: set<Cell>
    var numExplored: nat

    ghost predicate Valid()
      reads this`playerPos
    {
      WellFormed(grid) && IsOpen(grid, playerPos)
    }

    /** The fields set by `Maze.__init__` once the grid has been read. */
    constructor (g: Grid)
      requires WellFormed(g)
      ensures Valid() && grid == g && playerPos == g.start && solution == None
      ensures explored == {} && numExplored == 0
    {
      grid := g;
      playerPos := g.start;
      solution := None;
      explored := {};
      numExplored := 0;
    }

    /** `move_player`: take the named step when it stays on an open cell; ignore anything else. */
    method MovePlayer(direction: string)
      requires Valid()
      modifies this`playerPos
      ensures Valid()
      ensures playerPos == MoveTarget(grid, old(playerPos), direction)
    {
      var (row, col) := playerPos;
      var newPos: Cell;
      if direction == "up" {
        newPos := (row - 1, col);
      } else if direction == "down" {
        newPos := (row + 1, col);
      } else if direction == "left" {
        newPos := (row, col - 1);
      } else if direction == "right" {
        newPos := (row, col + 1);
      } else {
        return;
      }
      if 0 <= newPos.0 < grid.height && 0 <= newPos.1 < grid.width && !grid.walls[newPos.0][newPos.1] {
        playerPos := newPos;
      }
    }

    /**
     * `solve`: graph search with a stack frontier. It succeeds exactly when the
     * goal is reachable, and then records a solution; otherwise it reports that
     * there is none. The explored set and the count are those the search leaves.
     */
    method Solve() returns (r: Result<Solution, SearchError>)
      requires Valid()
      modifies this`solution, this`explored, this`numExplored
      ensures Valid()
      ensures r.Success? <==> Reach(OpenCells(grid), grid.start, grid.goal)
      ensures r.Success? ==> solution == Some(r.value) && IsSolution(grid, r.value)
      ensures r.Failure? ==> solution == old(solution)
      ensures explored <= OpenCells(grid) && grid.goal !in explored
      ensures numExplored == |explored| + (if r.Success? then 1 else 0)
      ensures numExplored <= |OpenCells(grid)|
    {
      var e, n;
      r, e, n := StackSearch(grid);
      explored, numExplored := e, n;
      if r.Success? {
        solution := Some(r.value);
      }
    }

    /**
     * `solveA`: best-first search over a priority queue. It too succeeds exactly
     * when the goal is reachable.
     */
    method SolveA() returns (r: Result<Solution, SearchError>)
      requires Valid()
      modifies this`solution, this`explored, this`numExplored
      ensures Valid()
      ensures r.Success? <==> Reach(OpenCells(grid), grid.start, grid.goal)
      ensures r.Success? ==> solution == Some(r.value) && IsSolution(grid, r.value)
      ensures r.Failure? ==> solution == old(solution)
      ensures explored <= OpenCells(grid) && grid.goal !in explored
      ensures |explored| <= numExplored
    {
      var e, n;
      r, e, n := PrioritySearch(grid);
      explored, numExplored := e, n;
      if r.Success? {
        solution := Some(r.value);
      }
    }
  }

  /** `Maze(filename)` once the file has been read into `contents`. */
  method Load(contents: string) returns (r: Result<Maze, ParseError>)
    ensures r.Failure? <==> Count(contents, 'A') != 1 || Count(contents, 'B') != 1
    ensures r.Success? ==> fresh(r.value) && r.value.Valid() && r.value.solution == None
    ensures r.Success? ==> Describes(SplitLines(contents), r.value.grid) && r.value.playerPos == r.value.grid.start
  {
    var parsed := ParseMaze(contents);
    match parsed
    case Failure(e) =>
      r := Failure(e);
    case Success(g) =>
      var m := new Maze(g);
      r := Success(m);
  }
}
