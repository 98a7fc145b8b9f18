# Pygame_Maze in Dafny

A model of the grid logic of Pygame_Maze: a maze is read from text, a
player moves inside it, and two searches solve it; a randomised
depth-first carver generates new mazes.

- `wrappers.dfy` (`Wrappers`): `Option` and `Result`.
- `cells.dfy` (`Cells`): cells as `(row, column)` pairs, 4-adjacency, walks
  through a set of cells, reachability and connectivity.
- `grids.dfy` (`Grids`): the wall matrix (`height`, `width`, `walls`,
  `start`, `goal`), the four moves, `neighbors`, the target of
  `move_player`, and `get_distance`.
- `frontiers.dfy` (`Frontiers`): `Node` (a value: nodes are never changed),
  `StackFrontier` and `QueueFrontier` as one class `Frontier` whose
  `Remove` takes from the end (`Lifo`) or the front (`Fifo`), and the
  `PriorityQueue` of `solveA` as `PriorityFrontier`, whose `Get` removes
  some entry of least priority.
- `maze_text.dfy` (`MazeText`): `Maze.__init__` on the file's contents, with
  `str.splitlines`, `str.count` and the row-by-row fill of the wall
  matrix.
- `maze_solver.dfy` (`MazeSolver`): the `Maze` object, with `move_player`,
  `solve` (graph search over a stack) and `solveA` (best-first search
  over the priority queue), and the path rebuilt from parent links.
- `generator.dfy` (`MazeGenerator`): `generate_maze` over an
  `array2<char>` mutated in place by the recursive `dfs`, then the start
  "A" and goal "B" stamps.

The searches are proved complete and sound:
- each succeeds exactly when the goal can be reached from the start
  through open cells;
- a success records a walk of legal moves from the start to the goal
  that repeats no cell;
- the explored set holds only open cells and never the goal;
- the explored count of `solve` is bounded by the number of open cells.

The generator is proved to:
- write only spaces while carving;
- leave the cells with both coordinates odd as "#";
- open every even/even cell;
- keep the opened region connected to the origin;
- leave exactly one "B", and exactly one "A" unless the goal falls on the
  origin.

The randomness of the generator is passed in:
- `order(c)` is the shuffled list of the four jumps used when `dfs`
  enters cell `c`. `dfs` enters each cell at most once, so one shuffle
  per cell is all the code ever draws.
- The two `randint` pairs are passed in as `startPick` and `goalPick`.

Two behaviours of the code that the model keeps as written:
- A line shorter than the widest line is padded with OPEN cells
  (test.py:90-91): the `IndexError` past the line's end appends `False`.
- `get_distance`, documented as the Euclidean distance (test.py:240, 250),
  is the absolute value of the sum of the two coordinate differences
  (test.py:253), which is neither Euclidean nor Manhattan. Distinct cells
  can be at distance 0 (`Grids.GetDistanceCancels`).

## Model

| member | source | states |
|---|---|---|
| Grids.Step | test.py:99-106 | the target of each of the four moves is the cell one row up or down, or one column left or right, and is 4-adjacent |
| Grids.Neighbors | test.py:135-148 | every returned pair is a legal move to an in-bounds non-wall cell; every open cell one move away is returned; the moves come in the order up, down, left, right |
| Grids.Direction | test.py:99-107 | the four strings "up", "down", "left" and "right" name their move, and no other string names one |
| Grids.NeighborsDistinct | test.py:135-148 | the moves `neighbors` returns lead to pairwise distinct cells |
| Grids.Offer | test.py:145-147 | one candidate move, kept exactly when the cell it reaches is open, and then a legal move |
| Grids.MoveTarget | test.py:97-115 | an unknown direction leaves the position; a change of position is a legal move in the named direction; a named move to an open cell is taken; an open position stays open |
| Grids.MoveIsNeighbor | test.py:110-115 | `move_player` changes the position exactly when the target, with its action, is one of `neighbors` of the old position |
| Grids.GetDistance | test.py:249-253 | zero on equal cells and never more than the Manhattan distance |
| Grids.GetDistanceSymmetric | test.py:249-253 | the distance does not depend on the order of its arguments |
| Grids.GetDistanceCancels | test.py:253 | two distinct cells can be at distance zero |
| Frontiers.AnyState | test.py:30-31 | true exactly when some node in the list has the given state |
| Frontiers.Frontier.constructor | test.py:24-25 | a new frontier holds no nodes |
| Frontiers.Frontier.Add | test.py:27-28 | appends the node; afterwards its state is contained and the frontier is not empty |
| Frontiers.Frontier.ContainsState | test.py:30-31 | true exactly when some held node has the state |
| Frontiers.Frontier.Empty | test.py:33-34 | true exactly when the frontier holds no node |
| Frontiers.EmptyHoldsNothing | test.py:30-34 | a frontier is empty exactly when it contains no state |
| Frontiers.Frontier.Remove | test.py:36-53 | fails on an empty frontier and leaves it; otherwise returns the last node (stack) or the first node (queue) and keeps the rest in order |
| Frontiers.MinimumExists | test.py:213-215 | a non-empty queue has an entry of least priority |
| Frontiers.PriorityFrontier.constructor | test.py:206 | a new queue holds no entry |
| Frontiers.PriorityFrontier.Empty | test.py:213 | true exactly when no entry is queued; otherwise some entry has least priority |
| Frontiers.PriorityFrontier.Put | test.py:207 | the entry joins the queue |
| Frontiers.PriorityFrontier.Get | test.py:215 | removes and returns one entry whose priority is no larger than any other, leaving the others |
| MazeText.LineEnd | test.py:70 | the first line boundary at or after an index, or the end of the text |
| MazeText.SplitLines | test.py:70 | no line holds a boundary character |
| MazeText.SplitJoin | test.py:70 | splitting the text of lines, each ended by a newline, gives back those lines |
| MazeText.Count | test.py:64-66 | the number of occurrences is at most the length of the text |
| MazeText.CountMultiset | test.py:64-66 | the count of a character is its multiplicity in the text |
| MazeText.CountSplit | test.py:64-70 | "A" and "B" occur as often in the text as in its lines |
| MazeText.CountAllOnce | test.py:64-67 | a marker counted once over the lines sits at exactly one line and column |
| MazeText.MaxLen | test.py:72 | the width is the length of the longest line |
| MazeText.ReadRow | test.py:77-92 | one row of wall flags, true exactly where the line has a character other than "A", "B" and space, and open past the line's end; the start and goal move to an "A" or "B" on the line |
| MazeText.DescribedIsWellFormed | test.py:70-92 | the grid read from the text is well shaped, and its start and goal are distinct open cells |
| MazeText.ParseMaze | test.py:63-92 | fails with the start error exactly when "A" does not occur once, and with the goal error exactly when "A" does but "B" does not; otherwise gives `height` rows of `width` wall flags read from the lines, with the start and goal on the only "A" and "B" |
| MazeSolver.Reverse | test.py:184-185 | the reverse of a list, element by element |
| MazeSolver.Backtrack | test.py:178-186 | the actions and cells rebuilt from the parent links are the node's moves and the states after the root, first move first |
| MazeSolver.ChainWalk | test.py:178-186 | the path rebuilt from a node reached by legal moves from the start is a walk of legal moves from the start |
| MazeSolver.GoalTrail | test.py:177-186 | a node at the goal that the search may hold yields a solution |
| MazeSolver.ReachedGoal | test.py:177-187 | a sound node at the goal, with only open cells explored, yields a solution, the goal is reachable, and the explored cells with the goal number at most the open cells |
| MazeSolver.SolutionReaches | test.py:177-187 | a solution witnesses that the goal is reachable through open cells |
| MazeSolver.Exhausted | test.py:168-170 | when the frontier is empty with every move out of an explored cell covered, the goal is unreachable |
| MazeSolver.Pop | test.py:173-190 | removing a non-goal entry and exploring its state keeps every held node sound and only the new cell's moves uncovered |
| MazeSolver.ChildSound | test.py:193-196 | a child at an unexplored open neighbour of an explored sound node is sound |
| MazeSolver.CloseCell | test.py:192-196 | once every neighbour of the newly explored cell is covered, every move out of the explored set is covered |
| MazeSolver.RootInv | test.py:155-163 | the root node alone satisfies the invariants of both searches |
| MazeSolver.StackChildrenStates | test.py:193-196 | the children pushed for the neighbour list are moves from the node to neighbours neither explored nor on the stack, no more children than neighbours, and every such neighbour gets one |
| MazeSolver.StackChildrenOnce | test.py:193-196 | each child pushed comes from one of the neighbours considered, and no two children share a state, so every qualifying neighbour gets exactly one |
| MazeSolver.QueueChildrenStates | test.py:235-245 | the children queued for the neighbour list are moves from the node to unexplored neighbours, no more children than neighbours, and every unexplored neighbour gets one with its action |
| MazeSolver.QueueChildrenOnce | test.py:235-245 | each child queued comes from one of the neighbours considered, and when the neighbours' cells are distinct no two children share a state, so every unexplored neighbour gets exactly one |
| MazeSolver.PushNeighbors | test.py:193-196 | the stack becomes the old stack followed by exactly the children `StackChildren` lists, in neighbour order, and the stack invariant holds again |
| MazeSolver.QueueNeighbors | test.py:235-245 | the queue becomes the old queue followed by exactly the children `QueueChildren` lists, with priority `1 + get_distance(child, goal)`; the queue invariant holds again and the explored entries are unchanged |
| MazeSolver.StackSearch | test.py:151-196 | succeeds exactly when the goal is reachable, then with a solution; the explored set holds open cells other than the goal; the count is the number of explored cells, plus one for the goal, and at most the number of open cells |
| MazeSolver.PrioritySearch | test.py:198-247 | succeeds exactly when the goal is reachable, then with a solution; the explored set holds open cells other than the goal and is no larger than the count |
| MazeSolver.Maze.constructor | test.py:94-95 | the player starts at the start cell and no solution is recorded |
| MazeSolver.Maze.MovePlayer | test.py:97-115 | the position becomes the move target, so it stays an open cell |
| MazeSolver.Maze.Solve | test.py:151-196 | the outcome of the stack search, with the solution recorded on success and the explored set and count stored |
| MazeSolver.Maze.SolveA | test.py:198-247 | the outcome of the best-first search, with the solution recorded on success and the explored set and count stored |
| MazeSolver.Load | test.py:57-95 | fails exactly when "A" or "B" does not occur once; otherwise a maze whose grid is read from the lines and whose player stands at the start |
| MazeGenerator.ShuffleHas | generateMaze.py:9-10 | a shuffled list of jumps holds each of the four jumps |
| MazeGenerator.JumpFacts | generateMaze.py:13-16 | a jump from an even/even cell that lands in bounds lands on an even/even cell, and the cell it passes over is in bounds, adjacent to both ends and not odd/odd |
| MazeGenerator.MidFlanks | generateMaze.py:13-16 | the cell a jump passes over is not a room, and its two flanks are the two ends of the jump |
| MazeGenerator.FlanksJump | generateMaze.py:13-16 | a non-room cell with an even coordinate is the cell passed over by one of the four jumps between its flanks, both rooms |
| MazeGenerator.JoinedDegree | generateMaze.py:13-17 | in an opened set free of odd/odd cells where every non-room joins two rooms, no two rooms are neighbours and an opened non-room cell's opened neighbours are its flanks |
| MazeGenerator.JumpExcess | generateMaze.py:14-17 | a jump to an unopened room opens two new cells, one a room, so the gap between cells and twice the rooms is kept |
| MazeGenerator.OpenCell | generateMaze.py:7 | writes a space; the grid still holds only "#" and spaces, and the opened set gains exactly that cell |
| MazeGenerator.CarvingJump | generateMaze.py:14-17 | opening the landing cell and the one passed over keeps the opened region connected and free of odd/odd cells, and leaves fewer unopened cells than on entry |
| MazeGenerator.CarvingDone | generateMaze.py:12-17 | once every shuffled jump has been tried, every in-bounds jump of the cell is opened |
| MazeGenerator.Carve | generateMaze.py:6-17 | `dfs` writes only spaces, never closes a cell, keeps the opened region free of odd/odd cells and connected to the origin, and returns with all in-bounds jumps of every room it opened (its own cell among them) opened |
| MazeGenerator.RoomsCarved | generateMaze.py:6-20 | when the origin is opened and every opened room has its jumps opened, every even/even cell of the grid is opened |
| MazeGenerator.PickBoundAsWritten | generateMaze.py:19 | the upper end `d // 2` of the `randint` call as written |
| MazeGenerator.PickAsWrittenLeaves | generateMaze.py:19 | for an even side the largest pick as written doubles to a row or column outside the grid |
| MazeGenerator.PickAsWrittenTen | generateMaze.py:34 | for `generate_maze(10, 10)` the largest pick doubles to 10 |
| MazeGenerator.PickBound | generateMaze.py:19 | the largest pick that doubles to an index inside a side |
| MazeGenerator.PickBoundOdd | generateMaze.py:19 | on an odd side the code as written already stays inside |
| MazeGenerator.Origin | generateMaze.py:19 | a doubled pick is an even/even cell |
| MazeGenerator.Stamp | generateMaze.py:21-24 | writes the marker at the chosen cell of the opened region and changes no other cell; the grid still tracks the opened region |
| MazeGenerator.GenerateMaze | generateMaze.py:3-26 | `m` rows of `n` symbols among "#", space, "A" and "B"; "B" at the goal alone; "A" at the origin alone unless the goal is the origin; odd/odd cells stay "#"; every even/even cell is opened; every opened cell, the goal among them, is reachable from the origin through opened cells; every opened non-room joins two opened rooms, and the opened cells number one fewer than twice the rooms |

## Left out

- Rendering: `Maze.print`, `output_image` and `draw` (console output, PIL and the pygame event loop, clock and fonts).
- File reading in `Maze.__init__` (test.py:60-61): `Load` and `ParseMaze` take the text already read.
- The script lines: the `sys.argv` check and calls in test.py, and the call and print at the end of generateMaze.py.
- `write_maze_to_file`: file output. It joins cells with spaces, so reading its file back is not a round trip of the grid.
- `random`: `random.shuffle` and `random.randint` are parameters of `GenerateMaze` (`order`, `startPick`, `goalPick`).
- `queue.PriorityQueue` internals (heap layout, locking): the queue is a list of entries with removal of some least-priority entry. Ties are broken in no fixed order.
- Frontiers.PriorityFrontier.Get: requires a non-empty queue. `get` on an empty `PriorityQueue` blocks for ever, and `solveA` tests `empty()` first.
- `Node.__eq__` and `__lt__`, beyond their use as the priority order.
- The Python recursion limit: a deep enough `dfs` raises `RecursionError`. The model recurses without bound.
- The exceptions "empty frontier", "no solution" and the parser's two errors are `Failure` results. The search's `raise` becomes a returned `Failure(NoSolution)`, and on it `Solve` and `SolveA` keep the previous solution.
- `Maze.__init__` leaves `start` and `goal` unset until the markers are read. The model starts them at (0, 0); once the markers are counted once, both are always overwritten.
- The loop bodies of `solve` and `solveA` are split into `StackSearch`/`PrioritySearch` and the neighbour loops `PushNeighbors`/`QueueNeighbors`. `Solve` and `SolveA` store `explored` and `num_explored` on return, not on every step as the source does. The inner column loop of `Maze.__init__` is `ReadRow`.
- MazeSolver.Maze.SolveA: bounds the explored set by the count, not the count by the open cells. `solveA` pops duplicate and already explored entries, so its count is not bounded by the number of open cells.
- MazeGenerator.GenerateMaze: states the tree shape of the opened cells through its parts (connected, every non-room joins exactly two rooms, one non-room fewer than rooms), but the graph-theory step from these to "the opened cells contain no cycle" is not proved.
- MazeSolver.Maze.constructor: also sets `explored` to the empty set and `numExplored` to 0, which `Maze.__init__` (test.py:57-95) does not create; in the source these attributes exist only once `solve` or `solveA` has run.
- MazeGenerator.GenerateMaze: requires picks of at most `PickBound`, stricter than the `randint` bound as written (see Findings). It also requires a shuffle for every cell.

## Findings

| source | as written | input that shows it | evidently intended | confidence | as-written member | corrected member |
|---|---|---|---|---|---|---|
| generateMaze.py:19-23 | `random.randint(0, m // 2) * 2` may draw `m // 2`, and for an even side that doubles to `m`, one past the last row (the same for columns with `n`) | `generate_maze(10, 10)` drawing 5 from `randint(0, 5)` indexes row 10 of a 10-row grid: `IndexError` | picks from `0` to `(m - 1) // 2`, so that the doubled index stays inside the grid | not executed | MazeGenerator.PickAsWrittenLeaves | MazeGenerator.PickBound |
