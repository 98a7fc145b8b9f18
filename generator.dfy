/**
 * `generate_maze` of generateMaze.py: a depth-first carve over an `m x n`
 * character grid, in two-cell jumps that open the cell in between, followed
 * by stamping the start "A" and the goal "B".
 *
 * The randomness is passed in: `order(c)` is the shuffled direction list the
 * carve uses at cell `c` (the carve enters each cell at most once, so one
 * shuffle per cell is all it ever draws), and the four `randint` results are
 * parameters.
 */
module MazeGenerator {
  import opened Cells

  /** The jumps `dfs` tries, before shuffling. */
  const Directions: seq<(int, int)> := [(0, 2), (0, -2), (2, 0), (-2, 0)]

  /** `random.shuffle(directions)` may return any ordering of the four jumps. */
  predicate IsShuffle(s: seq<(int, int)>) {
    multiset(s) == multiset(Directions)
  }

  function Jump(c: Cell, d: (int, int)): Cell {
    (c.0 + d.0, c.1 + d.1)
  }

  /** The cell a jump from `c` in direction `d` passes over: `(r + dx // 2, c + dy // 2)`. */
  function Mid(c: Cell, d: (int, int)): Cell {
    (c.0 + d.0 / 2, c.1 + d.1 / 2)
  }

  predicate InGrid(maze: array2<char>, c: Cell) {
    0 <= c.0 < maze.Length0 && 0 <= c.1 < maze.Length1
  }

  function At(maze: array2<char>, c: Cell): char
    requires InGrid(maze, c)
    reads maze
  {
    maze[c.0, c.1]
  }

  predicate Room(c: Cell) {
    c.0 % 2 == 0 && c.1 % 2 == 0
  }

  /** Every cell of the grid. */
  function AllCells(maze: array2<char>): (s: set<Cell>)
    ensures forall c :: c in s <==> InGrid(maze, c)
  {
    set i, j | 0 <= i < maze.Length0 && 0 <= j < maze.Length1 :: (i, j)
  }

  /** The cells opened so far (a space, or later "A" or "B"). */
  ghost function Carved(maze: array2<char>): (s: set<Cell>)
    reads maze
    ensures forall c :: c in s <==> InGrid(maze, c) && At(maze, c) != '#'
  {
    set i, j | 0 <= i < maze.Length0 && 0 <= j < maze.Length1 && maze[i, j] != '#' :: (i, j)
  }

  /** While carving, the grid holds only "#" and spaces. */
  ghost predicate Marks(maze: array2<char>)
    reads maze
  {
    forall i, j :: 0 <= i < maze.Length0 && 0 <= j < maze.Length1 ==> maze[i, j] == '#' || maze[i, j] == ' '
  }

  /** `s` is exactly the set of cells of `maze` that are not "#". */
  ghost predicate Tracks(maze: array2<char>, s: set<Cell>)
    reads maze
  {
    && (forall c :: c in s ==> InGrid(maze, c))
    && forall i, j :: 0 <= i < maze.Length0 && 0 <= j < maze.Length1 ==> (maze[i, j] != '#' <==> (i, j) in s)
  }

  /** No cell with both coordinates odd is in `s`. */
  ghost predicate NoPillars(s: set<Cell>) {
    forall c :: c in s ==> c.0 % 2 == 0 || c.1 % 2 == 0
  }

  /** Every in-bounds jump out of `c` lands in `s`. */
  ghost predicate ClosedIn(maze: array2<char>, s: set<Cell>, c: Cell) {
    forall k :: 0 <= k < |Directions| && InGrid(maze, Jump(c, Directions[k])) ==> Jump(c, Directions[k]) in s
  }

  /**
   * The two cells on either side of a cell a jump passes over: left and right
   * of it when its row is even, above and below it otherwise.
   */
  function Flanks(x: Cell): (Cell, Cell) {
    if x.0 % 2 == 0 then ((x.0, x.1 - 1), (x.0, x.1 + 1)) else ((x.0 - 1, x.1), (x.0 + 1, x.1))
  }

  /** Every cell of `s` that is not a room joins two rooms of `s`: the ends of the jump that opened it. */
  ghost predicate Joined(s: set<Cell>) {
    forall x {:trigger Flanks(x)} :: x in s && !Room(x) ==> Flanks(x).0 in s && Flanks(x).1 in s
  }

  /** The rooms among `s`. */
  ghost function Rooms(s: set<Cell>): (r: set<Cell>)
    ensures forall x :: x in r <==> x in s && Room(x)
  {
    set x | x in s && Room(x)
  }

  /** How far `s` is from holding two cells per room: `-1` for a tree of rooms joined by single cells. */
  ghost function Excess(s: set<Cell>): int {
    |s| - 2 * |Rooms(s)|
  }

  /** The cell a jump passes over is no room, and its flanks are the two ends of the jump. */
  lemma MidFlanks(c: Cell, d: (int, int))
    requires d in Directions && Room(c)
    ensures !Room(Mid(c, d)) && (Mid(c, d).0 % 2 == 0 || Mid(c, d).1 % 2 == 0)
    ensures || (Flanks(Mid(c, d)).0 == c && Flanks(Mid(c, d)).1 == Jump(c, d))
            || (Flanks(Mid(c, d)).0 == Jump(c, d) && Flanks(Mid(c, d)).1 == c)
  {
  }

  /** Conversely, a cell with one even coordinate is what the jump between its flanks passes over. */
  lemma FlanksJump(x: Cell) returns (k: nat)
    requires !Room(x) && (x.0 % 2 == 0 || x.1 % 2 == 0)
    ensures Room(Flanks(x).0) && Room(Flanks(x).1)
    ensures k < |Directions| && Jump(Flanks(x).0, Directions[k]) == Flanks(x).1
    ensures Mid(Flanks(x).0, Directions[k]) == x
  {
    if x.0 % 2 == 0 {
      k := 0;
    } else {
      k := 2;
    }
  }

  /**
   * In a set without odd/odd cells where every non-room joins two rooms, an
   * opened non-room cell has exactly its two flanks as opened neighbours,
   * and no two rooms are neighbours.
   */
  lemma JoinedDegree(s: set<Cell>, x: Cell, y: Cell)
    requires NoPillars(s) && Joined(s) && x in s && y in s && Adjacent(x, y)
    ensures !Room(x) || !Room(y)
    ensures !Room(x) ==> y == Flanks(x).0 || y == Flanks(x).1
  {
  }

  /** Opening a room and a non-room cell, both new, keeps the excess. */
  lemma ExcessGrow(s: set<Cell>, jump: Cell, mid: Cell)
    requires jump !in s && mid !in s && Room(jump) && !Room(mid)
    ensures Excess(s + {jump} + {mid}) == Excess(s)
  {
    var t := s + {jump} + {mid};
    assert Rooms(t) == Rooms(s) + {jump};
    assert jump !in Rooms(s);
    assert |s + {jump}| == |s| + 1;
    assert |Rooms(s) + {jump}| == |Rooms(s)| + 1;
  }

  /** A jump to an unopened room opens two new cells, one of them a room, and so keeps the excess. */
  lemma JumpExcess(carved: set<Cell>, c: Cell, d: (int, int), jump: Cell, mid: Cell, grown: set<Cell>)
    requires Joined(carved) && Room(c) && d in Directions
    requires jump == Jump(c, d) && mid == Mid(c, d) && jump !in carved
    requires grown == carved + {jump} + {mid}
    ensures Excess(grown) == Excess(carved) && grown + {jump} == grown
  {
    MidFlanks(c, d);
    assert mid !in carved;
    ExcessGrow(carved, jump, mid);
  }

  /** Joining `x`, adjacent to a cell of a connected set, keeps the set connected. */
  lemma ConnectedGrow(s: set<Cell>, t: set<Cell>, origin: Cell, y: Cell, x: Cell)
    requires Connected(s, origin) && y in s && Adjacent(y, x)
    requires s <= t && x in t && forall c :: c in t ==> c in s || c == x
    ensures Connected(t, origin)
  {
    forall c | c in t
      ensures Reach(t, origin, c)
    {
      if c in s {
        ReachMono(s, t, origin, c);
      } else {
        ReachMono(s, t, origin, y);
        ReachStep(t, origin, y, x);
      }
    }
  }

  /** A shuffled list holds every jump of `Directions`. */
  lemma ShuffleHas(s: seq<(int, int)>, k: nat) returns (i: nat)
    requires IsShuffle(s) && k < |Directions|
    ensures i < |s| && s[i] == Directions[k]
  {
    assert Directions[k] in multiset(Directions);
    assert Directions[k] in multiset(s);
    i :| i < |s| && s[i] == Directions[k];
  }

  /** Every entry of a shuffled list is one of the four jumps. */
  lemma ShuffleEntry(s: seq<(int, int)>, i: nat)
    requires IsShuffle(s) && i < |s|
    ensures s[i] in Directions
  {
    assert s[i] in multiset(s);
  }

  /** Closedness survives carving more cells. */
  lemma ClosedInMono(maze: array2<char>, s: set<Cell>, t: set<Cell>, c: Cell)
    requires s <= t && ClosedIn(maze, s, c)
    ensures ClosedIn(maze, t, c)
  {
  }

  /**
   * A jump from a room lands on a room, and the cell it passes over is in
   * bounds, adjacent to both ends, and has an even coordinate.
   */
  lemma JumpFacts(maze: array2<char>, c: Cell, d: (int, int))
    requires d in Directions && Room(c) && InGrid(maze, c) && InGrid(maze, Jump(c, d))
    ensures var mid := Mid(c, d);
            && InGrid(maze, mid) && Adjacent(c, mid) && Adjacent(mid, Jump(c, d))
            && Room(Jump(c, d)) && (mid.0 % 2 == 0 || mid.1 % 2 == 0) && !Room(mid)
  {
  }

  /** One write of `dfs`: `maze[c] = ' '`. */
  method OpenCell(maze: array2<char>, c: Cell, ghost s: set<Cell>) returns (ghost s': set<Cell>)
    requires InGrid(maze, c) && Marks(maze) && Tracks(maze, s)
    modifies maze
    ensures s' == s + {c}
    ensures Marks(maze) && Tracks(maze, s')
  {
    maze[c.0, c.1] := ' ';
    s' := s + {c};
  }

  /**
   * What `dfs(c)` needs of the cells `carved` opened before it: they lie in
   * the grid, include no odd/odd cell, and with `c` form a region connected
   * to `origin`; `c` itself is an in-bounds room.
   */
  ghost predicate CarveReady(maze: array2<char>, carved: set<Cell>, c: Cell, origin: Cell) {
    && InGrid(maze, c) && Room(c)
    && (forall x :: x in carved ==> InGrid(maze, x))
    && NoPillars(carved)
    && Joined(carved)
    && Connected(carved + {c}, origin)
  }

  /**
   * What `dfs(c)` leaves, `after` being the cells opened on return and
   * `entry` those opened before: still in the grid and free of odd/odd
   * cells, grown by at least `c`, connected to `origin`, every room it
   * opened (`c` among them) has all its in-bounds jumps opened, every
   * non-room joins two opened rooms, and two cells were opened per room
   * beyond `c`.
   */
  ghost predicate CarveDone(maze: array2<char>, entry: set<Cell>, c: Cell, after: set<Cell>, origin: Cell) {
    && (forall x :: x in after ==> InGrid(maze, x))
    && NoPillars(after)
    && entry + {c} <= after
    && ClosedIn(maze, after, c)
    && (forall x :: x in after && x !in entry && Room(x) ==> ClosedIn(maze, after, x))
    && Connected(after, origin)
    && Joined(after)
    && Excess(after) == Excess(entry + {c})
  }

  /**
   * What the loop of `dfs(c)` keeps after trying the first `k` jumps of
   * `dirs`, with `entry` the cells opened before the call and `carved` those
   * opened now.
   */
  ghost predicate Carving(maze: array2<char>, entry: set<Cell>, carved: set<Cell>, c: Cell,
                          dirs: seq<(int, int)>, k: nat, origin: Cell)
  {
    && k <= |dirs|
    && (forall x :: x in carved ==> InGrid(maze, x))
    && NoPillars(carved)
    && entry + {c} <= carved
    && (forall j :: 0 <= j < k && InGrid(maze, Jump(c, dirs[j])) ==> Jump(c, dirs[j]) in carved)
    && (forall x :: x in carved && x !in entry && Room(x) && x != c ==> ClosedIn(maze, carved, x))
    && Connected(carved, origin)
    && Joined(carved)
    && Excess(carved) == Excess(entry + {c})
  }

  /** Opening `c` itself starts the loop. */
  lemma CarvingStart(maze: array2<char>, entry: set<Cell>, c: Cell, dirs: seq<(int, int)>, origin: Cell)
    requires CarveReady(maze, entry, c, origin)
    ensures Carving(maze, entry, entry + {c}, c, dirs, 0, origin)
  {
  }

  /** A jump that is out of bounds or lands on an opened cell is skipped. */
  lemma CarvingSkip(maze: array2<char>, entry: set<Cell>, carved: set<Cell>, c: Cell,
                    dirs: seq<(int, int)>, k: nat, origin: Cell)
    requires Carving(maze, entry, carved, c, dirs, k, origin) && k < |dirs|
    requires InGrid(maze, Jump(c, dirs[k])) ==> Jump(c, dirs[k]) in carved
    ensures Carving(maze, entry, carved, c, dirs, k + 1, origin)
  {
  }

  /**
   * Opening the landing cell of jump `dirs[k]` and the cell it passes over
   * keeps the opened region connected and free of odd/odd cells, and leaves
   * fewer unopened cells than on entry.
   */
  lemma CarvingJump(maze: array2<char>, entry: set<Cell>, carved: set<Cell>, c: Cell,
                    dirs: seq<(int, int)>, k: nat, origin: Cell, jump: Cell, mid: Cell, grown: set<Cell>)
    requires Carving(maze, entry, carved, c, dirs, k, origin) && k < |dirs|
    requires Room(c) && dirs[k] in Directions
    requires jump == Jump(c, dirs[k]) && mid == Mid(c, dirs[k])
    requires InGrid(maze, jump) && jump !in carved
    requires grown == carved + {jump} + {mid}
    ensures InGrid(maze, mid)
    ensures CarveReady(maze, grown, jump, origin)
    ensures AllCells(maze) - grown < AllCells(maze) - entry
  {
    JumpFacts(maze, c, dirs[k]);
    MidFlanks(c, dirs[k]);
    ConnectedGrow(carved, carved + {mid}, origin, c, mid);
    ConnectedGrow(carved + {mid}, grown, origin, mid, jump);
    assert grown + {jump} == grown;
    assert jump in AllCells(maze) - entry;
  }

  /** The carve from the landing cell returns; the loop goes on with the next jump. */
  lemma CarvingJoin(maze: array2<char>, entry: set<Cell>, carved: set<Cell>, c: Cell,
                    dirs: seq<(int, int)>, k: nat, origin: Cell, jump: Cell, mid: Cell, grown: set<Cell>,
                    after: set<Cell>)
    requires Carving(maze, entry, carved, c, dirs, k, origin) && k < |dirs|
    requires Room(c) && dirs[k] in Directions
    requires jump == Jump(c, dirs[k]) && mid == Mid(c, dirs[k])
    requires InGrid(maze, jump) && jump !in carved
    requires grown == carved + {jump} + {mid}
    requires CarveDone(maze, grown, jump, after, origin)
    ensures Carving(maze, entry, after, c, dirs, k + 1, origin)
  {
    JumpFacts(maze, c, dirs[k]);
    JumpExcess(carved, c, dirs[k], jump, mid, grown);
    forall x | x in after && x !in entry && Room(x) && x != c
      ensures ClosedIn(maze, after, x)
    {
      if x in carved {
        ClosedInMono(maze, carved, after, x);
      } else {
        assert x != mid;
      }
    }
    forall j | 0 <= j < k + 1 && InGrid(maze, Jump(c, dirs[j]))
      ensures Jump(c, dirs[j]) in after
    {
    }
  }

  /** Once every jump has been tried, `c` is closed. */
  lemma CarvingDone(maze: array2<char>, entry: set<Cell>, carved: set<Cell>, c: Cell,
                    dirs: seq<(int, int)>, origin: Cell)
    requires Carving(maze, entry, carved, c, dirs, |dirs|, origin) && IsShuffle(dirs)
    ensures CarveDone(maze, entry, c, carved, origin)
  {
    forall j | 0 <= j < |Directions| && InGrid(maze, Jump(c, Directions[j]))
      ensures Jump(c, Directions[j]) in carved
    {
      var i := ShuffleHas(dirs, j);
    }
  }

  /**
   * `dfs(row, col)`: open `(row, col)`, then for each jump in the shuffled
   * order that lands in bounds on a "#", open the landing cell and the cell
   * in between and carve on from the landing cell. `carved` is the set of
   * opened cells on entry and `carved'` on return: cells only ever turn from
   * "#" into a space; the opened region stays connected to `origin`; every
   * room (even/even cell) this call opens has all its in-bounds jumps
   * opened; and every opened cell that is not a room joins two opened rooms,
   * with exactly one such cell opened for every room opened after `(row, col)`.
   */
  method Carve(maze: array2<char>, row: int, col: int, order: Cell -> seq<(int, int)>,
               ghost origin: Cell, ghost carved: set<Cell>)
    returns (ghost carved': set<Cell>)
    requires forall c :: IsShuffle(order(c))
    requires Marks(maze) && Tracks(maze, carved)
    requires CarveReady(maze, carved, (row, col), origin)
    modifies maze
    decreases AllCells(maze) - carved
    ensures Marks(maze) && Tracks(maze, carved')
    ensures CarveDone(maze, carved, (row, col), carved', origin)
  {
    carved' := OpenCell(maze, (row, col), carved);
    var directions := order((row, col));
    CarvingStart(maze, carved, (row, col), directions, origin);
    var k := 0;
    while k < |directions|
      invariant Marks(maze) && Tracks(maze, carved')
      invariant Carving(maze, carved, carved', (row, col), directions, k, origin)
    {
      var jump, mid := Jump((row, col), directions[k]), Mid((row, col), directions[k]);
      if 0 <= jump.0 < maze.Length0 && 0 <= jump.1 < maze.Length1 && maze[jump.0, jump.1] == '#' {
        ShuffleEntry(directions, k);
        ghost var before := carved';
        assert jump !in before;
        JumpFacts(maze, (row, col), directions[k]);
        ghost var grown := OpenCell(maze, jump, before);
        grown := OpenCell(maze, mid, grown);
        CarvingJump(maze, carved, before, (row, col), directions, k, origin, jump, mid, grown);
        ghost var after := Carve(maze, jump.0, jump.1, order, origin, grown);
        CarvingJoin(maze, carved, before, (row, col), directions, k, origin, jump, mid, grown, after);
        carved' := after;
      } else {
        CarvingSkip(maze, carved, carved', (row, col), directions, k, origin);
      }
      k := k + 1;
    }
    CarvingDone(maze, carved, carved', (row, col), directions, origin);
  }

  /** The upper end `d // 2` of `randint(0, d // 2)` as written at generateMaze.py:19 and :23. */
  function PickBoundAsWritten(d: nat): nat {
    d / 2
  }

  /** For an even side the largest pick as written lands one past the grid: `2 * (d // 2) == d`. */
  lemma PickAsWrittenLeaves(d: nat)
    requires d > 0 && d % 2 == 0
    ensures !(2 * PickBoundAsWritten(d) < d)
  {
  }

  /** `generate_maze(10, 10)` may draw row `randint(0, 5) * 2 == 10`, outside rows 0..9. */
  lemma PickAsWrittenTen()
    ensures PickBoundAsWritten(10) == 5 && 2 * PickBoundAsWritten(10) == 10
  {
  }

  /** The largest pick whose doubled value is still inside a side of length `d`. */
  function PickBound(d: nat): (b: nat)
    requires d > 0
    ensures 2 * b < d && d <= 2 * b + 2
  {
    (d - 1) / 2
  }

  /** On an odd side the code as written already draws in range. */
  lemma PickBoundOdd(d: nat)
    requires d % 2 == 1
    ensures PickBound(d) == PickBoundAsWritten(d)
  {
  }

  /** The cell `(randint(...) * 2, randint(...) * 2)` for the picks `pick`. */
  function Origin(pick: (nat, nat)): (c: Cell)
    ensures Room(c) && c.0 >= 0 && c.1 >= 0
  {
    (2 * pick.0, 2 * pick.1)
  }

  /**
   * When every opened room has all its in-bounds jumps opened and the origin
   * room is opened, every room of the grid is opened: walk from the origin
   * towards `r` one jump at a time.
   */
  lemma {:induction false} RoomsCarved(maze: array2<char>, s: set<Cell>, origin: Cell, r: Cell)
    requires InGrid(maze, origin) && Room(origin) && origin in s
    requires forall x :: x in s && Room(x) ==> ClosedIn(maze, s, x)
    requires InGrid(maze, r) && Room(r)
    ensures r in s
    decreases Gap(r, origin)
  {
    if r == origin {
      return;
    }
    var p, k := Toward(maze, origin, r);
    RoomsCarved(maze, s, origin, p);
    ClosedStep(maze, s, p, k);
  }

  /** A room other than the origin is one jump away from a room nearer the origin. */
  lemma Toward(maze: array2<char>, origin: Cell, r: Cell) returns (p: Cell, k: nat)
    requires InGrid(maze, origin) && Room(origin) && InGrid(maze, r) && Room(r) && r != origin
    ensures InGrid(maze, p) && Room(p) && Gap(p, origin) < Gap(r, origin)
    ensures k < |Directions| && Jump(p, Directions[k]) == r
  {
    if r.0 > origin.0 {
      EvenGap(r.0, origin.0);
      p, k := (r.0 - 2, r.1), 2;
    } else if r.0 < origin.0 {
      EvenGap(origin.0, r.0);
      p, k := (r.0 + 2, r.1), 3;
    } else if r.1 > origin.1 {
      EvenGap(r.1, origin.1);
      p, k := (r.0, r.1 - 2), 0;
    } else {
      EvenGap(origin.1, r.1);
      p, k := (r.0, r.1 + 2), 1;
    }
  }

  /** The number of unit steps between two cells along the grid lines. */
  function Gap(a: Cell, b: Cell): nat {
    (if a.0 < b.0 then b.0 - a.0 else a.0 - b.0) + (if a.1 < b.1 then b.1 - a.1 else a.1 - b.1)
  }

  /** A closed cell's in-bounds jump `Directions[k]` is opened. */
  lemma ClosedStep(maze: array2<char>, s: set<Cell>, c: Cell, k: nat)
    requires ClosedIn(maze, s, c) && k < |Directions|
    ensures InGrid(maze, Jump(c, Directions[k])) ==> Jump(c, Directions[k]) in s
  {
  }

  /** Two distinct even numbers are at least two apart. */
  lemma EvenGap(a: int, b: int)
    requires a % 2 == 0 && b % 2 == 0 && a > b
    ensures a - b >= 2
  {
  }

  /** `maze[c] = ch` for a stamp that is not "#" on an opened cell. */
  method Stamp(maze: array2<char>, c: Cell, ch: char, ghost s: set<Cell>)
    requires InGrid(maze, c) && c in s && ch != '#' && Tracks(maze, s)
    modifies maze
    ensures Tracks(maze, s)
    ensures forall i, j :: 0 <= i < maze.Length0 && 0 <= j < maze.Length1 ==>
              maze[i, j] == if (i, j) == c then ch else old(maze[i, j])
  {
    maze[c.0, c.1] := ch;
  }

  /** A cell of the generated maze holds one of the four symbols. */
  predicate Symbol(ch: char) {
    ch == '#' || ch == ' ' || ch == 'A' || ch == 'B'
  }

  /**
   * `generate_maze(m, n)`: fill an `m x n` grid with "#", carve from the
   * origin `Origin(startPick)`, stamp "A" there and then "B" at
   * `Origin(goalPick)`. The result holds only the four symbols; "B" is at the
   * goal alone, and "A" at the origin alone unless the goal overwrote it; no
   * cell with both coordinates odd is opened; every room is opened; every
   * opened cell, the goal among them, is reachable from the origin through
   * opened cells; and the opened cells form a tree: every opened cell that is
   * not a room joins two opened rooms, and there is one such cell fewer than
   * there are rooms.
   */
  method GenerateMaze(m: nat, n: nat, order: Cell -> seq<(int, int)>, startPick: (nat, nat), goalPick: (nat, nat))
    returns (maze: array2<char>)
    requires m > 0 && n > 0
    requires startPick.0 <= PickBound(m) && startPick.1 <= PickBound(n)
    requires goalPick.0 <= PickBound(m) && goalPick.1 <= PickBound(n)
    requires forall c :: IsShuffle(order(c))
    ensures maze.Length0 == m && maze.Length1 == n
    ensures forall c :: InGrid(maze, c) ==> Symbol(At(maze, c))
    ensures forall c :: InGrid(maze, c) ==> (At(maze, c) == 'B' <==> c == Origin(goalPick))
    ensures forall c :: InGrid(maze, c) ==>
              (At(maze, c) == 'A' <==> c == Origin(startPick) && Origin(startPick) != Origin(goalPick))
    ensures forall c :: InGrid(maze, c) && c.0 % 2 == 1 && c.1 % 2 == 1 ==> At(maze, c) == '#'
    ensures forall c :: InGrid(maze, c) && Room(c) ==> At(maze, c) != '#'
    ensures Connected(Carved(maze), Origin(startPick))
    ensures Reach(Carved(maze), Origin(startPick), Origin(goalPick))
    ensures Joined(Carved(maze)) && |Carved(maze)| == 2 * |Rooms(Carved(maze))| - 1
  {
    maze := new char[m, n]((i, j) => '#');
    var start, goal := Origin(startPick), Origin(goalPick);
    ReachRefl({start}, start);
    assert {} + {start} == {start};
    ghost var carved := Carve(maze, start.0, start.1, order, start, {});
    RoomsCarved(maze, carved, start, goal);
    assert Rooms({} + {start}) == {start};
    Stamp(maze, start, 'A', carved);
    Stamp(maze, goal, 'B', carved);
    assert Carved(maze) == carved;
    forall c | InGrid(maze, c) && Room(c)
      ensures At(maze, c) != '#'
    {
      RoomsCarved(maze, carved, start, c);
    }
  }
}
