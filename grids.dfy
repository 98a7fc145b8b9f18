/**
 * The wall matrix of a maze (`Maze.walls`, `height`, `width`, `start`, `goal`
 * in test.py) and the pure queries on it: the four moves, `neighbors`, the
 * player's move target and `get_distance`.
 */
module Grids {
  import opened Wrappers
  import opened Cells

  /** The four moves, named "up", "down", "left", "right" in the source. */
  datatype Action = Up | Down | Left | Right

  /** Position of an action in the fixed candidate order up, down, left, right. */
  function Rank(a: Action): nat {
    match a
    case Up => 0
    case Down => 1
    case Left => 2
    case Right => 3
  }

  /** The cell one move away in the direction `a` (rows grow downwards). */
  function Step(c: Cell, a: Action): (d: Cell)
    ensures Adjacent(c, d)
    ensures a == Up ==> d == (c.0 - 1, c.1)
    ensures a == Down ==> d == (c.0 + 1, c.1)
    ensures a == Left ==> d == (c.0, c.1 - 1)
    ensures a == Right ==> d == (c.0, c.1 + 1)
  {
    match a
    case Up => (c.0 - 1, c.1)
    case Down => (c.0 + 1, c.1)
    case Left => (c.0, c.1 - 1)
    case Right => (c.0, c.1 + 1)
  }

  /** Every 4-adjacent cell is the step of some action. */
  lemma AdjacentIsStep(x: Cell, y: Cell) returns (a: Action)
    requires Adjacent(x, y)
    ensures Step(x, a) == y
  {
    if y == (x.0 - 1, x.1) { a := Up; }
    else if y == (x.0 + 1, x.1) { a := Down; }
    else if y == (x.0, x.1 - 1) { a := Left; }
    else { a := Right; }
  }

  /** A parsed maze: `walls[i][j]` is true when cell (i, j) is a wall. */
  datatype Grid = Grid(height: nat, width: nat, walls: seq<seq<bool>>, start: Cell, goal: Cell)

  /** `walls` has `height` rows of `width` entries each. */
  predicate Shaped(g: Grid) {
    |g.walls| == g.height && forall i :: 0 <= i < g.height ==> |g.walls[i]| == g.width
  }

  predicate InBounds(g: Grid, c: Cell) {
    0 <= c.0 < g.height && 0 <= c.1 < g.width
  }

  /** In bounds and not a wall: the test `neighbors` and `move_player` apply. */
  predicate IsOpen(g: Grid, c: Cell)
    requires Shaped(g)
  {
    InBounds(g, c) && !g.walls[c.0][c.1]
  }

  /** The grid is well shaped and its start and goal are open cells. */
  predicate WellFormed(g: Grid) {
    Shaped(g) && IsOpen(g, g.start) && IsOpen(g, g.goal)
  }

  /** All open cells of the grid. */
  ghost function OpenCells(g: Grid): (s: set<Cell>)
    requires Shaped(g)
    ensures forall c :: c in s <==> IsOpen(g, c)
  {
    set i, j | 0 <= i < g.height && 0 <= j < g.width && !g.walls[i][j] :: (i, j)
  }

  /** A move by `a` from `from` to `to` is allowed. */
  predicate Legal(g: Grid, from: Cell, a: Action, to: Cell)
    requires Shaped(g)
  {
    to == Step(from, a) && IsOpen(g, to)
  }

  /**
   * `neighbors`: the open cells one move away from `s`, each paired with
   * its move, in the order up, down, left, right.
   */
  function Neighbors(g: Grid, s: Cell): (r: seq<(Action, Cell)>)
    requires Shaped(g)
    ensures forall k :: 0 <= k < |r| ==> Legal(g, s, r[k].0, r[k].1)
    ensures forall a :: IsOpen(g, Step(s, a)) ==> (a, Step(s, a)) in r
    ensures forall k, l :: 0 <= k < l < |r| ==> Rank(r[k].0) < Rank(r[l].0)
  {
    var ud := Offer(g, s, Up) + Offer(g, s, Down);
    var lr := Offer(g, s, Left) + Offer(g, s, Right);
    assert forall k :: 0 <= k < |ud| ==> Rank(ud[k].0) <= 1 && Legal(g, s, ud[k].0, ud[k].1);
    assert forall k :: 0 <= k < |lr| ==> 2 <= Rank(lr[k].0) && Legal(g, s, lr[k].0, lr[k].1);
    RankedConcat(ud, lr);
    ud + lr
  }

  /** The moves `neighbors` returns lead to pairwise distinct cells. */
  lemma NeighborsDistinct(g: Grid, s: Cell)
    requires Shaped(g)
    ensures forall i, j :: 0 <= i < j < |Neighbors(g, s)| ==> Neighbors(g, s)[i].1 != Neighbors(g, s)[j].1
  {
    var r := Neighbors(g, s);
    forall i, j | 0 <= i < j < |r|
      ensures r[i].1 != r[j].1
    {
      assert Legal(g, s, r[i].0, r[i].1) && Legal(g, s, r[j].0, r[j].1);
      assert Rank(r[i].0) < Rank(r[j].0);
    }
  }

  /** Joining two move lists, each in rank order and the first ranked below the second, keeps rank order. */
  lemma RankedConcat(x: seq<(Action, Cell)>, y: seq<(Action, Cell)>)
    requires forall k, l :: 0 <= k < l < |x| ==> Rank(x[k].0) < Rank(x[l].0)
    requires forall k, l :: 0 <= k < l < |y| ==> Rank(y[k].0) < Rank(y[l].0)
    requires forall k, l :: 0 <= k < |x| && 0 <= l < |y| ==> Rank(x[k].0) < Rank(y[l].0)
    ensures forall k, l :: 0 <= k < l < |x + y| ==> Rank((x + y)[k].0) < Rank((x + y)[l].0)
  {
    forall k, l | 0 <= k < l < |x + y|
      ensures Rank((x + y)[k].0) < Rank((x + y)[l].0)
    {
      if l < |x| {
        assert (x + y)[k] == x[k] && (x + y)[l] == x[l];
      } else if k < |x| {
        assert (x + y)[k] == x[k] && (x + y)[l] == y[l - |x|];
      } else {
        assert (x + y)[k] == y[k - |x|] && (x + y)[l] == y[l - |x|];
      }
    }
  }

  /** The candidate move `a` from `s`, kept when the cell it reaches is open. */
  function Offer(g: Grid, s: Cell, a: Action): (o: seq<(Action, Cell)>)
    requires Shaped(g)
    ensures |o| <= 1
    ensures forall k :: 0 <= k < |o| ==> o[k] == (a, Step(s, a)) && Legal(g, s, a, Step(s, a))
    ensures IsOpen(g, Step(s, a)) ==> (a, Step(s, a)) in o
  {
    var d := Step(s, a);
    if IsOpen(g, d) then assert [(a, d)][0] == (a, d); [(a, d)] else []
  }

  /** The string that names an action. */
  function Name(a: Action): string {
    match a
    case Up => "up"
    case Down => "down"
    case Left => "left"
    case Right => "right"
  }

  /** The action named by a direction string; any other string names none. */
  function Direction(name: string): (r: Option<Action>)
    ensures r.Some? ==> Name(r.value) == name
    ensures forall a :: Name(a) == name ==> r == Some(a)
  {
    if name == "up" then Some(Up)
    else if name == "down" then Some(Down)
    else if name == "left" then Some(Left)
    else if name == "right" then Some(Right)
    else None
  }

  /**
   * Where `move_player(direction)` puts a player standing at `pos`: one step
   * in the named direction when that cell is open, otherwise `pos` itself.
   */
  function MoveTarget(g: Grid, pos: Cell, direction: string): (p: Cell)
    requires Shaped(g)
    ensures IsOpen(g, pos) ==> IsOpen(g, p)
    ensures Direction(direction).None? ==> p == pos
    ensures p != pos ==> Direction(direction).Some? && Legal(g, pos, Direction(direction).value, p)
    ensures Direction(direction).Some? && IsOpen(g, Step(pos, Direction(direction).value))
            ==> p == Step(pos, Direction(direction).value)
  {
    match Direction(direction)
    case None => pos
    case Some(a) =>
      var next := Step(pos, a);
      if 0 <= next.0 < g.height && 0 <= next.1 < g.width && !g.walls[next.0][next.1] then next else pos
  }

  /** A move changes the position exactly when its target is one of `Neighbors(pos)`. */
  lemma MoveIsNeighbor(g: Grid, pos: Cell, direction: string)
    requires Shaped(g)
    ensures MoveTarget(g, pos, direction) != pos
            <==> Direction(direction).Some?
                 && (Direction(direction).value, MoveTarget(g, pos, direction)) in Neighbors(g, pos)
  {
    var p := MoveTarget(g, pos, direction);
    if Direction(direction).Some? && (Direction(direction).value, p) in Neighbors(g, pos) {
      var k :| 0 <= k < |Neighbors(g, pos)| && Neighbors(g, pos)[k] == (Direction(direction).value, p);
      assert Legal(g, pos, Direction(direction).value, p);
    }
  }

  function Abs(x: int): nat {
    if x < 0 then -x else x
  }

  /**
   * `get_distance`: the absolute value of the SUM of the row and column
   * differences (the source's comment calls it Euclidean; it is neither that
   * nor the Manhattan distance).
   */
  function GetDistance(p1: Cell, p2: Cell): (d: nat)
    ensures p1 == p2 ==> d == 0
    ensures d <= Abs(p2.0 - p1.0) + Abs(p2.1 - p1.1)
  {
    Abs((p2.0 - p1.0) + (p2.1 - p1.1))
  }

  lemma GetDistanceSymmetric(p1: Cell, p2: Cell)
    ensures GetDistance(p1, p2) == GetDistance(p2, p1)
  {
  }

  /** Distinct cells can be at distance zero: the estimate is not a metric. */
  lemma GetDistanceCancels()
    ensures GetDistance((0, 0), (1, -1)) == 0
  {
  }
}
