/**
 * Grid coordinates and 4-adjacent walks through a set of cells.
 * Both the solver (reachability of the goal) and the generator
 * (connectivity of the carved region) are stated with these notions.
 */
module Cells {

  /** A (row, column) position; equality is by value, like the Python tuples. */
  type Cell = (int, int)

  /** `x` and `y` differ by one step up, down, left or right. */
  predicate Adjacent(x: Cell, y: Cell) {
    || (x.0 == y.0 && (x.1 - y.1 == 1 || y.1 - x.1 == 1))
    || (x.1 == y.1 && (x.0 - y.0 == 1 || y.0 - x.0 == 1))
  }

  /** `p` is a non-empty walk of 4-adjacent steps that stays inside `s`. */
  ghost predicate IsWalkIn(p: seq<Cell>, s: set<Cell>) {
    && |p| > 0
    && (forall i :: 0 <= i < |p| ==> p[i] in s)
    && (forall i :: 0 <= i < |p| - 1 ==> Adjacent(p[i], p[i + 1]))
  }

  /** `to` can be reached from `from` by a walk through `s`. */
  ghost predicate Reach(s: set<Cell>, from: Cell, to: Cell) {
    exists p :: IsWalkIn(p, s) && p[0] == from && p[|p| - 1] == to
  }

  /** Every cell of `s` can be reached from `origin` through `s`. */
  ghost predicate Connected(s: set<Cell>, origin: Cell) {
    forall x {:trigger Reach(s, origin, x)} :: x in s ==> Reach(s, origin, x)
  }

  lemma ReachRefl(s: set<Cell>, x: Cell)
    requires x in s
    ensures Reach(s, x, x)
  {
    assert IsWalkIn([x], s);
  }

  /** Enlarging the set of usable cells keeps every walk. */
  lemma ReachMono(s: set<Cell>, t: set<Cell>, from: Cell, to: Cell)
    requires s <= t && Reach(s, from, to)
    ensures Reach(t, from, to)
  {
    var p :| IsWalkIn(p, s) && p[0] == from && p[|p| - 1] == to;
    assert IsWalkIn(p, t);
  }

  /** A walk to `x` extends by one step to an adjacent usable cell. */
  lemma ReachStep(s: set<Cell>, from: Cell, x: Cell, y: Cell)
    requires Reach(s, from, x) && y in s && Adjacent(x, y)
    ensures Reach(s, from, y)
  {
    var p :| IsWalkIn(p, s) && p[0] == from && p[|p| - 1] == x;
    var q := p + [y];
    assert forall i :: 0 <= i < |q| - 1 ==> q[i] == p[i];
    assert IsWalkIn(q, s);
  }

  /** A set `e` that no step out of it (within `s`) leaves holds every walk that starts in it. */
  lemma {:induction false} WalkStaysIn(p: seq<Cell>, s: set<Cell>, e: set<Cell>, k: nat)
    requires IsWalkIn(p, s) && p[0] in e && k < |p|
    requires forall x, y :: x in e && y in s && Adjacent(x, y) ==> y in e
    ensures p[k] in e
  {
    if k > 0 {
      WalkStaysIn(p, s, e, k - 1);
      assert Adjacent(p[k - 1], p[k]);
    }
  }

  /**
   * If `e` contains `from`, misses `to`, and is closed under steps into `s`,
   * then no walk through `s` leads from `from` to `to`.
   */
  lemma ClosedBlocks(s: set<Cell>, e: set<Cell>, from: Cell, to: Cell)
    requires from in e && to !in e
    requires forall x, y :: x in e && y in s && Adjacent(x, y) ==> y in e
    ensures !Reach(s, from, to)
  {
    if Reach(s, from, to) {
      var p :| IsWalkIn(p, s) && p[0] == from && p[|p| - 1] == to;
      WalkStaysIn(p, s, e, |p| - 1);
    }
  }
}
