/**
 * Search nodes and the frontiers of test.py: `Node`, `StackFrontier`,
 * `QueueFrontier` (one class here, told apart by its removal discipline)
 * and the `queue.PriorityQueue` used by `solveA`.
 */
module Frontiers {
  import opened Wrappers
  import opened Cells
  import opened Grids

  /**
   * `Node`: a state, the node it was reached from and the action taken
   * there (both absent for the root), and a priority (0 unless given).
   * Nodes are never changed after construction, so they are values here.
   */
  datatype Node = Node(state: Cell, parent: Option<Node>, action: Option<Action>, priority: int)

  /** `any(node.state == s for node in nodes)`. */
  function AnyState(nodes: seq<Node>, s: Cell): (b: bool)
    ensures b <==> exists k :: 0 <= k < |nodes| && nodes[k].state == s
  {
    if nodes == [] then false else nodes[0].state == s || AnyState(nodes[1..], s)
  }

  /** Which end `remove` takes from: the last added (stack) or the first added (queue). */
  datatype Discipline = Lifo | Fifo

  datatype FrontierError = EmptyFrontier

  /** `StackFrontier` (discipline `Lifo`) and `QueueFrontier` (discipline `Fifo`). */
  class Frontier {
    const discipline: Discipline
    var nodes: seq<Node>

    constructor (discipline: Discipline)
      ensures this.discipline == discipline && nodes == []
    {
      this.discipline := discipline;
      nodes := [];
    }

    /** `add`: append the node; its state is then contained and the frontier is not empty. */
    method Add(node: Node)
      modifies this
      ensures nodes == old(nodes) + [node]
      ensures ContainsState(node.state) && !Empty()
    {
      nodes := nodes + [node];
      assert nodes[|nodes| - 1] == node;
    }

    /** `contains_state`: some node held has state `s`. */
    function ContainsState(s: Cell): (b: bool)
      reads this
      ensures b <==> exists k :: 0 <= k < |nodes| && nodes[k].state == s
    {
      AnyState(nodes, s)
    }

    /** `empty`: the frontier holds no node (see `EmptyHoldsNothing`). */
    function Empty(): (b: bool)
      reads this
      ensures b <==> nodes == []
    {
      |nodes| == 0
    }

    /**
     * `remove`: fails on an empty frontier; otherwise returns the last node
     * (stack) or the first node (queue) and keeps the others in order.
     */
    method Remove() returns (r: Result<Node, FrontierError>)
      modifies this
      ensures old(nodes) == [] ==> r == Failure(EmptyFrontier) && nodes == old(nodes)
      ensures old(nodes) != [] && discipline == Lifo
              ==> r == Success(old(nodes)[|old(nodes)| - 1]) && nodes == old(nodes)[..|old(nodes)| - 1]
      ensures old(nodes) != [] && discipline == Fifo
              ==> r == Success(old(nodes)[0]) && nodes == old(nodes)[1..]
    {
      if Empty() {
        return Failure(EmptyFrontier);
      }
      match discipline
      case Lifo =>
        var node := nodes[|nodes| - 1];
        nodes := nodes[..|nodes| - 1];
        r := Success(node);
      case Fifo =>
        var node := nodes[0];
        nodes := nodes[1..];
        r := Success(node);
    }
  }

  /** A frontier is empty exactly when it contains no state at all. */
  lemma EmptyHoldsNothing(f: Frontier)
    ensures f.Empty() <==> forall s :: !f.ContainsState(s)
  {
    if !f.Empty() {
      assert f.ContainsState(f.nodes[0].state);
    }
  }

  /** The entry at `i` has the least priority of all entries. */
  predicate IsMinAt(items: seq<Node>, i: nat)
    requires i < |items|
  {
    forall k :: 0 <= k < |items| ==> items[i].priority <= items[k].priority
  }

  /** Every non-empty list of entries has an entry of least priority. */
  lemma {:induction false} MinimumExists(items: seq<Node>)
    requires items != []
    ensures exists i :: 0 <= i < |items| && IsMinAt(items, i)
  {
    if |items| > 1 {
      MinimumExists(items[1..]);
      var i :| 0 <= i < |items[1..]| && IsMinAt(items[1..], i);
      if items[0].priority <= items[i + 1].priority {
        assert IsMinAt(items, 0);
      } else {
        assert IsMinAt(items, i + 1);
      }
    } else {
      assert IsMinAt(items, 0);
    }
  }

  /**
   * `queue.PriorityQueue` as `solveA` uses it. The list holds the entries in
   * some order; `Get` takes out SOME entry of least priority, since the heap
   * does not break ties by insertion order.
   */
  class PriorityFrontier {
    var items: seq<Node>

    constructor ()
      ensures items == []
    {
      items := [];
    }

    /** `put`: the entry joins the others. */
    method Put(node: Node)
      modifies this
      ensures items == old(items) + [node]
    {
      items := items + [node];
    }

    /** `empty`: no entry is queued; otherwise `Get` has an entry of least priority to take. */
    function Empty(): (b: bool)
      reads this
      ensures b <==> items == []
      ensures !b ==> exists i :: 0 <= i < |items| && IsMinAt(items, i)
    {
      if items == [] then true else MinimumExists(items); false
    }

    /**
     * `get` on a non-empty queue (on an empty one it would block for ever;
     * `solveA` tests `empty()` first): removes and returns an entry of least priority.
     */
    method Get() returns (node: Node)
      requires items != []
      modifies this
      ensures exists i :: 0 <= i < |old(items)| && IsMinAt(old(items), i)
                          && node == old(items)[i] && items == old(items)[..i] + old(items)[i + 1..]
      ensures forall k :: 0 <= k < |old(items)| ==> node.priority <= old(items)[k].priority
    {
      MinimumExists(items);
      var i :| 0 <= i < |items| && IsMinAt(items, i);
      node := items[i];
      items := items[..i] + items[i + 1..];
    }
  }
}
