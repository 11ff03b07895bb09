/** A found path: the waypoint nodes in walking order, a cursor naming the next waypoint, the goal
    position, the Manhattan distance from the last waypoint to the goal, and whether the goal was
    reached. The waypoints are the search's node values; nothing changes them after the search. */
module Paths {
  import opened Wrappers
  import opened World
  import opened Nodes

  /** The two waypoint lists have the same length and pairwise the same positions. */
  predicate SamePositions(a: seq<Node>, b: seq<Node>) {
    |a| == |b| && forall i :: 0 <= i < |a| ==> a[i].Equals(b[i])
  }

  /** Waypoint-list equality is an equivalence. */
  lemma SamePositionsIsEquivalence(a: seq<Node>, b: seq<Node>, c: seq<Node>)
    ensures SamePositions(a, a)
    ensures SamePositions(a, b) ==> SamePositions(b, a)
    ensures SamePositions(a, b) && SamePositions(b, c) ==> SamePositions(a, c)
  {
  }

  /** The distance recorded for a waypoint list: +Inf for no waypoints, otherwise the Manhattan
      distance from the last one to the goal. */
  function DistanceOf(nodes: seq<Node>, target: Pos): (d: ExtReal)
    ensures d.PosInf? <==> nodes == []
    ensures nodes != [] ==> d == Finite(nodes[|nodes| - 1].DistanceManhattan(target) as real)
    ensures nodes != [] ==> (d == Finite(0.0) <==> nodes[|nodes| - 1].pos == target)
  {
    if |nodes| == 0 then PosInf
    else
      ManhattanIsMetric(nodes[|nodes| - 1], nodes[|nodes| - 1], target);
      Finite(nodes[|nodes| - 1].DistanceManhattan(target) as real)
  }

  class Path {
    var nodes: seq<Node>
    var nextNodeIndex: int
    const target: Pos
    const distToTarget: ExtReal
    const reached: bool

    /** A path over `nodes` with the cursor at the first waypoint. */
    constructor (nodes: seq<Node>, reached: bool, target: Pos)
      ensures this.nodes == nodes && Reached() == reached && Target() == target
      ensures DistanceToTarget() == DistanceOf(nodes, target)
      ensures nextNodeIndex == 0 && NotStarted()
    {
      this.nodes := nodes;
      this.nextNodeIndex := 0;
      this.target := target;
      this.distToTarget := DistanceOf(nodes, target);
      this.reached := reached;
    }

    /** Moves the cursor one waypoint on. A finished path stays finished. */
    method Advance()
      modifies this
      ensures nextNodeIndex == old(nextNodeIndex) + 1 && nodes == old(nodes)
      ensures old(IsDone()) ==> IsDone()
      ensures !NotStarted() <==> old(nextNodeIndex) >= 0
    {
      nextNodeIndex := nextNodeIndex + 1;
    }

    function Reached(): bool
      reads this
    {
      reached
    }

    predicate NotStarted()
      reads this
    {
      nextNodeIndex <= 0
    }

    predicate IsDone()
      reads this
    {
      nextNodeIndex >= |nodes|
    }

    /** The last waypoint, or nothing for an empty path. */
    function EndNode(): (r: Option<Node>)
      reads this
      ensures r.None? <==> |nodes| == 0
      ensures r.Some? ==> r.value == nodes[|nodes| - 1] && r.value in nodes
    {
      if |nodes| == 0 then None else Some(nodes[|nodes| - 1])
    }

    /** Waypoint `i`: one of the path's nodes, the one under the cursor when `i` is the cursor and
        the one just passed when `i` is one less. */
    function Node(i: int): (n: Nodes.Node)
      requires 0 <= i < |nodes|
      reads this
      ensures n in nodes
      ensures i == nextNodeIndex ==> n == NextNode()
      ensures i == nextNodeIndex - 1 ==> n == PreviousNode()
    {
      nodes[i]
    }

    /** Cuts the path to its first `length` waypoints when it is longer; the cursor stays. A
        negative length is below every slice bound, so the cut fails (`ok` is false, where the Go
        code panics) and the path is left as it was. */
    method TruncateNodes(length: int) returns (ok: bool)
      modifies this
      ensures ok <==> length >= 0
      ensures ok ==> |nodes| == (if |old(nodes)| > length then length else |old(nodes)|) && nodes == old(nodes)[..|nodes|]
      ensures !ok ==> nodes == old(nodes)
      ensures nextNodeIndex == old(nextNodeIndex)
    {
      if |nodes| > length {
        if length < 0 {
          return false;
        }
        nodes := nodes[..length];
      }
      return true;
    }

    /** Puts `node` at waypoint `i`; every other waypoint and the count stay. */
    method ReplaceNode(i: int, node: Nodes.Node)
      requires 0 <= i < |nodes|
      modifies this
      ensures |nodes| == |old(nodes)| && nodes[i] == node
      ensures forall j :: 0 <= j < |nodes| && j != i ==> nodes[j] == old(nodes)[j]
      ensures nextNodeIndex == old(nextNodeIndex)
    {
      nodes := nodes[i := node];
    }

    function Count(): (n: nat)
      reads this
      ensures n == |nodes|
    {
      |nodes|
    }

    /** The cursor: the path has not started while it is at most 0 and is done once it reaches
        the waypoint count. */
    function NextNodeIndex(): (i: int)
      reads this
      ensures NotStarted() <==> i <= 0
      ensures IsDone() <==> i >= Count()
    {
      nextNodeIndex
    }

    method SetNextNodeIndex(i: int)
      modifies this
      ensures nextNodeIndex == i && nodes == old(nodes)
    {
      nextNodeIndex := i;
    }

    /** The waypoint under the cursor. */
    function NextNode(): (r: Nodes.Node)
      requires 0 <= nextNodeIndex < |nodes|
      reads this
      ensures !IsDone() && r in nodes
    {
      nodes[nextNodeIndex]
    }

    /** The waypoint just passed. */
    function PreviousNode(): (r: Nodes.Node)
      requires 1 <= nextNodeIndex <= |nodes|
      reads this
      ensures !NotStarted() && r in nodes
    {
      nodes[nextNodeIndex - 1]
    }

    /** Whether both paths have the same waypoint positions, in order. */
    method Equals(other: Path) returns (r: bool)
      ensures r <==> SamePositions(nodes, other.nodes)
    {
      if |nodes| != |other.nodes| {
        return false;
      }
      var i := 0;
      while i < |other.nodes|
        invariant 0 <= i <= |other.nodes|
        invariant forall j :: 0 <= j < i ==> nodes[j].Equals(other.nodes[j])
      {
        if !nodes[i].Equals(other.nodes[i]) {
          return false;
        }
        i := i + 1;
      }
      return true;
    }

    function Target(): Pos
      reads this
    {
      target
    }

    function DistanceToTarget(): (d: ExtReal)
      reads this
    {
      distToTarget
    }
  }
}
