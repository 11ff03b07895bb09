/** A search node: a block position with the A* costs, the parent link, the closed flag, the
    terrain classification and cost of its cell, and its slot in the open-set heap (-1 when it is
    not in the open set). Nodes live in the node store (module NodeArena) and are named there by
    their index, which plays the part of the Go code's node pointer. */
module Nodes {
  import opened Wrappers
  import opened World
  import opened PathTypes

  /** The node with index `cameFrom` is this node's parent in the search tree. */
  datatype Node = Node(
    pos: Pos,
    heapIdx: int,
    g: real,
    h: real,
    f: real,
    cameFrom: Option<nat>,
    closed: bool,
    walkedDistance: real,
    costMalus: real,
    pathType: PathType)
  {
    /** The node sits in the open set. */
    predicate OpenSet() {
      heapIdx >= 0
    }

    /** Node identity is position identity. */
    predicate Equals(other: Node) {
      pos == other.pos
    }

    /** The L1 distance from this node's position to `target`. */
    function DistanceManhattan(target: Pos): nat {
      Abs(target.x - pos.x) + Abs(target.y - pos.y) + Abs(target.z - pos.z)
    }
  }

  /** A fresh node at `pos`: every other field holds its zero value, and its heap slot is -1. */
  function NewNode(pos: Pos): (n: Node)
    ensures n.pos == pos && !n.OpenSet()
    ensures n.cameFrom.None? && !n.closed
  {
    Node(pos, -1, 0.0, 0.0, 0.0, None, false, 0.0, 0.0, BLOCKED)
  }

  /** The absolute value of an integer. */
  function Abs(n: int): (r: nat)
    ensures r >= n && r >= -n
    ensures r == n || r == -n
  {
    if n < 0 then -n else n
  }

  /** Equality of nodes is an equivalence that looks only at positions: changing costs, flags,
      classification or heap slot never changes it. */
  lemma EqualsIsPositional(a: Node, b: Node, c: Node, g: real, idx: int, t: PathType)
    ensures a.Equals(a)
    ensures a.Equals(b) ==> b.Equals(a)
    ensures a.Equals(b) && b.Equals(c) ==> a.Equals(c)
    ensures a.Equals(b) <==> a.(g := g, f := g, heapIdx := idx, pathType := t, closed := !a.closed).Equals(b)
  {
  }

  /** The Manhattan distance is a metric on positions: zero exactly at the same position,
      symmetric, and it satisfies the triangle inequality. */
  lemma ManhattanIsMetric(a: Node, b: Node, p: Pos)
    ensures a.DistanceManhattan(a.pos) == 0
    ensures a.DistanceManhattan(b.pos) == 0 <==> a.Equals(b)
    ensures a.DistanceManhattan(b.pos) == b.DistanceManhattan(a.pos)
    ensures a.DistanceManhattan(p) <= a.DistanceManhattan(b.pos) + b.DistanceManhattan(p)
  {
  }
}
