/** The weighted A* search. The open set is the binary heap over the node store of the walk
    evaluator; a popped node is closed, and when it lies within the reach range of the goal the
    search stops. Otherwise, when it is close enough to the start, its neighbours are relaxed:
    a neighbour gets the popped node as parent, its new cost so far, and a heuristic weighted by
    `FUDGING`. The path returned is the parent chain ending at the target's best node.
    Euclidean distances are abstract: `dist` and `distSq` stand for the Go code's floating-point
    `distance` and `distanceSquared`. */
module PathFinder {
  import opened Wrappers
  import opened World
  import opened PathTypes
  import opened Nodes
  import opened NodeArena
  import opened Heap
  import opened Targets
  import opened Paths
  import opened WalkEvaluator

  /** The weight of the heuristic of a relaxed neighbour. */
  const FUDGING: real := 1.5

  /*** The open set over a changing store ***/

  /** Every node in the heap has key `f == g + h`. */
  ghost predicate Costed(h: seq<nat>, ns: seq<Node>) {
    forall i :: 0 <= i < |h| ==> h[i] < |ns| && ns[h[i]].f == ns[h[i]].g + ns[h[i]].h
  }

  /** The heap is a valid heap over `ns` that holds exactly the open nodes, each keyed on its cost
      so far plus its heuristic. */
  ghost predicate OpenSetOver(h: seq<nat>, ns: seq<Node>) {
    && InRange(h, ns) && Slotted(h, ns) && HeapOrdered(h, ns) && Tracks(h, ns) && Costed(h, ns)
  }

  /** Every open node of the store has key `f == g + h`. */
  lemma {:induction false} OpenNodesCosted(h: seq<nat>, ns: seq<Node>)
    requires OpenSetOver(h, ns)
    ensures forall id :: 0 <= id < |ns| && ns[id].OpenSet() ==> ns[id].f == ns[id].g + ns[id].h
  {
    forall id | 0 <= id < |ns| && ns[id].OpenSet()
      ensures ns[id].f == ns[id].g + ns[id].h
    {
      var k := ns[id].heapIdx;
      assert h[k] == id;
    }
  }

  /** An evaluator step leaves slots, keys and costs of existing nodes alone and adds nodes without
      a slot, so the open set stays what it was. */
  lemma {:induction false} OpenSetSurvivesEvaluation(h: seq<nat>, ns0: seq<Node>, ns: seq<Node>)
    requires OpenSetOver(h, ns0) && EvalStep(ns0, ns)
    ensures OpenSetOver(h, ns)
  {
    forall i | 0 <= i < |h|
      ensures h[i] < |ns| && ns[h[i]].f == ns0[h[i]].f && ns[h[i]].heapIdx == ns0[h[i]].heapIdx
      ensures ns[h[i]].g == ns0[h[i]].g && ns[h[i]].h == ns0[h[i]].h
    {
      assert Kept(ns0[h[i]], ns[h[i]]);
    }
    forall id | 0 <= id < |ns| && ns[id].heapIdx >= 0
      ensures ns[id].heapIdx < |h| && h[ns[id].heapIdx] == id
    {
      assert id < |ns0| && Kept(ns0[id], ns[id]);
    }
  }

  /** Rewriting one node without touching its slot, and without touching its key when it has a
      slot, keeps the heap valid; it stays keyed on `g + h` when the new node is. */
  lemma {:induction false} OpenSetRewrite(h: seq<nat>, ns: seq<Node>, id: nat, n: Node)
    requires InRange(h, ns) && Slotted(h, ns) && HeapOrdered(h, ns) && Tracks(h, ns) && id < |ns|
    requires n.heapIdx == ns[id].heapIdx && (n.heapIdx >= 0 ==> n.f == ns[id].f)
    ensures var ns' := ns[id := n]; InRange(h, ns') && Slotted(h, ns') && HeapOrdered(h, ns') && Tracks(h, ns')
    ensures Costed(h, ns) && (n.heapIdx >= 0 ==> n.f == n.g + n.h) ==> Costed(h, ns[id := n])
  {
    var ns' := ns[id := n];
    forall i | 0 <= i < |h|
      ensures ns'[h[i]].f == ns[h[i]].f && ns'[h[i]].heapIdx == ns[h[i]].heapIdx
    {
    }
  }

  /** After a heap operation that changed only slots, the nodes in the heap are nodes that were in
      it before or nodes keyed on `g + h`. */
  lemma {:induction false} CostedAfter(h0: seq<nat>, ns0: seq<Node>, h: seq<nat>, ns: seq<Node>)
    requires Costed(h0, ns0) && SlotsOnly(ns0, ns) && InRange(h, ns)
    requires forall i :: 0 <= i < |h| ==> h[i] in multiset(h0) || ns[h[i]].f == ns[h[i]].g + ns[h[i]].h
    ensures Costed(h, ns)
  {
    forall i | 0 <= i < |h|
      ensures ns[h[i]].f == ns[h[i]].g + ns[h[i]].h
    {
      if h[i] in multiset(h0) {
        var j :| 0 <= j < |h0| && h0[j] == h[i];
        assert SameButSlot(ns0[h[i]], ns[h[i]]);
      }
    }
  }

  /** The state every step of the search keeps: the evaluator is ready with a world, the open set
      is valid over its store, and the target is consistent. */
  ghost predicate Searching(e: WalkNodeEvaluator, open: BinaryHeap, target: Target)
    reads e, e.arena, open, target
  {
    && e.Valid() && e.source.Some? && open.arena == e.arena
    && open.Valid() && OpenSetOver(open.heap, e.arena.nodes) && target.Valid()
    && (target.bestNode.Some? ==> target.bestNode.value < |e.arena.nodes|)
  }

  /** `ns` is `ns0` with every node in place and its position and closed flag kept; nodes other
      than `x` changed at most in their heap slots. */
  ghost predicate Settled(ns0: seq<Node>, ns: seq<Node>, x: nat) {
    && |ns0| == |ns|
    && forall i :: 0 <= i < |ns| ==>
      && ns[i].pos == ns0[i].pos && ns[i].closed == ns0[i].closed
      && (i != x ==> SameButSlot(ns0[i], ns[i]))
  }

  /** Rewriting node `x` without moving it or changing its closed flag settles the store. */
  lemma SettledAt(ns0: seq<Node>, x: nat, n: Node)
    requires x < |ns0| && n.pos == ns0[x].pos && n.closed == ns0[x].closed
    ensures Settled(ns0, ns0[x := n], x)
  {
  }

  /** A heap operation after a settling change keeps the store settled. */
  lemma {:induction false} SettledAfterSlots(ns0: seq<Node>, ns1: seq<Node>, ns: seq<Node>, x: nat)
    requires Settled(ns0, ns1, x) && SlotsOnly(ns1, ns)
    ensures Settled(ns0, ns, x)
  {
    forall i | 0 <= i < |ns|
      ensures ns[i].pos == ns0[i].pos && ns[i].closed == ns0[i].closed && (i != x ==> SameButSlot(ns0[i], ns[i]))
    {
      assert SameButSlot(ns1[i], ns[i]);
    }
  }

  /** The evaluator's position table survives a settling change. */
  lemma {:induction false} IndexesSettled(table: map<Pos, nat>, ns0: seq<Node>, ns: seq<Node>, x: nat)
    requires Indexes(table, ns0) && Settled(ns0, ns, x)
    ensures Indexes(table, ns)
  {
    IndexesKept(table, ns0, ns);
  }

  /** Giving one node in a keyed heap a key equal to its `g + h` keeps the heap keyed. */
  lemma {:induction false} CostedRekeyed(h: seq<nat>, ns: seq<Node>, x: nat, n: Node)
    requires Costed(h, ns) && x < |ns| && n.f == n.g + n.h
    ensures Costed(h, ns[x := n])
  {
    forall i | 0 <= i < |h|
      ensures ns[x := n][h[i]].f == ns[x := n][h[i]].g + ns[x := n][h[i]].h
    {
    }
  }

  /** Over a valid empty heap, no node is open. */
  lemma NoneOpen(h: seq<nat>, ns: seq<Node>)
    requires InRange(h, ns) && Slotted(h, ns) && Tracks(h, ns) && h == []
    ensures forall id :: 0 <= id < |ns| ==> !ns[id].OpenSet()
  {
    forall id | 0 <= id < |ns|
      ensures !ns[id].OpenSet()
    {
      OpenIsMember(h, ns, id);
    }
  }

  /** Over a valid heap, a node is open exactly when the heap holds it. */
  lemma OpenIsMember(h: seq<nat>, ns: seq<Node>, id: nat)
    requires InRange(h, ns) && Slotted(h, ns) && Tracks(h, ns) && id < |ns|
    ensures ns[id].OpenSet() <==> id in multiset(h)
  {
    if id in multiset(h) {
      var k :| 0 <= k < |h| && h[k] == id;
    }
    if ns[id].OpenSet() {
      assert h[ns[id].heapIdx] == id;
    }
  }

  /** Every node of `ns0` other than `x` is in `ns` and open exactly when it was. */
  ghost predicate OpenKept(ns0: seq<Node>, ns: seq<Node>, x: nat) {
    |ns0| == |ns| && forall i :: 0 <= i < |ns| && i != x ==> (ns[i].OpenSet() <==> ns0[i].OpenSet())
  }

  /** A heap operation that keeps the heap's contents or adds `x` to them keeps every other node
      open or not as it was. */
  lemma {:induction false} OpenKeptByHeap(h0: seq<nat>, ns0: seq<Node>, h: seq<nat>, ns: seq<Node>, x: nat)
    requires InRange(h0, ns0) && Slotted(h0, ns0) && Tracks(h0, ns0)
    requires InRange(h, ns) && Slotted(h, ns) && Tracks(h, ns) && |ns0| == |ns|
    requires multiset(h) == multiset(h0) || multiset(h) == multiset(h0) + multiset{x}
    ensures OpenKept(ns0, ns, x)
  {
    forall i | 0 <= i < |ns| && i != x
      ensures ns[i].OpenSet() <==> ns0[i].OpenSet()
    {
      OpenIsMember(h0, ns0, i);
      OpenIsMember(h, ns, i);
    }
  }

  /** `ns` is `ns0` grown: every node of `ns0` is still there at its position, and a closed node
      stays closed. */
  ghost predicate Grown(ns0: seq<Node>, ns: seq<Node>) {
    |ns0| <= |ns| && forall i :: 0 <= i < |ns0| ==> ns[i].pos == ns0[i].pos && (ns0[i].closed ==> ns[i].closed)
  }

  /** Evaluator steps and settling changes grow the store, and growth composes. */
  lemma {:induction false} GrownSteps(ns0: seq<Node>, ns1: seq<Node>, ns: seq<Node>, x: nat)
    ensures EvalStep(ns0, ns1) ==> Grown(ns0, ns1)
    ensures Settled(ns0, ns1, x) ==> Grown(ns0, ns1)
    ensures Grown(ns0, ns1) && Grown(ns1, ns) ==> Grown(ns0, ns)
  {
    if EvalStep(ns0, ns1) {
      forall i | 0 <= i < |ns0|
        ensures ns1[i].pos == ns0[i].pos && (ns0[i].closed ==> ns1[i].closed)
      {
        assert Kept(ns0[i], ns1[i]);
      }
    }
  }

  /** Every node in `popped` is in the store, closed, and farther than `reachRange` from `goal`. */
  ghost predicate Visited(ns: seq<Node>, popped: seq<nat>, goal: Pos, reachRange: int) {
    forall k :: 0 <= k < |popped| ==>
      popped[k] < |ns| && ns[popped[k]].closed && ns[popped[k]].DistanceManhattan(goal) > reachRange
  }

  /** Growing the store keeps the visited nodes visited. */
  lemma {:induction false} VisitedGrown(ns0: seq<Node>, ns: seq<Node>, popped: seq<nat>, goal: Pos, reachRange: int)
    requires Visited(ns0, popped, goal, reachRange) && Grown(ns0, ns)
    ensures Visited(ns, popped, goal, reachRange)
  {
    forall k | 0 <= k < |popped|
      ensures ns[popped[k]].closed && ns[popped[k]].DistanceManhattan(goal) > reachRange
    {
      assert ns[popped[k]].pos == ns0[popped[k]].pos;
    }
  }

  /** A closed node outside the reach range extends the visited nodes. */
  lemma {:induction false} VisitedExtended(ns: seq<Node>, popped: seq<nat>, current: nat, goal: Pos, reachRange: int)
    requires Visited(ns, popped, goal, reachRange)
    requires current < |ns| && ns[current].closed && ns[current].DistanceManhattan(goal) > reachRange
    ensures Visited(ns, popped + [current], goal, reachRange)
  {
    forall k | 0 <= k < |popped| + 1
      ensures (popped + [current])[k] == if k < |popped| then popped[k] else current
    {
    }
  }

  /*** One step of the search ***/

  /** Whether the edge of length `d` from a node with values `cur` relaxes the node `n0`: the
      distance walked to it stays below `maxDistanceFromStart`, and it is not in the open set or the
      new cost so far is strictly below its current one. */
  predicate Relaxes(n0: Node, cur: Node, d: real, maxDistanceFromStart: real) {
    cur.walkedDistance + d < maxDistanceFromStart && (!n0.OpenSet() || cur.g + d + n0.costMalus < n0.g)
  }

  /** The node `n0` after the edge of length `d` from the node `current`, with values `cur`, is
      relaxed, `ht` being the distance from `n0` to the target: its walked distance is always
      overwritten; when the edge relaxes it, it also gets `current` as parent, the new cost so far,
      the heuristic `ht` weighted by `FUDGING`, and their sum as key. Its heap slot is left as it
      was. */
  function Relaxed(n0: Node, current: nat, cur: Node, d: real, ht: real, maxDistanceFromStart: real): Node {
    var w := cur.walkedDistance + d;
    if Relaxes(n0, cur, d, maxDistanceFromStart) then
      var g := cur.g + d + n0.costMalus;
      n0.(walkedDistance := w, cameFrom := Some(current), g := g, h := ht * FUDGING, f := g + ht * FUDGING)
    else n0.(walkedDistance := w)
  }

  /** Relaxing depends on a node's values and whether it is open, not on its heap slot. */
  lemma RelaxedIgnoresSlot(a: Node, b: Node, current: nat, cur: Node, d: real, ht: real, maxDistanceFromStart: real)
    requires SameButSlot(a, b) && (a.OpenSet() <==> b.OpenSet())
    ensures Relaxes(a, cur, d, maxDistanceFromStart) == Relaxes(b, cur, d, maxDistanceFromStart)
    ensures SameButSlot(Relaxed(a, current, cur, d, ht, maxDistanceFromStart), Relaxed(b, current, cur, d, ht, maxDistanceFromStart))
  {
  }

  /** The expansion of `current` over the store `ns1` the evaluator left, ending in `ns`:
      `neighbors` are distinct nodes of `ns1` that are not closed; each of them ends as the edge
      from `current` relaxes it, and open exactly when it was or the edge relaxed it; every other
      node changed at most in its heap slot and is open exactly when it was. */
  ghost predicate Expanded(ns1: seq<Node>, ns: seq<Node>, current: nat, neighbors: seq<nat>, dist: (Pos, Pos) -> real,
                           goal: Pos, maxDistanceFromStart: real)
  {
    && |ns| == |ns1| && current < |ns1|
    && (forall j :: 0 <= j < |neighbors| ==> neighbors[j] < |ns1| && !ns1[neighbors[j]].closed)
    && (forall j, k :: 0 <= j < k < |neighbors| ==> neighbors[j] != neighbors[k])
    && (forall j :: 0 <= j < |neighbors| ==> RelaxedTo(ns1, ns, current, neighbors[j], dist, goal, maxDistanceFromStart))
    && (forall i :: 0 <= i < |ns1| && i !in neighbors ==> SameButSlot(ns1[i], ns[i]) && (ns[i].OpenSet() <==> ns1[i].OpenSet()))
  }

  /** The node `id` of `ns1` ends in `ns` as the edge from `current` relaxes it. */
  ghost predicate RelaxedTo(ns1: seq<Node>, ns: seq<Node>, current: nat, id: nat, dist: (Pos, Pos) -> real, goal: Pos,
                            maxDistanceFromStart: real)
  {
    && current < |ns1| && id < |ns1| && id < |ns|
    && var n0, cur := ns1[id], ns1[current];
       var d := dist(cur.pos, n0.pos);
       && SameButSlot(Relaxed(n0, current, cur, d, dist(n0.pos, goal), maxDistanceFromStart), ns[id])
       && (ns[id].OpenSet() <==> n0.OpenSet() || Relaxes(n0, cur, d, maxDistanceFromStart))
  }

  /** The heuristic of the node `id` at `p`: its distance to the target, offered to the target as a
      candidate best node. */
  method BestHeuristic(id: nat, p: Pos, target: Target, dist: (Pos, Pos) -> real) returns (h: real)
    requires target.Valid()
    modifies target
    ensures target.Valid() && h == dist(p, target.pos)
    ensures target.offered == old(target.offered) + [h] && target.reached == old(target.reached)
    ensures Finite(h).Below(old(target.bestHeuristic)) ==> target.bestNode == Some(id)
    ensures !Finite(h).Below(old(target.bestHeuristic)) ==> target.bestNode == old(target.bestNode)
  {
    h := dist(p, target.pos);
    target.UpdateBest(h, id);
  }

  /** Relaxes the edge from the closed node `current`, whose values are `cur`, to the open or
      unvisited node `neighbor`. The neighbour's walked distance is always overwritten. It is
      relaxed exactly when that distance is below `maxDistanceFromStart` and it is not in the open
      set or the new cost so far is strictly smaller: it then gets `current` as parent, the new cost,
      the weighted heuristic and key `g + h`, and is in the open set. Otherwise nothing else
      changes. */
  method Relax(e: WalkNodeEvaluator, open: BinaryHeap, target: Target, current: nat, cur: Node, neighbor: nat,
               dist: (Pos, Pos) -> real, maxDistanceFromStart: real) returns (relaxed: bool)
    requires Searching(e, open, target)
    requires current < |e.arena.nodes| && e.arena.nodes[current].closed && SameButSlot(cur, e.arena.nodes[current])
    requires neighbor < |e.arena.nodes| && !e.arena.nodes[neighbor].closed
    modifies e.arena, open, target
    ensures Searching(e, open, target) && Settled(old(e.arena.nodes), e.arena.nodes, neighbor)
    ensures OpenKept(old(e.arena.nodes), e.arena.nodes, neighbor)
    ensures target.reached == old(target.reached) && old(target.offered) <= target.offered
    ensures var n0 := old(e.arena.nodes[neighbor]);
            var d := dist(cur.pos, n0.pos);
            var n := e.arena.nodes[neighbor];
            && (relaxed <==> Relaxes(n0, cur, d, maxDistanceFromStart))
            && SameButSlot(Relaxed(n0, current, cur, d, dist(n0.pos, target.pos), maxDistanceFromStart), n)
            && (n.OpenSet() <==> n0.OpenSet() || relaxed)
            && (relaxed ==> target.offered == old(target.offered) + [dist(n0.pos, target.pos)])
            && (!relaxed ==> n == n0.(walkedDistance := n.walkedDistance) && target.offered == old(target.offered) && open.heap == old(open.heap))
  {
    ghost var ns0 := e.arena.nodes;
    var n := e.arena.nodes[neighbor];
    var distance := dist(cur.pos, n.pos);
    OpenSetRewrite(open.heap, e.arena.nodes, neighbor, n.(walkedDistance := cur.walkedDistance + distance));
    IndexesKept(e.nodes, e.arena.nodes, e.arena.nodes[neighbor := n.(walkedDistance := cur.walkedDistance + distance)]);
    e.arena.Put(neighbor, n.(walkedDistance := cur.walkedDistance + distance));
    n := e.arena.nodes[neighbor];
    var newNeighborG := cur.g + distance + n.costMalus;
    relaxed := n.walkedDistance < maxDistanceFromStart && (!n.OpenSet() || newNeighborG < n.g);
    if relaxed {
      Update(e, open, target, current, neighbor, newNeighborG, dist);
    }
  }

  /** The relaxing half of `Relax`: the neighbour gets `current` as parent, cost so far `g`, the
      weighted heuristic, and key `g + h`, by a key change when it is open and by insertion when it
      is not. */
  method Update(e: WalkNodeEvaluator, open: BinaryHeap, target: Target, current: nat, neighbor: nat, g: real,
                dist: (Pos, Pos) -> real)
    requires Searching(e, open, target)
    requires current < |e.arena.nodes| && e.arena.nodes[current].closed
    requires neighbor < |e.arena.nodes| && !e.arena.nodes[neighbor].closed
    modifies e.arena, open, target
    ensures Searching(e, open, target) && Settled(old(e.arena.nodes), e.arena.nodes, neighbor)
    ensures OpenKept(old(e.arena.nodes), e.arena.nodes, neighbor)
    ensures target.reached == old(target.reached)
    ensures var n0 := old(e.arena.nodes[neighbor]);
            var n := e.arena.nodes[neighbor];
            && n == n0.(cameFrom := Some(current), g := g, h := dist(n0.pos, target.pos) * FUDGING, f := n.g + n.h, heapIdx := n.heapIdx)
            && n.OpenSet()
            && target.offered == old(target.offered) + [dist(n0.pos, target.pos)]
  {
    OpenSetRewrite(open.heap, e.arena.nodes, neighbor, e.arena.nodes[neighbor].(cameFrom := Some(current)));
    IndexesKept(e.nodes, e.arena.nodes, e.arena.nodes[neighbor := e.arena.nodes[neighbor].(cameFrom := Some(current))]);
    e.arena.SetParent(neighbor, current);
    var n := e.arena.nodes[neighbor];
    var h := BestHeuristic(neighbor, n.pos, target, dist);
    h := h * FUDGING;
    if n.OpenSet() {
      Rekey(e, open, neighbor, g, h);
    } else {
      Enter(e, open, neighbor, g, h);
    }
  }

  /** Gives the open node `neighbor` cost so far `g`, heuristic `h` and, through the heap, key
      `g + h`. */
  method Rekey(e: WalkNodeEvaluator, open: BinaryHeap, neighbor: nat, g: real, h: real)
    requires e.Valid() && open.arena == e.arena && open.Valid() && OpenSetOver(open.heap, e.arena.nodes)
    requires neighbor < |e.arena.nodes| && e.arena.nodes[neighbor].OpenSet()
    modifies e.arena, open
    ensures e.Valid() && open.Valid() && OpenSetOver(open.heap, e.arena.nodes)
    ensures Settled(old(e.arena.nodes), e.arena.nodes, neighbor) && OpenKept(old(e.arena.nodes), e.arena.nodes, neighbor)
    ensures var n0 := old(e.arena.nodes[neighbor]);
      e.arena.nodes[neighbor] == n0.(g := g, h := h, f := g + h, heapIdx := e.arena.nodes[neighbor].heapIdx)
    ensures e.arena.nodes[neighbor].OpenSet()
  {
    ghost var h0, ns0 := open.heap, e.arena.nodes;
    var n := e.arena.nodes[neighbor];
    ghost var rekeyed := n.(g := g, h := h, f := g + h);
    OpenSetRewrite(open.heap, e.arena.nodes, neighbor, n.(g := g, h := h));
    SettledAt(ns0, neighbor, n.(g := g, h := h));
    e.arena.Put(neighbor, n.(g := g, h := h));
    IndexesSettled(e.nodes, ns0, e.arena.nodes, neighbor);
    CostedRekeyed(h0, ns0, neighbor, rekeyed);
    SettledAt(ns0, neighbor, rekeyed);
    assert e.arena.nodes[neighbor := e.arena.nodes[neighbor].(f := g + h)] == ns0[neighbor := rekeyed];
    open.ChangeCost(neighbor, g + h);
    CostedAfter(h0, ns0[neighbor := rekeyed], open.heap, e.arena.nodes);
    SettledAfterSlots(ns0, ns0[neighbor := rekeyed], e.arena.nodes, neighbor);
    IndexesSettled(e.nodes, ns0, e.arena.nodes, neighbor);
    assert SameButSlot(rekeyed, e.arena.nodes[neighbor]);
    assert h0[ns0[neighbor].heapIdx] == neighbor;
    SlottedMember(open.heap, e.arena.nodes, neighbor);
    OpenKeptByHeap(h0, ns0, open.heap, e.arena.nodes, neighbor);
  }

  /** Gives the node `neighbor`, which is not in the open set, cost so far `g`, heuristic `h` and
      key `g + h`, and inserts it. */
  method Enter(e: WalkNodeEvaluator, open: BinaryHeap, neighbor: nat, g: real, h: real)
    requires e.Valid() && open.arena == e.arena && open.Valid() && OpenSetOver(open.heap, e.arena.nodes)
    requires neighbor < |e.arena.nodes| && !e.arena.nodes[neighbor].OpenSet()
    modifies e.arena, open
    ensures e.Valid() && open.Valid() && OpenSetOver(open.heap, e.arena.nodes)
    ensures Settled(old(e.arena.nodes), e.arena.nodes, neighbor) && OpenKept(old(e.arena.nodes), e.arena.nodes, neighbor)
    ensures var n0 := old(e.arena.nodes[neighbor]);
      e.arena.nodes[neighbor] == n0.(g := g, h := h, f := g + h, heapIdx := e.arena.nodes[neighbor].heapIdx)
    ensures e.arena.nodes[neighbor].OpenSet()
  {
    ghost var h0, ns0 := open.heap, e.arena.nodes;
    var n := e.arena.nodes[neighbor];
    var entered := n.(g := g, h := h, f := g + h);
    OpenSetRewrite(open.heap, e.arena.nodes, neighbor, entered);
    SettledAt(ns0, neighbor, entered);
    e.arena.Put(neighbor, entered);
    ghost var ns1 := e.arena.nodes;
    var _ := open.Insert(neighbor);
    forall i | 0 <= i < |open.heap|
      ensures open.heap[i] in multiset(h0) || e.arena.nodes[open.heap[i]].f == e.arena.nodes[open.heap[i]].g + e.arena.nodes[open.heap[i]].h
    {
      assert open.heap[i] in multiset(open.heap);
      if open.heap[i] !in multiset(h0) {
        assert open.heap[i] == neighbor;
        assert SameButSlot(ns1[neighbor], e.arena.nodes[neighbor]);
      }
    }
    CostedAfter(h0, ns1, open.heap, e.arena.nodes);
    SettledAfterSlots(ns0, ns1, e.arena.nodes, neighbor);
    IndexesSettled(e.nodes, ns0, e.arena.nodes, neighbor);
    assert SameButSlot(entered, e.arena.nodes[neighbor]);
    OpenKeptByHeap(h0, ns0, open.heap, e.arena.nodes, neighbor);
  }

  /** Relaxing the `i`-th neighbour, which changed only its own values and the heap slots of the
      others and kept them open or not, extends the expansion over the first `i` neighbours to
      the first `i + 1`. */
  lemma {:induction false} ExpandedStep(ns1: seq<Node>, ns2: seq<Node>, ns: seq<Node>, current: nat, neighbors: seq<nat>,
                                        i: nat, dist: (Pos, Pos) -> real, goal: Pos, maxDistanceFromStart: real)
    requires i < |neighbors| && |ns2| == |ns1| && current < |ns1|
    requires forall j :: 0 <= j < |neighbors| ==> neighbors[j] < |ns1|
    requires forall j, k :: 0 <= j < k < |neighbors| ==> neighbors[j] != neighbors[k]
    requires forall j :: 0 <= j < i ==> RelaxedTo(ns1, ns2, current, neighbors[j], dist, goal, maxDistanceFromStart)
    requires forall k :: 0 <= k < |ns1| && k !in neighbors[..i] ==>
      SameButSlot(ns1[k], ns2[k]) && (ns2[k].OpenSet() <==> ns1[k].OpenSet())
    requires Settled(ns2, ns, neighbors[i]) && OpenKept(ns2, ns, neighbors[i])
    requires var id := neighbors[i];
      var n0, cur := ns2[id], ns1[current];
      var d := dist(cur.pos, n0.pos);
      && SameButSlot(Relaxed(n0, current, cur, d, dist(n0.pos, goal), maxDistanceFromStart), ns[id])
      && (ns[id].OpenSet() <==> n0.OpenSet() || Relaxes(n0, cur, d, maxDistanceFromStart))
    ensures forall j :: 0 <= j < i + 1 ==> RelaxedTo(ns1, ns, current, neighbors[j], dist, goal, maxDistanceFromStart)
    ensures forall k :: 0 <= k < |ns1| && k !in neighbors[..i + 1] ==>
      SameButSlot(ns1[k], ns[k]) && (ns[k].OpenSet() <==> ns1[k].OpenSet())
  {
    var id := neighbors[i];
    assert neighbors[..i + 1] == neighbors[..i] + [id];
    assert id !in neighbors[..i];
    var cur := ns1[current];
    RelaxedIgnoresSlot(ns2[id], ns1[id], current, cur, dist(cur.pos, ns1[id].pos), dist(ns1[id].pos, goal),
                       maxDistanceFromStart);
    forall j | 0 <= j < i
      ensures RelaxedTo(ns1, ns, current, neighbors[j], dist, goal, maxDistanceFromStart)
    {
      assert neighbors[j] != id && SameButSlot(ns2[neighbors[j]], ns[neighbors[j]]);
    }
    forall k | 0 <= k < |ns1| && k !in neighbors[..i + 1]
      ensures SameButSlot(ns1[k], ns[k]) && (ns[k].OpenSet() <==> ns1[k].OpenSet())
    {
      assert SameButSlot(ns2[k], ns[k]);
    }
  }

  /** `neighbors` are the neighbours the evaluator `e` picks around the node `current` of the
      store `ns`, reading the classification view `ty` that agrees with `cache`: the eight column
      visits `acc` each name the node `Accepted` describes, with the headroom, floor level and
      classification of `current`'s cell, and `neighbors` is what `Picks` keeps of them. */
  ghost predicate PickedAround(e: WalkNodeEvaluator, cache: map<Pos, PathType>, table0: map<Pos, nat>, ns0: seq<Node>,
                               ns: seq<Node>, current: nat, neighbors: seq<nat>, acc: seq<Option<nat>>,
                               ty: Pos -> PathType)
    requires e.source.Some? && current < |ns|
    reads e, e.costMap
  {
    var c := ns[current].pos;
    var up := if e.Context().Cost(ty(c.Up())) >= 0.0 && ty(c) != STICKY_HONEY then e.JumpLimit() else 0;
    && |acc| == 8 && Reports(ty, cache, e.Context())
    && WalkEvaluator.Visited(acc, ns, e.Agent(), ty, c, up, e.FloorLevel(c), ty(c))
    && WalkEvaluator.Weighed(acc, table0, ns0, ns, e.Agent(), ty, c, up, e.FloorLevel(c), ty(c))
    && neighbors == Picks(acc, ns, ns[current], e.entitySizeInfo.Width(), 8)
  }

  /** Expands the closed node `current`: asks the evaluator for its neighbours, leaving the store
      `ns1`, and relaxes the edge to each of them. The neighbours are the ones the evaluator
      picks, from the column visits `acc` under the classification view `ty`. */
  method Expand(e: WalkNodeEvaluator, open: BinaryHeap, target: Target, current: nat,
                dist: (Pos, Pos) -> real, maxDistanceFromStart: real)
    returns (neighbors: seq<nat>, ghost ns1: seq<Node>, ghost acc: seq<Option<nat>>, ghost ty: Pos -> PathType)
    requires Searching(e, open, target) && current < |e.arena.nodes| && e.arena.nodes[current].closed
    modifies e`nodes, e`pathTypesByPosCache, e.arena, open, target
    ensures Searching(e, open, target) && Grown(old(e.arena.nodes), e.arena.nodes)
    ensures target.reached == old(target.reached) && old(target.offered) <= target.offered
    ensures EvalStep(old(e.arena.nodes), ns1)
    ensures PickedAround(e, old(e.pathTypesByPosCache), old(e.nodes), old(e.arena.nodes), ns1, current, neighbors, acc, ty)
    ensures Expanded(ns1, e.arena.nodes, current, neighbors, dist, target.pos, maxDistanceFromStart)
  {
    ghost var ns0 := e.arena.nodes;
    neighbors, acc, ty := e.Neighbors(current);
    ns1 := e.arena.nodes;
    assert ns1[current].pos == ns0[current].pos;
    OpenSetSurvivesEvaluation(open.heap, ns0, ns1);
    GrownSteps(ns0, ns1, ns1, 0);
    RelaxEach(e, open, target, current, neighbors, dist, maxDistanceFromStart);
    GrownSteps(ns0, ns1, e.arena.nodes, 0);
  }

  /** Relaxes the edge from the closed node `current` to each of the distinct nodes `neighbors`
      in turn, reading the values of `current` as they stand. */
  method RelaxEach(e: WalkNodeEvaluator, open: BinaryHeap, target: Target, current: nat, neighbors: seq<nat>,
                   dist: (Pos, Pos) -> real, maxDistanceFromStart: real)
    requires Searching(e, open, target) && current < |e.arena.nodes| && e.arena.nodes[current].closed
    requires forall j :: 0 <= j < |neighbors| ==> neighbors[j] < |e.arena.nodes| && !e.arena.nodes[neighbors[j]].closed
    requires forall j, k :: 0 <= j < k < |neighbors| ==> neighbors[j] != neighbors[k]
    modifies e.arena, open, target
    ensures Searching(e, open, target) && Grown(old(e.arena.nodes), e.arena.nodes)
    ensures target.reached == old(target.reached) && old(target.offered) <= target.offered
    ensures Expanded(old(e.arena.nodes), e.arena.nodes, current, neighbors, dist, target.pos, maxDistanceFromStart)
  {
    ghost var ns1 := e.arena.nodes;
    GrownSteps(ns1, ns1, ns1, 0);
    var cur := e.arena.nodes[current];
    for i := 0 to |neighbors|
      invariant Searching(e, open, target) && Grown(ns1, e.arena.nodes) && |e.arena.nodes| == |ns1|
      invariant current < |e.arena.nodes| && e.arena.nodes[current].closed && SameButSlot(cur, e.arena.nodes[current])
      invariant target.reached == old(target.reached) && old(target.offered) <= target.offered
      invariant forall j :: 0 <= j < i ==> RelaxedTo(ns1, e.arena.nodes, current, neighbors[j], dist, target.pos, maxDistanceFromStart)
      invariant forall k :: 0 <= k < |ns1| && k !in neighbors[..i] ==>
        SameButSlot(ns1[k], e.arena.nodes[k]) && (e.arena.nodes[k].OpenSet() <==> ns1[k].OpenSet())
    {
      ghost var ns2 := e.arena.nodes;
      var id := neighbors[i];
      var _ := Relax(e, open, target, current, cur, id, dist, maxDistanceFromStart);
      ExpandedStep(ns1, ns2, e.arena.nodes, current, neighbors, i, dist, target.pos, maxDistanceFromStart);
      GrownSteps(ns2, e.arena.nodes, e.arena.nodes, id);
      GrownSteps(ns1, ns2, e.arena.nodes, 0);
      assert SameButSlot(ns2[current], e.arena.nodes[current]);
    }
    assert neighbors[..|neighbors|] == neighbors;
  }

  /** Takes a node of minimal key out of the non-empty open set and closes it. */
  method Visit(e: WalkNodeEvaluator, open: BinaryHeap, target: Target) returns (current: nat)
    requires Searching(e, open, target) && open.heap != []
    modifies e.arena, open
    ensures Searching(e, open, target) && Grown(old(e.arena.nodes), e.arena.nodes)
    ensures current == old(open.heap[0]) && current < |e.arena.nodes| && e.arena.nodes[current].closed
    ensures forall i :: 0 <= i < |old(open.heap)| ==> old(e.arena.nodes[current].f <= e.arena.nodes[open.heap[i]].f)
    ensures |open.heap| == old(|open.heap|) - 1 && current !in open.heap
    ensures |e.arena.nodes| == old(|e.arena.nodes|) && e.arena.nodes[current] == old(e.arena.nodes[current]).(heapIdx := -1, closed := true)
    ensures forall i :: 0 <= i < |e.arena.nodes| && i != current ==> SameButSlot(old(e.arena.nodes[i]), e.arena.nodes[i])
  {
    ghost var h0, ns0 := open.heap, e.arena.nodes;
    var r := open.Pop();
    current := r.value;
    ghost var ns1 := e.arena.nodes;
    forall i | 0 <= i < |open.heap|
      ensures open.heap[i] in multiset(h0)
    {
      assert open.heap[i] in multiset(open.heap);
    }
    CostedAfter(h0, ns0, open.heap, ns1);
    var n := e.arena.nodes[current];
    OpenSetRewrite(open.heap, ns1, current, n.(closed := true));
    e.arena.Close(current);
    forall i | 0 <= i < |ns0|
      ensures e.arena.nodes[i].pos == ns0[i].pos && (ns0[i].closed ==> e.arena.nodes[i].closed)
      ensures i != current ==> SameButSlot(ns0[i], e.arena.nodes[i])
    {
      assert SameButSlot(ns0[i], ns1[i]);
    }
    assert SameButSlot(ns0[current], ns1[current]);
    IndexesKept(e.nodes, ns0, e.arena.nodes);
    assert current !in multiset(open.heap);
  }

  /** One round of the search on a non-empty open set: pops and closes a node of minimal key and
      either marks the target reached, when that node is within `reachRange` of it, or expands the
      node when its squared distance from the start is below the square of `maxDistanceFromStart`.
      `expanded` tells whether it expanded the node, over the neighbours `neighbors` the evaluator
      picked from its column visits `acc` under the view `ty`, and the store `ns1` it left; a round
      that does not expand changes no node but the popped one. */
  method Round(e: WalkNodeEvaluator, open: BinaryHeap, target: Target, startPos: Pos, maxDistanceFromStart: real,
               reachRange: int, dist: (Pos, Pos) -> real, distSq: (Pos, Pos) -> real)
    returns (current: nat, reached: bool, ghost expanded: bool, ghost neighbors: seq<nat>, ghost table0: map<Pos, nat>,
             ghost ns0: seq<Node>, ghost ns1: seq<Node>, ghost acc: seq<Option<nat>>, ghost ty: Pos -> PathType)
    requires Searching(e, open, target) && open.heap != [] && !target.reached
    modifies e`nodes, e`pathTypesByPosCache, e.arena, open, target
    ensures Searching(e, open, target) && Grown(old(e.arena.nodes), e.arena.nodes)
    ensures old(target.offered) <= target.offered && target.reached == reached
    ensures current == old(open.heap[0]) && current < |e.arena.nodes| && e.arena.nodes[current].closed
    ensures reached <==> e.arena.nodes[current].DistanceManhattan(target.pos) <= reachRange
    ensures expanded <==> !reached && distSq(e.arena.nodes[current].pos, startPos) < maxDistanceFromStart * maxDistanceFromStart
    ensures expanded ==>
      && Grown(old(e.arena.nodes), ns1) && current < |ns1|
      && PickedAround(e, old(e.pathTypesByPosCache), table0, ns0, ns1, current, neighbors, acc, ty)
      && Expanded(ns1, e.arena.nodes, current, neighbors, dist, target.pos, maxDistanceFromStart)
    ensures !expanded ==>
      && target.offered == old(target.offered) && |e.arena.nodes| == old(|e.arena.nodes|)
      && forall i :: 0 <= i < |e.arena.nodes| && i != current ==> SameButSlot(old(e.arena.nodes[i]), e.arena.nodes[i])
  {
    ghost var nsStart := e.arena.nodes;
    current := Visit(e, open, target);
    reached := e.arena.nodes[current].DistanceManhattan(target.pos) <= reachRange;
    expanded, neighbors, ns1, acc, ty := false, [], e.arena.nodes, [], _ => OPEN;
    table0, ns0 := e.nodes, e.arena.nodes;
    if reached {
      target.SetReached(true);
    } else if distSq(e.arena.nodes[current].pos, startPos) < maxDistanceFromStart * maxDistanceFromStart {
      ghost var ns2 := e.arena.nodes;
      ghost var p := e.arena.nodes[current].pos;
      var around;
      around, ns1, acc, ty := Expand(e, open, target, current, dist, maxDistanceFromStart);
      neighbors, expanded := around, true;
      GrownSteps(nsStart, ns2, ns1, 0);
      GrownSteps(nsStart, ns2, e.arena.nodes, 0);
      assert e.arena.nodes[current].pos == p;
    }
  }

  /** A round as the search loop counts it: `Round` on the non-empty open set, after which the
      store has grown from `ns0`, and the popped node joins the visited nodes `popped` unless it
      reached the target. */
  method CountedRound(e: WalkNodeEvaluator, open: BinaryHeap, target: Target, startPos: Pos, maxDistanceFromStart: real,
                      reachRange: int, dist: (Pos, Pos) -> real, distSq: (Pos, Pos) -> real,
                      ghost ns0: seq<Node>, ghost popped: seq<nat>)
    returns (current: nat, reached: bool)
    requires Searching(e, open, target) && open.heap != [] && !target.reached
    requires Grown(ns0, e.arena.nodes) && Visited(e.arena.nodes, popped, target.pos, reachRange)
    modifies e`nodes, e`pathTypesByPosCache, e.arena, open, target
    ensures Searching(e, open, target) && Grown(ns0, e.arena.nodes)
    ensures old(target.offered) <= target.offered && target.reached == reached
    ensures current < |e.arena.nodes| && e.arena.nodes[current].closed
    ensures reached <==> e.arena.nodes[current].DistanceManhattan(target.pos) <= reachRange
    ensures Visited(e.arena.nodes, popped, target.pos, reachRange)
    ensures !reached ==> Visited(e.arena.nodes, popped + [current], target.pos, reachRange)
  {
    ghost var ns1 := e.arena.nodes;
    ghost var expanded, neighbors, table2, ns3, ns2, acc, ty;
    current, reached, expanded, neighbors, table2, ns3, ns2, acc, ty := Round(e, open, target, startPos, maxDistanceFromStart, reachRange, dist, distSq);
    GrownSteps(ns0, ns1, e.arena.nodes, 0);
    VisitedGrown(ns1, e.arena.nodes, popped, target.pos, reachRange);
    if !reached {
      VisitedExtended(e.arena.nodes, popped, current, target.pos, reachRange);
    }
  }

  /** The main loop of the search from the node `start`. Each round counts a visit first and
      stops when the count reaches `maxVisitedNodes`; otherwise it pops and closes a node of
      minimal key, stops with the target reached when that node is within `reachRange` of the goal
      (Manhattan distance), and otherwise expands it when it is within `maxDistanceFromStart` of the
      start. `popped` lists the popped nodes in order. */
  method Search(e: WalkNodeEvaluator, open: BinaryHeap, start: nat, target: Target, maxVisitedNodes: int,
                maxDistanceFromStart: real, reachRange: int, dist: (Pos, Pos) -> real, distSq: (Pos, Pos) -> real)
    returns (ghost popped: seq<nat>)
    requires Searching(e, open, target) && start < |e.arena.nodes| && !target.reached
    modifies e`nodes, e`pathTypesByPosCache, e.arena, open, target
    ensures Searching(e, open, target) && Grown(old(e.arena.nodes), e.arena.nodes)
    ensures old(target.offered) <= target.offered
    ensures |popped| <= if maxVisitedNodes >= 1 then maxVisitedNodes - 1 else 0
    ensures forall k :: 0 <= k < |popped| ==> popped[k] < |e.arena.nodes| && e.arena.nodes[popped[k]].closed
    ensures target.reached ==>
      && popped != [] && e.arena.nodes[popped[|popped| - 1]].DistanceManhattan(target.pos) <= reachRange
      && forall k :: 0 <= k < |popped| - 1 ==> e.arena.nodes[popped[k]].DistanceManhattan(target.pos) > reachRange
    ensures !target.reached ==> forall k :: 0 <= k < |popped| ==> e.arena.nodes[popped[k]].DistanceManhattan(target.pos) > reachRange
    ensures popped == [] ==> e.arena.nodes == old(e.arena.nodes) && target.offered == old(target.offered) && target.bestNode == old(target.bestNode)
    ensures || target.reached
            || (open.heap == [] && forall i :: 0 <= i < |e.arena.nodes| ==> !e.arena.nodes[i].OpenSet())
            || |popped| == (if maxVisitedNodes >= 1 then maxVisitedNodes - 1 else 0)
  {
    ghost var ns0 := e.arena.nodes;
    var startPos := e.arena.nodes[start].pos;
    var visitedNodes := 0;
    popped := [];
    GrownSteps(ns0, ns0, ns0, 0);
    while !open.IsEmpty()
      invariant Searching(e, open, target) && Grown(ns0, e.arena.nodes) && !target.reached
      invariant old(target.offered) <= target.offered
      invariant visitedNodes == |popped| && (visitedNodes == 0 || visitedNodes < maxVisitedNodes)
      invariant Visited(e.arena.nodes, popped, target.pos, reachRange)
      invariant popped == [] ==> e.arena.nodes == ns0 && target.offered == old(target.offered) && target.bestNode == old(target.bestNode)
      decreases if visitedNodes < maxVisitedNodes then maxVisitedNodes - visitedNodes else 0
    {
      visitedNodes := visitedNodes + 1;
      if visitedNodes >= maxVisitedNodes {
        break;
      }
      var current, reached := CountedRound(e, open, target, startPos, maxDistanceFromStart, reachRange, dist, distSq, ns0, popped);
      popped := popped + [current];
      if reached {
        break;
      }
    }
    if !target.reached && open.heap == [] {
      NoneOpen(open.heap, e.arena.nodes);
    }
  }

  /*** Path reconstruction ***/

  /** `s` back to front. */
  function Reverse<T>(s: seq<T>): (r: seq<T>)
    ensures |r| == |s| && forall i :: 0 <= i < |s| ==> r[i] == s[|s| - 1 - i]
  {
    if s == [] then [] else Reverse(s[1..]) + [s[0]]
  }

  /** Reversing twice gives back the sequence, and reversing puts an appended element in front. */
  lemma {:induction false} ReverseProperties<T>(s: seq<T>, x: T)
    ensures Reverse(Reverse(s)) == s
    ensures Reverse(s + [x]) == [x] + Reverse(s)
  {
    var r := Reverse(s);
    forall i | 0 <= i < |s|
      ensures Reverse(r)[i] == s[i]
    {
      assert Reverse(r)[i] == r[|s| - 1 - i] == s[i];
    }
    var t := s + [x];
    forall i | 0 <= i < |t|
      ensures Reverse(t)[i] == ([x] + r)[i]
    {
      if i == 0 {
        assert Reverse(t)[0] == t[|s|] == x;
      } else {
        assert Reverse(t)[i] == t[|s| - i] == s[|s| - i] == r[i - 1];
      }
    }
  }

  /** Reverses `a` in place by swapping the ends inwards. */
  method ReverseInPlace<T>(a: array<T>)
    modifies a
    ensures a[..] == Reverse(old(a[..]))
  {
    var i, j := 0, a.Length - 1;
    while i < j
      invariant 0 <= i && j == a.Length - 1 - i && i <= a.Length - i
      invariant forall k :: 0 <= k < i ==> a[k] == old(a[a.Length - 1 - k]) && a[a.Length - 1 - k] == old(a[k])
      invariant forall k :: i <= k < a.Length - i ==> a[k] == old(a[k])
    {
      a[i], a[j] := a[j], a[i];
      i, j := i + 1, j - 1;
    }
  }

  /** The node values at the indices `ids`, in order. */
  function Values(ns: seq<Node>, ids: seq<nat>): (r: seq<Node>)
    requires forall i :: 0 <= i < |ids| ==> ids[i] < |ns|
    ensures |r| == |ids| && forall i :: 0 <= i < |ids| ==> r[i] == ns[ids[i]]
  {
    seq(|ids|, i requires 0 <= i < |ids| => ns[ids[i]])
  }

  /** Walks the parent links up from `best` while the current node has a parent, collecting the
      nodes on the way: the chain of `best` from the end backwards. */
  method CollectChain(a: Arena, best: nat) returns (ids: seq<nat>)
    requires a.Valid() && best < |a.nodes|
    ensures Reverse(ids) == Chain(a.nodes, a.stamp, a.clock, best)
  {
    ids := [];
    var current: nat := best;
    while a.nodes[current].cameFrom.Some?
      invariant current < |a.nodes|
      invariant Chain(a.nodes, a.stamp, a.clock, best) == Chain(a.nodes, a.stamp, a.clock, current) + Reverse(ids)
      decreases Rank(a.nodes, a.stamp, a.clock, current)
    {
      assert ParentOk(a.nodes, a.stamp, current);
      var parent := a.nodes[current].cameFrom.value;
      ghost var rest := Chain(a.nodes, a.stamp, a.clock, parent);
      assert Chain(a.nodes, a.stamp, a.clock, current) == rest + [current];
      ReverseProperties(ids, current);
      assert rest + [current] + Reverse(ids) == rest + Reverse(ids + [current]);
      ids := ids + [current];
      current := parent;
    }
  }

  /** The path that ends at `best`: the nodes of its chain, from the first step after the
      parentless start node to `best`, with the target position and the reached flag. */
  method ReconstructPath(a: Arena, best: nat, target: Pos, reached: bool) returns (path: Path)
    requires a.Valid() && best < |a.nodes|
    ensures fresh(path) && path.target == target && path.reached == reached
    ensures ChainIndices(a.nodes, a.stamp, a.clock, best)
    ensures path.nodes == Values(a.nodes, Chain(a.nodes, a.stamp, a.clock, best))
  {
    ChainFollowsParents(a.nodes, a.stamp, a.clock, best);
    var ids := CollectChain(a, best);
    var arr := new nat[|ids|](i requires 0 <= i < |ids| => ids[i]);
    assert arr[..] == ids;
    ReverseInPlace(arr);
    path := new Path(Values(a.nodes, arr[..]), reached, target);
  }

  /** Every index on the chain of `i` is in the store. */
  ghost predicate ChainIndices(ns: seq<Node>, stamp: seq<nat>, clock: nat, i: nat)
    requires Ranked(ns, stamp, clock) && i < |ns|
  {
    var c := Chain(ns, stamp, clock, i);
    forall k :: 0 <= k < |c| ==> c[k] < |ns|
  }

  /** The reconstructed path follows parent links: it is empty exactly when `best` has no parent;
      otherwise it ends at `best`, each node's parent is the node before it, and the first node's
      parent is a node without a parent (the start, which the path leaves out). */
  lemma {:induction false} PathFollowsParents(ns: seq<Node>, stamp: seq<nat>, clock: nat, best: nat)
    requires Ranked(ns, stamp, clock) && best < |ns|
    ensures ChainIndices(ns, stamp, clock, best)
    ensures var c := Chain(ns, stamp, clock, best); var p := Values(ns, c);
      && (p == [] <==> ns[best].cameFrom.None?)
      && (p != [] ==> p[|p| - 1] == ns[best])
      && (p != [] ==> p[0].cameFrom.Some? && p[0].cameFrom.value < |ns| && ns[p[0].cameFrom.value].cameFrom.None?)
      && (forall k :: 0 <= k < |p| - 1 ==> p[k + 1].cameFrom == Some(c[k]) && ns[c[k]] == p[k])
  {
    ChainFollowsParents(ns, stamp, clock, best);
  }

  /*** The search ***/

  /** Searches from the node `start` of a store with no open node: the start gets cost 0 and key
      equal to its heuristic and is the only node in a new open set; the search runs; and the path
      to the best node the target saw is reconstructed. The path is empty when the search popped
      nothing and the start has no parent. */
  method FindPathFrom(e: WalkNodeEvaluator, start: nat, target: Target, maxVisitedNodes: int,
                      maxDistanceFromStart: real, reachRange: int, dist: (Pos, Pos) -> real, distSq: (Pos, Pos) -> real)
    returns (path: Path, ghost popped: seq<nat>)
    requires e.Valid() && e.source.Some? && start < |e.arena.nodes|
    requires target.Valid() && target.offered == [] && !target.reached
    requires forall i :: 0 <= i < |e.arena.nodes| ==> !e.arena.nodes[i].OpenSet()
    modifies e`nodes, e`pathTypesByPosCache, e.arena, target
    ensures e.Valid() && e.source == old(e.source) && e.arena == old(e.arena) && Grown(old(e.arena.nodes), e.arena.nodes)
    ensures target.Valid() && target.bestNode.Some? && target.bestNode.value < |e.arena.nodes|
    ensures fresh(path) && path.target == target.pos && path.reached == target.reached
    ensures ChainIndices(e.arena.nodes, e.arena.stamp, e.arena.clock, target.bestNode.value)
    ensures path.nodes == Values(e.arena.nodes, Chain(e.arena.nodes, e.arena.stamp, e.arena.clock, target.bestNode.value))
    ensures |popped| <= if maxVisitedNodes >= 1 then maxVisitedNodes - 1 else 0
    ensures forall k :: 0 <= k < |popped| ==> popped[k] < |e.arena.nodes| && e.arena.nodes[popped[k]].closed
    ensures target.reached ==>
      && popped != [] && e.arena.nodes[popped[|popped| - 1]].DistanceManhattan(target.pos) <= reachRange
      && forall k :: 0 <= k < |popped| - 1 ==> e.arena.nodes[popped[k]].DistanceManhattan(target.pos) > reachRange
    ensures !target.reached ==> forall k :: 0 <= k < |popped| ==> e.arena.nodes[popped[k]].DistanceManhattan(target.pos) > reachRange
    ensures popped == [] && old(e.arena.nodes[start].cameFrom.None?) ==> target.bestNode == Some(start) && path.nodes == []
    ensures || target.reached
            || (forall i :: 0 <= i < |e.arena.nodes| ==> !e.arena.nodes[i].OpenSet())
            || |popped| == (if maxVisitedNodes >= 1 then maxVisitedNodes - 1 else 0)
  {
    ghost var ns0 := e.arena.nodes;
    var open := OpenStart(e, start, target, dist);
    ghost var ns1 := e.arena.nodes;
    popped := Search(e, open, start, target, maxVisitedNodes, maxDistanceFromStart, reachRange, dist, distSq);
    GrownSteps(ns0, ns1, e.arena.nodes, 0);
    var best := target.BestNode();
    assert e.arena.Valid();
    PathFollowsParents(e.arena.nodes, e.arena.stamp, e.arena.clock, best.value);
    path := ReconstructPath(e.arena, best.value, target.pos, target.Reached());
  }

  /** Opens the search at `start`: it gets cost so far 0, its heuristic, and key equal to that
      heuristic, and is the one node of a new open set; the target has seen it as its best node. */
  method OpenStart(e: WalkNodeEvaluator, start: nat, target: Target, dist: (Pos, Pos) -> real)
    returns (open: BinaryHeap)
    requires e.Valid() && e.source.Some? && start < |e.arena.nodes|
    requires target.Valid() && target.offered == [] && !target.reached
    requires forall i :: 0 <= i < |e.arena.nodes| ==> !e.arena.nodes[i].OpenSet()
    modifies e.arena, target
    ensures fresh(open) && Searching(e, open, target) && open.heap == [start] && !target.reached
    ensures Grown(old(e.arena.nodes), e.arena.nodes) && target.bestNode == Some(start)
    ensures var n := e.arena.nodes[start];
      n.cameFrom == old(e.arena.nodes[start].cameFrom) && n.g == 0.0 && n.h == dist(n.pos, target.pos) && n.f == n.h
  {
    ghost var ns0 := e.arena.nodes;
    open := new BinaryHeap(e.arena);
    var s := e.arena.nodes[start];
    var h := BestHeuristic(start, s.pos, target, dist);
    e.arena.Put(start, s.(g := 0.0, h := h, f := h));
    IndexesKept(e.nodes, ns0, e.arena.nodes);
    ghost var ns1 := e.arena.nodes;
    var _ := open.Insert(start);
    ghost var ns2 := e.arena.nodes;
    assert open.heap == [start] by {
      assert multiset(open.heap) == multiset{start};
      assert |open.heap| == 1 && open.heap[0] in multiset(open.heap);
    }
    assert SameButSlot(ns1[start], ns2[start]);
    CostedAfter([], ns1, open.heap, ns2);
    forall i | 0 <= i < |ns1|
      ensures ns2[i].pos == ns1[i].pos && ns2[i].closed == ns1[i].closed
    {
      assert SameButSlot(ns1[i], ns2[i]);
    }
    IndexesKept(e.nodes, ns1, ns2);
  }

  /** Prepares the evaluator on the world `w` for an agent at `pos` and makes the start and goal
      nodes in a fresh store, in which no node is open and the start has no parent. */
  method Begin(e: WalkNodeEvaluator, w: World, pos: Pos, targetPos: Pos) returns (start: nat, target: Target)
    requires e.Valid()
    modifies e`source, e`startPosition, e`nodes, e`pathTypesByPosCache, e`arena
    ensures e.Valid() && e.source == Some(w) && e.startPosition == pos && fresh(e.arena)
    ensures start < |e.arena.nodes| && e.arena.nodes[start].pos == pos && e.arena.nodes[start].cameFrom.None?
    ensures forall i :: 0 <= i < |e.arena.nodes| ==> !e.arena.nodes[i].OpenSet()
    ensures fresh(target) && target.Valid() && target.pos == targetPos && target.offered == [] && !target.reached
  {
    e.Prepare(w, pos);
    start := e.StartNodeAt(e.startPosition);
    ghost var ns1, table1 := e.arena.nodes, e.nodes;
    assert start == 0 && |ns1| == 1 && table1 == map[pos := 0];
    assert ns1[0].pos == pos && !ns1[0].OpenSet() && ns1[0].cameFrom.None?;
    target := e.Goal(targetPos);
    if targetPos == pos {
      assert Prior(table1, ns1, targetPos) == ns1[0];
    } else {
      assert Prior(table1, ns1, targetPos) == NewNode(targetPos);
      assert e.nodes[pos] == 0 && Indexes(e.nodes, e.arena.nodes);
      assert e.arena.nodes[e.nodes[pos]].pos == pos;
    }
    assert e.arena.nodes[0] == ns1[0];
  }

  /** Finds a path for an agent at `pos` towards `targetPos` in the world `w`: the evaluator is
      prepared on a fresh store, the start and goal nodes are made, the search runs, and the
      evaluator is released. The path holds the chain of parents that ends at `best`, the best
      node the target saw, without that chain's root. With `maxVisitedNodes` at most 1 the search
      pops nothing, so the path is empty and does not reach the target. */
  method FindPath(e: WalkNodeEvaluator, w: World, pos: Pos, targetPos: Pos, maxVisitedNodes: int,
                  maxDistanceFromStart: real, reachRange: int, dist: (Pos, Pos) -> real, distSq: (Pos, Pos) -> real)
    returns (path: Path, ghost popped: seq<nat>, ghost best: nat)
    requires e.Valid()
    modifies e`source, e`startPosition, e`nodes, e`pathTypesByPosCache, e`arena
    ensures e.Valid() && e.source.None? && e.nodes == map[] && e.pathTypesByPosCache == map[]
    ensures fresh(path) && path.target == targetPos
    ensures best < |e.arena.nodes| && ChainIndices(e.arena.nodes, e.arena.stamp, e.arena.clock, best)
    ensures path.nodes == Values(e.arena.nodes, Chain(e.arena.nodes, e.arena.stamp, e.arena.clock, best))
    ensures |popped| <= if maxVisitedNodes >= 1 then maxVisitedNodes - 1 else 0
    ensures forall k :: 0 <= k < |popped| ==> popped[k] < |e.arena.nodes| && e.arena.nodes[popped[k]].closed
    ensures path.reached ==>
      && popped != [] && e.arena.nodes[popped[|popped| - 1]].DistanceManhattan(targetPos) <= reachRange
      && forall k :: 0 <= k < |popped| - 1 ==> e.arena.nodes[popped[k]].DistanceManhattan(targetPos) > reachRange
    ensures !path.reached ==> forall k :: 0 <= k < |popped| ==> e.arena.nodes[popped[k]].DistanceManhattan(targetPos) > reachRange
    ensures maxVisitedNodes <= 1 ==> !path.reached && path.nodes == []
    ensures || path.reached
            || (forall i :: 0 <= i < |e.arena.nodes| ==> !e.arena.nodes[i].OpenSet())
            || |popped| == (if maxVisitedNodes >= 1 then maxVisitedNodes - 1 else 0)
  {
    var start, target := Begin(e, w, pos, targetPos);
    path, popped := FindPathFrom(e, start, target, maxVisitedNodes, maxDistanceFromStart, reachRange, dist, distSq);
    best := target.bestNode.value;
    e.Done();
  }
}
