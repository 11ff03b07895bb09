/** The walking-agent node evaluator: it owns the node table and the classification cache of one
    search, classifies positions for an agent of a given size, and decides which neighbouring
    positions the agent can step, climb or fall to. Nodes live in the shared node store (module
    NodeArena); the table maps positions to their index there. */
module WalkEvaluator {
  import opened Wrappers
  import opened World
  import opened PathTypes
  import opened CostMaps
  import opened Nodes
  import opened NodeArena
  import opened Entities
  import opened Configs
  import opened Terrain
  import opened Targets

  /** The jump height of an agent whose step-up height is smaller. */
  const DefaultMobJumpHeight: real := 1.125

  /** The larger of two reals. */
  function MaxReal(a: real, b: real): (m: real)
    ensures m >= a && m >= b && (m == a || m == b)
  {
    if a >= b then a else b
  }

  /** Classifications whose cells only partly block movement: fences and closed doors. Each of
      them is impassable under the default cost table. */
  function BlockHavePartialCollision(t: PathType): (r: bool)
    ensures r ==> Malus(t) < 0
  {
    t == FENCE || t == DOOR_WOOD_CLOSED || t == DOOR_IRON_CLOSED
  }

  /*** The classification cache ***/

  /** The classification of `p` as the evaluator reports it: the cached one when there is one,
      the one computed from the world otherwise. */
  function TypeIn(cache: map<Pos, PathType>, ctx: Classifier, p: Pos): PathType {
    if p in cache then cache[p] else ctx.At(p)
  }

  /** The classifications reported through `cache`, as one function of the position. */
  function TypeView(cache: map<Pos, PathType>, ctx: Classifier): (ty: Pos -> PathType)
    ensures forall p :: ty(p) == TypeIn(cache, ctx, p)
  {
    p => TypeIn(cache, ctx, p)
  }

  /** `c` keeps every entry of `c0`, and its new entries are computed classifications. */
  ghost predicate CacheGrows(c0: map<Pos, PathType>, c: map<Pos, PathType>, ctx: Classifier) {
    && (forall p :: p in c0 ==> p in c && c[p] == c0[p])
    && (forall p {:trigger ctx.At(p)} :: p in c && p !in c0 ==> c[p] == ctx.At(p))
  }

  /** A growing cache reports what it reported before, and growth composes. */
  lemma CacheGrowth(c0: map<Pos, PathType>, c1: map<Pos, PathType>, c2: map<Pos, PathType>, ctx: Classifier)
    ensures CacheGrows(c0, c0, ctx)
    ensures CacheGrows(c0, c1, ctx) && CacheGrows(c1, c2, ctx) ==> CacheGrows(c0, c2, ctx)
  {
  }

  /*** What the evaluator does to the node store ***/

  /** Every entry of the position table names a node of the store at that position. */
  ghost predicate Indexes(table: map<Pos, nat>, ns: seq<Node>) {
    forall p :: p in table ==> table[p] < |ns| && ns[table[p]].pos == p
  }

  /** A table stays an index of a store whose nodes kept their positions. */
  lemma IndexesKept(table: map<Pos, nat>, ns0: seq<Node>, ns: seq<Node>)
    requires Indexes(table, ns0) && |ns0| <= |ns|
    requires forall i :: 0 <= i < |ns0| ==> ns[i].pos == ns0[i].pos
    ensures Indexes(table, ns)
  {
  }

  /** An existing node as the evaluator may leave it: same position, heap slot, costs, parent and
      walked distance; a closed node stays closed. */
  ghost predicate Kept(m: Node, n: Node) {
    && m.pos == n.pos && m.heapIdx == n.heapIdx && m.g == n.g && m.h == n.h && m.f == n.f
    && m.cameFrom == n.cameFrom && m.walkedDistance == n.walkedDistance && (m.closed ==> n.closed)
  }

  /** The store `ns` is `ns0` as the evaluator may change it: existing nodes are kept in the sense
      of `Kept`, and added nodes have no heap slot and no parent. */
  ghost predicate EvalStep(ns0: seq<Node>, ns: seq<Node>) {
    && |ns0| <= |ns|
    && (forall i :: 0 <= i < |ns0| ==> Kept(ns0[i], ns[i]))
    && (forall i :: |ns0| <= i < |ns| ==> ns[i].heapIdx == -1 && ns[i].cameFrom.None?)
  }

  /** Only nodes of the column (`x`, `z`) changed. */
  ghost predicate ColumnOnly(ns0: seq<Node>, ns: seq<Node>, x: int, z: int) {
    |ns0| <= |ns| && forall i :: 0 <= i < |ns0| && (ns0[i].pos.x != x || ns0[i].pos.z != z) ==> ns[i] == ns0[i]
  }

  ghost predicate Evolved(ns0: seq<Node>, ns: seq<Node>, x: int, z: int) {
    EvalStep(ns0, ns) && ColumnOnly(ns0, ns, x, z)
  }

  /** `ns` differs from `ns0` at most at `id`, which is new when the store grew. */
  ghost predicate OnlyAt(ns0: seq<Node>, ns: seq<Node>, id: nat) {
    && |ns0| <= |ns| <= |ns0| + 1 && id < |ns| && (|ns| == |ns0| + 1 ==> id == |ns0|)
    && forall i :: 0 <= i < |ns0| && i != id ==> ns[i] == ns0[i]
  }

  /** The node the table holds for `pos`, or the fresh node it would create. */
  ghost function Prior(table: map<Pos, nat>, ns: seq<Node>, pos: Pos): Node {
    if pos in table && table[pos] < |ns| then ns[table[pos]] else NewNode(pos)
  }

  /** A change at one node that keeps it in the sense of `Kept`, or adds it fresh, is an evaluator
      step confined to that node's column. */
  lemma OnlyAtEvolves(ns0: seq<Node>, ns: seq<Node>, id: nat)
    requires OnlyAt(ns0, ns, id)
    requires id < |ns0| ==> Kept(ns0[id], ns[id])
    requires id >= |ns0| ==> ns[id].heapIdx == -1 && ns[id].cameFrom.None?
    ensures Evolved(ns0, ns, ns[id].pos.x, ns[id].pos.z)
  {
  }

  /** Evaluator steps compose, and so do steps confined to one column. */
  lemma {:induction false} EvolvedTrans(a: seq<Node>, b: seq<Node>, c: seq<Node>, x: int, z: int)
    requires Evolved(a, b, x, z) && Evolved(b, c, x, z)
    ensures Evolved(a, c, x, z)
  {
    forall i | 0 <= i < |a|
      ensures Kept(a[i], c[i])
    {
      assert Kept(a[i], b[i]) && Kept(b[i], c[i]);
    }
    forall i | |a| <= i < |c|
      ensures c[i].heapIdx == -1 && c[i].cameFrom.None?
    {
      if i < |b| {
        assert Kept(b[i], c[i]);
      }
    }
  }

  /** Evaluator steps compose whatever columns they touch. */
  lemma {:induction false} EvalStepTrans(a: seq<Node>, b: seq<Node>, c: seq<Node>)
    requires EvalStep(a, b) && EvalStep(b, c)
    ensures EvalStep(a, c)
  {
    forall i | 0 <= i < |a|
      ensures Kept(a[i], c[i])
    {
      assert Kept(a[i], b[i]) && Kept(b[i], c[i]);
    }
    forall i | |a| <= i < |c|
      ensures c[i].heapIdx == -1 && c[i].cameFrom.None?
    {
      if i < |b| {
        assert Kept(b[i], c[i]);
      }
    }
  }

  /*** Neighbour acceptance ***/

  /** A cardinal neighbour is kept when it is not closed and is passable, or when the node being
      expanded is itself impassable. */
  predicate IsNeighborValid(neighbor: Node, node: Node) {
    !neighbor.closed && (neighbor.costMalus >= 0.0 || node.costMalus < 0.0)
  }

  /** The diagonal rule as the Go code writes it: the exemption meant for narrow agents between
      fences holds when NONE of the three cells is a fence. */
  predicate IsDiagonalValidAsWritten(node: Node, n1: Option<Node>, n2: Option<Node>, diagonal: Node, width: real) {
    if n1.None? || n2.None? then false
    else if diagonal.closed then false
    else if n1.value.pos.y > node.pos.y || n2.value.pos.y > node.pos.y then false
    else if n1.value.pathType != WALKABLE_DOOR && n2.value.pathType != WALKABLE_DOOR && diagonal.pathType != WALKABLE_DOOR then
      var isFence := n1.value.pathType != FENCE && n2.value.pathType != FENCE && diagonal.pathType != FENCE && width < 0.5;
      && diagonal.costMalus >= 0.0
      && (n1.value.pos.y < node.pos.y || n1.value.costMalus >= 0.0 || isFence)
      && (n2.value.pos.y < node.pos.y || n2.value.costMalus >= 0.0 || isFence)
    else false
  }

  /** The diagonal rule: both flanks exist and are not higher than the node, the diagonal is not
      closed, no cell is a walkable door, the diagonal is passable, and each flank is lower, or
      passable, or (for an agent narrower than half a block) a fence. */
  predicate IsDiagonalValid(node: Node, n1: Option<Node>, n2: Option<Node>, diagonal: Node, width: real) {
    if n1.None? || n2.None? then false
    else if diagonal.closed then false
    else if n1.value.pos.y > node.pos.y || n2.value.pos.y > node.pos.y then false
    else if n1.value.pathType != WALKABLE_DOOR && n2.value.pathType != WALKABLE_DOOR && diagonal.pathType != WALKABLE_DOOR then
      && diagonal.costMalus >= 0.0
      && (n1.value.pos.y < node.pos.y || n1.value.costMalus >= 0.0 || (n1.value.pathType == FENCE && width < 0.5))
      && (n2.value.pos.y < node.pos.y || n2.value.costMalus >= 0.0 || (n2.value.pathType == FENCE && width < 0.5))
    else false
  }

  /** What the acceptance rules promise: a kept cardinal is never closed and is passable unless
      the node itself is not; an accepted diagonal has both flanks, none higher than the node, is
      not closed and passable, involves no walkable door, and has each flank lower, passable or a
      fence beside a narrow agent. */
  lemma AcceptanceRules(node: Node, neighbor: Node, n1: Option<Node>, n2: Option<Node>, diagonal: Node, width: real)
    ensures IsNeighborValid(neighbor, node) ==> !neighbor.closed
    ensures IsNeighborValid(neighbor, node) && node.costMalus >= 0.0 ==> neighbor.costMalus >= 0.0
    ensures IsDiagonalValid(node, n1, n2, diagonal, width) ==>
      && n1.Some? && n2.Some? && !diagonal.closed && diagonal.costMalus >= 0.0
      && n1.value.pos.y <= node.pos.y && n2.value.pos.y <= node.pos.y
      && WALKABLE_DOOR !in {n1.value.pathType, n2.value.pathType, diagonal.pathType}
      && (n1.value.pos.y < node.pos.y || n1.value.costMalus >= 0.0 || (n1.value.pathType == FENCE && width < 0.5))
      && (n2.value.pos.y < node.pos.y || n2.value.costMalus >= 0.0 || (n2.value.pathType == FENCE && width < 0.5))
  {
  }

  /** The Go code's diagonal rule lets a narrow agent cut between two impassable flanks at its own
      level that are not fences, here two BLOCKED cells; the rule above refuses that move. */
  lemma DiagonalBetweenBlockedFlanks()
    ensures var node := NewNode(Pos(0, 0, 0)).(pathType := WALKABLE);
      var flank1 := NewNode(Pos(1, 0, 0)).(costMalus := -1.0);
      var flank2 := NewNode(Pos(0, 0, 1)).(costMalus := -1.0);
      var diagonal := NewNode(Pos(1, 0, 1)).(pathType := WALKABLE);
      && flank1.pathType == BLOCKED && flank2.pathType == BLOCKED
      && IsDiagonalValidAsWritten(node, Some(flank1), Some(flank2), diagonal, 0.3)
      && !IsDiagonalValid(node, Some(flank1), Some(flank2), diagonal, 0.3)
  {
  }

  /*** The fall ***/

  /** How a fall ends: on a passable non-open layer, or at a synthetic blocked node. */
  datatype FallOutcome = FallBlocked(at: Pos) | Landed(at: Pos, t: PathType)

  /** The fall below `q` of an agent that has fallen `fallen` layers since height `startY`, with
      classifications `ty` and costs `costs`: below the world floor the blocked node is at the start
      height; once the fall distance reaches `maxFall`, or on an impassable layer, it is where the
      fall stopped; a passable layer that is not open ends the fall there. */
  function FallFrom(ty: Pos -> PathType, costs: map<PathType, real>, maxFall: int, startY: int, q: Pos, fallen: int): FallOutcome
    decreases q.y + 65
  {
    var d := q.Down();
    if d.y < -64 then FallBlocked(Pos(d.x, startY, d.z))
    else if fallen + 1 >= maxFall then FallBlocked(d)
    else
      var t := ty(d);
      if t != OPEN && Lookup(costs, t) >= 0.0 then Landed(d, t)
      else if Lookup(costs, t) < 0.0 then FallBlocked(d)
      else FallFrom(ty, costs, maxFall, startY, d, fallen + 1)
  }

  /** How many layers below its start a fall may end: the fall limit, and at least one layer. */
  function FallSpan(maxFall: int): (n: nat)
    ensures n >= 1 && n >= maxFall && (n == 1 || n == maxFall)
  {
    if maxFall > 1 then maxFall else 1
  }

  /** Where a fall ends: in the column it started in; a landing is above the world floor, short
      of the fall limit, on a passable layer that is not open, with only open layers passed; a
      blocked end is at the start height (below the world floor), or, within the fall span, where
      the limit was reached or on an impassable layer. */
  lemma {:induction false} FallEnds(ty: Pos -> PathType, costs: map<PathType, real>, maxFall: int, startY: int, q: Pos, fallen: int)
    ensures var o := FallFrom(ty, costs, maxFall, startY, q, fallen);
      && o.at.x == q.x && o.at.z == q.z
      && (o.Landed? ==>
            && -64 <= o.at.y < q.y && fallen + (q.y - o.at.y) < maxFall
            && o.t == ty(o.at) && o.t != OPEN && Lookup(costs, o.t) >= 0.0
            && forall y :: o.at.y < y < q.y ==> ty(Pos(q.x, y, q.z)) == OPEN)
      && (o.FallBlocked? ==>
            || o.at.y == startY
            || (&& -64 <= o.at.y < q.y && q.y - o.at.y <= FallSpan(maxFall - fallen)
                && (fallen + (q.y - o.at.y) >= maxFall || Lookup(costs, ty(o.at)) < 0.0)))
    decreases q.y + 65
  {
    var d := q.Down();
    if d.y >= -64 && fallen + 1 < maxFall {
      var t := ty(d);
      if t == OPEN && Lookup(costs, t) >= 0.0 {
        FallEnds(ty, costs, maxFall, startY, d, fallen + 1);
      }
    }
  }

  /** `r`, when present, names a node of `ns` in the column of `pos` that is not open air, at most
      `up` layers above `pos` and at most `span` layers below it. */
  ghost predicate Acceptable(ns: seq<Node>, r: Option<nat>, pos: Pos, up: int, span: int) {
    r.Some? ==>
      && r.value < |ns| && ns[r.value].pos.x == pos.x && ns[r.value].pos.z == pos.z
      && ns[r.value].pathType != OPEN && pos.y - span <= ns[r.value].pos.y <= pos.y + up
  }

  /** The node accepting a cell gives: a cell entered, or landed on, with its classification and
      the cost of that classification; the blocked node a fall ends at; or the closed node of a
      fence or closed door. */
  datatype Reach = Entered(at: Pos, t: PathType, cost: real) | Blocked(at: Pos) | Shut(at: Pos, t: PathType)
  {
    /** The classification the node carries. */
    function Type(): PathType {
      if Blocked? then BLOCKED else t
    }
  }

  /** The node a fall ends at, with costs `costs`: the landing entered, or a blocked node. */
  function FallNode(o: FallOutcome, costs: map<PathType, real>): Reach {
    match o
    case FallBlocked(at) => Blocked(at)
    case Landed(at, t) => Entered(at, t, Lookup(costs, t))
  }

  /** `r` names a node of `ns` exactly when `o` is present, and that node has the position and
      classification `o` gives. */
  ghost predicate Describes(ns: seq<Node>, r: Option<nat>, o: Option<Reach>) {
    && (r.Some? <==> o.Some?)
    && (r.Some? ==> r.value < |ns| && ns[r.value].pos == o.value.at && ns[r.value].pathType == o.value.Type())
  }

  /** The view `ty` reports what `cache` reports. */
  ghost predicate Reports(ty: Pos -> PathType, cache: map<Pos, PathType>, ctx: Classifier) {
    forall p {:trigger TypeIn(cache, ctx, p)} :: ty(p) == TypeIn(cache, ctx, p)
  }

  /** A view that agrees with a cache agrees with every cache grown from it. */
  lemma CacheAgrees(ty: Pos -> PathType, c0: map<Pos, PathType>, c: map<Pos, PathType>, ctx: Classifier)
    requires Reports(ty, c0, ctx) && CacheGrows(c0, c, ctx)
    ensures Reports(ty, c, ctx)
  {
    forall p
      ensures ty(p) == TypeIn(c, ctx, p)
    {
      assert ty(p) == TypeIn(c0, ctx, p);
    }
  }

  /*** Which node a move reaches ***/

  /** What accepting a neighbour depends on besides the classifications: the world, the cost
      overrides, the agent's width, whether it floats and may walk over fences, how high it can
      jump, its fall limit, and the box and start position its collision sweeps use. */
  datatype Mover = Mover(w: World, costs: map<PathType, real>, width: real, canFloat: bool, canWalkOverFences: bool,
                         jumpHeight: real, maxFall: int, box: Box, start: Pos)

  /** The floor height at `p` for an agent that floats or not: half a block up in water for one
      that floats, the world's floor level otherwise. */
  function FloorLevelOf(w: World, canFloat: bool, p: Pos): real {
    if w.block(p).Water? && canFloat then p.y as real + 0.5
    else FloorLevelAt(w, p)
  }

  /** The node the agent `m` reaches moving across face `facing` towards `pos`, from a node with
      floor height `floorLevel` and classification `origin`, as the position and classification
      of that node, when classifications are `ty`:
      - none when the floor at `pos` is higher than the agent can jump;
      - for a walkable or water cell, the cell itself when it is passable and, leaving a fence or
        closed door, reachable without a collision;
      - for open air, where the fall below `pos` ends;
      - otherwise the cell itself as for a walkable one, or failing that the step-up result when
        the agent has `up` layers left to climb and the cell is not a fence it may not walk over, a
        rail, a trapdoor or powder snow, or failing that a closed node for a fence or closed door. */
  function Accepted(m: Mover, ty: Pos -> PathType, pos: Pos, up: nat, floorLevel: real, facing: Face, origin: PathType)
    : Option<Reach>
    decreases up, 1
  {
    if FloorLevelOf(m.w, m.canFloat, pos) - floorLevel > m.jumpHeight then None
    else
      var t := ty(pos);
      var entered := Entering(m, ty, pos, origin);
      if t == WALKABLE || t == WATER then entered
      else if t == OPEN then Some(FallNode(FallFrom(ty, m.costs, m.maxFall, pos.y, pos, 0), m.costs))
      else
        var stepped :=
          if && entered.None? && up > 0 && (t != FENCE || m.canWalkOverFences)
             && t != UNPASSABLE_RAIL && t != TRAPDOOR && t != POWDER_SNOW
          then Jumped(m, ty, pos, up, floorLevel, facing, origin) else entered;
        if stepped.None? && BlockHavePartialCollision(t) then Some(Shut(pos, t)) else stepped
  }

  /** What entering the cell at `pos` gives the agent `m` coming from a cell classified
      `origin`: the cell at the cost of its classification, when that cost is not negative and
      the agent, leaving a fence or closed door, reaches `pos` without a collision. */
  function Entering(m: Mover, ty: Pos -> PathType, pos: Pos, origin: PathType): Option<Reach> {
    var t := ty(pos);
    if Lookup(m.costs, t) >= 0.0 && !(BlockHavePartialCollision(origin) && !m.w.sweepClear(m.box, m.start, pos))
    then Some(Entered(pos, t, Lookup(m.costs, t))) else None
  }

  /** The step up from `pos`: what is accepted one layer up with one layer less to climb, except
      that an open or walkable result is refused to an agent narrower than a block when the box
      at the side of `pos` towards `facing` meets a solid block. */
  function Jumped(m: Mover, ty: Pos -> PathType, pos: Pos, up: nat, floorLevel: real, facing: Face, origin: PathType)
    : Option<Reach>
    requires up > 0
    decreases up, 0
  {
    var o := Accepted(m, ty, pos.Up(), up - 1, floorLevel, facing, origin);
    if && o.Some? && (o.value.Type() == OPEN || o.value.Type() == WALKABLE) && m.width < 1.0
       && m.w.sideBlocked(pos, facing, o.value.at)
    then None
    else o
  }

  /** When `r0` in `ns` names the node accepted one layer above `pos`, and `r` is `r0` unless
      that node is open or walkable, the agent narrower than a block and the side of `pos`
      blocked, `r` names the step-up result. */
  lemma JumpedFrom(m: Mover, ty: Pos -> PathType, pos: Pos, up: nat, floorLevel: real, facing: Face, origin: PathType,
                   r0: Option<nat>, r: Option<nat>, table0: map<Pos, nat>, ns0: seq<Node>, ns: seq<Node>)
    requires up > 0 && Describes(ns, r0, Accepted(m, ty, pos.Up(), up - 1, floorLevel, facing, origin))
    requires Weighs(table0, ns0, ns, r0, Accepted(m, ty, pos.Up(), up - 1, floorLevel, facing, origin))
    requires r == if && r0.Some? && (ns[r0.value].pathType == OPEN || ns[r0.value].pathType == WALKABLE)
                     && m.width < 1.0 && m.w.sideBlocked(pos, facing, ns[r0.value].pos)
                  then None else r0
    ensures Describes(ns, r, Jumped(m, ty, pos, up, floorLevel, facing, origin))
    ensures Weighs(table0, ns0, ns, r, Jumped(m, ty, pos, up, floorLevel, facing, origin))
    ensures r.Some? ==> Jumped(m, ty, pos, up, floorLevel, facing, origin) == Accepted(m, ty, pos.Up(), up - 1, floorLevel, facing, origin)
  {
  }

  /** Nothing is accepted where the floor is higher than the agent can jump. */
  lemma TooHighAccepted(m: Mover, ty: Pos -> PathType, pos: Pos, up: nat, floorLevel: real, facing: Face, origin: PathType)
    requires FloorLevelOf(m.w, m.canFloat, pos) - floorLevel > m.jumpHeight
    ensures Accepted(m, ty, pos, up, floorLevel, facing, origin) == None
  {
  }

  /** At a walkable or water cell whose floor is within jumping height, what is accepted is what
      entering the cell gives. */
  lemma EnteredAccepted(m: Mover, ty: Pos -> PathType, pos: Pos, up: nat, floorLevel: real, facing: Face, origin: PathType)
    requires FloorLevelOf(m.w, m.canFloat, pos) - floorLevel <= m.jumpHeight
    requires ty(pos) == WALKABLE || ty(pos) == WATER
    ensures Accepted(m, ty, pos, up, floorLevel, facing, origin) == Entering(m, ty, pos, origin)
  {
  }

  /** At a cell classified `t`, neither walkable nor water, whose floor is within jumping height:
      when `r1` in `ns1` names the entered node or, under the jump condition, the step-up result,
      and carries it from the table `table0` and store `ns0`; the nodes below the layer above the
      cell only drifted on the way to `table1` and `ns1`; and the fall from there, or the closed
      node of a fence or closed door, then gives `r` in `ns`: `r` names the accepted node and
      carries it from `table0` and `ns0`. */
  lemma SettledAccepted(m: Mover, ty: Pos -> PathType, pos: Pos, up: nat, floorLevel: real, facing: Face, origin: PathType,
                        jumps: bool, r1: Option<nat>, table0: map<Pos, nat>, ns0: seq<Node>, table1: map<Pos, nat>,
                        ns1: seq<Node>, r: Option<nat>, table: map<Pos, nat>, ns: seq<Node>)
    requires FloorLevelOf(m.w, m.canFloat, pos) - floorLevel <= m.jumpHeight
    requires ty(pos) != WALKABLE && ty(pos) != WATER
    requires var t := ty(pos);
      jumps == (&& Entering(m, ty, pos, origin).None? && up > 0 && (t != FENCE || m.canWalkOverFences)
                && t != UNPASSABLE_RAIL && t != TRAPDOOR && t != POWDER_SNOW)
    requires var stepped := if jumps then Jumped(m, ty, pos, up, floorLevel, facing, origin) else Entering(m, ty, pos, origin);
      Describes(ns1, r1, stepped) && Weighs(table0, ns0, ns1, r1, stepped)
    requires DriftsBelow(table0, ns0, table1, ns1, m.costs, ty, pos.y + 1)
    requires ColumnsKept(table0, ns0, table1, ns1, [Column(pos)])
    requires DriftsBelow(table1, ns1, table, ns, m.costs, ty, pos.y)
    requires ColumnsKept(table1, ns1, table, ns, [Column(pos)])
    requires ty(pos) == OPEN ==>
      var o := Some(FallNode(FallFrom(ty, m.costs, m.maxFall, pos.y, pos, 0), m.costs));
      Describes(ns, r, o) && Weighs(table1, ns1, ns, r, o)
    requires ty(pos) != OPEN && r1.Some? ==> r == r1 && ns == ns1
    requires ty(pos) != OPEN && r1.None? && BlockHavePartialCollision(ty(pos)) ==>
      && r.Some? && r.value < |ns| && ns[r.value].pos == pos && ns[r.value].pathType == ty(pos)
      && ns[r.value].closed && ns[r.value].costMalus == Malus(ty(pos)) as real
    requires ty(pos) != OPEN && r1.None? && !BlockHavePartialCollision(ty(pos)) ==> r.None?
    ensures Describes(ns, r, Accepted(m, ty, pos, up, floorLevel, facing, origin))
    ensures Weighs(table0, ns0, ns, r, Accepted(m, ty, pos, up, floorLevel, facing, origin))
    ensures DriftsBelow(table0, ns0, table, ns, m.costs, ty, pos.y)
    ensures ColumnsKept(table0, ns0, table, ns, [Column(pos)])
  {
    DriftsTrans(table0, ns0, table1, ns1, table, ns, m.costs, ty, pos.y + 1, pos.y, pos.y);
    ColumnsKeptTrans(table0, ns0, table1, ns1, table, ns, [Column(pos)], [Column(pos)], [Column(pos)]);
    if ty(pos) == OPEN {
      var o := Some(FallNode(FallFrom(ty, m.costs, m.maxFall, pos.y, pos, 0), m.costs));
      FallNodeShape(ty, m.costs, m.maxFall, pos);
      WeighsBack(table0, ns0, table1, ns1, ns, r, o, m.costs, ty);
    }
  }

  /** Entering the cell at `pos`, which drifted its node and kept every other one, followed by
      the rest of the search for the accepted node from there: the accepted node carries what
      `Accepted` gives from before the entering, and the nodes below `pos` only drifted. */
  lemma EnteredFirst(m: Mover, ty: Pos -> PathType, pos: Pos, up: nat, floorLevel: real, facing: Face, origin: PathType,
                     table0: map<Pos, nat>, ns0: seq<Node>, table1: map<Pos, nat>, ns1: seq<Node>,
                     r: Option<nat>, table: map<Pos, nat>, ns: seq<Node>)
    requires OthersKept(table0, ns0, table1, ns1, pos)
    requires Drifted(Prior(table0, ns0, pos), Prior(table1, ns1, pos), Lookup(m.costs, ty(pos)))
    requires Weighs(table1, ns1, ns, r, Accepted(m, ty, pos, up, floorLevel, facing, origin))
    requires DriftsBelow(table1, ns1, table, ns, m.costs, ty, pos.y)
    requires ColumnsKept(table1, ns1, table, ns, [Column(pos)])
    ensures Weighs(table0, ns0, ns, r, Accepted(m, ty, pos, up, floorLevel, facing, origin))
    ensures DriftsBelow(table0, ns0, table, ns, m.costs, ty, pos.y)
    ensures ColumnsKept(table0, ns0, table, ns, [Column(pos)])
  {
    var o := Accepted(m, ty, pos, up, floorLevel, facing, origin);
    AcceptedPriced(m, ty, pos, up, floorLevel, facing, origin);
    if o.Some? {
      DriftedAt(table0, ns0, table1, ns1, m.costs, ty, pos, o.value.at);
    }
    WeighsBack(table0, ns0, table1, ns1, ns, r, o, m.costs, ty);
    KeptBelow(table0, ns0, table1, ns1, m.costs, ty, pos, pos.y);
    DriftsTrans(table0, ns0, table1, ns1, table, ns, m.costs, ty, pos.y, pos.y, pos.y);
    ColumnsKeptTrans(table0, ns0, table1, ns1, table, ns, [Column(pos)], [Column(pos)], [Column(pos)]);
  }

  /** Where an accepted node can be: in the column of `pos`, never open air, at most `up` layers
      above `pos` and within the fall span below it. */
  lemma AcceptedShape(m: Mover, ty: Pos -> PathType, pos: Pos, up: nat, floorLevel: real, facing: Face, origin: PathType)
    ensures var o := Accepted(m, ty, pos, up, floorLevel, facing, origin);
      o.Some? ==>
        && o.value.at.x == pos.x && o.value.at.z == pos.z && o.value.Type() != OPEN
        && pos.y - FallSpan(m.maxFall) <= o.value.at.y <= pos.y + up
  {
    AcceptedColumn(m, ty, pos, up, floorLevel, facing, origin);
    AcceptedHeight(m, ty, pos, up, floorLevel, facing, origin);
  }

  /** One step of `Accepted`: nothing, a node at `pos` itself that is not open air, the end of
      the fall from open air at `pos`, or, with height left to climb, nothing or what is accepted
      one layer up. */
  lemma AcceptedStep(m: Mover, ty: Pos -> PathType, pos: Pos, up: nat, floorLevel: real, facing: Face, origin: PathType)
    ensures var o := Accepted(m, ty, pos, up, floorLevel, facing, origin);
      || o.None?
      || (ty(pos) != OPEN && (o == Entering(m, ty, pos, origin) || o == Some(Shut(pos, ty(pos)))))
      || (ty(pos) == OPEN && o == Some(FallNode(FallFrom(ty, m.costs, m.maxFall, pos.y, pos, 0), m.costs)))
      || (ty(pos) != OPEN && up > 0 && o == Accepted(m, ty, pos.Up(), up - 1, floorLevel, facing, origin))
  {
  }

  /** An accepted node is in the column of `pos` and is not open air. */
  lemma {:induction false} AcceptedColumn(m: Mover, ty: Pos -> PathType, pos: Pos, up: nat, floorLevel: real, facing: Face,
                                          origin: PathType)
    ensures var o := Accepted(m, ty, pos, up, floorLevel, facing, origin);
      o.Some? ==> o.value.at.x == pos.x && o.value.at.z == pos.z && o.value.Type() != OPEN
    decreases up
  {
    var o := Accepted(m, ty, pos, up, floorLevel, facing, origin);
    AcceptedStep(m, ty, pos, up, floorLevel, facing, origin);
    if o.None? {
    } else if ty(pos) == OPEN {
      FallNodeShape(ty, m.costs, m.maxFall, pos);
    } else if up > 0 && o == Accepted(m, ty, pos.Up(), up - 1, floorLevel, facing, origin) {
      AcceptedColumn(m, ty, pos.Up(), up - 1, floorLevel, facing, origin);
      assert pos.Up().x == pos.x && pos.Up().z == pos.z;
    } else {
      var e := Entering(m, ty, pos, origin);
      assert o == e || o == Some(Shut(pos, ty(pos)));
      assert e.Some? ==> e.value.at == pos && e.value.Type() == ty(pos);
    }
  }

  /** An accepted node is at most `up` layers above `pos` and within the fall span below it. */
  lemma {:induction false} AcceptedHeight(m: Mover, ty: Pos -> PathType, pos: Pos, up: nat, floorLevel: real, facing: Face,
                                          origin: PathType)
    ensures var o := Accepted(m, ty, pos, up, floorLevel, facing, origin);
      o.Some? ==> pos.y - FallSpan(m.maxFall) <= o.value.at.y <= pos.y + up
    decreases up
  {
    AcceptedStep(m, ty, pos, up, floorLevel, facing, origin);
    if ty(pos) == OPEN {
      FallNodeShape(ty, m.costs, m.maxFall, pos);
    } else if up > 0 {
      AcceptedHeight(m, ty, pos.Up(), up - 1, floorLevel, facing, origin);
    }
  }

  /** The node a fall from `pos` ends at is in the column of `pos`, not open air, and at most
      the fall span below `pos`. */
  lemma FallNodeShape(ty: Pos -> PathType, costs: map<PathType, real>, maxFall: int, pos: Pos)
    ensures var n := FallNode(FallFrom(ty, costs, maxFall, pos.y, pos, 0), costs);
      && n.at.x == pos.x && n.at.z == pos.z && n.Type() != OPEN && pos.y - FallSpan(maxFall) <= n.at.y <= pos.y
    ensures Priced(Some(FallNode(FallFrom(ty, costs, maxFall, pos.y, pos, 0), costs)), costs, ty)
  {
    FallEnds(ty, costs, maxFall, pos.y, pos, 0);
  }

  /** Stepping onto a block: when the cell at `pos` is impassable, not a fence, closed door,
      rail, trapdoor or powder snow, and the cell above it is walkable and passable, an agent with
      height left to climb that does not leave a fence or closed door reaches the cell above,
      unless it is narrower than a block and the box at the side meets a solid block. */
  lemma StepUp(m: Mover, ty: Pos -> PathType, pos: Pos, up: nat, floorLevel: real, facing: Face, origin: PathType)
    requires up > 0 && !BlockHavePartialCollision(origin)
    requires FloorLevelOf(m.w, m.canFloat, pos) - floorLevel <= m.jumpHeight
    requires FloorLevelOf(m.w, m.canFloat, pos.Up()) - floorLevel <= m.jumpHeight
    requires Lookup(m.costs, ty(pos)) < 0.0 && !BlockHavePartialCollision(ty(pos))
    requires ty(pos) != WALKABLE && ty(pos) != WATER && ty(pos) != OPEN
    requires ty(pos) != UNPASSABLE_RAIL && ty(pos) != TRAPDOOR && ty(pos) != POWDER_SNOW
    requires ty(pos.Up()) == WALKABLE && Lookup(m.costs, WALKABLE) >= 0.0
    ensures Accepted(m, ty, pos, up, floorLevel, facing, origin) ==
      if m.width < 1.0 && m.w.sideBlocked(pos, facing, pos.Up()) then None
      else Some(Entered(pos.Up(), WALKABLE, Lookup(m.costs, WALKABLE)))
  {
    var above := Accepted(m, ty, pos.Up(), up - 1, floorLevel, facing, origin);
    assert above == Some(Entered(pos.Up(), WALKABLE, Lookup(m.costs, WALKABLE)));
    var jumped := Jumped(m, ty, pos, up, floorLevel, facing, origin);
    assert jumped == if m.width < 1.0 && m.w.sideBlocked(pos, facing, pos.Up()) then None else above;
    assert Accepted(m, ty, pos, up, floorLevel, facing, origin) == jumped;
  }

  /*** What the accepted node carries ***/

  /** An entered reach carries the classification `ty` gives its cell and the cost `costs` gives
      that classification, which is not negative. */
  ghost predicate Priced(o: Option<Reach>, costs: map<PathType, real>, ty: Pos -> PathType) {
    o.Some? && o.value.Entered? ==> o.value.t == ty(o.value.at) && o.value.cost == Lookup(costs, o.value.t) >= 0.0
  }

  /** The node `n` left by the reach `o` at a cell whose node was `prior` before: an entered cell
      keeps its closed flag and has its malus raised to the cost of its classification, or set to
      that cost when a fall blocked the cell on the way; a blocked fall end keeps its closed flag
      and has malus -1; a fence or closed door is closed with the default malus of its
      classification. */
  ghost predicate Carries(prior: Node, n: Node, o: Reach) {
    match o
    case Entered(_, _, c) => n.closed == prior.closed && (n.costMalus == MaxReal(prior.costMalus, c) || n.costMalus == c)
    case Blocked(_) => n.closed == prior.closed && n.costMalus == -1.0
    case Shut(_, t) => n.closed && n.costMalus == Malus(t) as real
  }

  /** When `r` in `ns` names the node of the reach `o`, that node carries `o` from the node the
      table `table0` held for its cell in the store `ns0`. */
  ghost predicate Weighs(table0: map<Pos, nat>, ns0: seq<Node>, ns: seq<Node>, r: Option<nat>, o: Option<Reach>) {
    r.Some? && o.Some? && r.value < |ns| ==> Carries(Prior(table0, ns0, o.value.at), ns[r.value], o.value)
  }

  /** What falls through a cell whose classification costs `c` may do to its node: keep its closed
      flag, and keep its malus, raise it to `c`, block it with -1 or set it to `c`. */
  ghost predicate Drifted(n0: Node, n: Node, c: real) {
    && n.closed == n0.closed
    && (n.costMalus == n0.costMalus || n.costMalus == MaxReal(n0.costMalus, c) || n.costMalus == -1.0 || n.costMalus == c)
  }

  /** Below height `top`, every node the table `table` holds in `ns` drifted from the one
      `table0` held in `ns0`, with the costs `costs` of the classifications `ty`. */
  ghost predicate DriftsBelow(table0: map<Pos, nat>, ns0: seq<Node>, table: map<Pos, nat>, ns: seq<Node>,
                              costs: map<PathType, real>, ty: Pos -> PathType, top: int) {
    forall p: Pos {:trigger Prior(table, ns, p)} :: p.y < top ==> Drifted(Prior(table0, ns0, p), Prior(table, ns, p), Lookup(costs, ty(p)))
  }

  /** The table holds the same node for every position but `pos`. */
  ghost predicate OthersKept(table0: map<Pos, nat>, ns0: seq<Node>, table: map<Pos, nat>, ns: seq<Node>, pos: Pos) {
    forall p {:trigger Prior(table, ns, p)} :: p != pos ==> Prior(table, ns, p) == Prior(table0, ns0, p)
  }

  /** The table holds the same node for every position outside the columns `cols`. */
  ghost predicate ColumnsKept(table0: map<Pos, nat>, ns0: seq<Node>, table: map<Pos, nat>, ns: seq<Node>, cols: seq<(int, int)>) {
    forall p {:trigger Prior(table, ns, p)} :: Column(p) !in cols ==> Prior(table, ns, p) == Prior(table0, ns0, p)
  }

  /** Drifting composes: from the malus kept, raised, blocked or set, a second drift again ends
      on one of those four. */
  lemma DriftedTrans(a: Node, b: Node, c: Node, cost: real)
    requires Drifted(a, b, cost) && Drifted(b, c, cost)
    ensures Drifted(a, c, cost)
  {
    if b.costMalus == -1.0 && c.costMalus == MaxReal(b.costMalus, cost) {
      assert c.costMalus == -1.0 || c.costMalus == cost;
    }
  }

  /** A node that carries the reach `o` from a node that drifted, at a cost not negative when `o`
      enters, carries `o` from the earlier node as well. */
  lemma CarriesBack(n0: Node, n1: Node, n: Node, o: Reach, c: real)
    requires Drifted(n0, n1, c) && Carries(n1, n, o)
    requires o.Entered? ==> o.cost == c >= 0.0
    ensures Carries(n0, n, o)
  {
  }

  /** A node that carries an entered or blocked reach has drifted. */
  lemma CarriesDrifts(prior: Node, n: Node, o: Reach, c: real)
    requires Carries(prior, n, o) && !o.Shut?
    requires o.Entered? ==> o.cost == c
    ensures Drifted(prior, n, c)
  {
  }

  /** A node given classification `t` and its malus raised to `c` carries the entered cell and
      has drifted. */
  lemma RaisedCarries(prior: Node, n: Node, pos: Pos, t: PathType, c: real)
    requires n == prior.(pathType := t, costMalus := MaxReal(prior.costMalus, c))
    ensures Carries(prior, n, Entered(pos, t, c)) && Drifted(prior, n, c) && n.costMalus >= c
  {
  }

  /** What entering the cell at `pos` leaves in the table and the store, from the plain facts of
      the visit: when the cost of the cell's classification is not negative, the node at `pos`
      was raised to that cost, and otherwise nothing changed; the visit gives that node exactly
      when `Entering` gives something. */
  lemma EnteringLeaves(m: Mover, ty: Pos -> PathType, pos: Pos, origin: PathType, table0: map<Pos, nat>, ns0: seq<Node>,
                       table: map<Pos, nat>, ns: seq<Node>, enters: bool, r: Option<nat>, raised: Option<nat>)
    requires raised.Some? <==> Lookup(m.costs, ty(pos)) >= 0.0
    requires raised.None? ==> table == table0 && ns == ns0
    requires raised.Some? ==>
      && raised.value < |ns| && ns[raised.value].pos == pos && pos in table && table[pos] == raised.value
      && OthersKept(table0, ns0, table, ns, pos) && Prior(table, ns, pos) == ns[raised.value]
      && ns[raised.value] == Prior(table0, ns0, pos).(pathType := ty(pos),
                               costMalus := MaxReal(Prior(table0, ns0, pos).costMalus, Lookup(m.costs, ty(pos))))
    requires enters == Entering(m, ty, pos, origin).Some? && r == if enters then raised else None
    ensures Describes(ns, r, Entering(m, ty, pos, origin)) && Weighs(table0, ns0, ns, r, Entering(m, ty, pos, origin))
    ensures r.Some? ==> pos in table && table[pos] == r.value && ns[r.value].costMalus >= Lookup(m.costs, ty(pos))
    ensures r.Some? ==> var n0 := Prior(table0, ns0, pos);
      ns[r.value] == n0.(pathType := ty(pos), costMalus := MaxReal(n0.costMalus, Lookup(m.costs, ty(pos))))
    ensures OthersKept(table0, ns0, table, ns, pos)
    ensures Drifted(Prior(table0, ns0, pos), Prior(table, ns, pos), Lookup(m.costs, ty(pos)))
  {
    if raised.Some? {
      RaisedCarries(Prior(table0, ns0, pos), ns[raised.value], pos, ty(pos), Lookup(m.costs, ty(pos)));
    }
  }

  /** The node entering gave, left as it is, carries the entering from itself, and nothing drifted
      or moved. */
  lemma EnteredStays(m: Mover, ty: Pos -> PathType, pos: Pos, origin: PathType, table: map<Pos, nat>, ns: seq<Node>,
                     r0: Option<nat>)
    requires Describes(ns, r0, Entering(m, ty, pos, origin))
    requires r0.Some? ==> pos in table && table[pos] == r0.value && ns[r0.value].costMalus >= Lookup(m.costs, ty(pos))
    ensures Weighs(table, ns, ns, r0, Entering(m, ty, pos, origin))
    ensures forall top :: DriftsBelow(table, ns, table, ns, m.costs, ty, top)
    ensures ColumnsKept(table, ns, table, ns, [Column(pos)])
  {
    if r0.Some? {
      assert Prior(table, ns, pos) == ns[r0.value];
    }
  }

  /** A reach weighed against a later table and store is weighed against an earlier one when the
      node at its cell only drifted in between. */
  lemma WeighsBack(table0: map<Pos, nat>, ns0: seq<Node>, table1: map<Pos, nat>, ns1: seq<Node>, ns: seq<Node>,
                   r: Option<nat>, o: Option<Reach>, costs: map<PathType, real>, ty: Pos -> PathType)
    requires Weighs(table1, ns1, ns, r, o) && Priced(o, costs, ty)
    requires o.Some? ==> Drifted(Prior(table0, ns0, o.value.at), Prior(table1, ns1, o.value.at), Lookup(costs, ty(o.value.at)))
    ensures Weighs(table0, ns0, ns, r, o)
  {
    if r.Some? && o.Some? && r.value < |ns| {
      CarriesBack(Prior(table0, ns0, o.value.at), Prior(table1, ns1, o.value.at), ns[r.value], o.value,
                  Lookup(costs, ty(o.value.at)));
    }
  }

  /** Drifts below two heights compose below the lower one. */
  lemma DriftsTrans(table0: map<Pos, nat>, ns0: seq<Node>, table1: map<Pos, nat>, ns1: seq<Node>,
                    table: map<Pos, nat>, ns: seq<Node>, costs: map<PathType, real>, ty: Pos -> PathType,
                    top1: int, top2: int, top: int)
    requires DriftsBelow(table0, ns0, table1, ns1, costs, ty, top1) && DriftsBelow(table1, ns1, table, ns, costs, ty, top2)
    requires top <= top1 && top <= top2
    ensures DriftsBelow(table0, ns0, table, ns, costs, ty, top)
  {
    forall p: Pos | p.y < top
      ensures Drifted(Prior(table0, ns0, p), Prior(table, ns, p), Lookup(costs, ty(p)))
    {
      DriftedTrans(Prior(table0, ns0, p), Prior(table1, ns1, p), Prior(table, ns, p), Lookup(costs, ty(p)));
    }
  }

  /** A change at the single position `q`, a drift when `q` is below `top`, is a drift below
      `top` that keeps every column but that of `q`. */
  lemma KeptBelow(table0: map<Pos, nat>, ns0: seq<Node>, table: map<Pos, nat>, ns: seq<Node>,
                  costs: map<PathType, real>, ty: Pos -> PathType, q: Pos, top: int)
    requires OthersKept(table0, ns0, table, ns, q)
    requires q.y < top ==> Drifted(Prior(table0, ns0, q), Prior(table, ns, q), Lookup(costs, ty(q)))
    ensures DriftsBelow(table0, ns0, table, ns, costs, ty, top)
    ensures ColumnsKept(table0, ns0, table, ns, [Column(q)])
  {
  }

  /** A change at the single position `pos`, a drift there, is a drift at every position. */
  lemma DriftedAt(table0: map<Pos, nat>, ns0: seq<Node>, table: map<Pos, nat>, ns: seq<Node>,
                  costs: map<PathType, real>, ty: Pos -> PathType, pos: Pos, q: Pos)
    requires OthersKept(table0, ns0, table, ns, pos)
    requires Drifted(Prior(table0, ns0, pos), Prior(table, ns, pos), Lookup(costs, ty(pos)))
    ensures Drifted(Prior(table0, ns0, q), Prior(table, ns, q), Lookup(costs, ty(q)))
  {
    if q != pos {
      assert Prior(table, ns, q) == Prior(table0, ns0, q);
    }
  }

  /** Keeping all but some columns composes. */
  lemma ColumnsKeptTrans(table0: map<Pos, nat>, ns0: seq<Node>, table1: map<Pos, nat>, ns1: seq<Node>,
                         table: map<Pos, nat>, ns: seq<Node>, cols1: seq<(int, int)>, cols2: seq<(int, int)>,
                         cols: seq<(int, int)>)
    requires ColumnsKept(table0, ns0, table1, ns1, cols1) && ColumnsKept(table1, ns1, table, ns, cols2)
    requires forall col :: col in cols1 ==> col in cols
    requires forall col :: col in cols2 ==> col in cols
    ensures ColumnsKept(table0, ns0, table, ns, cols)
  {
    forall p | Column(p) !in cols
      ensures Prior(table, ns, p) == Prior(table0, ns0, p)
    {
      assert Prior(table, ns, p) == Prior(table1, ns1, p);
    }
  }

  /** Writing the node `id` of `pos` into the table and the store, where `id` is the node the
      table held for `pos` or a new one, changes what the table holds for `pos` only. */
  lemma PriorPut(table0: map<Pos, nat>, ns0: seq<Node>, table: map<Pos, nat>, ns: seq<Node>, pos: Pos, id: nat)
    requires Indexes(table0, ns0) && OnlyAt(ns0, ns, id) && table == table0[pos := id]
    requires pos in table0 ==> id == table0[pos]
    requires pos !in table0 ==> id == |ns0|
    ensures OthersKept(table0, ns0, table, ns, pos) && Prior(table, ns, pos) == ns[id]
  {
    forall p | p != pos
      ensures Prior(table, ns, p) == Prior(table0, ns0, p)
    {
      if p in table0 {
        assert ns0[table0[p]].pos == p;
      }
    }
  }

  /** An accepted reach that enters a cell carries the classification of that cell and its cost,
      which is not negative. */
  lemma {:induction false} AcceptedPriced(m: Mover, ty: Pos -> PathType, pos: Pos, up: nat, floorLevel: real, facing: Face,
                                          origin: PathType)
    ensures Priced(Accepted(m, ty, pos, up, floorLevel, facing, origin), m.costs, ty)
    decreases up
  {
    AcceptedStep(m, ty, pos, up, floorLevel, facing, origin);
    if ty(pos) == OPEN {
      FallNodeShape(ty, m.costs, m.maxFall, pos);
    } else if up > 0 {
      AcceptedPriced(m, ty, pos.Up(), up - 1, floorLevel, facing, origin);
    }
  }

  /*** Gathering neighbours ***/

  /** The column of a position. */
  function Column(p: Pos): (int, int) {
    (p.x, p.z)
  }

  /** `p` is in one of the eight columns around the column of `c`. */
  predicate Around(c: Pos, p: Pos) {
    -1 <= p.x - c.x <= 1 && -1 <= p.z - c.z <= 1 && Column(p) != Column(c)
  }

  /** The eight columns around `c` in the order the evaluator visits them: north, south, west
      and east, then the diagonals north-east, north-west, south-east and south-west. */
  function AroundColumns(c: Pos): (cols: seq<(int, int)>)
    ensures |cols| == 8
  {
    [(c.x, c.z - 1), (c.x, c.z + 1), (c.x - 1, c.z), (c.x + 1, c.z),
     (c.x + 1, c.z - 1), (c.x - 1, c.z - 1), (c.x + 1, c.z + 1), (c.x - 1, c.z + 1)]
  }

  /** The visiting order covers exactly the eight surrounding columns, each once, and matches the
      faces the evaluator steps across. */
  lemma AroundColumnsOrder(c: Pos)
    ensures forall i, j :: 0 <= i < j < 8 ==> AroundColumns(c)[i] != AroundColumns(c)[j]
    ensures forall p :: Around(c, p) <==> Column(p) in AroundColumns(c)
  {
  }

  /** The two faces crossed to reach each diagonal column, in visiting order: north or south, then
      east or west. */
  const DiagonalFaces: seq<(Face, Face)> :=
    [(FaceNorth, FaceEast), (FaceNorth, FaceWest), (FaceSouth, FaceEast), (FaceSouth, FaceWest)]

  /** For each diagonal column, the visits of its two flanking cardinal columns: the east-or-west
      one, then the north-or-south one (indices into the visiting order). */
  const DiagonalFlanks: seq<(nat, nat)> := [(3, 0), (2, 0), (3, 1), (2, 1)]

  /** The face the agent is taken to face when it visits the `k`-th column: the horizontal face
      crossed for a cardinal column, the north or south face for a diagonal one. */
  function VisitFace(k: nat): Face
    requires k < 8
  {
    if k < 4 then HorizontalFaces[k] else DiagonalFaces[k - 4].0
  }

  /** The position at the height of `c` in the `k`-th column of the visiting order. */
  function VisitPos(c: Pos, k: nat): (p: Pos)
    requires k < 8
    ensures Column(p) == AroundColumns(c)[k] && p.y == c.y
  {
    if k < 4 then c.Side(HorizontalFaces[k]) else c.Side(DiagonalFaces[k - 4].0).Side(DiagonalFaces[k - 4].1)
  }

  /** The current value of the node `id` of `ns`, when there is one. */
  function NodeAt(ns: seq<Node>, id: Option<nat>): Option<Node> {
    if id.Some? && id.value < |ns| then Some(ns[id.value]) else None
  }

  /** The `k`-th column visit around `centre` keeps its node: a cardinal visit's node when it is
      a valid neighbour of `centre`, a diagonal visit's node when the diagonal rule allows it
      given the nodes of its two flanking cardinal visits. */
  predicate Keeps(acc: seq<Option<nat>>, ns: seq<Node>, centre: Node, width: real, k: nat)
    requires k < |acc| && k < 8
  {
    && acc[k].Some? && acc[k].value < |ns|
    && if k < 4 then IsNeighborValid(ns[acc[k].value], centre)
       else
         var flanks := DiagonalFlanks[k - 4];
         IsDiagonalValid(centre, NodeAt(ns, acc[flanks.0]), NodeAt(ns, acc[flanks.1]), ns[acc[k].value], width)
  }

  /** The neighbour list built from the first `n` column visits `acc` around `centre`: the nodes
      of the visits that keep theirs, in visiting order. */
  function Picks(acc: seq<Option<nat>>, ns: seq<Node>, centre: Node, width: real, n: nat): seq<nat>
    requires n <= |acc| && n <= 8
  {
    if n == 0 then []
    else Picks(acc, ns, centre, width, n - 1) + (if Keeps(acc, ns, centre, width, n - 1) then [acc[n - 1].value] else [])
  }

  /** The cardinal visit across face `k` keeps its node when the cardinal rule allows it, and
      recording that node under its face keeps `horizontal` in step with the visits. */
  lemma CardinalRecord(acc: seq<Option<nat>>, a: Option<nat>, ns1: seq<Node>, ns2: seq<Node>, centre: Node, width: real,
                       horizontal: map<Face, Option<nat>>)
    requires |acc| < 4 && |ns1| <= |ns2| && Recorded(horizontal, ns1) && (a.Some? ==> a.value < |ns2|)
    requires forall j :: 0 <= j < |acc| ==> HorizontalFaces[j] in horizontal && horizontal[HorizontalFaces[j]] == acc[j]
    ensures var h := horizontal[HorizontalFaces[|acc|] := a];
      && Recorded(h, ns2)
      && forall j :: 0 <= j <= |acc| ==> HorizontalFaces[j] in h && h[HorizontalFaces[j]] == (acc + [a])[j]
    ensures Keeps(acc + [a], ns2, centre, width, |acc|) <==> a.Some? && IsNeighborValid(ns2[a.value], centre)
  {
    var k := |acc|;
    var h := horizontal[HorizontalFaces[k] := a];
    forall j | 0 <= j <= k
      ensures HorizontalFaces[j] in h && h[HorizontalFaces[j]] == (acc + [a])[j]
    {
      if j < k {
        assert HorizontalFaces[j] != HorizontalFaces[k];
      }
    }
  }

  /** The diagonal visit `k` keeps its node when the diagonal rule allows it given the nodes the
      cardinal visits across its two faces recorded in `horizontal`. */
  lemma DiagonalKeeps(acc: seq<Option<nat>>, d: Option<nat>, ns: seq<Node>, centre: Node, width: real,
                      horizontal: map<Face, Option<nat>>)
    requires 4 <= |acc| < 8
    requires forall j :: 0 <= j < 4 ==> HorizontalFaces[j] in horizontal && horizontal[HorizontalFaces[j]] == acc[j]
    ensures var faces := DiagonalFaces[|acc| - 4];
      && faces.0 in horizontal && faces.1 in horizontal
      && (Keeps(acc + [d], ns, centre, width, |acc|) <==>
           && d.Some? && d.value < |ns|
           && IsDiagonalValid(centre, NodeAt(ns, horizontal[faces.1]), NodeAt(ns, horizontal[faces.0]), ns[d.value], width))
  {
    var k := |acc|;
    var flanks := DiagonalFlanks[k - 4];
    var faces := DiagonalFaces[k - 4];
    assert HorizontalFaces[flanks.0] == faces.1 && HorizontalFaces[flanks.1] == faces.0;
    assert (acc + [d])[flanks.0] == acc[flanks.0] && (acc + [d])[flanks.1] == acc[flanks.1];
  }

  /** The list depends only on the visits it reads, and only on their nodes. */
  lemma {:induction false} PicksFrame(acc: seq<Option<nat>>, acc': seq<Option<nat>>, ns: seq<Node>, ns': seq<Node>,
                                      centre: Node, width: real, n: nat)
    requires n <= |acc| && n <= |acc'| && n <= 8 && acc[..n] == acc'[..n]
    requires forall j :: 0 <= j < n && acc[j].Some? ==> acc[j].value < |ns| && acc[j].value < |ns'| && ns'[acc[j].value] == ns[acc[j].value]
    ensures Picks(acc, ns, centre, width, n) == Picks(acc', ns', centre, width, n)
  {
    if n > 0 {
      assert acc[n - 1] == acc[..n][n - 1];
      assert acc[..n - 1] == acc[..n][..n - 1] && acc'[..n - 1] == acc'[..n][..n - 1];
      if n > 4 {
        var flanks := DiagonalFlanks[n - 5];
        assert acc[flanks.0] == acc[..n][flanks.0] && acc[flanks.1] == acc[..n][flanks.1];
        assert acc'[flanks.0] == acc'[..n][flanks.0] && acc'[flanks.1] == acc'[..n][flanks.1];
      }
      PicksFrame(acc, acc', ns, ns', centre, width, n - 1);
      assert Keeps(acc, ns, centre, width, n - 1) == Keeps(acc', ns', centre, width, n - 1);
    }
  }

  /** The column visits `acc` around `c`, the first `|acc|` in visiting order, each gave the node
      `Accepted` describes for that column, and each node is in its column. */
  ghost predicate Visited(acc: seq<Option<nat>>, ns: seq<Node>, m: Mover, ty: Pos -> PathType, c: Pos, up: nat,
                          floorLevel: real, origin: PathType)
  {
    && |acc| <= 8
    && forall j :: 0 <= j < |acc| ==>
         && Describes(ns, acc[j], Accepted(m, ty, VisitPos(c, j), up, floorLevel, VisitFace(j), origin))
         && (acc[j].Some? ==> acc[j].value < |ns| && Column(ns[acc[j].value].pos) == AroundColumns(c)[j])
  }

  /** A visit confined to the column after the first `|acc|` leaves the nodes of the earlier
      visits as they were. */
  lemma VisitedFrame(acc: seq<Option<nat>>, ns1: seq<Node>, ns2: seq<Node>, m: Mover, ty: Pos -> PathType,
                     c: Pos, up: nat, floorLevel: real, origin: PathType)
    requires |acc| < 8 && Visited(acc, ns1, m, ty, c, up, floorLevel, origin)
    requires ColumnOnly(ns1, ns2, AroundColumns(c)[|acc|].0, AroundColumns(c)[|acc|].1)
    ensures forall j :: 0 <= j < |acc| && acc[j].Some? ==>
      acc[j].value < |ns1| && acc[j].value < |ns2| && ns2[acc[j].value] == ns1[acc[j].value]
  {
    AroundColumnsOrder(c);
    forall j | 0 <= j < |acc| && acc[j].Some?
      ensures acc[j].value < |ns1| && ns2[acc[j].value] == ns1[acc[j].value]
    {
      assert Column(ns1[acc[j].value].pos) == AroundColumns(c)[j] != AroundColumns(c)[|acc|];
    }
  }

  /** One more column visit, which changed only nodes of its own column, extends the visits and
      leaves the neighbour list of the earlier visits as it was. */
  lemma VisitedStep(acc: seq<Option<nat>>, a: Option<nat>, ns1: seq<Node>, ns2: seq<Node>, m: Mover, ty: Pos -> PathType,
                    c: Pos, up: nat, floorLevel: real, origin: PathType, centre: Node, width: real)
    requires |acc| < 8 && Visited(acc, ns1, m, ty, c, up, floorLevel, origin)
    requires ColumnOnly(ns1, ns2, AroundColumns(c)[|acc|].0, AroundColumns(c)[|acc|].1)
    requires Describes(ns2, a, Accepted(m, ty, VisitPos(c, |acc|), up, floorLevel, VisitFace(|acc|), origin))
    requires a.Some? ==> a.value < |ns2| && Column(ns2[a.value].pos) == AroundColumns(c)[|acc|]
    ensures Visited(acc + [a], ns2, m, ty, c, up, floorLevel, origin)
    ensures Picks(acc + [a], ns2, centre, width, |acc|) == Picks(acc, ns1, centre, width, |acc|)
  {
    VisitedFrame(acc, ns1, ns2, m, ty, c, up, floorLevel, origin);
    var acc' := acc + [a];
    forall j | 0 <= j < |acc'|
      ensures Describes(ns2, acc'[j], Accepted(m, ty, VisitPos(c, j), up, floorLevel, VisitFace(j), origin))
      ensures acc'[j].Some? ==> acc'[j].value < |ns2| && Column(ns2[acc'[j].value].pos) == AroundColumns(c)[j]
    {
      if j < |acc| {
        assert acc'[j] == acc[j];
      }
    }
    assert acc'[..|acc|] == acc[..|acc|];
    PicksFrame(acc', acc, ns2, ns1, centre, width, |acc|);
  }

  /** Each of the column visits `acc` around `c` left a node that carries what `Accepted` gives
      for its column from the table `table0` and the store `ns0` the visits started from. */
  ghost predicate Weighed(acc: seq<Option<nat>>, table0: map<Pos, nat>, ns0: seq<Node>, ns: seq<Node>, m: Mover,
                          ty: Pos -> PathType, c: Pos, up: nat, floorLevel: real, origin: PathType)
  {
    forall j :: 0 <= j < |acc| && j < 8 ==>
      Weighs(table0, ns0, ns, acc[j], Accepted(m, ty, VisitPos(c, j), up, floorLevel, VisitFace(j), origin))
  }

  /** One more column visit, which kept the table's nodes outside its own column and left a node
      carrying what `Accepted` gives there from the table it started from, extends the weighed
      visits when the earlier visits kept the table's nodes outside their columns. */
  lemma WeighedStep(acc: seq<Option<nat>>, a: Option<nat>, table0: map<Pos, nat>, ns0: seq<Node>,
                    table1: map<Pos, nat>, ns1: seq<Node>, table2: map<Pos, nat>, ns2: seq<Node>,
                    m: Mover, ty: Pos -> PathType, c: Pos, up: nat, floorLevel: real, origin: PathType)
    requires |acc| < 8 && Visited(acc, ns1, m, ty, c, up, floorLevel, origin)
    requires Weighed(acc, table0, ns0, ns1, m, ty, c, up, floorLevel, origin)
    requires ColumnsKept(table0, ns0, table1, ns1, AroundColumns(c)[..|acc|])
    requires ColumnOnly(ns1, ns2, AroundColumns(c)[|acc|].0, AroundColumns(c)[|acc|].1)
    requires Weighs(table1, ns1, ns2, a, Accepted(m, ty, VisitPos(c, |acc|), up, floorLevel, VisitFace(|acc|), origin))
    requires ColumnsKept(table1, ns1, table2, ns2, [Column(VisitPos(c, |acc|))])
    ensures Weighed(acc + [a], table0, ns0, ns2, m, ty, c, up, floorLevel, origin)
    ensures ColumnsKept(table0, ns0, table2, ns2, AroundColumns(c)[..|acc| + 1])
  {
    var k := |acc|;
    var cols := AroundColumns(c);
    var o := Accepted(m, ty, VisitPos(c, k), up, floorLevel, VisitFace(k), origin);
    AcceptedShape(m, ty, VisitPos(c, k), up, floorLevel, VisitFace(k), origin);
    ColumnFresh(c, k);
    WeighsAcross(table0, ns0, table1, ns1, ns2, a, o, cols[..k]);
    WeighedKept(acc, table0, ns0, ns1, ns2, m, ty, c, up, floorLevel, origin);
    WeighedAppend(acc, a, table0, ns0, ns2, m, ty, c, up, floorLevel, origin);
    PrefixGrows(cols, k);
    ColumnsKeptTrans(table0, ns0, table1, ns1, table2, ns2, cols[..k], [Column(VisitPos(c, k))], cols[..k + 1]);
  }

  /** The column of the visit after the first `k` is that visit's own and none of the earlier ones. */
  lemma ColumnFresh(c: Pos, k: nat)
    requires k < 8
    ensures Column(VisitPos(c, k)) == AroundColumns(c)[k] && AroundColumns(c)[k] !in AroundColumns(c)[..k]
  {
    var cols := AroundColumns(c);
    AroundColumnsOrder(c);
    forall i | 0 <= i < k
      ensures cols[..k][i] != cols[k]
    {
      assert cols[..k][i] == cols[i];
    }
  }

  /** A weighed visit after the first `|acc|` extends the weighed visits by one. */
  lemma WeighedAppend(acc: seq<Option<nat>>, a: Option<nat>, table0: map<Pos, nat>, ns0: seq<Node>, ns: seq<Node>,
                      m: Mover, ty: Pos -> PathType, c: Pos, up: nat, floorLevel: real, origin: PathType)
    requires |acc| < 8 && Weighed(acc, table0, ns0, ns, m, ty, c, up, floorLevel, origin)
    requires Weighs(table0, ns0, ns, a, Accepted(m, ty, VisitPos(c, |acc|), up, floorLevel, VisitFace(|acc|), origin))
    ensures Weighed(acc + [a], table0, ns0, ns, m, ty, c, up, floorLevel, origin)
  {
    var acc' := acc + [a];
    forall j | 0 <= j < |acc'| && j < 8
      ensures Weighs(table0, ns0, ns, acc'[j], Accepted(m, ty, VisitPos(c, j), up, floorLevel, VisitFace(j), origin))
    {
      if j < |acc| {
        assert acc'[j] == acc[j];
      }
    }
  }

  /** A node that carries its reach from the table `table1` carries it from `table0` too, when
      the two agree outside columns that do not hold the reach's cell. */
  lemma WeighsAcross(table0: map<Pos, nat>, ns0: seq<Node>, table1: map<Pos, nat>, ns1: seq<Node>, ns2: seq<Node>,
                     a: Option<nat>, o: Option<Reach>, cols: seq<(int, int)>)
    requires ColumnsKept(table0, ns0, table1, ns1, cols)
    requires o.Some? ==> Column(o.value.at) !in cols
    requires Weighs(table1, ns1, ns2, a, o)
    ensures Weighs(table0, ns0, ns2, a, o)
  {
    if o.Some? {
      assert Prior(table1, ns1, o.value.at) == Prior(table0, ns0, o.value.at);
    }
  }

  /** A visit confined to the column after the first `|acc|` leaves the earlier visits weighed. */
  lemma WeighedKept(acc: seq<Option<nat>>, table0: map<Pos, nat>, ns0: seq<Node>, ns1: seq<Node>, ns2: seq<Node>,
                    m: Mover, ty: Pos -> PathType, c: Pos, up: nat, floorLevel: real, origin: PathType)
    requires |acc| < 8 && Visited(acc, ns1, m, ty, c, up, floorLevel, origin)
    requires Weighed(acc, table0, ns0, ns1, m, ty, c, up, floorLevel, origin)
    requires ColumnOnly(ns1, ns2, AroundColumns(c)[|acc|].0, AroundColumns(c)[|acc|].1)
    ensures Weighed(acc, table0, ns0, ns2, m, ty, c, up, floorLevel, origin)
  {
    VisitedFrame(acc, ns1, ns2, m, ty, c, up, floorLevel, origin);
  }

  /** What a neighbour of the node `c` is: a node of a surrounding column that is not closed, not
      open air, passable unless `c` itself is not, at most `up` layers above `c` and at most `span`
      layers below it. */
  ghost predicate NeighborOf(c: Node, n: Node, up: int, span: int) {
    && Around(c.pos, n.pos) && !n.closed && n.pathType != OPEN
    && (n.costMalus >= 0.0 || c.costMalus < 0.0)
    && c.pos.y - span <= n.pos.y <= c.pos.y + up
  }

  /** The state of neighbour gathering around `centre` after visiting the columns `cols`: the store
      `ns` is an evaluator step from `ns0` that changed only nodes of those columns, and `r` lists
      neighbours of `centre` from those columns, at most one per column. */
  ghost predicate Gathered(ns0: seq<Node>, ns: seq<Node>, centre: Node, cols: seq<(int, int)>, r: seq<nat>, up: int, span: int) {
    && EvalStep(ns0, ns)
    && (forall i :: 0 <= i < |ns0| && Column(ns0[i].pos) !in cols ==> ns[i] == ns0[i])
    && |r| <= |cols|
    && (forall i :: 0 <= i < |r| ==> r[i] < |ns| && Column(ns[r[i]].pos) in cols && NeighborOf(centre, ns[r[i]], up, span))
    && (forall i, j :: 0 <= i < j < |r| && r[i] < |ns| && r[j] < |ns| ==> Column(ns[r[i]].pos) != Column(ns[r[j]].pos))
  }

  /** A prefix grows by the next element. */
  lemma PrefixGrows<T>(s: seq<T>, k: nat)
    requires k < |s|
    ensures s[..k] + [s[k]] == s[..k + 1]
  {
  }

  /** Every node recorded for a face is in the store. */
  ghost predicate Recorded(horizontal: map<Face, Option<nat>>, ns: seq<Node>) {
    forall f :: f in horizontal && horizontal[f].Some? ==> horizontal[f].value < |ns|
  }

  /** Visiting one more column, which changes nodes of that column only and may add one neighbour
      from it, keeps the gathering state. */
  lemma GatherStep(ns0: seq<Node>, ns1: seq<Node>, ns2: seq<Node>, centre: Node, cols: seq<(int, int)>, r: seq<nat>,
                   col: (int, int), n: Option<nat>, add: bool, up: int, span: int)
    requires Gathered(ns0, ns1, centre, cols, r, up, span)
    requires EvalStep(ns1, ns2) && ColumnOnly(ns1, ns2, col.0, col.1) && col !in cols
    requires add ==> n.Some? && n.value < |ns2| && Column(ns2[n.value].pos) == col && NeighborOf(centre, ns2[n.value], up, span)
    ensures Gathered(ns0, ns2, centre, cols + [col], if add then r + [n.value] else r, up, span)
  {
    EvalStepTrans(ns0, ns1, ns2);
    var r' := if add then r + [n.value] else r;
    forall i | 0 <= i < |r|
      ensures ns2[r[i]] == ns1[r[i]]
    {
      assert Column(ns1[r[i]].pos) in cols;
    }
    forall i | 0 <= i < |ns0| && Column(ns0[i].pos) !in cols + [col]
      ensures ns2[i] == ns0[i]
    {
    }
    forall i | 0 <= i < |r'|
      ensures r'[i] < |ns2| && Column(ns2[r'[i]].pos) in cols + [col] && NeighborOf(centre, ns2[r'[i]], up, span)
    {
      if i < |r| {
        assert r'[i] == r[i];
      }
    }
  }

  /** Visiting the `k`-th column around `centre` at the position `p`, where the evaluator accepted
      `n` reaching at most `reach <= up` layers up, keeps the gathering state when `n` is added only
      if it is a valid neighbour. */
  lemma VisitColumn(ns0: seq<Node>, ns1: seq<Node>, ns2: seq<Node>, centre: Node, k: nat, r: seq<nat>,
                    p: Pos, n: Option<nat>, add: bool, reach: int, up: int, span: int)
    requires k < 8 && Gathered(ns0, ns1, centre, AroundColumns(centre.pos)[..k], r, up, span)
    requires Column(p) == AroundColumns(centre.pos)[k] && p.y == centre.pos.y
    requires EvalStep(ns1, ns2) && ColumnOnly(ns1, ns2, p.x, p.z)
    requires Acceptable(ns2, n, p, reach, span) && reach <= up
    requires add ==> n.Some? && IsNeighborValid(ns2[n.value], centre)
    ensures Gathered(ns0, ns2, centre, AroundColumns(centre.pos)[..k + 1], if add then r + [n.value] else r, up, span)
  {
    AroundColumnsOrder(centre.pos);
    PrefixGrows(AroundColumns(centre.pos), k);
    GatherStep(ns0, ns1, ns2, centre, AroundColumns(centre.pos)[..k], r, AroundColumns(centre.pos)[k], n, add, up, span);
  }

  /** Visiting the next column around `centre`, whose node `a` is the one `Accepted` describes
      there and which changed only nodes of that column, keeps both the gathering state and the
      column visits, and the list grows exactly as `Picks` says. */
  lemma ColumnVisited(ns0: seq<Node>, ns1: seq<Node>, ns2: seq<Node>, centre: Node, acc: seq<Option<nat>>, a: Option<nat>,
                      r: seq<nat>, add: bool, m: Mover, ty: Pos -> PathType, up: nat, floorLevel: real, origin: PathType,
                      width: real, limit: int, span: int)
    requires |acc| < 8 && Gathered(ns0, ns1, centre, AroundColumns(centre.pos)[..|acc|], r, limit, span)
    requires Visited(acc, ns1, m, ty, centre.pos, up, floorLevel, origin) && r == Picks(acc, ns1, centre, width, |acc|)
    requires EvalStep(ns1, ns2) && ColumnOnly(ns1, ns2, VisitPos(centre.pos, |acc|).x, VisitPos(centre.pos, |acc|).z)
    requires span == FallSpan(m.maxFall) && up <= limit
    requires Describes(ns2, a, Accepted(m, ty, VisitPos(centre.pos, |acc|), up, floorLevel, VisitFace(|acc|), origin))
    requires add == Keeps(acc + [a], ns2, centre, width, |acc|)
    ensures Gathered(ns0, ns2, centre, AroundColumns(centre.pos)[..|acc| + 1], if add then r + [a.value] else r, limit, span)
    ensures Visited(acc + [a], ns2, m, ty, centre.pos, up, floorLevel, origin)
    ensures (if add then r + [a.value] else r) == Picks(acc + [a], ns2, centre, width, |acc| + 1)
  {
    var k := |acc|;
    AcceptedShape(m, ty, VisitPos(centre.pos, k), up, floorLevel, VisitFace(k), origin);
    VisitColumn(ns0, ns1, ns2, centre, k, r, VisitPos(centre.pos, k), a, add, up, limit, span);
    VisitedStep(acc, a, ns1, ns2, m, ty, centre.pos, up, floorLevel, origin, centre, width);
  }

  /** Once all eight columns are visited, the gathering state says what a neighbour list
      promises: the centre node and every node outside the surrounding columns are untouched, and
      the list holds at most one neighbour per column. */
  lemma GatheredAll(ns0: seq<Node>, ns: seq<Node>, node: nat, r: seq<nat>, up: int, span: int)
    requires node < |ns0| && Gathered(ns0, ns, ns0[node], AroundColumns(ns0[node].pos), r, up, span)
    ensures node < |ns| && ns[node] == ns0[node]
    ensures forall i :: 0 <= i < |ns0| && !Around(ns0[node].pos, ns0[i].pos) ==> ns[i] == ns0[i]
    ensures |r| <= 8
    ensures forall i :: 0 <= i < |r| ==> r[i] < |ns| && NeighborOf(ns[node], ns[r[i]], up, span)
    ensures forall i, j :: 0 <= i < j < |r| ==> r[i] < |ns| && r[j] < |ns| && Column(ns[r[i]].pos) != Column(ns[r[j]].pos)
  {
    AroundColumnsOrder(ns0[node].pos);
  }

  /*** Footprint classification, step by step ***/

  /** The list `found` holds exactly the members of `s`. */
  ghost predicate Lists(found: seq<PathType>, s: set<PathType>) {
    forall t :: t in found <==> t in s
  }

  /** Adding a classification to the list unless it is already there lists one more member. */
  lemma ListsAdd(found: seq<PathType>, s: set<PathType>, c: PathType)
    requires Lists(found, s)
    ensures Lists(if c in found then found else found + [c], s + {c})
  {
  }

  /** `sample` gives the classification of every sample of `f`. */
  ghost predicate SamplesOf(sample: (int, int, int) -> PathType, f: Footprint) {
    forall x, y, z {:trigger f.Sample(x, y, z)} :: sample(x, y, z) == f.Sample(x, y, z)
  }

  /** The classification of the origin sample of `f` (`pathType` when the footprint is empty) and
      the distinct classifications of its samples, in ascending order. */
  method BlockPathTypes(f: Footprint, ghost sample: (int, int, int) -> PathType, pathType: PathType)
    returns (centre: PathType, types: seq<PathType>)
    requires SamplesOf(sample, f)
    ensures centre == if f.width > 0 && f.height > 0 && f.depth > 0 then sample(0, 0, 0) else pathType
    ensures types == SortedOf(XSetOf(sample, f.height, f.depth, f.width))
  {
    centre := pathType;
    var found: seq<PathType> := [];
    var x := 0;
    while x < f.width
      invariant 0 <= x && (f.width <= 0 ==> x == 0) && (f.width > 0 ==> x <= f.width)
      invariant Lists(found, XSetOf(sample, f.height, f.depth, x))
      invariant centre == if PastOrigin(x, 0, 0, f.height, f.depth) then sample(0, 0, 0) else pathType
    {
      found, centre := AddLayerTypes(f, sample, x, found, XSetOf(sample, f.height, f.depth, x), centre, pathType);
      x := x + 1;
    }
    assert (set t | t in found) == XSetOf(sample, f.height, f.depth, f.width);
    types := SortedOf(set t | t in found);
  }

  /** Adds to `found`, which lists `seen`, the classifications of layer `x` of `f` it does not
      hold yet, and takes the origin sample as `centre` when `x` is the first layer. */
  method AddLayerTypes(f: Footprint, ghost sample: (int, int, int) -> PathType, x: int, found: seq<PathType>,
                       ghost seen: set<PathType>, centre: PathType, pathType: PathType)
    returns (found': seq<PathType>, centre': PathType)
    requires SamplesOf(sample, f) && 0 <= x && Lists(found, seen)
    requires centre == if PastOrigin(x, 0, 0, f.height, f.depth) then sample(0, 0, 0) else pathType
    ensures Lists(found', seen + YSetOf(sample, f.depth, x, f.height))
    ensures centre' == if PastOrigin(x + 1, 0, 0, f.height, f.depth) then sample(0, 0, 0) else pathType
  {
    found', centre' := found, centre;
    var y := 0;
    while y < f.height
      invariant 0 <= y && (f.height <= 0 ==> y == 0) && (f.height > 0 ==> y <= f.height)
      invariant Lists(found', seen + YSetOf(sample, f.depth, x, y))
      invariant centre' == if PastOrigin(x, y, 0, f.height, f.depth) then sample(0, 0, 0) else pathType
    {
      var first;
      found', first := AddRowTypes(f, sample, x, y, found', seen + YSetOf(sample, f.depth, x, y));
      if x == 0 && y == 0 && f.depth > 0 {
        centre' := first;
      }
      y := y + 1;
    }
  }

  /** Adds to `found`, which lists `seen`, the classifications of row (`x`, `y`) of `f` it does
      not hold yet; `first` is the first sample of the row when the row is not empty. */
  method AddRowTypes(f: Footprint, ghost sample: (int, int, int) -> PathType, x: int, y: int, found: seq<PathType>,
                     ghost seen: set<PathType>)
    returns (found': seq<PathType>, first: PathType)
    requires SamplesOf(sample, f) && Lists(found, seen)
    ensures Lists(found', seen + ZSetOf(sample, x, y, f.depth))
    ensures f.depth > 0 ==> first == sample(x, y, 0)
  {
    found' := found;
    first := BLOCKED;
    var z := 0;
    while z < f.depth
      invariant 0 <= z && (f.depth <= 0 ==> z == 0) && (f.depth > 0 ==> z <= f.depth)
      invariant Lists(found', seen + ZSetOf(sample, x, y, z))
      invariant z > 0 ==> first == sample(x, y, 0)
    {
      var current;
      found', current := AddSample(f, sample, x, y, z, found', seen);
      if z == 0 {
        first := current;
      }
      z := z + 1;
    }
  }

  /** Adds sample (`x`, `y`, `z`) of `f` to `found`, which lists `seen` and the samples of the row
      before it, unless it is already there. */
  method AddSample(f: Footprint, ghost sample: (int, int, int) -> PathType, x: int, y: int, z: int, found: seq<PathType>,
                   ghost seen: set<PathType>)
    returns (found': seq<PathType>, current: PathType)
    requires SamplesOf(sample, f) && 0 <= z && Lists(found, seen + ZSetOf(sample, x, y, z))
    ensures Lists(found', seen + ZSetOf(sample, x, y, z + 1)) && current == sample(x, y, z)
  {
    current := SampleType(f, x, y, z);
    ListsAdd(found, seen + ZSetOf(sample, x, y, z), current);
    found' := if current in found then found else found + [current];
    assert seen + ZSetOf(sample, x, y, z + 1) == seen + ZSetOf(sample, x, y, z) + {current};
  }

  /** The classification of one sample: the column rule, then the door rewrite. */
  method SampleType(f: Footprint, x: int, y: int, z: int) returns (t: PathType)
    ensures t == f.Sample(x, y, z)
  {
    var raw := BlockPathType(f.w, f.origin.Add(x, y, z));
    t := EvaluateType(f.canPassDoors, raw);
  }

  /** The choice among the ascending distinct classifications `types`: a fence, then an
      unpassable rail, then the first impassable one, then the costliest, with the thin-agent
      exception for open air. */
  method SelectPathType(centre: PathType, types: seq<PathType>, costs: map<PathType, real>, widthInt: int) returns (t: PathType)
    ensures t == Select(centre, types, costs, widthInt)
  {
    var unpassable := [FENCE, UNPASSABLE_RAIL];
    for i := 0 to 2
      invariant forall j :: 0 <= j < i ==> unpassable[j] !in types
    {
      if unpassable[i] in types {
        assert i == 1 ==> unpassable[0] !in types;
        return unpassable[i];
      }
    }
    assert unpassable[0] !in types && unpassable[1] !in types;
    var best, negative := FirstNegativeOrCostliest(types, costs);
    if negative {
      return best;
    }
    if centre == OPEN && Lookup(costs, best) == 0.0 && widthInt <= 1 {
      return OPEN;
    }
    return best;
  }

  /** The scan over `types` for the footprint's classification: the first impassable one, as soon
      as it is met, or else the costliest one, the later one on a tie. */
  method FirstNegativeOrCostliest(types: seq<PathType>, costs: map<PathType, real>) returns (t: PathType, negative: bool)
    ensures negative <==> FirstNegative(types, costs).Some?
    ensures t == if negative then FirstNegative(types, costs).value else BestOf(types, costs)
  {
    t := BLOCKED;
    for i := 0 to |types|
      invariant t == BestOf(types[..i], costs)
      invariant forall j :: 0 <= j < i ==> Lookup(costs, types[j]) >= 0.0
    {
      var cost := Lookup(costs, types[i]);
      if cost < 0.0 {
        FirstNegativeAt(types, costs, i);
        return types[i], true;
      }
      if cost >= Lookup(costs, t) {
        t := types[i];
      }
      assert types[..i + 1][..i] == types[..i];
    }
    FirstNegativeAt(types, costs, |types|);
    assert types[..|types|] == types;
    negative := false;
  }

  /** The sample cursor (`x`, `y`, `z`) of a footprint `height` high and `depth` deep has moved
      past the origin sample. */
  predicate PastOrigin(x: int, y: int, z: int, height: int, depth: int) {
    (x > 0 && height > 0 && depth > 0) || (y > 0 && depth > 0) || z > 0
  }

  /*** The evaluator ***/

  class WalkNodeEvaluator {
    /** The shared table of cost overrides. */
    const costMap: CostMap
    /** The world of the current search; `None` outside a search. */
    var source: Option<World>
    var startPosition: Pos
    /** The node table: the index in `arena` of the node at each position. */
    var nodes: map<Pos, nat>
    /** The node store of the current search. */
    var arena: Arena
    const entitySizeInfo: EntitySizeInfo
    const boundingBox: Box
    const canPassDoors: bool
    const canOpenDoors: bool
    const canFloat: bool
    const canWalkOverFences: bool
    const maxUpStep: real
    const maxFallDistance: int
    const liquidsThatCanStandOn: seq<nat>
    var pathTypesByPosCache: map<Pos, PathType>

    /** Every table entry names a node of the store at that position. */
    ghost predicate Valid()
      reads this`nodes, this`arena, arena
    {
      arena.Valid() && Indexes(nodes, arena.nodes)
    }

    /** Everything classification depends on, for the current search. */
    function Context(): Classifier
      requires source.Some?
      reads this`source, costMap
    {
      Classifier(source.value, costMap.overrides, entitySizeInfo, canPassDoors)
    }

    /** An evaluator built from the settings `c` with their defaults applied; a missing cost table
        becomes a fresh empty one, and each standable liquid becomes its runtime identifier. */
    constructor (c: Config, runtimeId: Block -> nat)
      ensures Valid() && source.None? && nodes == map[] && pathTypesByPosCache == map[]
      ensures c.costMap.Some? ==> costMap == c.costMap.value
      ensures c.costMap.None? ==> fresh(costMap) && costMap.overrides == map[]
      ensures maxUpStep == WithDefaults(c).maxStepUp && maxFallDistance == WithDefaults(c).maxFallDistance
      ensures canPassDoors == c.canPathDoors && canOpenDoors == c.canOpenDoors
      ensures canFloat == c.canFloat && canWalkOverFences == c.canWalkOverFences
      ensures startPosition == PosFromVec3(c.pos) && entitySizeInfo == EntitySizeInfo(c.box)
      ensures boundingBox == c.box.Translate(c.pos)
      ensures |liquidsThatCanStandOn| == |c.liquidsCanStandOn|
      ensures forall i :: 0 <= i < |c.liquidsCanStandOn| ==> liquidsThatCanStandOn[i] == runtimeId(c.liquidsCanStandOn[i])
    {
      var d := WithDefaults(c);
      if d.costMap.None? {
        costMap := new CostMap();
      } else {
        costMap := d.costMap.value;
      }
      var liquids := RuntimeIds(d.liquidsCanStandOn, runtimeId);
      source := None;
      startPosition := PosFromVec3(d.pos);
      nodes := map[];
      arena := new Arena();
      entitySizeInfo := EntitySizeInfo(d.box);
      boundingBox := d.box.Translate(d.pos);
      canPassDoors := d.canPathDoors;
      canOpenDoors := d.canOpenDoors;
      canFloat := d.canFloat;
      canWalkOverFences := d.canWalkOverFences;
      maxUpStep := d.maxStepUp;
      maxFallDistance := d.maxFallDistance;
      liquidsThatCanStandOn := liquids;
      pathTypesByPosCache := map[];
    }

    /** Starts a search in `w` from `pos` with an empty node table and store; the classification
        cache is kept. */
    method Prepare(w: World, pos: Pos)
      modifies this`source, this`startPosition, this`nodes, this`arena
      ensures Valid() && source == Some(w) && startPosition == pos
      ensures nodes == map[] && fresh(arena) && arena.nodes == []
    {
      source := Some(w);
      startPosition := pos;
      nodes := map[];
      arena := new Arena();
    }

    /** Ends a search: the cache and the node table are emptied and the world is released. */
    method Done()
      requires Valid()
      modifies this`pathTypesByPosCache, this`nodes, this`source
      ensures Valid() && pathTypesByPosCache == map[] && nodes == map[] && source.None?
    {
      pathTypesByPosCache := map[];
      nodes := map[];
      source := None;
    }

    /** The node at `pos`: the one in the table, or a fresh one added to the table and the store. */
    method Node(pos: Pos) returns (id: nat)
      requires Valid()
      modifies this`nodes, arena
      ensures Valid() && OnlyAt(old(arena.nodes), arena.nodes, id)
      ensures nodes == old(nodes)[pos := id] && arena.nodes[id] == Prior(old(nodes), old(arena.nodes), pos)
      ensures pos in old(nodes) ==> id == old(nodes)[pos] && arena.nodes == old(arena.nodes)
      ensures pos !in old(nodes) ==> id == |old(arena.nodes)| && arena.nodes == old(arena.nodes) + [NewNode(pos)]
    {
      if pos in nodes {
        id := nodes[pos];
      } else {
        id := arena.Append(NewNode(pos));
        nodes := nodes[pos := id];
      }
    }

    /** The start node at `pos`: the node there, classified through the cache and carrying the
        malus of its type. */
    method StartNodeAt(pos: Pos) returns (id: nat)
      requires Valid() && source.Some?
      modifies this`nodes, this`pathTypesByPosCache, arena
      ensures Valid() && OnlyAt(old(arena.nodes), arena.nodes, id) && nodes == old(nodes)[pos := id]
      ensures CacheGrows(old(pathTypesByPosCache), pathTypesByPosCache, Context())
      ensures var t := old(TypeIn(pathTypesByPosCache, Context(), pos));
        arena.nodes[id] == Prior(old(nodes), old(arena.nodes), pos).(pathType := t, costMalus := Context().Cost(t))
      ensures Evolved(old(arena.nodes), arena.nodes, pos.x, pos.z)
    {
      ghost var ctx := Context();
      CacheGrowth(pathTypesByPosCache, pathTypesByPosCache, pathTypesByPosCache, ctx);
      id := Node(pos);
      var t := CachedBlockPathType(arena.nodes[id].pos, TypeView(pathTypesByPosCache, ctx));
      var n := arena.nodes[id];
      arena.Put(id, n.(pathType := t, costMalus := costMap.PathfindingMalus(t)));
      OnlyAtEvolves(old(arena.nodes), arena.nodes, id);
    }

    /** The goal of a search towards `pos`: a fresh target at that position, with no best node,
        best heuristic +Inf and not reached. The node at `pos` is looked up (or created) on the way. */
    method Goal(pos: Pos) returns (t: Target)
      requires Valid()
      modifies this`nodes, arena
      ensures Valid() && pos in nodes && nodes == old(nodes)[pos := nodes[pos]]
      ensures OnlyAt(old(arena.nodes), arena.nodes, nodes[pos]) && arena.nodes[nodes[pos]] == Prior(old(nodes), old(arena.nodes), pos)
      ensures fresh(t) && t.Valid() && t.pos == pos && t.offered == []
      ensures t.bestHeuristic == PosInf && t.bestNode.None? && !t.reached
    {
      var id := Node(pos);
      t := new Target(arena.nodes[id].pos);
    }

    /** The node at `pos`, now classified `t` and with its malus raised to at least `malus`. */
    method NodeAndUpdateCostToMax(pos: Pos, t: PathType, malus: real) returns (id: nat)
      requires Valid()
      modifies this`nodes, arena
      ensures Valid() && OnlyAt(old(arena.nodes), arena.nodes, id) && nodes == old(nodes)[pos := id]
      ensures var prior := Prior(old(nodes), old(arena.nodes), pos);
        arena.nodes[id] == prior.(pathType := t, costMalus := MaxReal(prior.costMalus, malus))
      ensures OthersKept(old(nodes), old(arena.nodes), nodes, arena.nodes, pos) && Prior(nodes, arena.nodes, pos) == arena.nodes[id]
      ensures Evolved(old(arena.nodes), arena.nodes, pos.x, pos.z)
    {
      id := Node(pos);
      var n := arena.nodes[id];
      arena.Put(id, n.(pathType := t, costMalus := MaxReal(n.costMalus, malus)));
      OnlyAtEvolves(old(arena.nodes), arena.nodes, id);
      PriorPut(old(nodes), old(arena.nodes), nodes, arena.nodes, pos, id);
    }

    /** The node at `pos`, now marked BLOCKED with malus -1. */
    method BlockedNode(pos: Pos) returns (id: nat)
      requires Valid()
      modifies this`nodes, arena
      ensures Valid() && OnlyAt(old(arena.nodes), arena.nodes, id) && nodes == old(nodes)[pos := id]
      ensures arena.nodes[id] == Prior(old(nodes), old(arena.nodes), pos).(pathType := BLOCKED, costMalus := -1.0)
      ensures OthersKept(old(nodes), old(arena.nodes), nodes, arena.nodes, pos) && Prior(nodes, arena.nodes, pos) == arena.nodes[id]
      ensures Evolved(old(arena.nodes), arena.nodes, pos.x, pos.z)
    {
      id := Node(pos);
      var n := arena.nodes[id];
      arena.Put(id, n.(pathType := BLOCKED, costMalus := -1.0));
      OnlyAtEvolves(old(arena.nodes), arena.nodes, id);
      PriorPut(old(nodes), old(arena.nodes), nodes, arena.nodes, pos, id);
    }

    /** The node at `pos`, now closed, classified `t` and carrying the default malus of `t`. */
    method ClosedNode(pos: Pos, t: PathType) returns (id: nat)
      requires Valid()
      modifies this`nodes, arena
      ensures Valid() && OnlyAt(old(arena.nodes), arena.nodes, id) && nodes == old(nodes)[pos := id]
      ensures arena.nodes[id] == Prior(old(nodes), old(arena.nodes), pos).(closed := true, pathType := t, costMalus := Malus(t) as real)
      ensures OthersKept(old(nodes), old(arena.nodes), nodes, arena.nodes, pos) && Prior(nodes, arena.nodes, pos) == arena.nodes[id]
      ensures Evolved(old(arena.nodes), arena.nodes, pos.x, pos.z)
    {
      id := Node(pos);
      MarkClosed(id, t);
      OnlyAtEvolves(old(arena.nodes), arena.nodes, id);
      PriorPut(old(nodes), old(arena.nodes), nodes, arena.nodes, pos, id);
    }

    /** Closes the node `id` and gives it the classification `t` with the default malus of `t`. */
    method MarkClosed(id: nat, t: PathType)
      requires Valid() && id < |arena.nodes|
      modifies arena
      ensures Valid()
      ensures arena.nodes == old(arena.nodes)[id := old(arena.nodes)[id].(closed := true, pathType := t, costMalus := Malus(t) as real)]
    {
      arena.Close(id);
      var n := arena.nodes[id];
      arena.Put(id, n.(pathType := t, costMalus := Malus(t) as real));
    }

    /** How high the agent can jump: at least the default jump height and its step-up height. */
    function MobJumpHeight(): (r: real)
      ensures r >= DefaultMobJumpHeight && r >= maxUpStep
      ensures r == DefaultMobJumpHeight || r == maxUpStep
    {
      MaxReal(DefaultMobJumpHeight, maxUpStep)
    }

    /** The floor height at `p`: half a block up in water for an agent that floats, the world's
        floor level otherwise. */
    function FloorLevel(p: Pos): (level: real)
      requires source.Some?
      reads this`source
      ensures canFloat && source.value.block(p).Water? ==> level == p.y as real + 0.5
      ensures !(canFloat && source.value.block(p).Water?) ==> level == FloorLevelAt(source.value, p)
    {
      FloorLevelOf(source.value, canFloat, p)
    }

    /** The settings and state that decide which node a move reaches, in the current search. */
    function Agent(): Mover
      requires source.Some?
      reads this`source, this`startPosition, costMap
    {
      Mover(source.value, costMap.overrides, entitySizeInfo.Width(), canFloat, canWalkOverFences, MobJumpHeight(),
            maxFallDistance, boundingBox, startPosition)
    }

    /** The agent's box, swept in steps from its start position to `p`, meets no solid block. */
    predicate CanReachWithoutCollision(p: Pos)
      requires source.Some?
      reads this`source, this`startPosition
    {
      source.value.sweepClear(boundingBox, startPosition, p)
    }

    /*** Classification ***/

    /** The classification of the agent standing at `pos`, computed from the world. */
    method BlockPathTypeAt(pos: Pos) returns (t: PathType)
      requires source.Some?
      ensures t == Context().At(pos)
    {
      var f := Context().FootprintAt(pos);
      var centre, types := BlockPathTypes(f, f.Samples(), BLOCKED);
      t := SelectPathType(centre, types, costMap.overrides, entitySizeInfo.WidthInt());
    }

    /** The classification of `p`, from the cache when it holds one; a computed classification is
        stored in the cache. */
    method CachedBlockPathType(p: Pos, ghost ty: Pos -> PathType) returns (t: PathType)
      requires source.Some? && Reports(ty, pathTypesByPosCache, Context())
      modifies this`pathTypesByPosCache
      ensures t == ty(p) && pathTypesByPosCache == old(pathTypesByPosCache)[p := t]
      ensures CacheGrows(old(pathTypesByPosCache), pathTypesByPosCache, Context())
      ensures Reports(ty, pathTypesByPosCache, Context())
    {
      ghost var c0 := pathTypesByPosCache;
      if p in pathTypesByPosCache {
        t := pathTypesByPosCache[p];
        assert pathTypesByPosCache == pathTypesByPosCache[p := t];
      } else {
        t := BlockPathTypeAt(p);
        pathTypesByPosCache := pathTypesByPosCache[p := t];
      }
      assert t == TypeIn(c0, Context(), p);
      CacheAgrees(ty, c0, pathTypesByPosCache, Context());
    }

    /*** Falling and jumping ***/

    /** Where the fall below the open cell `pos` ends: layer by layer down its column, at a
        blocked node at the start height below the world floor, at a blocked node where the fall
        limit is reached or where a layer is impassable, or on the first passable layer that is
        not open. */
    method FallEnd(pos: Pos, ghost ty: Pos -> PathType) returns (end: FallOutcome)
      requires source.Some? && Reports(ty, pathTypesByPosCache, Context())
      modifies this`pathTypesByPosCache
      ensures CacheGrows(old(pathTypesByPosCache), pathTypesByPosCache, Context())
      ensures end == FallFrom(ty, costMap.overrides, maxFallDistance, pos.y, pos, 0)
    {
      ghost var c0 := pathTypesByPosCache;
      var costs := costMap.overrides;
      var p := pos;
      var fallDistance := 0;
      var startY := pos.y;
      CacheGrowth(c0, c0, c0, Context());
      while true
        invariant CacheGrows(c0, pathTypesByPosCache, Context()) && Reports(ty, pathTypesByPosCache, Context())
        invariant FallFrom(ty, costs, maxFallDistance, startY, p, fallDistance) == FallFrom(ty, costs, maxFallDistance, startY, pos, 0)
        decreases p.y + 65
      {
        p := p.Down();
        if p.y < -64 {
          return FallBlocked(Pos(p.x, startY, p.z));
        }
        fallDistance := fallDistance + 1;
        if fallDistance >= maxFallDistance {
          return FallBlocked(p);
        }
        ghost var c1 := pathTypesByPosCache;
        var t := CachedBlockPathType(p, ty);
        CacheGrowth(c0, c1, pathTypesByPosCache, Context());
        var malus := costMap.PathfindingMalus(t);
        if t != OPEN && malus >= 0.0 {
          return Landed(p, t);
        }
        if malus < 0.0 {
          return FallBlocked(p);
        }
      }
    }

    /** The fall below the open cell `pos`: the node where it ends, BLOCKED with malus -1 for a
        blocked end, or carrying the landing classification and the larger of its old malus and
        that classification's cost; the node keeps every other field. */
    method Fall(pos: Pos, ghost ty: Pos -> PathType) returns (r: nat)
      requires Valid() && source.Some? && Reports(ty, pathTypesByPosCache, Context())
      modifies this`nodes, this`pathTypesByPosCache, arena
      ensures Valid() && Evolved(old(arena.nodes), arena.nodes, pos.x, pos.z)
      ensures CacheGrows(old(pathTypesByPosCache), pathTypesByPosCache, Context())
      ensures var o := FallFrom(ty, costMap.overrides, maxFallDistance, pos.y, pos, 0);
        && r < |arena.nodes| && arena.nodes[r].pos == o.at
        && (o.FallBlocked? ==> arena.nodes[r].pathType == BLOCKED && arena.nodes[r].costMalus == -1.0)
        && (o.Landed? ==> arena.nodes[r].pathType == o.t && arena.nodes[r].costMalus >= Lookup(costMap.overrides, o.t))
      ensures var o := FallFrom(ty, costMap.overrides, maxFallDistance, pos.y, pos, 0);
        && OthersKept(old(nodes), old(arena.nodes), nodes, arena.nodes, o.at) && Prior(nodes, arena.nodes, o.at) == arena.nodes[r]
        && Carries(Prior(old(nodes), old(arena.nodes), o.at), arena.nodes[r], FallNode(o, costMap.overrides))
      ensures var o := FallFrom(ty, costMap.overrides, maxFallDistance, pos.y, pos, 0);
        var n0 := Prior(old(nodes), old(arena.nodes), o.at);
        arena.nodes[r] == match o
          case FallBlocked(_) => n0.(pathType := BLOCKED, costMalus := -1.0)
          case Landed(_, t) => n0.(pathType := t, costMalus := MaxReal(n0.costMalus, Lookup(costMap.overrides, t)))
    {
      var end := FallEnd(pos, ty);
      FallEnds(ty, costMap.overrides, maxFallDistance, pos.y, pos, 0);
      match end
      case FallBlocked(at) =>
        r := BlockedNode(at);
      case Landed(at, t) =>
        r := NodeAndUpdateCostToMax(at, t, costMap.PathfindingMalus(t));
    }

    /** The water descent of an agent that cannot float, as the Go code writes it. The caller has
        already found the cell at `pos` to be neither walkable nor water. When the cell below is
        water the descent returns `r0` at once; otherwise its loop steps down to that same cell,
        finds it is not water and returns `r0` as well. So above the world floor it always makes
        the caller return `r0`, whatever the cell at `pos` is; only a floating agent, or a position
        at the world floor, lets the caller go on. */
    method SinkThroughWaterAsWritten(pos: Pos, r0: Option<nat>, ghost ty: Pos -> PathType) returns (r: Option<nat>, stop: bool)
      requires Valid() && source.Some? && Reports(ty, pathTypesByPosCache, Context())
      modifies this`pathTypesByPosCache
      ensures CacheGrows(old(pathTypesByPosCache), pathTypesByPosCache, Context())
      ensures Reports(ty, pathTypesByPosCache, Context())
      ensures r == r0
      ensures canFloat ==> !stop && pathTypesByPosCache == old(pathTypesByPosCache)
      ensures !canFloat && pos.y > -64 ==> stop
      ensures !canFloat && pos.y <= -64 ==> (stop <==> ty(pos.Down()) == WATER)
    {
      ghost var c0 := pathTypesByPosCache;
      CacheGrowth(c0, c0, c0, Context());
      r := r0;
      stop := false;
      if !canFloat {
        var below := CachedBlockPathType(pos.Down(), ty);
        if below == WATER {
          return r0, true;
        }
        if pos.y > -64 {
          // The first pass of the descent loop reads the same cell again.
          var t := CachedBlockPathType(pos.Down(), ty);
          assert t != WATER;
          return r0, true;
        }
      }
    }

    /** The node an agent reaches when it moves across face `facing` from a node with floor
        height `floorLevel` and classification `originPathType` towards `pos`: none when the floor
        at `pos` is higher than the agent can jump; the node at `pos` when that cell is walkable or
        water and passable; otherwise possibly a node up to `remainingJumpHeight` layers higher
        (a jump), the node where a fall from open air ends, or a closed node for a fence or closed
        door. The result is never open air and stays in the column of `pos`; it is the node
        `Accepted` describes, for the classifications `ty` the cache reports. */
    method AcceptedNode(pos: Pos, remainingJumpHeight: nat, floorLevel: real, facing: Face, originPathType: PathType,
                        ghost ty: Pos -> PathType, ghost m: Mover)
      returns (r: Option<nat>)
      requires Valid() && source.Some? && Reports(ty, pathTypesByPosCache, Context()) && m == Agent()
      modifies this`nodes, this`pathTypesByPosCache, arena
      ensures Valid() && Evolved(old(arena.nodes), arena.nodes, pos.x, pos.z)
      ensures CacheGrows(old(pathTypesByPosCache), pathTypesByPosCache, Context())
      ensures Describes(arena.nodes, r, Accepted(m, ty, pos, remainingJumpHeight, floorLevel, facing, originPathType))
      ensures Weighs(old(nodes), old(arena.nodes), arena.nodes, r,
                     Accepted(m, ty, pos, remainingJumpHeight, floorLevel, facing, originPathType))
      ensures DriftsBelow(old(nodes), old(arena.nodes), nodes, arena.nodes, m.costs, ty, pos.y)
      ensures ColumnsKept(old(nodes), old(arena.nodes), nodes, arena.nodes, [Column(pos)])
      ensures old(FloorLevel(pos)) - floorLevel > MobJumpHeight() ==>
        && r.None? && arena.nodes == old(arena.nodes) && nodes == old(nodes)
        && pathTypesByPosCache == old(pathTypesByPosCache)
      decreases remainingJumpHeight, 4
    {
      ghost var ctx := Context();
      CacheGrowth(pathTypesByPosCache, pathTypesByPosCache, pathTypesByPosCache, ctx);
      if FloorLevel(pos) - floorLevel > MobJumpHeight() {
        TooHighAccepted(m, ty, pos, remainingJumpHeight, floorLevel, facing, originPathType);
        return None;
      }
      r := AcceptedWithinReach(pos, remainingJumpHeight, floorLevel, facing, originPathType, ty, m);
    }

    /** The rest of `AcceptedNode` once the floor at `pos` is within jumping height: the node at
        `pos` when that cell is walkable or water and passable, and otherwise what `StepOrFall`
        finds. */
    method AcceptedWithinReach(pos: Pos, remainingJumpHeight: nat, floorLevel: real, facing: Face,
                               originPathType: PathType, ghost ty: Pos -> PathType, ghost m: Mover)
      returns (r: Option<nat>)
      requires Valid() && source.Some? && Reports(ty, pathTypesByPosCache, Context()) && m == Agent()
      requires FloorLevel(pos) - floorLevel <= MobJumpHeight()
      modifies this`nodes, this`pathTypesByPosCache, arena
      ensures Valid() && Evolved(old(arena.nodes), arena.nodes, pos.x, pos.z)
      ensures CacheGrows(old(pathTypesByPosCache), pathTypesByPosCache, Context())
      ensures Describes(arena.nodes, r, Accepted(m, ty, pos, remainingJumpHeight, floorLevel, facing, originPathType))
      ensures Weighs(old(nodes), old(arena.nodes), arena.nodes, r,
                     Accepted(m, ty, pos, remainingJumpHeight, floorLevel, facing, originPathType))
      ensures DriftsBelow(old(nodes), old(arena.nodes), nodes, arena.nodes, m.costs, ty, pos.y)
      ensures ColumnsKept(old(nodes), old(arena.nodes), nodes, arena.nodes, [Column(pos)])
      decreases remainingJumpHeight, 3
    {
      ghost var ctx := Context();
      ghost var c0 := pathTypesByPosCache;
      ghost var table0, ns0 := nodes, arena.nodes;
      var t;
      t, r := EnterCell(pos, originPathType, ty, m);
      ghost var table1, ns1 := nodes, arena.nodes;
      if t == WALKABLE || t == WATER {
        EnteredAccepted(m, ty, pos, remainingJumpHeight, floorLevel, facing, originPathType);
        KeptBelow(table0, ns0, table1, ns1, m.costs, ty, pos, pos.y);
      } else {
        ghost var c1 := pathTypesByPosCache;
        r := StepOrFall(pos, t, r, remainingJumpHeight, floorLevel, facing, originPathType, ty, m);
        CacheGrowth(c0, c1, pathTypesByPosCache, ctx);
        EvolvedTrans(ns0, ns1, arena.nodes, pos.x, pos.z);
        EnteredFirst(m, ty, pos, remainingJumpHeight, floorLevel, facing, originPathType, table0, ns0, table1, ns1,
                     r, nodes, arena.nodes);
      }
    }

    /** The rest of `AcceptedNode` at a cell classified `t` that is neither walkable nor water,
        where entering the cell gave `r0`: the jump when nothing was entered and the cell is not
        a fence the agent may not walk over, a rail, a trapdoor or powder snow; then the fall from
        open air, or a closed node for a fence or closed door still without a node. */
    method StepOrFall(pos: Pos, t: PathType, r0: Option<nat>, remainingJumpHeight: nat, floorLevel: real, facing: Face,
                      originPathType: PathType, ghost ty: Pos -> PathType, ghost m: Mover)
      returns (r: Option<nat>)
      requires Valid() && source.Some? && Reports(ty, pathTypesByPosCache, Context()) && m == Agent()
      requires t == ty(pos) && t != WALKABLE && t != WATER
      requires FloorLevelOf(m.w, m.canFloat, pos) - floorLevel <= m.jumpHeight
      requires Describes(arena.nodes, r0, Entering(m, ty, pos, originPathType))
      requires r0.Some? ==> pos in nodes && nodes[pos] == r0.value && arena.nodes[r0.value].costMalus >= Lookup(m.costs, t)
      modifies this`nodes, this`pathTypesByPosCache, arena
      ensures Valid() && Evolved(old(arena.nodes), arena.nodes, pos.x, pos.z)
      ensures CacheGrows(old(pathTypesByPosCache), pathTypesByPosCache, Context())
      ensures Describes(arena.nodes, r, Accepted(m, ty, pos, remainingJumpHeight, floorLevel, facing, originPathType))
      ensures Weighs(old(nodes), old(arena.nodes), arena.nodes, r,
                     Accepted(m, ty, pos, remainingJumpHeight, floorLevel, facing, originPathType))
      ensures DriftsBelow(old(nodes), old(arena.nodes), nodes, arena.nodes, m.costs, ty, pos.y)
      ensures ColumnsKept(old(nodes), old(arena.nodes), nodes, arena.nodes, [Column(pos)])
      decreases remainingJumpHeight, 2
    {
      ghost var ctx := Context();
      ghost var c0 := pathTypesByPosCache;
      ghost var table0, ns0 := nodes, arena.nodes;
      ghost var jumps :=
        && Entering(m, ty, pos, originPathType).None? && remainingJumpHeight > 0 && (t != FENCE || m.canWalkOverFences)
        && t != UNPASSABLE_RAIL && t != TRAPDOOR && t != POWDER_SNOW;
      r := StepUpIfStuck(pos, t, r0, remainingJumpHeight, floorLevel, facing, originPathType, ty, m);
      ghost var c1 := pathTypesByPosCache;
      ghost var ns1 := arena.nodes;
      r := SettleStepped(pos, t, r, remainingJumpHeight, floorLevel, facing, originPathType, ty, m, jumps, table0, ns0);
      CacheGrowth(c0, c1, pathTypesByPosCache, ctx);
      EvolvedTrans(ns0, ns1, arena.nodes, pos.x, pos.z);
      assert table0 == old(nodes) && ns0 == old(arena.nodes);
    }

    /** The end of `StepOrFall`, once the jump gave `r1` from the table `table0` and the store
        `ns0`: `Settle` from there gives the node `Accepted` describes at `pos`. */
    method SettleStepped(pos: Pos, t: PathType, r1: Option<nat>, remainingJumpHeight: nat, floorLevel: real, facing: Face,
                         originPathType: PathType, ghost ty: Pos -> PathType, ghost m: Mover, ghost jumps: bool,
                         ghost table0: map<Pos, nat>, ghost ns0: seq<Node>)
      returns (r: Option<nat>)
      requires Valid() && source.Some? && Reports(ty, pathTypesByPosCache, Context()) && m == Agent()
      requires t == ty(pos) && t != WALKABLE && t != WATER
      requires FloorLevelOf(m.w, m.canFloat, pos) - floorLevel <= m.jumpHeight
      requires jumps == (&& Entering(m, ty, pos, originPathType).None? && remainingJumpHeight > 0
                         && (t != FENCE || m.canWalkOverFences) && t != UNPASSABLE_RAIL && t != TRAPDOOR
                         && t != POWDER_SNOW)
      requires var stepped := if jumps then Jumped(m, ty, pos, remainingJumpHeight, floorLevel, facing, originPathType)
                              else Entering(m, ty, pos, originPathType);
        Describes(arena.nodes, r1, stepped) && Weighs(table0, ns0, arena.nodes, r1, stepped)
      requires DriftsBelow(table0, ns0, nodes, arena.nodes, m.costs, ty, pos.y + 1)
      requires ColumnsKept(table0, ns0, nodes, arena.nodes, [Column(pos)])
      modifies this`nodes, this`pathTypesByPosCache, arena
      ensures Valid() && Evolved(old(arena.nodes), arena.nodes, pos.x, pos.z)
      ensures CacheGrows(old(pathTypesByPosCache), pathTypesByPosCache, Context()) && Context() == old(Context())
      ensures Describes(arena.nodes, r, Accepted(m, ty, pos, remainingJumpHeight, floorLevel, facing, originPathType))
      ensures Weighs(table0, ns0, arena.nodes, r, Accepted(m, ty, pos, remainingJumpHeight, floorLevel, facing, originPathType))
      ensures DriftsBelow(table0, ns0, nodes, arena.nodes, m.costs, ty, pos.y)
      ensures ColumnsKept(table0, ns0, nodes, arena.nodes, [Column(pos)])
    {
      ghost var table1, ns1 := nodes, arena.nodes;
      assert m.costs == costMap.overrides && m.maxFall == maxFallDistance;
      r := Settle(pos, t, r1, remainingJumpHeight, ty);
      SettledAccepted(m, ty, pos, remainingJumpHeight, floorLevel, facing, originPathType, jumps, r1,
                      table0, ns0, table1, ns1, r, nodes, arena.nodes);
    }

    /** The jump of `AcceptedNode` at a cell classified `t` that is neither walkable nor water,
        where entering the cell gave `r0`: when nothing was entered, there is height left to climb,
        and the cell is not a fence the agent may not walk over, a rail, a trapdoor or powder snow,
        the step-up result; otherwise `r0`. */
    method StepUpIfStuck(pos: Pos, t: PathType, r0: Option<nat>, remainingJumpHeight: nat, floorLevel: real, facing: Face,
                         originPathType: PathType, ghost ty: Pos -> PathType, ghost m: Mover)
      returns (r: Option<nat>)
      requires Valid() && source.Some? && Reports(ty, pathTypesByPosCache, Context()) && m == Agent()
      requires Describes(arena.nodes, r0, Entering(m, ty, pos, originPathType))
      requires r0.Some? ==> pos in nodes && nodes[pos] == r0.value && arena.nodes[r0.value].costMalus >= Lookup(m.costs, ty(pos))
      modifies this`nodes, this`pathTypesByPosCache, arena
      ensures Valid() && Evolved(old(arena.nodes), arena.nodes, pos.x, pos.z)
      ensures CacheGrows(old(pathTypesByPosCache), pathTypesByPosCache, Context())
      ensures Reports(ty, pathTypesByPosCache, Context()) && Context() == old(Context()) && Agent() == m
      ensures var entered := Entering(m, ty, pos, originPathType);
        var stepped :=
          if && entered.None? && remainingJumpHeight > 0 && (t != FENCE || m.canWalkOverFences)
             && t != UNPASSABLE_RAIL && t != TRAPDOOR && t != POWDER_SNOW
          then Jumped(m, ty, pos, remainingJumpHeight, floorLevel, facing, originPathType) else entered;
        Describes(arena.nodes, r, stepped) && Weighs(old(nodes), old(arena.nodes), arena.nodes, r, stepped)
      ensures DriftsBelow(old(nodes), old(arena.nodes), nodes, arena.nodes, m.costs, ty, pos.y + 1)
      ensures ColumnsKept(old(nodes), old(arena.nodes), nodes, arena.nodes, [Column(pos)])
      decreases remainingJumpHeight, 1
    {
      ghost var ctx := Context();
      ghost var c0 := pathTypesByPosCache;
      ghost var table0, ns0 := nodes, arena.nodes;
      CacheGrowth(c0, c0, c0, ctx);
      r := r0;
      assert r0.Some? ==> Lookup(m.costs, ty(pos)) >= 0.0;
      if && (r.None? || arena.nodes[r.value].costMalus < 0.0) && remainingJumpHeight > 0
         && (t != FENCE || canWalkOverFences) && t != UNPASSABLE_RAIL && t != TRAPDOOR && t != POWDER_SNOW
      {
        r := Jump(pos, remainingJumpHeight, floorLevel, facing, originPathType, ty, m);
        CacheAgrees(ty, c0, pathTypesByPosCache, ctx);
      } else {
        EnteredStays(m, ty, pos, originPathType, nodes, arena.nodes, r0);
      }
      assert table0 == old(nodes) && ns0 == old(arena.nodes);
    }

    /** The jump from `pos`: the node accepted one layer up with one layer less to jump, dropped
        when it is open or walkable, the agent is narrower than a block, and the box at the side
        of `pos` towards `facing`, between the two floor levels, meets a solid block. */
    method Jump(pos: Pos, remainingJumpHeight: nat, floorLevel: real, facing: Face, originPathType: PathType,
                ghost ty: Pos -> PathType, ghost m: Mover)
      returns (r: Option<nat>)
      requires Valid() && source.Some? && remainingJumpHeight > 0 && Reports(ty, pathTypesByPosCache, Context())
      requires m == Agent()
      modifies this`nodes, this`pathTypesByPosCache, arena
      ensures Valid() && Evolved(old(arena.nodes), arena.nodes, pos.x, pos.z)
      ensures CacheGrows(old(pathTypesByPosCache), pathTypesByPosCache, Context())
      ensures Describes(arena.nodes, r, Jumped(m, ty, pos, remainingJumpHeight, floorLevel, facing, originPathType))
      ensures Weighs(old(nodes), old(arena.nodes), arena.nodes, r,
                     Jumped(m, ty, pos, remainingJumpHeight, floorLevel, facing, originPathType))
      ensures DriftsBelow(old(nodes), old(arena.nodes), nodes, arena.nodes, m.costs, ty, pos.y + 1)
      ensures ColumnsKept(old(nodes), old(arena.nodes), nodes, arena.nodes, [Column(pos)])
      decreases remainingJumpHeight, 0
    {
      r := AcceptedNode(pos.Up(), remainingJumpHeight - 1, floorLevel, facing, originPathType, ty, m);
      assert pos.Up().y == pos.y + 1 && Column(pos.Up()) == Column(pos);
      ghost var r0 := r;
      if && r.Some? && (arena.nodes[r.value].pathType == OPEN || arena.nodes[r.value].pathType == WALKABLE)
         && entitySizeInfo.Width() < 1.0
      {
        if source.value.sideBlocked(pos, facing, arena.nodes[r.value].pos) {
          r := None;
        }
      }
      JumpedFrom(m, ty, pos, remainingJumpHeight, floorLevel, facing, originPathType, r0, r, old(nodes), old(arena.nodes),
                 arena.nodes);
    }

    /** `AcceptedNode` as the Go code writes it, with the water descent of an agent that cannot
        float placed between the jump and the fall. Above the world floor that descent always
        returns, so such an agent never falls: when the cell at `pos` is open air and passable, it
        is handed the open node at `pos` itself, where `AcceptedNode` would have it fall. */
    method AcceptedNodeAsWritten(pos: Pos, remainingJumpHeight: nat, floorLevel: real, facing: Face, originPathType: PathType)
      returns (r: Option<nat>)
      requires Valid() && source.Some?
      modifies this`nodes, this`pathTypesByPosCache, arena
      ensures Valid() && Evolved(old(arena.nodes), arena.nodes, pos.x, pos.z)
      ensures CacheGrows(old(pathTypesByPosCache), pathTypesByPosCache, Context())
      ensures r.Some? ==> r.value < |arena.nodes|
      ensures old(FloorLevel(pos)) - floorLevel > MobJumpHeight() ==> r.None? && arena.nodes == old(arena.nodes)
      ensures var t := old(TypeIn(pathTypesByPosCache, Context(), pos));
        old(FloorLevel(pos)) - floorLevel <= MobJumpHeight() && (t == WALKABLE || t == WATER) ==>
          && (r.Some? <==> old(Context().Cost(t) >= 0.0 && !(BlockHavePartialCollision(originPathType) && !CanReachWithoutCollision(pos))))
          && (r.Some? ==> arena.nodes[r.value].pos == pos && arena.nodes[r.value].pathType == t)
      ensures
        && !canFloat && pos.y > -64 && old(FloorLevel(pos)) - floorLevel <= MobJumpHeight()
        && old(TypeIn(pathTypesByPosCache, Context(), pos)) == OPEN && old(Context().Cost(OPEN)) >= 0.0
        && !old(BlockHavePartialCollision(originPathType) && !CanReachWithoutCollision(pos))
        ==> r.Some? && r.value < |arena.nodes| && arena.nodes[r.value].pos == pos && arena.nodes[r.value].pathType == OPEN
      decreases remainingJumpHeight, 2
    {
      ghost var ctx := Context();
      CacheGrowth(pathTypesByPosCache, pathTypesByPosCache, pathTypesByPosCache, ctx);
      if FloorLevel(pos) - floorLevel > MobJumpHeight() {
        return None;
      }
      ghost var c0 := pathTypesByPosCache;
      ghost var ns0 := arena.nodes;
      var t;
      ghost var ty := TypeView(c0, ctx);
      t, r := EnterCell(pos, originPathType, ty, Agent());
      if t != WALKABLE && t != WATER {
        ghost var c1 := pathTypesByPosCache;
        ghost var ns1 := arena.nodes;
        r := StepOrFallAsWritten(pos, t, r, remainingJumpHeight, floorLevel, facing, originPathType, ty);
        CacheGrowth(c0, c1, pathTypesByPosCache, ctx);
        EvolvedTrans(ns0, ns1, arena.nodes, pos.x, pos.z);
      }
    }

    /** The rest of `AcceptedNodeAsWritten` at a cell classified `t` that is neither walkable nor
        water, where entering the cell gave `r0`: the jump as in `StepOrFall`, then the water
        descent, which for an agent that cannot float above the world floor returns what it was
        given, then the fall or the closed node. */
    method StepOrFallAsWritten(pos: Pos, t: PathType, r0: Option<nat>, remainingJumpHeight: nat, floorLevel: real,
                               facing: Face, originPathType: PathType, ghost ty: Pos -> PathType)
      returns (r: Option<nat>)
      requires Valid() && source.Some? && (r0.Some? ==> r0.value < |arena.nodes|)
      requires Reports(ty, pathTypesByPosCache, Context())
      modifies this`nodes, this`pathTypesByPosCache, arena
      ensures Valid() && Evolved(old(arena.nodes), arena.nodes, pos.x, pos.z)
      ensures CacheGrows(old(pathTypesByPosCache), pathTypesByPosCache, Context())
      ensures r.Some? ==> r.value < |arena.nodes|
      ensures !canFloat && pos.y > -64 && r0.Some? && old(arena.nodes[r0.value].costMalus) >= 0.0 ==>
        r == r0 && arena.nodes == old(arena.nodes)
      decreases remainingJumpHeight, 1
    {
      ghost var ctx := Context();
      ghost var c0 := pathTypesByPosCache;
      ghost var ns0 := arena.nodes;
      CacheGrowth(c0, c0, c0, ctx);
      r := r0;
      if && (r.None? || arena.nodes[r.value].costMalus < 0.0) && remainingJumpHeight > 0
         && (t != FENCE || canWalkOverFences) && t != UNPASSABLE_RAIL && t != TRAPDOOR && t != POWDER_SNOW
      {
        r := JumpAsWritten(pos, remainingJumpHeight, floorLevel, facing, originPathType);
      }
      ghost var c2 := pathTypesByPosCache;
      CacheAgrees(ty, c0, c2, ctx);
      r := DescendAsWritten(pos, t, r, remainingJumpHeight, ty);
      CacheGrowth(c0, c2, pathTypesByPosCache, ctx);
    }

    /** The end of accepting a non-walkable cell as the Go code writes it: an agent that cannot
        float keeps the node it has when the cell below `pos` is water, sinks through water below
        the world floor, and keeps the node it has whenever `pos` is above the world floor;
        otherwise the node settles as `Settle` says. */
    method DescendAsWritten(pos: Pos, t: PathType, r0: Option<nat>, ghost up: nat, ghost ty: Pos -> PathType)
      returns (r: Option<nat>)
      requires Valid() && source.Some? && (r0.Some? ==> r0.value < |arena.nodes|)
      requires Reports(ty, pathTypesByPosCache, Context())
      modifies this`nodes, this`pathTypesByPosCache, arena
      ensures Valid() && Evolved(old(arena.nodes), arena.nodes, pos.x, pos.z)
      ensures CacheGrows(old(pathTypesByPosCache), pathTypesByPosCache, Context())
      ensures r.Some? ==> r.value < |arena.nodes|
      ensures !canFloat && pos.y > -64 ==> r == r0 && arena.nodes == old(arena.nodes)
    {
      ghost var ctx := Context();
      ghost var c0 := pathTypesByPosCache;
      var stop;
      r, stop := SinkThroughWaterAsWritten(pos, r0, ty);
      if stop {
        return r;
      }
      ghost var c1 := pathTypesByPosCache;
      r := Settle(pos, t, r, up, ty);
      CacheGrowth(c0, c1, pathTypesByPosCache, ctx);
    }

    /** `Jump` with the recursive step taken by `AcceptedNodeAsWritten`. */
    method JumpAsWritten(pos: Pos, remainingJumpHeight: nat, floorLevel: real, facing: Face, originPathType: PathType)
      returns (r: Option<nat>)
      requires Valid() && source.Some? && remainingJumpHeight > 0
      modifies this`nodes, this`pathTypesByPosCache, arena
      ensures Valid() && Evolved(old(arena.nodes), arena.nodes, pos.x, pos.z)
      ensures CacheGrows(old(pathTypesByPosCache), pathTypesByPosCache, Context())
      ensures r.Some? ==> r.value < |arena.nodes|
      decreases remainingJumpHeight, 0
    {
      r := AcceptedNodeAsWritten(pos.Up(), remainingJumpHeight - 1, floorLevel, facing, originPathType);
      if && r.Some? && r.value < |arena.nodes|
         && (arena.nodes[r.value].pathType == OPEN || arena.nodes[r.value].pathType == WALKABLE)
         && entitySizeInfo.Width() < 1.0
      {
        if source.value.sideBlocked(pos, facing, arena.nodes[r.value].pos) {
          r := None;
        }
      }
    }

    /** The first look at the cell `pos`: its classification `t` (cached), and the node there
        updated to `t` and at least its cost when that cost is not negative, unless the agent leaves
        a fence or closed door and cannot reach `pos` without a collision. */
    method EnterCell(pos: Pos, originPathType: PathType, ghost ty: Pos -> PathType, ghost m: Mover)
      returns (t: PathType, r: Option<nat>)
      requires Valid() && source.Some? && Reports(ty, pathTypesByPosCache, Context()) && m == Agent()
      modifies this`nodes, this`pathTypesByPosCache, arena
      ensures Valid() && Evolved(old(arena.nodes), arena.nodes, pos.x, pos.z)
      ensures t == ty(pos)
      ensures CacheGrows(old(pathTypesByPosCache), pathTypesByPosCache, Context())
      ensures Reports(ty, pathTypesByPosCache, Context())
      ensures Describes(arena.nodes, r, Entering(m, ty, pos, originPathType))
      ensures Weighs(old(nodes), old(arena.nodes), arena.nodes, r, Entering(m, ty, pos, originPathType))
      ensures r.Some? ==> pos in nodes && nodes[pos] == r.value && arena.nodes[r.value].costMalus >= Lookup(m.costs, t)
      ensures r.Some? ==> var n0 := Prior(old(nodes), old(arena.nodes), pos);
        arena.nodes[r.value] == n0.(pathType := t, costMalus := MaxReal(n0.costMalus, Lookup(m.costs, t)))
      ensures OthersKept(old(nodes), old(arena.nodes), nodes, arena.nodes, pos)
      ensures Drifted(Prior(old(nodes), old(arena.nodes), pos), Prior(nodes, arena.nodes, pos), Lookup(m.costs, t))
    {
      ghost var ctx := Context();
      CacheGrowth(pathTypesByPosCache, pathTypesByPosCache, pathTypesByPosCache, ctx);
      t := CachedBlockPathType(pos, ty);
      r := EnterClassified(pos, t, originPathType, ty, m);
      assert Context() == ctx;
    }

    /** `EnterCell` once the cell's classification `t` is known. */
    method EnterClassified(pos: Pos, t: PathType, originPathType: PathType, ghost ty: Pos -> PathType, ghost m: Mover)
      returns (r: Option<nat>)
      requires Valid() && source.Some? && m == Agent() && t == ty(pos)
      modifies this`nodes, arena
      ensures Valid() && Evolved(old(arena.nodes), arena.nodes, pos.x, pos.z)
      ensures Describes(arena.nodes, r, Entering(m, ty, pos, originPathType))
      ensures Weighs(old(nodes), old(arena.nodes), arena.nodes, r, Entering(m, ty, pos, originPathType))
      ensures r.Some? ==> pos in nodes && nodes[pos] == r.value && arena.nodes[r.value].costMalus >= Lookup(m.costs, t)
      ensures r.Some? ==> var n0 := Prior(old(nodes), old(arena.nodes), pos);
        arena.nodes[r.value] == n0.(pathType := t, costMalus := MaxReal(n0.costMalus, Lookup(m.costs, t)))
      ensures OthersKept(old(nodes), old(arena.nodes), nodes, arena.nodes, pos)
      ensures Drifted(Prior(old(nodes), old(arena.nodes), pos), Prior(nodes, arena.nodes, pos), Lookup(m.costs, t))
    {
      var malus := costMap.PathfindingMalus(t);
      assert malus == Lookup(m.costs, t);
      ghost var enters := malus >= 0.0 && !(BlockHavePartialCollision(originPathType) && !CanReachWithoutCollision(pos));
      assert Entering(m, ty, pos, originPathType).Some? == enters;
      ghost var table0, ns0 := nodes, arena.nodes;
      ghost var raised;
      r, raised := RaiseUnlessBlocked(pos, t, malus, originPathType);
      assert r == if enters then raised else None;
      EnteringLeaves(m, ty, pos, originPathType, table0, ns0, nodes, arena.nodes, enters, r, raised);
      assert table0 == old(nodes) && ns0 == old(arena.nodes);
    }

    /** The node update of `EnterCell` for a cell classified `t` with cost `malus`: when the cost
        is not negative, the node at `pos` takes `t` and at least that cost (`raised` names it),
        and it is the result unless the agent leaves a fence or closed door and cannot reach `pos`
        without a collision. */
    method RaiseUnlessBlocked(pos: Pos, t: PathType, malus: real, originPathType: PathType)
      returns (r: Option<nat>, ghost raised: Option<nat>)
      requires Valid() && source.Some?
      modifies this`nodes, arena
      ensures Valid() && Evolved(old(arena.nodes), arena.nodes, pos.x, pos.z)
      ensures raised.Some? <==> malus >= 0.0
      ensures raised.None? ==> nodes == old(nodes) && arena.nodes == old(arena.nodes)
      ensures raised.Some? ==>
        && raised.value < |arena.nodes| && arena.nodes[raised.value].pos == pos && pos in nodes && nodes[pos] == raised.value
        && OthersKept(old(nodes), old(arena.nodes), nodes, arena.nodes, pos) && Prior(nodes, arena.nodes, pos) == arena.nodes[raised.value]
        && arena.nodes[raised.value] == Prior(old(nodes), old(arena.nodes), pos).(pathType := t,
             costMalus := MaxReal(Prior(old(nodes), old(arena.nodes), pos).costMalus, malus))
      ensures r == if malus >= 0.0 && !(BlockHavePartialCollision(originPathType) && !CanReachWithoutCollision(pos))
                   then raised else None
    {
      r, raised := None, None;
      if malus >= 0.0 {
        var id := NodeAndUpdateCostToMax(pos, t, malus);
        raised := Some(id);
        assert arena.nodes[id].pos == pos;
        if BlockHavePartialCollision(originPathType) && arena.nodes[id].costMalus >= 0.0
          && !CanReachWithoutCollision(arena.nodes[id].pos)
        {
          r := None;
        } else {
          r := Some(id);
        }
      }
    }

    /** The end of the search for a node at `pos`, whose cell is classified `t`: from open air the
        agent falls and the node where the fall ends replaces `r0`; when there is still no node and
        `t` is a fence or closed door, the node at `pos` becomes a closed node of that
        classification; otherwise `r0` stands. */
    method Settle(pos: Pos, t: PathType, r0: Option<nat>, ghost up: nat, ghost ty: Pos -> PathType) returns (r: Option<nat>)
      requires Valid() && source.Some? && Reports(ty, pathTypesByPosCache, Context())
      modifies this`nodes, this`pathTypesByPosCache, arena
      ensures Valid() && Evolved(old(arena.nodes), arena.nodes, pos.x, pos.z)
      ensures CacheGrows(old(pathTypesByPosCache), pathTypesByPosCache, Context())
      ensures t == OPEN || old(Acceptable(arena.nodes, r0, pos, up, FallSpan(maxFallDistance))) ==>
        Acceptable(arena.nodes, r, pos, up, FallSpan(maxFallDistance))
      ensures t == OPEN ==> r.Some?
      ensures t != OPEN && r0.Some? ==> r == r0 && arena.nodes == old(arena.nodes) && nodes == old(nodes)
      ensures t != OPEN && r0.None? && BlockHavePartialCollision(t) ==>
        && r.Some? && arena.nodes[r.value].pos == pos && arena.nodes[r.value].closed && arena.nodes[r.value].pathType == t
        && arena.nodes[r.value].costMalus == Malus(t) as real
      ensures t != OPEN && r0.None? && !BlockHavePartialCollision(t) ==> r.None? && arena.nodes == old(arena.nodes)
      ensures t == OPEN ==>
        var o := Some(FallNode(FallFrom(ty, costMap.overrides, maxFallDistance, pos.y, pos, 0), costMap.overrides));
        Describes(arena.nodes, r, o) && Weighs(old(nodes), old(arena.nodes), arena.nodes, r, o)
      ensures DriftsBelow(old(nodes), old(arena.nodes), nodes, arena.nodes, costMap.overrides, ty, pos.y)
      ensures ColumnsKept(old(nodes), old(arena.nodes), nodes, arena.nodes, [Column(pos)])
    {
      ghost var table0, ns0 := nodes, arena.nodes;
      CacheGrowth(pathTypesByPosCache, pathTypesByPosCache, pathTypesByPosCache, Context());
      r := r0;
      if t == OPEN {
        var id := Fall(pos, ty);
        ghost var o := FallFrom(ty, costMap.overrides, maxFallDistance, pos.y, pos, 0);
        FallEnds(ty, costMap.overrides, maxFallDistance, pos.y, pos, 0);
        CarriesDrifts(Prior(table0, ns0, o.at), arena.nodes[id], FallNode(o, costMap.overrides), Lookup(costMap.overrides, ty(o.at)));
        KeptBelow(table0, ns0, nodes, arena.nodes, costMap.overrides, ty, o.at, pos.y);
        assert Column(o.at) == Column(pos);
        r := Some(id);
      }
      if BlockHavePartialCollision(t) && r.None? {
        var id := ClosedNode(pos, t);
        KeptBelow(table0, ns0, nodes, arena.nodes, costMap.overrides, ty, pos, pos.y);
        r := Some(id);
      }
      assert table0 == old(nodes) && ns0 == old(arena.nodes);
    }

    /** The highest an agent may step up from a node whose cell allows it: its step-up height, at
        least one block, truncated to whole blocks. */
    function JumpLimit(): (n: int)
      ensures n >= 1 && n as real <= MaxReal(1.0, maxUpStep)
    {
      MaxReal(1.0, maxUpStep).Floor
    }

    /** The neighbours of the node `node`: the accepted nodes of the four cardinal columns that
        are not closed and are passable (or the node is not), then the accepted nodes of the four
        diagonal columns that the diagonal rule allows. The eight column visits `acc` each gave
        the node `Accepted` describes, with the step-up height and classification of the node's
        own cell; the list is exactly the one `Picks` keeps from them. Each neighbour is one in
        the sense of `NeighborOf`, no two share a column, and only nodes of the eight surrounding
        columns change. */
    method Neighbors(node: nat) returns (r: seq<nat>, ghost acc: seq<Option<nat>>, ghost ty: Pos -> PathType)
      requires Valid() && source.Some? && node < |arena.nodes|
      modifies this`nodes, this`pathTypesByPosCache, arena
      ensures Valid() && EvalStep(old(arena.nodes), arena.nodes)
      ensures CacheGrows(old(pathTypesByPosCache), pathTypesByPosCache, Context())
      ensures forall i :: 0 <= i < |old(arena.nodes)| && !Around(old(arena.nodes)[node].pos, old(arena.nodes)[i].pos) ==>
        arena.nodes[i] == old(arena.nodes)[i]
      ensures |r| <= 8
      ensures forall i :: 0 <= i < |r| ==>
        r[i] < |arena.nodes| && NeighborOf(arena.nodes[node], arena.nodes[r[i]], JumpLimit(), FallSpan(maxFallDistance))
      ensures forall i, j :: 0 <= i < j < |r| ==>
        r[i] < |arena.nodes| && r[j] < |arena.nodes| && Column(arena.nodes[r[i]].pos) != Column(arena.nodes[r[j]].pos)
      ensures |acc| == 8 && Reports(ty, old(pathTypesByPosCache), Context())
      ensures var c := old(arena.nodes[node]).pos;
        var up := if Context().Cost(ty(c.Up())) >= 0.0 && ty(c) != STICKY_HONEY then JumpLimit() else 0;
        && Visited(acc, arena.nodes, Agent(), ty, c, up, FloorLevel(c), ty(c))
        && Weighed(acc, old(nodes), old(arena.nodes), arena.nodes, Agent(), ty, c, up, FloorLevel(c), ty(c))
      ensures r == Picks(acc, arena.nodes, arena.nodes[node], entitySizeInfo.Width(), 8)
    {
      ghost var ctx := Context();
      ghost var table0, ns0 := nodes, arena.nodes;
      ghost var c0 := pathTypesByPosCache;
      ty := TypeView(c0, ctx);
      ghost var m := Agent();
      var centre := arena.nodes[node];
      var pathType, maxUp := Headroom(centre.pos, ty);
      assert Context() == ctx;
      ghost var c1 := pathTypesByPosCache;
      var floorLevel := FloorLevel(centre.pos);
      r, acc := VisitAround(centre, maxUp, floorLevel, pathType, ty, m);
      assert Context() == ctx;
      CacheGrowth(c0, c1, pathTypesByPosCache, ctx);
      assert Agent() == m;
      GatheredAll(ns0, arena.nodes, node, r, JumpLimit(), FallSpan(maxFallDistance));
      assert arena.nodes[node] == centre;
      assert Visited(acc, arena.nodes, Agent(), ty, centre.pos, maxUp, FloorLevel(centre.pos), ty(centre.pos));
      assert Weighed(acc, table0, ns0, arena.nodes, Agent(), ty, centre.pos, maxUp, FloorLevel(centre.pos), ty(centre.pos));
    }

    /** The path type of the cell at `c` and how far an agent there may step up: its jump limit,
        unless the cell above may not be entered or it stands on sticky honey. */
    method Headroom(c: Pos, ghost ty: Pos -> PathType) returns (pathType: PathType, maxUp: nat)
      requires source.Some? && Reports(ty, pathTypesByPosCache, Context())
      modifies this`pathTypesByPosCache
      ensures CacheGrows(old(pathTypesByPosCache), pathTypesByPosCache, Context())
      ensures Reports(ty, pathTypesByPosCache, Context())
      ensures pathType == ty(c)
      ensures maxUp == if Context().Cost(ty(c.Up())) >= 0.0 && pathType != STICKY_HONEY then JumpLimit() else 0
    {
      ghost var ctx := Context();
      ghost var c0 := pathTypesByPosCache;
      pathType := CachedBlockPathType(c, ty);
      ghost var c1 := pathTypesByPosCache;
      var pathTypeAbove := CachedBlockPathType(c.Up(), ty);
      CacheGrowth(c0, c1, pathTypesByPosCache, ctx);
      maxUp := 0;
      if costMap.PathfindingMalus(pathTypeAbove) >= 0.0 && pathType != STICKY_HONEY {
        maxUp := JumpLimit();
      }
    }

    /** The eight column visits of `Neighbors` around `centre`: the cardinal ones, then the
        diagonal ones. */
    method VisitAround(centre: Node, maxUp: nat, floorLevel: real, pathType: PathType, ghost ty: Pos -> PathType,
                       ghost m: Mover)
      returns (r: seq<nat>, ghost acc: seq<Option<nat>>)
      requires Valid() && source.Some? && maxUp <= JumpLimit() && Reports(ty, pathTypesByPosCache, Context())
      requires m == Agent()
      modifies this`nodes, this`pathTypesByPosCache, arena
      ensures Valid()
      ensures CacheGrows(old(pathTypesByPosCache), pathTypesByPosCache, Context())
      ensures Gathered(old(arena.nodes), arena.nodes, centre, AroundColumns(centre.pos), r, JumpLimit(), FallSpan(maxFallDistance))
      ensures |acc| == 8 && Visited(acc, arena.nodes, m, ty, centre.pos, maxUp, floorLevel, pathType)
      ensures Weighed(acc, old(nodes), old(arena.nodes), arena.nodes, m, ty, centre.pos, maxUp, floorLevel, pathType)
      ensures r == Picks(acc, arena.nodes, centre, entitySizeInfo.Width(), 8)
    {
      ghost var ctx := Context();
      ghost var c0 := pathTypesByPosCache;
      var horizontal;
      r, horizontal, acc := Cardinals(centre, maxUp, floorLevel, pathType, ty, m);
      assert Context() == ctx;
      ghost var c1 := pathTypesByPosCache;
      CacheAgrees(ty, c0, c1, ctx);
      r, acc := Diagonals(centre, maxUp, floorLevel, pathType, r, horizontal, old(nodes), old(arena.nodes), ty, m, acc);
      assert Context() == ctx;
      CacheGrowth(c0, c1, pathTypesByPosCache, ctx);
    }

    /** The cardinal half of `Neighbors`: visits the four cardinal columns around `centre`,
        recording in `horizontal` what each one accepted. */
    method Cardinals(centre: Node, maxUp: nat, floorLevel: real, pathType: PathType, ghost ty: Pos -> PathType,
                     ghost m: Mover)
      returns (r: seq<nat>, horizontal: map<Face, Option<nat>>, ghost acc: seq<Option<nat>>)
      requires Valid() && source.Some? && maxUp <= JumpLimit() && Reports(ty, pathTypesByPosCache, Context())
      requires m == Agent()
      modifies this`nodes, this`pathTypesByPosCache, arena
      ensures Valid()
      ensures CacheGrows(old(pathTypesByPosCache), pathTypesByPosCache, Context())
      ensures Gathered(old(arena.nodes), arena.nodes, centre, AroundColumns(centre.pos)[..4], r, JumpLimit(), FallSpan(maxFallDistance))
      ensures Recorded(horizontal, arena.nodes)
      ensures |acc| == 4 && Visited(acc, arena.nodes, m, ty, centre.pos, maxUp, floorLevel, pathType)
      ensures Weighed(acc, old(nodes), old(arena.nodes), arena.nodes, m, ty, centre.pos, maxUp, floorLevel, pathType)
      ensures ColumnsKept(old(nodes), old(arena.nodes), nodes, arena.nodes, AroundColumns(centre.pos)[..4])
      ensures r == Picks(acc, arena.nodes, centre, entitySizeInfo.Width(), 4)
      ensures forall j :: 0 <= j < 4 ==> HorizontalFaces[j] in horizontal && horizontal[HorizontalFaces[j]] == acc[j]
    {
      ghost var ctx := Context();
      ghost var table0, ns0 := nodes, arena.nodes;
      ghost var c0 := pathTypesByPosCache;
      CacheGrowth(c0, c0, c0, ctx);
      horizontal := map[];
      r := [];
      acc := [];
      for k := 0 to 4
        invariant Valid() && Context() == ctx && CacheGrows(c0, pathTypesByPosCache, ctx)
        invariant Reports(ty, pathTypesByPosCache, ctx)
        invariant Gathered(ns0, arena.nodes, centre, AroundColumns(centre.pos)[..k], r, JumpLimit(), FallSpan(maxFallDistance))
        invariant Recorded(horizontal, arena.nodes)
        invariant |acc| == k && Visited(acc, arena.nodes, m, ty, centre.pos, maxUp, floorLevel, pathType)
        invariant Weighed(acc, table0, ns0, arena.nodes, m, ty, centre.pos, maxUp, floorLevel, pathType)
        invariant ColumnsKept(table0, ns0, nodes, arena.nodes, AroundColumns(centre.pos)[..k])
        invariant r == Picks(acc, arena.nodes, centre, entitySizeInfo.Width(), k)
        invariant forall j :: 0 <= j < k ==> HorizontalFaces[j] in horizontal && horizontal[HorizontalFaces[j]] == acc[j]
      {
        ghost var c1 := pathTypesByPosCache;
        r, horizontal, acc := CardinalStep(centre, k, maxUp, floorLevel, pathType, r, horizontal, table0, ns0, ty, m, acc);
        CacheGrowth(c0, c1, pathTypesByPosCache, ctx);
      }
    }

    /** One cardinal column of `Neighbors`: the node accepted across face `k` is kept when it is
        not closed and is passable (or `centre` is not). */
    method CardinalStep(centre: Node, k: nat, maxUp: nat, floorLevel: real, pathType: PathType, r0: seq<nat>,
                        horizontal0: map<Face, Option<nat>>, ghost table0: map<Pos, nat>, ghost ns0: seq<Node>,
                        ghost ty: Pos -> PathType, ghost m: Mover, ghost acc0: seq<Option<nat>>)
      returns (r: seq<nat>, horizontal: map<Face, Option<nat>>, ghost acc: seq<Option<nat>>)
      requires Valid() && source.Some? && maxUp <= JumpLimit() && k < 4 && m == Agent()
      requires Gathered(ns0, arena.nodes, centre, AroundColumns(centre.pos)[..k], r0, JumpLimit(), FallSpan(maxFallDistance))
      requires Recorded(horizontal0, arena.nodes)
      requires Reports(ty, pathTypesByPosCache, Context())
      requires |acc0| == k && Visited(acc0, arena.nodes, m, ty, centre.pos, maxUp, floorLevel, pathType)
      requires Weighed(acc0, table0, ns0, arena.nodes, m, ty, centre.pos, maxUp, floorLevel, pathType)
      requires ColumnsKept(table0, ns0, nodes, arena.nodes, AroundColumns(centre.pos)[..k])
      requires r0 == Picks(acc0, arena.nodes, centre, entitySizeInfo.Width(), k)
      requires forall j :: 0 <= j < k ==> HorizontalFaces[j] in horizontal0 && horizontal0[HorizontalFaces[j]] == acc0[j]
      modifies this`nodes, this`pathTypesByPosCache, arena
      ensures Valid()
      ensures CacheGrows(old(pathTypesByPosCache), pathTypesByPosCache, Context())
      ensures Reports(ty, pathTypesByPosCache, Context())
      ensures Gathered(ns0, arena.nodes, centre, AroundColumns(centre.pos)[..k + 1], r, JumpLimit(), FallSpan(maxFallDistance))
      ensures Recorded(horizontal, arena.nodes)
      ensures |acc| == k + 1 && acc[..k] == acc0 && Visited(acc, arena.nodes, m, ty, centre.pos, maxUp, floorLevel, pathType)
      ensures Weighed(acc, table0, ns0, arena.nodes, m, ty, centre.pos, maxUp, floorLevel, pathType)
      ensures ColumnsKept(table0, ns0, nodes, arena.nodes, AroundColumns(centre.pos)[..k + 1])
      ensures r == Picks(acc, arena.nodes, centre, entitySizeInfo.Width(), k + 1)
      ensures forall j :: 0 <= j <= k ==> HorizontalFaces[j] in horizontal && horizontal[HorizontalFaces[j]] == acc[j]
    {
      ghost var ctx := Context();
      ghost var c0 := pathTypesByPosCache;
      var c := centre.pos;
      var side := HorizontalFaces[k];
      ghost var table1, ns1 := nodes, arena.nodes;
      var neighborNode := AcceptedNode(c.Side(side), maxUp, floorLevel, side, pathType, ty, m);
      assert Context() == ctx;
      CacheAgrees(ty, c0, pathTypesByPosCache, ctx);
      horizontal := horizontal0[side := neighborNode];
      var add := neighborNode.Some? && IsNeighborValid(arena.nodes[neighborNode.value], centre);
      CardinalRecord(acc0, neighborNode, ns1, arena.nodes, centre, entitySizeInfo.Width(), horizontal0);
      ColumnVisited(ns0, ns1, arena.nodes, centre, acc0, neighborNode, r0, add, m, ty, maxUp, floorLevel, pathType,
                    entitySizeInfo.Width(), JumpLimit(), FallSpan(maxFallDistance));
      WeighedStep(acc0, neighborNode, table0, ns0, table1, ns1, nodes, arena.nodes, m, ty, centre.pos, maxUp, floorLevel, pathType);
      acc := acc0 + [neighborNode];
      assert acc[..k] == acc0;
      r := if add then r0 + [neighborNode.value] else r0;
    }

    /** The diagonal half of `Neighbors`: visits the four diagonal columns around `centre` and
        keeps the accepted nodes that the diagonal rule allows given the cardinal results. */
    method Diagonals(centre: Node, maxUp: nat, floorLevel: real, pathType: PathType, r0: seq<nat>,
                     horizontal: map<Face, Option<nat>>, ghost table0: map<Pos, nat>, ghost ns0: seq<Node>,
                     ghost ty: Pos -> PathType, ghost m: Mover, ghost acc0: seq<Option<nat>>)
      returns (r: seq<nat>, ghost acc: seq<Option<nat>>)
      requires Valid() && source.Some? && maxUp <= JumpLimit() && m == Agent()
      requires Gathered(ns0, arena.nodes, centre, AroundColumns(centre.pos)[..4], r0, JumpLimit(), FallSpan(maxFallDistance))
      requires Recorded(horizontal, arena.nodes)
      requires Reports(ty, pathTypesByPosCache, Context())
      requires |acc0| == 4 && Visited(acc0, arena.nodes, m, ty, centre.pos, maxUp, floorLevel, pathType)
      requires Weighed(acc0, table0, ns0, arena.nodes, m, ty, centre.pos, maxUp, floorLevel, pathType)
      requires ColumnsKept(table0, ns0, nodes, arena.nodes, AroundColumns(centre.pos)[..4])
      requires r0 == Picks(acc0, arena.nodes, centre, entitySizeInfo.Width(), 4)
      requires forall j :: 0 <= j < 4 ==> HorizontalFaces[j] in horizontal && horizontal[HorizontalFaces[j]] == acc0[j]
      modifies this`nodes, this`pathTypesByPosCache, arena
      ensures Valid()
      ensures CacheGrows(old(pathTypesByPosCache), pathTypesByPosCache, Context())
      ensures Gathered(ns0, arena.nodes, centre, AroundColumns(centre.pos), r, JumpLimit(), FallSpan(maxFallDistance))
      ensures |acc| == 8 && Visited(acc, arena.nodes, m, ty, centre.pos, maxUp, floorLevel, pathType)
      ensures Weighed(acc, table0, ns0, arena.nodes, m, ty, centre.pos, maxUp, floorLevel, pathType)
      ensures r == Picks(acc, arena.nodes, centre, entitySizeInfo.Width(), 8)
    {
      ghost var ctx := Context();
      ghost var c0 := pathTypesByPosCache;
      CacheGrowth(c0, c0, c0, ctx);
      r := r0;
      acc := acc0;
      for zi := 0 to 2
        invariant Valid() && Context() == ctx && CacheGrows(c0, pathTypesByPosCache, ctx)
        invariant Reports(ty, pathTypesByPosCache, ctx)
        invariant Gathered(ns0, arena.nodes, centre, AroundColumns(centre.pos)[..4 + 2 * zi], r, JumpLimit(), FallSpan(maxFallDistance))
        invariant Recorded(horizontal, arena.nodes)
        invariant |acc| == 4 + 2 * zi && Visited(acc, arena.nodes, m, ty, centre.pos, maxUp, floorLevel, pathType)
        invariant Weighed(acc, table0, ns0, arena.nodes, m, ty, centre.pos, maxUp, floorLevel, pathType)
        invariant ColumnsKept(table0, ns0, nodes, arena.nodes, AroundColumns(centre.pos)[..4 + 2 * zi])
        invariant forall j :: 0 <= j < 4 ==> HorizontalFaces[j] in horizontal && horizontal[HorizontalFaces[j]] == acc[j]
        invariant r == Picks(acc, arena.nodes, centre, entitySizeInfo.Width(), |acc|)
      {
        ghost var c1 := pathTypesByPosCache;
        r, acc := DiagonalRow(centre, zi, maxUp, floorLevel, pathType, r, horizontal, table0, ns0, ty, m, acc);
        CacheGrowth(c0, c1, pathTypesByPosCache, ctx);
      }
      assert AroundColumns(centre.pos)[..8] == AroundColumns(centre.pos);
    }

    /** The two diagonal columns of `Neighbors` across the `zi`-th of north and south, east then
        west, each kept as `DiagonalStep` keeps it. */
    method DiagonalRow(centre: Node, zi: nat, maxUp: nat, floorLevel: real, pathType: PathType,
                       r0: seq<nat>, horizontal: map<Face, Option<nat>>, ghost table0: map<Pos, nat>, ghost ns0: seq<Node>,
                       ghost ty: Pos -> PathType, ghost m: Mover, ghost acc0: seq<Option<nat>>)
      returns (r: seq<nat>, ghost acc: seq<Option<nat>>)
      requires Valid() && source.Some? && maxUp <= JumpLimit() && zi < 2 && m == Agent()
      requires Gathered(ns0, arena.nodes, centre, AroundColumns(centre.pos)[..4 + 2 * zi], r0, JumpLimit(), FallSpan(maxFallDistance))
      requires Recorded(horizontal, arena.nodes)
      requires Reports(ty, pathTypesByPosCache, Context())
      requires |acc0| == 4 + 2 * zi && Visited(acc0, arena.nodes, m, ty, centre.pos, maxUp, floorLevel, pathType)
      requires Weighed(acc0, table0, ns0, arena.nodes, m, ty, centre.pos, maxUp, floorLevel, pathType)
      requires ColumnsKept(table0, ns0, nodes, arena.nodes, AroundColumns(centre.pos)[..4 + 2 * zi])
      requires r0 == Picks(acc0, arena.nodes, centre, entitySizeInfo.Width(), |acc0|)
      requires forall j :: 0 <= j < 4 ==> HorizontalFaces[j] in horizontal && horizontal[HorizontalFaces[j]] == acc0[j]
      modifies this`nodes, this`pathTypesByPosCache, arena
      ensures Valid()
      ensures CacheGrows(old(pathTypesByPosCache), pathTypesByPosCache, Context())
      ensures Reports(ty, pathTypesByPosCache, Context())
      ensures Gathered(ns0, arena.nodes, centre, AroundColumns(centre.pos)[..4 + 2 * zi + 2], r, JumpLimit(), FallSpan(maxFallDistance))
      ensures Recorded(horizontal, arena.nodes)
      ensures |acc| == |acc0| + 2 && Visited(acc, arena.nodes, m, ty, centre.pos, maxUp, floorLevel, pathType)
      ensures Weighed(acc, table0, ns0, arena.nodes, m, ty, centre.pos, maxUp, floorLevel, pathType)
      ensures ColumnsKept(table0, ns0, nodes, arena.nodes, AroundColumns(centre.pos)[..4 + 2 * zi + 2])
      ensures forall j :: 0 <= j < 4 ==> HorizontalFaces[j] in horizontal && horizontal[HorizontalFaces[j]] == acc[j]
      ensures r == Picks(acc, arena.nodes, centre, entitySizeInfo.Width(), |acc|)
    {
      ghost var ctx := Context();
      ghost var c0 := pathTypesByPosCache;
      CacheGrowth(c0, c0, c0, ctx);
      r := r0;
      acc := acc0;
      for xi := 0 to 2
        invariant Valid() && Context() == ctx && CacheGrows(c0, pathTypesByPosCache, ctx)
        invariant Reports(ty, pathTypesByPosCache, ctx)
        invariant Gathered(ns0, arena.nodes, centre, AroundColumns(centre.pos)[..4 + 2 * zi + xi], r, JumpLimit(), FallSpan(maxFallDistance))
        invariant Recorded(horizontal, arena.nodes)
        invariant |acc| == |acc0| + xi && Visited(acc, arena.nodes, m, ty, centre.pos, maxUp, floorLevel, pathType)
        invariant Weighed(acc, table0, ns0, arena.nodes, m, ty, centre.pos, maxUp, floorLevel, pathType)
        invariant ColumnsKept(table0, ns0, nodes, arena.nodes, AroundColumns(centre.pos)[..4 + 2 * zi + xi])
        invariant forall j :: 0 <= j < 4 ==> HorizontalFaces[j] in horizontal && horizontal[HorizontalFaces[j]] == acc[j]
        invariant r == Picks(acc, arena.nodes, centre, entitySizeInfo.Width(), |acc|)
      {
        ghost var c1 := pathTypesByPosCache;
        r, acc := DiagonalStep(centre, zi, xi, maxUp, floorLevel, pathType, r, horizontal, table0, ns0, ty, m, acc);
        CacheGrowth(c0, c1, pathTypesByPosCache, ctx);
      }
    }

    /** One diagonal column of `Neighbors`, across the `zi`-th of north and south then the `xi`-th of
        east and west: the accepted node is kept when the diagonal rule allows it given what the two
        flanking cardinal columns accepted. */
    method DiagonalStep(centre: Node, zi: nat, xi: nat, maxUp: nat, floorLevel: real, pathType: PathType,
                        r0: seq<nat>, horizontal: map<Face, Option<nat>>, ghost table0: map<Pos, nat>, ghost ns0: seq<Node>,
                        ghost ty: Pos -> PathType, ghost m: Mover, ghost acc0: seq<Option<nat>>)
      returns (r: seq<nat>, ghost acc: seq<Option<nat>>)
      requires Valid() && source.Some? && maxUp <= JumpLimit() && zi < 2 && xi < 2 && m == Agent()
      requires Gathered(ns0, arena.nodes, centre, AroundColumns(centre.pos)[..4 + 2 * zi + xi], r0, JumpLimit(), FallSpan(maxFallDistance))
      requires Recorded(horizontal, arena.nodes)
      requires Reports(ty, pathTypesByPosCache, Context())
      requires |acc0| == 4 + 2 * zi + xi && Visited(acc0, arena.nodes, m, ty, centre.pos, maxUp, floorLevel, pathType)
      requires Weighed(acc0, table0, ns0, arena.nodes, m, ty, centre.pos, maxUp, floorLevel, pathType)
      requires ColumnsKept(table0, ns0, nodes, arena.nodes, AroundColumns(centre.pos)[..4 + 2 * zi + xi])
      requires r0 == Picks(acc0, arena.nodes, centre, entitySizeInfo.Width(), |acc0|)
      requires forall j :: 0 <= j < 4 ==> HorizontalFaces[j] in horizontal && horizontal[HorizontalFaces[j]] == acc0[j]
      modifies this`nodes, this`pathTypesByPosCache, arena
      ensures Valid()
      ensures CacheGrows(old(pathTypesByPosCache), pathTypesByPosCache, Context())
      ensures Reports(ty, pathTypesByPosCache, Context())
      ensures Gathered(ns0, arena.nodes, centre, AroundColumns(centre.pos)[..4 + 2 * zi + xi + 1], r, JumpLimit(), FallSpan(maxFallDistance))
      ensures Recorded(horizontal, arena.nodes)
      ensures |acc| == |acc0| + 1 && Visited(acc, arena.nodes, m, ty, centre.pos, maxUp, floorLevel, pathType)
      ensures Weighed(acc, table0, ns0, arena.nodes, m, ty, centre.pos, maxUp, floorLevel, pathType)
      ensures ColumnsKept(table0, ns0, nodes, arena.nodes, AroundColumns(centre.pos)[..4 + 2 * zi + xi + 1])
      ensures forall j :: 0 <= j < 4 ==> HorizontalFaces[j] in horizontal && horizontal[HorizontalFaces[j]] == acc[j]
      ensures r == Picks(acc, arena.nodes, centre, entitySizeInfo.Width(), |acc|)
    {
      ghost var ctx := Context();
      ghost var c0 := pathTypesByPosCache;
      var faces := DiagonalFaces[2 * zi + xi];
      var zFace, xFace := faces.0, faces.1;
      ghost var k := 4 + 2 * zi + xi;
      var c := centre.pos;
      ghost var table1, ns1 := nodes, arena.nodes;
      var diagonalNode := AcceptedNode(c.Side(zFace).Side(xFace), maxUp, floorLevel, zFace, pathType, ty, m);
      assert Context() == ctx;
      CacheAgrees(ty, c0, pathTypesByPosCache, ctx);
      var add := false;
      if diagonalNode.Some? {
        var n1 := NodeOf(if xFace in horizontal then horizontal[xFace] else None);
        var n2 := NodeOf(if zFace in horizontal then horizontal[zFace] else None);
        add := IsDiagonalValid(centre, n1, n2, arena.nodes[diagonalNode.value], entitySizeInfo.Width());
      }
      DiagonalKeeps(acc0, diagonalNode, arena.nodes, centre, entitySizeInfo.Width(), horizontal);
      ColumnVisited(ns0, ns1, arena.nodes, centre, acc0, diagonalNode, r0, add, m, ty, maxUp, floorLevel, pathType,
                    entitySizeInfo.Width(), JumpLimit(), FallSpan(maxFallDistance));
      WeighedStep(acc0, diagonalNode, table0, ns0, table1, ns1, nodes, arena.nodes, m, ty, centre.pos, maxUp, floorLevel, pathType);
      acc := acc0 + [diagonalNode];
      r := if add then r0 + [diagonalNode.value] else r0;
    }

    /** The current value of the node `id`, when there is one. */
    function NodeOf(id: Option<nat>): (n: Option<Node>)
      requires id.Some? ==> id.value < |arena.nodes|
      reads this`arena, arena
      ensures n.Some? <==> id.Some?
      ensures id.Some? ==> n.value == arena.nodes[id.value]
      ensures n == NodeAt(arena.nodes, id)
    {
      if id.Some? then Some(arena.nodes[id.value]) else None
    }
  }
}
