# Voxel pathfinder core, modelled in Dafny

This project models the search engine of a block-world pathfinder written in Go: the weighted A*
search that finds a walking route between two block positions, and the walk evaluator that decides
which positions an agent of a given size can stand on and step between.

The model covers:

- **Heap.** The indexed binary min-heap of open nodes (`BinaryHeap`). It is keyed on a node's `f`
  and records each node's slot in the node's `heapIdx`.
- **Search records.** `Node` (identity by position, open-set flag, Manhattan distance), `Target`
  (running minimum of the heuristics offered and the node that achieved it) and `Path` (a waypoint
  list with a cursor).
- **Search.** The search loop with its visit budget, distance cap and reach test; relaxation with
  the 1.5 heuristic weight; and the reconstruction of the path from parent links.
- **Terrain.** The 24 terrain classifications with their default costs, and the cost table that
  overrides them.
- **Walk evaluator.** Footprint classification, the column adjustment and neighbour-hazard
  downgrade, door rewriting, and the per-position caches of nodes and classifications. Also the
  cardinal and diagonal acceptance rules, and `AcceptedNode`'s step-up recursion and fall.
- **Fallback classifier.** The "pathfindable" rule that classifies blocks the raw table does not
  name.

Go pointers to nodes become ids into one shared store, the class `NodeArena.Arena`. Its ghost close
stamps show that parent links never form a cycle. The heap, the evaluator's node map and the
search all refer to nodes by id, so a change made through one of them is seen by the others, as
with the Go pointers.

The world is a record of oracle functions (`World.World`):

- the block at a position;
- the block-model boxes at a position;
- the floor height found by a downward ray;
- the collision sweep from the start;
- the side-collision test of a jump.

Euclidean distance and squared distance are function parameters of the search.

Where the code and its documentation disagree, the model follows the code:

- `CheckNeighbourBlocks` looks only at the eight corner blocks around a position, not at all 26
  neighbours.
- The door rewrite tests `canPassDoors` twice and never reads `canOpenDoors`. It turns a closed wood
  door into `WALKABLE_DOOR` and an open door into `BLOCKED` exactly when the agent can pass doors.
- The raw table classifies an open fence gate as `BLOCKED` and a closed one as `OPEN`.

## Model

| member | source | states |
|---|---|---|
| `Heap.BinaryHeap.constructor` | BinaryHeap.go:12-17 | A new heap is empty and satisfies the heap invariants. |
| `Heap.BinaryHeap.Size` | BinaryHeap.go:85-87 | The size is the number of stored nodes. |
| `Heap.BinaryHeap.Peek` | BinaryHeap.go:35-40 | Nothing on an empty heap; otherwise a stored node whose `f` is no greater than any stored node's. |
| `Heap.RootIsMinimum` | BinaryHeap.go:89-133 | In a heap-ordered array the root key is no greater than any other key. |
| `Heap.BinaryHeap.Clear` | BinaryHeap.go:31-33 | Clearing empties the heap (`IsEmpty` holds) and leaves every node, and its recorded slot, unchanged. |
| `Heap.BinaryHeap.Insert` | BinaryHeap.go:19-29 | For an open node: the error result, with heap and nodes unchanged. Otherwise the multiset grows by exactly that node, the size grows by one, the node is open and sits at slot `heapIdx`; heap order and the slot invariant hold after it. |
| `Heap.BinaryHeap.Pop` | BinaryHeap.go:42-57 | Empty heap: nothing, and nothing changes. Otherwise the old root, whose `f` is minimal, is removed from the multiset and its `heapIdx` becomes -1, with the invariants kept. |
| `Heap.BinaryHeap.Remove` | BinaryHeap.go:59-73 | For an open node: the multiset loses exactly that node, the size drops by one, its `heapIdx` becomes -1, and the invariants hold. |
| `Heap.BinaryHeap.ChangeCost` | BinaryHeap.go:75-83 | The node's key becomes the new cost; the same nodes stay stored, and the heap order and slots are restored. |
| `Heap.BinaryHeap.UpHeap` | BinaryHeap.go:89-105 | From a heap that is ordered except at one slot, sifting up restores heap order and the slot invariant without changing the multiset; only slot fields change. |
| `Heap.BinaryHeap.DownHeap` | BinaryHeap.go:106-133 | The same for sifting down. |
| `Targets.Target.constructor` | target.go:12-14 | A new target has no best node, best heuristic +Inf, and is not reached. |
| `Targets.MinOfIsMinimum` | target.go:16-21 | The running minimum is +Inf iff nothing was offered; it is below no offered value and is one of them. |
| `Targets.Target.UpdateBest` | target.go:16-21 | The best heuristic and node change only on a strictly smaller heuristic, so ties keep the earlier node. The best heuristic never increases and stays the minimum of everything offered. A best node exists afterwards; `reached` is untouched. |
| `Targets.Target.BestNode` | target.go:23-25 | A best node exists exactly when some heuristic was offered. |
| `Targets.Target.SetReached` | target.go:27-33 | `Reached()` returns the value set; the best heuristic and node are unchanged. |
| `Nodes.NewNode` | node.go:22-24 | A fresh node is at `pos`, not open, has no parent and is not closed. |
| `Nodes.Abs` | node.go:52-57 | The result is `n` or `-n` and is at least both, so never negative. |
| `Nodes.EqualsIsPositional` | node.go:32-34 | Node equality is an equivalence and ignores costs, slot, type and flags. |
| `Nodes.ManhattanIsMetric` | node.go:37-39 | Manhattan distance is zero on itself, zero iff the positions are equal, symmetric, and obeys the triangle inequality. |
| `Paths.DistanceOf` | path.go:18-26 | +Inf exactly for an empty list; otherwise the Manhattan distance from the last node to the target, zero iff it is at the target. |
| `Paths.Path.constructor` | path.go:18-26 | A new path holds the given nodes. `Reached()` and `Target()` return the given flag and target, and `DistanceToTarget()` the distance above. The cursor is 0, so `NotStarted()` holds. |
| `Paths.Path.Advance` | path.go:28-42 | The cursor grows by exactly one and the nodes are unchanged; a finished path stays finished; afterwards it has started iff the cursor was non-negative. |
| `Paths.Path.EndNode` | path.go:44-51 | Nothing iff the list is empty; otherwise the last node. |
| `Paths.Path.Node` | path.go:53-55 | For an index in range, a waypoint of the path: the one under the cursor when the index is the cursor, and the one just passed when it is one less. |
| `Paths.Path.TruncateNodes` | path.go:57-61 | For a length of at least 0 (`ok`), a longer list becomes its prefix of that length and a shorter one stays as it is. A negative length, which the Go slice bound rejects with a panic, gives `ok` false and leaves the list unchanged. The cursor never changes. |
| `Paths.Path.ReplaceNode` | path.go:63-65 | Only index `i` changes, to the new node; the count and cursor are unchanged. |
| `Paths.Path.Count` | path.go:67-69 | The count is the number of waypoints. |
| `Paths.Path.NextNodeIndex` | path.go:71-73 | The cursor. `NotStarted()` holds iff it is at most 0, and `IsDone()` iff it is at least the waypoint count. |
| `Paths.Path.SetNextNodeIndex` | path.go:75-77 | The cursor becomes `i`; the nodes are unchanged. |
| `Paths.Path.NextNode` | path.go:97-99 | Given `0 <= cursor < Count`, the path is not done and the result is one of its nodes. |
| `Paths.Path.PreviousNode` | path.go:105-107 | Given `1 <= cursor <= Count`, the path has started and the result is one of its nodes. |
| `Paths.Path.Equals` | path.go:109-120 | True iff the lengths match and the positions are pairwise equal. |
| `Paths.SamePositionsIsEquivalence` | path.go:109-120 | Path equality is reflexive, symmetric and transitive. |
| `PathTypes.Ordinal` | path/path_type.go:10-35 | Each classification has its declaration position among the 24. |
| `PathTypes.OrdinalIsPosition` | path/path_type.go:10-35 | The ordinal of the i-th declared classification is i, so the enum order is the declaration order. |
| `PathTypes.Malus` | path/path_type.go:41-93 | Every default cost is in {-1, 0, 4, 8, 16}. It is negative exactly for the seven impassable classifications and `BLOCKED`; 8 exactly for water, water border, danger fire, danger other and honey; 16 exactly for damage fire; 4 exactly for breach. |
| `PathTypes.FreeByDefault` | path/path_type.go:41-93 | The default cost is 0 exactly for the nine free classifications, `UNPASSABLE_RAIL` among them. |
| `CostMaps.LookupOverride` | path/cost_map.go:7-13 | An empty table gives the defaults; an override answers for its own classification and leaves every other lookup unchanged. |
| `CostMaps.CostMap.constructor` | evaluator/config.go:25-27 | A new cost table has no overrides and answers the default cost for every classification. |
| `CostMaps.CostMap.SetPathfindingMalus` | path/cost_map.go:16-18 | Afterwards the lookup of `t` is the new malus and every other lookup is as before. |
| `Configs.WithDefaults` | evaluator/config.go:29-35 | A step-up of 0 becomes 1 and a fall limit of 0 becomes 3; non-zero values and all other fields are kept. |
| `Configs.DefaultsSettle` | evaluator/config.go:29-35 | Defaulting is idempotent and leaves both values non-zero. |
| `Configs.RuntimeIds` | evaluator/config.go:37-41 | The standable liquids map one-to-one, in order, to their runtime ids. |
| `Entities.EntitySizeInfo.WidthInt` | evaluator/entity.go:24-27 | The result is floor(width) + 1: the width lies in `[n-1, n)`, so `n >= 1` for a non-negative width. |
| `Entities.EntitySizeInfo.HeightInt` | evaluator/entity.go:19-22 | The same for the height. |
| `Entities.EntitySizeInfo.DepthInt` | evaluator/entity.go:14-17 | The depth count always equals the width count. |
| `Entities.WaterDepthPercent` | evaluator/entity.go:30-35 | 0 for falling water; otherwise nine times the result is depth + 1, so it lies in (0, 8/9] for depths 0 to 7. |
| `World.PosFromVec3` | evaluator/config.go:45 | The start block contains the start point: each coordinate is floored. |
| `World.Box.Translate` | evaluator/config.go:47 | Translating the agent's box keeps its three extents. |
| `ComputationTypes.DoorRule` | path_computation_type.go:13-22 | Wood and copper doors are pathfindable for land and air exactly when open, and never for water. |
| `ComputationTypes.NeverPathfindable` | path_computation_type.go:24-25 | Slabs, anvils, brewing stands and dragon eggs are never pathfindable. |
| `ComputationTypes.DeadBushRule` | path_computation_type.go:28-34 | A dead bush is pathfindable for air; for land only when its shape is not a full cube; never for water. |
| `ComputationTypes.ShapeRule` | path_computation_type.go:37-48 | Any other block is pathfindable for land and air iff its shape is not a full cube, for water iff it is water, and never for another computation type. |
| `ComputationTypes.AverageEdgeLength` | path_computation_type.go:54-59 | The mean edge is at least the width when the width is the smallest extent and at most it when it is the largest, and equals the edge of a cube. |
| `ComputationTypes.UnitBoxIsFullCube` | path_computation_type.go:50-66 | The unit box is a full cube. |
| `ComputationTypes.FullCubeCount` | path_computation_type.go:50-52 | No box, or two boxes, are never a full cube. |
| `ComputationTypes.NotFullCube` | path_computation_type.go:50-66 | A box whose height exceeds its width by the tolerance, or a cube smaller than a block, is not a full cube. |
| `Terrain.RawTypeRange` | evaluator/walk_node_evaluator.go:618-661 | The raw table never yields a walkable, hazard-tagged, rail or breach classification. An open fence gate is `BLOCKED` and a closed one `OPEN`; any other block is `OPEN` iff its shape is not a full cube. |
| `Terrain.ScanVisitsCorners` | evaluator/walk_node_evaluator.go:593-615 | The neighbour scan reads exactly the eight corner blocks, in x, y, z loop order, and the first hazard met decides. |
| `Terrain.NeighbourTypeReadsCorners` | evaluator/walk_node_evaluator.go:593-615 | Two worlds that agree on the eight corner blocks give the same downgrade, so face and edge neighbours never matter. |
| `Terrain.CheckNeighbourBlocks` | evaluator/walk_node_evaluator.go:593-615 | The triple loop returns the first corner hazard (cactus gives `DANGER_OTHER`, lava, fire or campfire `DANGER_FIRE`, water `WATER_BORDER`), otherwise the type unchanged. |
| `Terrain.RelabelIsBelowHazard` | evaluator/walk_node_evaluator.go:572-582 | Applying the four-entry relabelling table gives the hazard inherited from the cell below where there is one (damage fire, damage other and honey copied, powder snow turned into danger powder snow), and otherwise keeps the type. |
| `Terrain.ColumnAdjustment` | evaluator/walk_node_evaluator.go:560-590 | An open cell above y = -64 takes the hazard below; stays `OPEN` over open air, water or lava; and otherwise becomes walkable ground after the corner downgrade. Every other cell keeps its raw classification. |
| `Terrain.BlockPathType` | evaluator/walk_node_evaluator.go:560-590 | The imperative classification equals the column rule above. |
| `Terrain.EvaluateType` | evaluator/walk_node_evaluator.go:496-507 | Without door passing nothing changes. With it, a closed wood door becomes `WALKABLE_DOOR` and an open door `BLOCKED`; every other classification passes through. |
| `Terrain.FootprintTypes` | evaluator/walk_node_evaluator.go:475-494 | A classification is collected iff some sample under the agent's footprint has it. |
| `Terrain.SortedOfOrdered` | evaluator/walk_node_evaluator.go:488-491 | The sorted list holds exactly the collected classifications, in strictly ascending enum order, so each appears once. |
| `Terrain.FirstNegativeIsLowest` | evaluator/walk_node_evaluator.go:540-546 | The scan finds an impassable classification iff one is present, and it is the lowest-numbered one. |
| `Terrain.BestOfIsLastMaximum` | evaluator/walk_node_evaluator.go:547-552 | The costliest classification wins, and on a tie the later one in scan order. |
| `Terrain.BestOfIsCostliest` | evaluator/walk_node_evaluator.go:547-552 | Over ascending distinct classifications the scan ends on the costliest of them, the later in enum order on a tie, or on the starting `BLOCKED` when that costs strictly more than all of them. |
| `Terrain.CostliestIsUnique` | evaluator/walk_node_evaluator.go:547-552 | That costliest classification is unique, so the choice depends only on the set of sampled classifications. |
| `Terrain.ClassificationRules` | evaluator/walk_node_evaluator.go:534-557 | Footprint choice: a fence anywhere wins; then an unpassable rail; then the impassable classification lowest in enum order. Otherwise, with `b` the costliest classification: the result is `OPEN` exactly when the origin sample is `OPEN`, the agent is at most one block wide and `b` costs 0, and `b` in every other case. |
| `WalkEvaluator.BlockPathTypes` | evaluator/walk_node_evaluator.go:475-494 | When `sample` classifies each sample of the footprint, the triple loop returns the origin sample's classification (the given type for an empty footprint) and exactly the distinct sampled classifications, sorted. |
| `WalkEvaluator.SelectPathType` | evaluator/walk_node_evaluator.go:534-557 | The selection loop equals the footprint choice above. |
| `WalkEvaluator.FirstNegativeOrCostliest` | evaluator/walk_node_evaluator.go:540-552 | The scan reports an impassable classification iff the list holds one, and then returns the first; otherwise it returns the costliest as `BestOf` picks it. |
| `WalkEvaluator.CacheGrowth` | evaluator/walk_node_evaluator.go:510-517 | Filling the classification cache never changes a classification already reported, and growth composes. |
| `WalkEvaluator.AcceptanceRules` | evaluator/walk_node_evaluator.go:239-266 | A kept cardinal is never closed, and is passable unless the origin is not. An accepted diagonal has both flanks, none higher than the node, is open and passable, and involves no walkable door. Each flank is lower, passable, or a fence beside a narrow agent. |
| `WalkEvaluator.DiagonalBetweenBlockedFlanks` | evaluator/walk_node_evaluator.go:244-266 | Between two `BLOCKED` flanks on its own level, a narrow agent is let through diagonally by the rule as written and refused by the corrected rule. |
| `WalkEvaluator.FallEnds` | evaluator/walk_node_evaluator.go:325-354 | A fall ends in its own column. It lands only above the world floor, within the fall limit, on a passable non-open layer under open layers. Otherwise it ends blocked: at its start height, where the fall limit is reached, or on an impassable layer. |
| `WalkEvaluator.FallNodeShape` | evaluator/walk_node_evaluator.go:325-354 | A fall ends in the column of `pos`, never in open air, and within the fall span below `pos`. |
| `WalkEvaluator.BlockHavePartialCollision` | evaluator/walk_node_evaluator.go:424-431 | Each partial-collision classification (a fence, or a closed wood or iron door) is impassable under the default cost table. |
| `WalkEvaluator.TooHighAccepted` | evaluator/walk_node_evaluator.go:269-272 | Nothing is accepted where the floor is higher than the agent can jump. |
| `WalkEvaluator.EnteredAccepted` | evaluator/walk_node_evaluator.go:274-283 | At a walkable or water cell within jump reach, the accepted node is the node entered there. |
| `WalkEvaluator.SettledAccepted` | evaluator/walk_node_evaluator.go:285-362 | At any other cell within reach, the entered node or, under the jump condition, the step-up result, followed by the fall or the closed node, is the accepted node. The node carries what `Weighs` says, measured from before the step-up, and nodes below `pos` only drift. |
| `WalkEvaluator.EnteredFirst` | evaluator/walk_node_evaluator.go:274-283 | Entering the cell first changes only the node at `pos`, and only by a drift. So what the rest of the search gives still carries what `Weighs` says, and the nodes below `pos` still only drift, when measured from before the entering. |
| `WalkEvaluator.EnteringLeaves` | evaluator/walk_node_evaluator.go:274-283 | Raising the node at `pos` to the cost of its classification, and keeping it unless the collision sweep blocks a fence or door departure, gives what `Entering` describes. That node is the prior one with the classification and exactly the larger of the old malus and the cost; its closed flag and other fields are kept. Every other node is unchanged. |
| `WalkEvaluator.AcceptedPriced` | evaluator/walk_node_evaluator.go:269-365 | An entered or landed reach is priced at the cost of its own cell's classification, which is never negative. |
| `WalkEvaluator.RaisedCarries` | evaluator/walk_node_evaluator.go:434-439 | A node given a classification and raised to a cost carries the entered cell: the closed flag is kept, and the malus is the larger of the old one and the cost. |
| `WalkEvaluator.WeighsBack` | evaluator/walk_node_evaluator.go:269-365 | A result weighed against a later state is weighed against an earlier one when its cell only drifted between the two. |
| `WalkEvaluator.KeptBelow` | evaluator/walk_node_evaluator.go:269-365 | A change at a single position, a drift when it lies below a height, is a drift below that height that keeps every column but its own. |
| `WalkEvaluator.JumpedFrom` | evaluator/walk_node_evaluator.go:290-307 | The node accepted one layer up, dropped exactly when it is open or walkable, the agent is narrower than a block and the side is blocked, is the step-up result. When the step-up gives a node, it is the one accepted one layer up. |
| `WalkEvaluator.StepUp` | evaluator/walk_node_evaluator.go:285-309 | Facing an impassable block that is not a fence, door, rail, trapdoor or powder snow, with a passable walkable cell above, the agent reaches that cell, unless it is narrower than a block and the side is blocked. |
| `WalkEvaluator.AcceptedStep` | evaluator/walk_node_evaluator.go:269-365 | Each acceptance is nothing, the cell itself (not open air), the end of the fall from open air, or, with height left to climb, what is accepted one layer up. |
| `WalkEvaluator.AcceptedColumn` | evaluator/walk_node_evaluator.go:269-365 | An accepted node is in the column of `pos` and is never open air. |
| `WalkEvaluator.AcceptedHeight` | evaluator/walk_node_evaluator.go:269-365 | An accepted node is at most `up` layers above `pos` and within the fall span below it. |
| `WalkEvaluator.AcceptedShape` | evaluator/walk_node_evaluator.go:269-365 | Both of the above together. |
| `WalkEvaluator.AroundColumnsOrder` | evaluator/walk_node_evaluator.go:214-233 | The evaluator visits the eight surrounding columns, each exactly once. |
| `WalkEvaluator.GatheredAll` | evaluator/walk_node_evaluator.go:200-236 | After the eight visits the origin node is unchanged and nodes outside the eight columns are unchanged. At most 8 neighbours are returned, one per column, each an accepted neighbour. |
| `WalkEvaluator.WalkNodeEvaluator.constructor` | evaluator/config.go:23-57 | The evaluator takes the defaulted step-up and fall limit. A missing cost table becomes an empty one. It copies the flags, floors the start point to a block, translates the box and maps the liquids one-to-one. It starts with empty caches and no world. |
| `WalkEvaluator.WalkNodeEvaluator.Prepare` | evaluator/walk_node_evaluator.go:122-126 | The world and start are set, and the node map and store are fresh. The classification cache is not cleared. |
| `WalkEvaluator.WalkNodeEvaluator.Done` | evaluator/walk_node_evaluator.go:128-132 | The cache and node map are emptied and the world dropped. |
| `WalkEvaluator.WalkNodeEvaluator.Node` | evaluator/walk_node_evaluator.go:179-187 | A known position returns its node with nothing changed. A new one gets one fresh node with slot -1; only that map entry is added. |
| `WalkEvaluator.WalkNodeEvaluator.StartNodeAt` | evaluator/walk_node_evaluator.go:189-194 | The node at the start position takes its cached classification and that classification's cost. |
| `WalkEvaluator.WalkNodeEvaluator.Goal` | evaluator/walk_node_evaluator.go:196-198 | The goal's node is created or found, and a new target at its position is returned. |
| `WalkEvaluator.WalkNodeEvaluator.NodeAndUpdateCostToMax` | evaluator/walk_node_evaluator.go:434-439 | The node takes the classification, and its malus becomes the larger of the old and the new one, so it never decreases. |
| `WalkEvaluator.WalkNodeEvaluator.BlockedNode` | evaluator/walk_node_evaluator.go:368-374 | The node becomes `BLOCKED` with malus -1. |
| `WalkEvaluator.WalkNodeEvaluator.ClosedNode` | evaluator/walk_node_evaluator.go:355-360 | The node becomes closed, with the classification and its table default malus (not the overridden cost). |
| `WalkEvaluator.WalkNodeEvaluator.MobJumpHeight` | evaluator/walk_node_evaluator.go:442-444 | The jump height is the larger of the default jump height and the step-up. |
| `WalkEvaluator.WalkNodeEvaluator.BlockPathTypeAt` | evaluator/walk_node_evaluator.go:534-557 | The classification computed from the world equals the footprint classifier. |
| `WalkEvaluator.WalkNodeEvaluator.CachedBlockPathType` | evaluator/walk_node_evaluator.go:510-517 | The result is the classification the cache reports for `p`: the stored one, or the one computed from the world. The cache gains exactly that entry and keeps reporting every classification as before. |
| `WalkEvaluator.WalkNodeEvaluator.FallEnd` | evaluator/walk_node_evaluator.go:325-354 | The descent loop ends exactly where `FallFrom` says for the reported classifications. |
| `WalkEvaluator.WalkNodeEvaluator.Fall` | evaluator/walk_node_evaluator.go:325-354 | The node returned is at the position where `FallFrom` ends. A blocked end gives a `BLOCKED` node with malus -1. A landing gives a node with the landing classification whose malus is the larger of its old malus and the landing cost. The closed flag is kept, and only the node at the end changes. |
| `WalkEvaluator.WalkNodeEvaluator.EnterCell` | evaluator/walk_node_evaluator.go:274-283 | `t` is the reported classification of `pos`. The result is what `Entering` gives: a node exists iff its cost is not negative and no fence or door departure is blocked by the collision sweep, and it is the node at `pos` with `t`. That node is the one the table held at `pos` (or a fresh one), with `t` and a malus that is exactly the larger of its old malus and the cost; its closed flag and every other field are kept. Only the node at `pos` changes. |
| `WalkEvaluator.WalkNodeEvaluator.EnterClassified` | evaluator/walk_node_evaluator.go:275-283 | For a cell of known classification `t`, the result is what `Entering` gives, and the entered node is the prior node with `t` and exactly the larger of its old malus and the cost. Only the node at `pos` changes. |
| `WalkEvaluator.WalkNodeEvaluator.RaiseUnlessBlocked` | evaluator/walk_node_evaluator.go:277-283 | A node is raised iff the cost is not negative, and then it is the prior node at `pos` with `t` and the larger malus. It is the result unless the agent leaves a fence or closed door and cannot reach `pos` without a collision. Nothing changes when the cost is negative. |
| `WalkEvaluator.WalkNodeEvaluator.Jump` | evaluator/walk_node_evaluator.go:290-307 | The node returned is the step-up result `Jumped`: what is accepted one layer up with one layer less to climb, dropped when it is open or walkable, the agent is narrower than a block and the box at the side meets a solid block. It carries the malus and closed flag `Weighs` gives, measured from the nodes before the jump. Nodes at or below `pos` only drift, and other columns are unchanged. |
| `WalkEvaluator.WalkNodeEvaluator.Settle` | evaluator/walk_node_evaluator.go:325-363 | From open air the node returned is where the fall from `pos` ends, and it always exists; it carries the malus the fall gives it (`Weighs`). Otherwise an existing result stands and no node changes. With no result, a fence or closed door gives a closed node at `pos` of that classification, with the table default malus of that classification. Any other cell gives nothing and no node changes. Nodes below `pos` only drift, and other columns are unchanged. |
| `WalkEvaluator.WalkNodeEvaluator.AcceptedNode` | evaluator/walk_node_evaluator.go:269-365 | For the classifications the cache reports, the node returned is the one `Accepted` describes. That is nothing when the floor is out of jump reach, and then nothing changes. A walkable or water cell gives its own node when passable and reachable. Open air gives where the fall ends. Any other cell gives its own node when passable, else the step-up result when the agent may climb it, else a closed node for a fence or closed door. The node carries what `Weighs` says, measured from the nodes before the call. An entered or landed node keeps its closed flag, and its malus is the larger of the old malus and the cell's cost. A blocked fall end has malus -1. A closed node is closed, with the default malus of its classification. Nodes below `pos` only drift (`DriftsBelow`), and no other column changes. |
| `WalkEvaluator.WalkNodeEvaluator.AcceptedWithinReach` | evaluator/walk_node_evaluator.go:274-364 | Within jump reach, entering the cell and then, for a cell neither walkable nor water, the step-up, fall or closed node give the node `Accepted` describes. That node carries what `Weighs` says, nodes below `pos` only drift, and other columns are unchanged. |
| `WalkEvaluator.WalkNodeEvaluator.StepOrFall` | evaluator/walk_node_evaluator.go:285-362 | At a cell neither walkable nor water within jump reach, starting from the node entering it gave, the node returned is the one `Accepted` describes. It carries what `Weighs` says, measured from the nodes before the step. Nodes below `pos` only drift, and other columns are unchanged. |
| `WalkEvaluator.WalkNodeEvaluator.SettleStepped` | evaluator/walk_node_evaluator.go:309-362 | The node the step-up gave, followed by the fall from open air or the closed node, is the node `Accepted` describes. It carries what `Weighs` says, measured from the nodes before the step-up. |
| `WalkEvaluator.WalkNodeEvaluator.StepUpIfStuck` | evaluator/walk_node_evaluator.go:285-308 | With no passable node and height left to climb, at a cell that is not a fence the agent may not walk over, a rail, a trapdoor or powder snow, the result is the step-up result; otherwise the entered node stands. Either way the result carries what `Weighs` says, and nodes at or below `pos` only drift. |
| `WalkEvaluator.EnteredStays` | evaluator/walk_node_evaluator.go:285-290 | When the step-up is not taken, the node entering gave stands: it carries the entering from its own prior node, no node drifts and no column changes. |
| `WalkEvaluator.WalkNodeEvaluator.MarkClosed` | evaluator/walk_node_evaluator.go:355-360 | Only the given node changes: it becomes closed, with the given classification and that classification's default malus. |
| `WalkEvaluator.WalkNodeEvaluator.FloorLevel` | evaluator/walk_node_evaluator.go:447-455 | In water, for an agent that floats, the floor is half a block above the position. Everywhere else it is the world's floor level at the position. |
| `WalkEvaluator.WalkNodeEvaluator.SinkThroughWaterAsWritten` | evaluator/walk_node_evaluator.go:311-324 | For an agent that cannot float, above the world floor the descent always ends the search for a node. At the floor it ends it iff the cell below is water. A floating agent goes on. |
| `WalkEvaluator.WalkNodeEvaluator.JumpAsWritten` | evaluator/walk_node_evaluator.go:285-308 | The written step-up returns a node of the store and changes only nodes of its own column. |
| `WalkEvaluator.WalkNodeEvaluator.DescendAsWritten` | evaluator/walk_node_evaluator.go:309-365 | Above the world floor, an agent that cannot float keeps the node it had, and no node changes. |
| `WalkEvaluator.WalkNodeEvaluator.StepOrFallAsWritten` | evaluator/walk_node_evaluator.go:285-364 | As written, an agent that cannot float, above the world floor with a passable entered node, gets that node back and no node changes. |
| `WalkEvaluator.WalkNodeEvaluator.AcceptedNodeAsWritten` | evaluator/walk_node_evaluator.go:269-365 | As written, an agent that cannot float, stepping above the world floor into a passable open cell, is handed the open node at that cell instead of falling. |
| `WalkEvaluator.WalkNodeEvaluator.JumpLimit` | evaluator/walk_node_evaluator.go:208-210 | The step-up allowance is at least 1 and at most the larger of 1 and the step-up. |
| `WalkEvaluator.WalkNodeEvaluator.Headroom` | evaluator/walk_node_evaluator.go:202-210 | The origin's classification, and a step-up allowance equal to the jump limit exactly when the cell above has a non-negative cost and the origin is not sticky honey, 0 otherwise. |
| `WalkEvaluator.WalkNodeEvaluator.Neighbors` | evaluator/walk_node_evaluator.go:200-236 | It visits the eight columns around the node in the Go order: the four cardinals, then north-east, north-west, south-east and south-west. Each visit gives the node `Accepted` describes, with the origin's headroom and floor level. That node carries what `Weighs` says, measured from the nodes before the call (`Weighed`). It returns exactly the kept ones in visiting order (`Picks`): a cardinal when `IsNeighborValid` holds, a diagonal when `IsDiagonalValid` holds for it and its two flanking cardinals. At most 8 are returned, no two in one column, and only the eight columns change. |
| `WalkEvaluator.WalkNodeEvaluator.Cardinals` | evaluator/walk_node_evaluator.go:215-222 | The four cardinal visits give the nodes `Accepted` describes, recorded under their faces; each carries what `Weighs` says, measured from before the visits. Only the four cardinal columns change. The list keeps the ones `IsNeighborValid` allows, in face order. |
| `WalkEvaluator.WalkNodeEvaluator.CardinalStep` | evaluator/walk_node_evaluator.go:216-221 | One cardinal visit extends the visits by its accepted node, which carries what `Weighs` says, measured from before the first visit. It records the node under its face and appends it when the cardinal rule keeps it. Only the columns visited so far have changed. |
| `WalkEvaluator.WalkNodeEvaluator.Diagonals` | evaluator/walk_node_evaluator.go:224-233 | The four diagonal visits extend the visits to all eight, each node carrying what `Weighs` says, measured from before the first visit. The list gains the ones `IsDiagonalValid` allows, given the recorded nodes of their flanking cardinals. |
| `WalkEvaluator.WalkNodeEvaluator.VisitAround` | evaluator/walk_node_evaluator.go:214-233 | All eight column visits, cardinal then diagonal, give the nodes `Accepted` describes, each carrying what `Weighs` says from before the first visit. The list is the one `Picks` keeps, and it holds neighbours only, at most one per column. |
| `WalkEvaluator.WalkNodeEvaluator.DiagonalRow` | evaluator/walk_node_evaluator.go:225-232 | The two diagonal visits beside one of north and south, east then west, extend the visits, their weighing and the list the same way. Only the columns visited so far have changed. |
| `WalkEvaluator.WalkNodeEvaluator.DiagonalStep` | evaluator/walk_node_evaluator.go:227-231 | One diagonal visit extends the visits by its accepted node, which carries what `Weighs` says, measured from before the first visit. It appends the node when the diagonal rule allows it. Only the columns visited so far have changed. |
| `WalkEvaluator.WeighedStep` | evaluator/walk_node_evaluator.go:214-233 | A column visit that keeps the other columns and weighs its own node extends the weighed visits by one. The earlier visits' nodes keep what they carried, since they lie in other columns. |
| `WalkEvaluator.ColumnFresh` | evaluator/walk_node_evaluator.go:214-233 | Each column visit after the first `k` lies in its own column, which none of the earlier visits used. |
| `WalkEvaluator.WeighedAppend` | evaluator/walk_node_evaluator.go:214-233 | A weighed next visit extends the weighed visits by one. |
| `WalkEvaluator.WeighsAcross` | evaluator/walk_node_evaluator.go:214-233 | A node carries its reach from an earlier table when the tables agree on every column except ones that do not hold the reach's cell. |
| `WalkEvaluator.WeighedKept` | evaluator/walk_node_evaluator.go:214-233 | A visit confined to the next column leaves the earlier visits weighed. |
| `WalkEvaluator.VisitedFrame` | evaluator/walk_node_evaluator.go:214-233 | A visit confined to the next column leaves the nodes of the earlier visits unchanged. |
| `PathFinder.OpenNodesCosted` | path_finder.go:32-35 | Every open node has `f == g + h`. |
| `PathFinder.OpenSetSurvivesEvaluation` | path_finder.go:54 | Evaluating neighbours keeps the open set a valid heap of exactly the open nodes. |
| `PathFinder.BestHeuristic` | path_finder.go:80-90 | The heuristic is the distance to the target; the target is offered it and takes the node on a strict improvement. |
| `PathFinder.Relax` | path_finder.go:56-72 | `walkedDistance` is overwritten first. The neighbour is relaxed iff `Relaxes` holds: the new walked distance is below the cap, and the neighbour is not open or the new `g` is smaller. The node becomes `Relaxed`: when relaxed, its parent is the current node, `g` is as computed, `h` is the heuristic times 1.5 and `f == g + h`; otherwise only `walkedDistance` changes. It is open afterwards iff it was open or was relaxed. Every other node keeps its open status, and only a relaxed node's heuristic is offered to the target. |
| `PathFinder.Update` | path_finder.go:61-70 | The neighbour's parent, `g`, `h` and `f` are set, and it is open. |
| `PathFinder.Rekey` | path_finder.go:65-66 | An open neighbour is rekeyed to `g + h` and stays open, with the heap valid. |
| `PathFinder.Enter` | path_finder.go:67-69 | A neighbour not open gets `f = g + h` and is inserted. |
| `PathFinder.Expand` | path_finder.go:54-72 | The neighbours are the ones the evaluator picks (`PickedAround`) from its eight column visits, each the node `Accepted` describes and carrying what `Weighs` says, measured from before the expansion. Each neighbour ends as the edge from the current node relaxes it, and is open iff it was open or was relaxed. Every other node changes at most its heap slot and keeps its open status. `reached` is kept. |
| `PathFinder.RelaxEach` | path_finder.go:56-72 | Relaxing each distinct, unclosed neighbour in turn gives exactly that expansion over the store before the loop. |
| `PathFinder.ExpandedStep` | path_finder.go:56-72 | Relaxing one more neighbour extends the expansion over the first `i` neighbours to the first `i + 1`. |
| `PathFinder.RelaxedIgnoresSlot` | path_finder.go:56-72 | Relaxation depends on a node's values and open status, not on its heap slot. |
| `PathFinder.OpenIsMember` | node.go:26-29 | Over a valid heap, a node is open exactly when the heap holds it. |
| `PathFinder.OpenKeptByHeap` | BinaryHeap.go:19-83 | A heap operation that keeps the heap's contents, or adds one node to them, keeps every other node open or not as it was. |
| `PathFinder.Visit` | path_finder.go:46-47 | The popped node is the old root, of minimal `f`. The heap loses one entry and no longer holds it. The popped node only leaves the heap and becomes closed; every other node changes at most its heap slot. |
| `PathFinder.Round` | path_finder.go:40-73 | One round pops and closes a minimal node, and sets `reached` iff that node is within reach of the goal. It expands the node exactly when it is not reached and its squared distance from the start is below the squared cap, and then the expansion above holds, with the neighbours the evaluator picks. Otherwise no other node changes beyond its heap slot and nothing is offered. |
| `PathFinder.CountedRound` | path_finder.go:40-73 | One round of the loop grows the store. It sets `reached` iff the popped node, now closed, is within reach of the goal. The earlier visited nodes stay visited, and an unreached popped node joins them. |
| `PathFinder.Search` | path_finder.go:39-74 | At most `maxVisitedNodes - 1` pops, all closed. When reached, the last pop is within reach and no earlier one was. When not reached, no pop was within reach. It stops only when the target is reached, when the open set is empty and no node is open, or when the visit budget is spent. |
| `PathFinder.ReverseProperties` | path_finder.go:100 | Reversal is an involution and moves an appended node to the front. |
| `PathFinder.ReverseInPlace` | path_finder.go:100 | The array becomes the reverse of its old contents. |
| `PathFinder.CollectChain` | path_finder.go:95-99 | The loop collects the parent chain of the best node, last first. |
| `PathFinder.ReconstructPath` | path_finder.go:93-102 | The path holds the nodes of that chain, root excluded, in order, with the goal and the reached flag. |
| `PathFinder.PathFollowsParents` | path_finder.go:93-102 | The path is empty iff the best node has no parent; otherwise it ends at the best node. Its first entry's parent is the parentless root, and each entry's parent is the previous entry. |
| `NodeArena.ChainFollowsParents` | path_finder.go:95-99 | The chain follows parent links back to a parentless root. |
| `NodeArena.ChainIsAcyclic` | path_finder.go:59-61 | Parents are closed before their children, so no node repeats in a chain and reconstruction ends. |
| `NodeArena.Arena.Append` | evaluator/walk_node_evaluator.go:181-185 | A new node gets the next id and the store grows by it. |
| `NodeArena.Arena.Close` | path_finder.go:47 | Only the closed flag of that node changes. |
| `NodeArena.Arena.SetParent` | path_finder.go:61 | Only the parent of that node changes, and the parent is closed. |
| `PathFinder.OpenStart` | path_finder.go:31-35 | The start node gets `g = 0` and `f = h` (the unweighted heuristic), and the target's best node becomes the start. The heap holds only the start. |
| `PathFinder.Begin` | path_finder.go:15-19 | `Prepare`, then the start node, then the goal: a fresh store, a start node with no parent and a fresh target. |
| `PathFinder.FindPathFrom` | path_finder.go:30-77 | The budget and reach results of `Search` hold, and so does its stopping condition: reached, no node open, or the budget spent. The path is the reconstructed chain of the target's best node. With no pops and a parentless start, the start stays the best node and the path is empty. |
| `PathFinder.FindPath` | path_finder.go:15-27 | The whole run ends with `Done`. The path holds the chain of parents that ends at the target's best node, without the chain's root. The budget and reach results hold. The run stops only when the path is reached, no node is open, or the visit budget is spent. With `maxVisitedNodes <= 1` the path is empty and not reached. |

## Left out

- World geometry is not modelled. Block lookup, block-model boxes, the floor-level ray cast with its panic recovery, the collision sweep and the side-collision box are oracle functions of `World.World`.
- Euclidean distance, squared distance and IEEE floating point are not modelled. Distances are abstract real functions passed to the search, and costs are `real`.
- The start-position column scan (`StartNode`, `isEntityUnderwater`, `CanStandOnFluid`) is not modelled: `PathFinder.FindPath` takes the resolved start position. That scan depends on liquid block types and float water depth, and its standable-liquid loop never re-reads its condition.
- `EntityPosAtNode`, `NextEntityPosition`, `NodePos` and `NextNodePos` on `Path` are not modelled: they are float vector arithmetic on entity boxes.
- The older revision files of the library and internal/util/util.go are not part of this model. They duplicate the modelled logic and cannot be built beside it.
- `TargetFromNode` and the flag getters and setters of the evaluator are not modelled. They are one-line field accesses; `Goal` builds the target directly.
- `PathFinder.Search` takes the evaluator as a concrete class rather than the `NodeEvaluator` interface, which has a single implementation here.
- The heap's Go map keyed by slot becomes a sequence. Keys past the size that are left behind by `Clear` cannot be observed, so they are not modelled.
- The Go pointers become ids into the node store. A target keeps the goal position rather than a copy of the goal node.
- `Heap.BinaryHeap.Insert` returns no error text, only the absence of a result.
- Concurrency: the code has none.
- `WalkEvaluator.WalkNodeEvaluator.AcceptedNode` has no water descent, by choice of reading. The corrected member reads the descent at evaluator/walk_node_evaluator.go:311-324 as applying to a water cell only. The outer guard at line 285 already keeps water cells out of that branch, so under this reading the descent never runs. The other plausible reading runs the descent whenever the cell below is water. Under it, a non-floating agent moving into a cell that is neither walkable nor water, with water below, would sink through the water layers and take a node on them. That behaviour is not modelled: the model gives such a cell the step-up, fall or closed-node result instead.
- `WalkEvaluator.WalkNodeEvaluator.AcceptedNode`, `WalkEvaluator.WalkNodeEvaluator.Neighbors`, `WalkEvaluator.WalkNodeEvaluator.Jump`, `WalkEvaluator.WalkNodeEvaluator.Settle`, `WalkEvaluator.WalkNodeEvaluator.AcceptedWithinReach`, `WalkEvaluator.WalkNodeEvaluator.StepOrFall`, `WalkEvaluator.WalkNodeEvaluator.SettleStepped`, `WalkEvaluator.WalkNodeEvaluator.StepUpIfStuck`, `WalkEvaluator.WalkNodeEvaluator.VisitAround`, `WalkEvaluator.WalkNodeEvaluator.Cardinals`, `WalkEvaluator.WalkNodeEvaluator.CardinalStep`, `WalkEvaluator.WalkNodeEvaluator.Diagonals`, `WalkEvaluator.WalkNodeEvaluator.DiagonalRow`, `WalkEvaluator.WalkNodeEvaluator.DiagonalStep`, `PathFinder.Expand` and `PathFinder.Round` state the malus of an entered or landed node through `Weighs`. That gives the larger of the node's old malus and the cost, or the cost alone. The second case arises when a fall earlier in the same visit blocked that cell (malus -1) before it was entered. The model does not track which of the two happened. `WalkEvaluator.WalkNodeEvaluator.EnterCell` and `WalkEvaluator.WalkNodeEvaluator.Fall` each make one update, and they state the larger of the two exactly.
- `Paths.Path.TruncateNodes`: the Go panic on a negative length is modelled as an `ok` result of false with the path unchanged.
- `Reached`, `Target`, `DistanceToTarget`, `NotStarted` and `IsDone` on `Path`, and `Reached` on `Target`, are one-field reads with no contract of their own. The constructor, `SetReached`, `Advance` and `NextNodeIndex` state their values.
- `WalkEvaluator.WalkNodeEvaluator.StepOrFallAsWritten`, `DescendAsWritten` and `JumpAsWritten` state the frame, the cache growth and the early return, not which node they end with. They exist to exhibit the second finding below.

## Findings

| source | as written | input that shows it | evidently intended | confidence | as-written member | corrected member |
|---|---|---|---|---|---|---|
| evaluator/walk_node_evaluator.go:255-263 | `isFence` holds when none of the three cells is `FENCE` (`!=`), so a narrow agent may cut between any two impassable flanks | an agent 0.3 wide, both flanks `BLOCKED` with malus -1 on its own level, a passable walkable diagonal | a flank that is a fence is exempt for an agent narrower than half a block (`==`) | high, not executed | `WalkEvaluator.IsDiagonalValidAsWritten` (lemma `WalkEvaluator.DiagonalBetweenBlockedFlanks`) | `WalkEvaluator.IsDiagonalValid` |
| evaluator/walk_node_evaluator.go:311-324 | for an agent that cannot float (the default), the water descent runs for every non-walkable cell, compares the cell below with `== WATER`, and returns before the fall whenever the position is above the world floor | `CanFloat` false, a step sideways at y = 10 into a passable `OPEN` cell above a drop | the descent applies only to a water cell and returns when the cell below is not water, so an open cell leads to the fall; a second plausible reading runs the descent whenever the cell below is water, so that an agent over water sinks through it, and the corrected member does not take it (see "## Left out") | medium, not executed | `WalkEvaluator.WalkNodeEvaluator.AcceptedNodeAsWritten` (with `SinkThroughWaterAsWritten`) | `WalkEvaluator.WalkNodeEvaluator.AcceptedNode` |

The neighbour search (`Neighbors`) uses both corrected members.
