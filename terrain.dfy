/** Terrain classification of block positions: the raw per-block table, the column adjustment
    that looks at the block below, the hazard downgrade that looks at the corner neighbours, the
    door rewrite, and the footprint rule that combines the samples under an agent into one
    classification. The functions here are the specification; the loops of the Go code are
    methods proved equal to them. */
module Terrain {
  import opened Wrappers
  import opened World
  import opened PathTypes
  import opened ComputationTypes
  import opened Entities
  import opened CostMaps

  /*** The raw table ***/

  /** The classification of the block at `p` on its own. */
  function RawType(w: World, p: Pos): PathType {
    match w.block(p)
    case Air => OPEN
    case CopperTrapdoor => TRAPDOOR
    case WoodTrapdoor => TRAPDOOR
    case Cactus => DAMAGE_OTHER
    case CocoaBean => COCOA
    case Water(_, _) => WATER
    case Lava => LAVA
    case Fire => DAMAGE_FIRE
    case Campfire => DAMAGE_FIRE
    case WoodDoor(open) => if !open then DOOR_WOOD_CLOSED else DOOR_OPEN
    case CopperDoor(open) => if !open then DOOR_IRON_CLOSED else DOOR_OPEN
    case Leaves => LEAVES
    case WoodFence => FENCE
    case Wall => FENCE
    case WoodFenceGate(open) => if open then BLOCKED else OPEN
    case _ => if Pathfindable(Land, w.block(p), w.boxes(p)) then OPEN else BLOCKED
  }

  /** The raw table never yields WALKABLE or a hazard-tagged variant: those arise only from the
      column adjustment. An open fence gate is BLOCKED and a closed one OPEN. */
  lemma RawTypeRange(w: World, p: Pos)
    ensures RawType(w, p) !in {WALKABLE, WALKABLE_DOOR, DANGER_POWDER_SNOW, DANGER_FIRE, DANGER_OTHER,
                               WATER_BORDER, POWDER_SNOW, STICKY_HONEY, RAIL, UNPASSABLE_RAIL, BREACH}
    ensures w.block(p) == WoodFenceGate(true) ==> RawType(w, p) == BLOCKED
    ensures w.block(p) == WoodFenceGate(false) ==> RawType(w, p) == OPEN
    ensures w.block(p).OtherBlock? ==> (RawType(w, p) == OPEN <==> !IsFullCube(w.boxes(p)))
  {
    if w.block(p).OtherBlock? {
      ShapeRule(Land, w.block(p), w.boxes(p));
    }
  }

  /*** The corner-neighbour downgrade ***/

  /** The hazard a neighbouring block signals, if any. */
  function HazardOf(b: Block): Option<PathType> {
    match b
    case Cactus => Some(DANGER_OTHER)
    case Lava => Some(DANGER_FIRE)
    case Fire => Some(DANGER_FIRE)
    case Campfire => Some(DANGER_FIRE)
    case Water(_, _) => Some(WATER_BORDER)
    case _ => None
  }

  /** The first hazard met scanning offset `z` upwards from `z` to 1 in the row (`x`, `y`),
      skipping offsets with a zero component. */
  function ScanZ(w: World, p: Pos, x: int, y: int, z: int): Option<PathType>
    decreases 2 - z
  {
    if z > 1 then None
    else if x == 0 || y == 0 || z == 0 then ScanZ(w, p, x, y, z + 1)
    else
      var hz := HazardOf(w.block(p.Add(x, y, z)));
      if hz.Some? then hz else ScanZ(w, p, x, y, z + 1)
  }

  /** The first hazard met scanning rows `y` to 1 of layer `x`. */
  function ScanY(w: World, p: Pos, x: int, y: int): Option<PathType>
    decreases 2 - y
  {
    if y > 1 then None
    else
      var hz := ScanZ(w, p, x, y, -1);
      if hz.Some? then hz else ScanY(w, p, x, y + 1)
  }

  /** The first hazard met scanning layers `x` to 1. */
  function ScanX(w: World, p: Pos, x: int): Option<PathType>
    decreases 2 - x
  {
    if x > 1 then None
    else
      var hz := ScanY(w, p, x, -1);
      if hz.Some? then hz else ScanX(w, p, x + 1)
  }

  /** The classification `t` of `p`, downgraded by the first hazard among its neighbours. */
  function NeighbourType(w: World, p: Pos, t: PathType): PathType {
    var hz := ScanX(w, p, -1);
    if hz.Some? then hz.value else t
  }

  /** The eight corner offsets, in the order the scan visits them. */
  const Corners: seq<(int, int, int)> := [
    (-1, -1, -1), (-1, -1, 1), (-1, 1, -1), (-1, 1, 1),
    (1, -1, -1), (1, -1, 1), (1, 1, -1), (1, 1, 1)]

  /** The first hazard among the blocks at the offsets `cs` from `p`. */
  function FirstHazard(w: World, p: Pos, cs: seq<(int, int, int)>): Option<PathType> {
    if |cs| == 0 then None
    else
      var hz := HazardOf(w.block(p.Add(cs[0].0, cs[0].1, cs[0].2)));
      if hz.Some? then hz else FirstHazard(w, p, cs[1..])
  }

  /** The scan looks at the eight corner blocks only, in a fixed order: face and edge neighbours
      (offsets with a zero component) are never inspected. */
  lemma ScanVisitsCorners(w: World, p: Pos)
    ensures ScanX(w, p, -1) == FirstHazard(w, p, Corners)
  {
    LayerScan(w, p, -1);
    LayerScan(w, p, 0);
    LayerScan(w, p, 1);
    assert ScanX(w, p, 2) == None;
    assert Corners[..4] == [(-1, -1, -1), (-1, -1, 1), (-1, 1, -1), (-1, 1, 1)];
    assert Corners[4..] == [(1, -1, -1), (1, -1, 1), (1, 1, -1), (1, 1, 1)];
    assert ScanX(w, p, 1) == FirstHazard(w, p, Corners[4..]);
    assert ScanX(w, p, -1) == if FirstHazard(w, p, Corners[..4]).Some? then FirstHazard(w, p, Corners[..4]) else FirstHazard(w, p, Corners[4..]);
    FirstHazardAppend(w, p, Corners[..4], Corners[4..]);
    assert Corners[..4] + Corners[4..] == Corners;
  }

  /** The scan of one layer visits its four corners. */
  lemma LayerScan(w: World, p: Pos, x: int)
    ensures x == 0 ==> ScanY(w, p, x, -1) == None
    ensures x != 0 ==> ScanY(w, p, x, -1) == FirstHazard(w, p, [(x, -1, -1), (x, -1, 1), (x, 1, -1), (x, 1, 1)])
  {
    RowScan(w, p, x, -1);
    RowScan(w, p, x, 0);
    RowScan(w, p, x, 1);
    assert ScanY(w, p, x, 2) == None;
    FirstHazardAppend(w, p, [(x, -1, -1), (x, -1, 1)], [(x, 1, -1), (x, 1, 1)]);
    assert [(x, -1, -1), (x, -1, 1)] + [(x, 1, -1), (x, 1, 1)] == [(x, -1, -1), (x, -1, 1), (x, 1, -1), (x, 1, 1)];
  }

  /** The scan of one row visits its two corners. */
  lemma RowScan(w: World, p: Pos, x: int, y: int)
    ensures x == 0 || y == 0 ==> ScanZ(w, p, x, y, -1) == None
    ensures x != 0 && y != 0 ==> ScanZ(w, p, x, y, -1) == FirstHazard(w, p, [(x, y, -1), (x, y, 1)])
  {
    var c: seq<(int, int, int)> := [(x, y, -1), (x, y, 1)];
    assert ScanZ(w, p, x, y, 2) == None;
    assert ScanZ(w, p, x, y, 0) == ScanZ(w, p, x, y, 1);
    assert |c[1..][1..]| == 0;
    assert FirstHazard(w, p, c[1..][1..]) == None;
    if x != 0 && y != 0 {
      assert ScanZ(w, p, x, y, 1) == FirstHazard(w, p, c[1..]);
      assert ScanZ(w, p, x, y, -1) == FirstHazard(w, p, c);
    }
  }

  lemma {:induction false} FirstHazardAppend(w: World, p: Pos, a: seq<(int, int, int)>, b: seq<(int, int, int)>)
    ensures FirstHazard(w, p, a + b) == if FirstHazard(w, p, a).Some? then FirstHazard(w, p, a) else FirstHazard(w, p, b)
  {
    if |a| > 0 {
      assert (a + b)[1..] == a[1..] + b;
      FirstHazardAppend(w, p, a[1..], b);
    } else {
      assert a + b == b;
    }
  }

  /** Two worlds that agree on the eight corner blocks of `p` downgrade `p` alike. */
  lemma NeighbourTypeReadsCorners(w: World, v: World, p: Pos, t: PathType)
    requires forall i :: 0 <= i < |Corners| ==>
      w.block(p.Add(Corners[i].0, Corners[i].1, Corners[i].2)) == v.block(p.Add(Corners[i].0, Corners[i].1, Corners[i].2))
    ensures NeighbourType(w, p, t) == NeighbourType(v, p, t)
  {
    ScanVisitsCorners(w, p);
    ScanVisitsCorners(v, p);
    HazardScanAgrees(w, v, p, Corners);
  }

  lemma {:induction false} HazardScanAgrees(w: World, v: World, p: Pos, cs: seq<(int, int, int)>)
    requires forall i :: 0 <= i < |cs| ==> w.block(p.Add(cs[i].0, cs[i].1, cs[i].2)) == v.block(p.Add(cs[i].0, cs[i].1, cs[i].2))
    ensures FirstHazard(w, p, cs) == FirstHazard(v, p, cs)
  {
    if |cs| > 0 {
      assert w.block(p.Add(cs[0].0, cs[0].1, cs[0].2)) == v.block(p.Add(cs[0].0, cs[0].1, cs[0].2));
      HazardScanAgrees(w, v, p, cs[1..]);
    }
  }

  /** The downgrade: the first corner neighbour that is a cactus, fire-like or water decides;
      without one the classification is kept. */
  method CheckNeighbourBlocks(w: World, p: Pos, t: PathType) returns (r: PathType)
    ensures r == NeighbourType(w, p, t)
  {
    for x := -1 to 2
      invariant ScanX(w, p, -1) == ScanX(w, p, x)
    {
      for y := -1 to 2
        invariant ScanY(w, p, x, -1) == ScanY(w, p, x, y)
      {
        for z := -1 to 2
          invariant ScanZ(w, p, x, y, -1) == ScanZ(w, p, x, y, z)
        {
          if x == 0 || y == 0 || z == 0 {
            continue;
          }
          var hz := HazardOf(w.block(p.Add(x, y, z)));
          if hz.Some? {
            return hz.value;
          }
        }
      }
    }
    return t;
  }

  /*** The column adjustment ***/

  /** The hazard that an OPEN cell inherits from the block below it. */
  function BelowHazard(down: PathType): Option<PathType> {
    match down
    case DAMAGE_FIRE => Some(DAMAGE_FIRE)
    case DAMAGE_OTHER => Some(DAMAGE_OTHER)
    case STICKY_HONEY => Some(STICKY_HONEY)
    case POWDER_SNOW => Some(DANGER_POWDER_SNOW)
    case _ => None
  }

  /** The Go code's relabelling table for the block below, as (below, result) pairs. */
  const BelowTable: seq<(PathType, PathType)> := [
    (DAMAGE_FIRE, DAMAGE_FIRE), (DAMAGE_OTHER, DAMAGE_OTHER), (STICKY_HONEY, STICKY_HONEY),
    (POWDER_SNOW, DANGER_POWDER_SNOW)]

  /** `t` after every entry of `table` whose key is `down` has overwritten it, in table order. */
  function Relabel(table: seq<(PathType, PathType)>, down: PathType, t: PathType): PathType {
    if |table| == 0 then t
    else
      var r := Relabel(table[..|table| - 1], down, t);
      if table[|table| - 1].0 == down then table[|table| - 1].1 else r
  }

  /** Running the relabelling table amounts to the hazard rule. */
  lemma RelabelIsBelowHazard(down: PathType, t: PathType)
    ensures Relabel(BelowTable, down, t) == if BelowHazard(down).Some? then BelowHazard(down).value else t
  {
    var t1 := Relabel(BelowTable[..1], down, t);
    var t2 := Relabel(BelowTable[..2], down, t);
    var t3 := Relabel(BelowTable[..3], down, t);
    var e := BelowTable[..1];
    assert |e| == 1 && e[0] == (DAMAGE_FIRE, DAMAGE_FIRE) && |e[..0]| == 0;
    assert Relabel(e[..0], down, t) == t;
    assert t1 == if down == DAMAGE_FIRE then DAMAGE_FIRE else t;
    assert BelowTable[..2][..1] == BelowTable[..1];
    assert t2 == if down == DAMAGE_OTHER then DAMAGE_OTHER else t1;
    assert BelowTable[..3][..2] == BelowTable[..2];
    assert t3 == if down == STICKY_HONEY then STICKY_HONEY else t2;
    assert BelowTable[..3] == BelowTable[..|BelowTable| - 1];
    assert Relabel(BelowTable, down, t) == if down == POWDER_SNOW then DANGER_POWDER_SNOW else t3;
  }

  /** The classification of the cell at `p` after the column adjustment and the downgrade. */
  function ColumnType(w: World, p: Pos): PathType {
    var raw := RawType(w, p);
    var t :=
      if raw == OPEN && p.y >= -64 + 1 then
        var down := RawType(w, p.Down());
        var base := if down != WALKABLE && down != OPEN && down != WATER && down != LAVA then WALKABLE else OPEN;
        if BelowHazard(down).Some? then BelowHazard(down).value else base
      else raw;
    if t == WALKABLE then NeighbourType(w, p, t) else t
  }

  /** An OPEN cell above the bottom layer stays OPEN over open air, water or lava, inherits the
      hazard of fire, damaging blocks, honey or powder snow below, and otherwise is walkable
      ground, downgraded by its corner neighbours. Every other cell keeps its raw classification. */
  lemma ColumnAdjustment(w: World, p: Pos)
    ensures var raw := RawType(w, p); var down := RawType(w, p.Down());
      && (raw == OPEN && p.y >= -63 ==>
            ColumnType(w, p) ==
              if down in {DAMAGE_FIRE, DAMAGE_OTHER, STICKY_HONEY} then down
              else if down == POWDER_SNOW then DANGER_POWDER_SNOW
              else if down in {OPEN, WATER, LAVA} then OPEN
              else NeighbourType(w, p, WALKABLE))
      && (raw != OPEN || p.y < -63 ==> ColumnType(w, p) == raw)
  {
    RawTypeRange(w, p);
    RawTypeRange(w, p.Down());
  }

  /** The column adjustment as the Go code writes it, with its relabelling loop. */
  method BlockPathType(w: World, p: Pos) returns (t: PathType)
    ensures t == ColumnType(w, p)
  {
    t := RawType(w, p);
    if t == OPEN && p.y >= -64 + 1 {
      var down := RawType(w, p.Down());
      if down != WALKABLE && down != OPEN && down != WATER && down != LAVA {
        t := WALKABLE;
      } else {
        t := OPEN;
      }
      ghost var base := t;
      for k := 0 to |BelowTable|
        invariant t == Relabel(BelowTable[..k], down, base)
      {
        if down == BelowTable[k].0 {
          t := BelowTable[k].1;
        }
        assert BelowTable[..k + 1][..k] == BelowTable[..k];
      }
      assert BelowTable[..|BelowTable|] == BelowTable;
      RelabelIsBelowHazard(down, base);
    }
    if t == WALKABLE {
      t := CheckNeighbourBlocks(w, p, t);
    }
  }

  /*** The door rewrite ***/

  /** A closed wooden door is walkable and an open door blocks, for an agent that can pass doors;
      otherwise the classification is kept. The closed-door test reads the door-passing flag
      twice, once from the field and once from a local copy of it, and the door-opening flag
      is never read; the doubled test is kept as the program has it. */
  function EvaluateType(canPassDoors: bool, t: PathType): (r: PathType)
    ensures !canPassDoors ==> r == t
    ensures canPassDoors && t == DOOR_WOOD_CLOSED ==> r == WALKABLE_DOOR
    ensures canPassDoors && t == DOOR_OPEN ==> r == BLOCKED
    ensures t != DOOR_WOOD_CLOSED && t != DOOR_OPEN ==> r == t
  {
    if t == DOOR_WOOD_CLOSED && canPassDoors && canPassDoors then WALKABLE_DOOR
    else if t == DOOR_OPEN && canPassDoors then BLOCKED
    else t
  }

  /*** The footprint ***/

  /** The samples under an agent whose footprint spans `width` x `height` x `depth` blocks from
      `origin`, each classified by the column rule and the door rewrite. */
  datatype Footprint = Footprint(w: World, origin: Pos, canPassDoors: bool, width: int, height: int, depth: int) {

    function Sample(x: int, y: int, z: int): PathType {
      EvaluateType(canPassDoors, ColumnType(w, origin.Add(x, y, z)))
    }

    /** The classification of every sample, as a function of its offsets. */
    function Samples(): (int, int, int) -> PathType {
      (x, y, z) => Sample(x, y, z)
    }

    /** The samples of row (`x`, `y`) below depth `n`. */
    function ZSet(x: int, y: int, n: int): set<PathType> {
      ZSetOf(Samples(), x, y, n)
    }

    /** The samples of layer `x` below height `n`. */
    function YSet(x: int, n: int): set<PathType> {
      YSetOf(Samples(), depth, x, n)
    }

    /** The samples of the layers below `n`. */
    function XSet(n: int): set<PathType> {
      XSetOf(Samples(), height, depth, n)
    }

    /** The distinct classifications under the footprint. */
    function Types(): set<PathType> {
      XSet(width)
    }

    /** The classification of the origin block, or `dflt` when the footprint is empty. */
    function Centre(dflt: PathType): PathType {
      if width > 0 && height > 0 && depth > 0 then Sample(0, 0, 0) else dflt
    }
  }

  /** The values of `s` on row (`x`, `y`) below depth `n`. */
  function ZSetOf(s: (int, int, int) -> PathType, x: int, y: int, n: int): set<PathType>
    decreases n
  {
    if n <= 0 then {} else ZSetOf(s, x, y, n - 1) + {s(x, y, n - 1)}
  }

  /** The values of `s` on layer `x` below height `n`, rows of length `depth`. */
  function YSetOf(s: (int, int, int) -> PathType, depth: int, x: int, n: int): set<PathType>
    decreases n
  {
    if n <= 0 then {} else YSetOf(s, depth, x, n - 1) + ZSetOf(s, x, n - 1, depth)
  }

  /** The values of `s` on the layers below `n`, of size `height` by `depth`. */
  function XSetOf(s: (int, int, int) -> PathType, height: int, depth: int, n: int): set<PathType>
    decreases n
  {
    if n <= 0 then {} else XSetOf(s, height, depth, n - 1) + YSetOf(s, depth, n - 1, height)
  }

  /** `s` takes the value `t` on row (`x`, `y`) below depth `n`. */
  ghost predicate InRow(s: (int, int, int) -> PathType, x: int, y: int, n: int, t: PathType) {
    exists z :: 0 <= z < n && s(x, y, z) == t
  }

  /** `s` takes the value `t` on layer `x` below height `n`. */
  ghost predicate InLayer(s: (int, int, int) -> PathType, depth: int, x: int, n: int, t: PathType) {
    exists y :: 0 <= y < n && InRow(s, x, y, depth, t)
  }

  /** `s` takes the value `t` on the layers below `n`. */
  ghost predicate InBlock(s: (int, int, int) -> PathType, height: int, depth: int, n: int, t: PathType) {
    exists x :: 0 <= x < n && InLayer(s, depth, x, height, t)
  }

  /** A classification is under the footprint exactly when some sample has it. */
  lemma {:induction false} FootprintTypes(f: Footprint, t: PathType)
    ensures t in f.Types() <==>
      exists x, y, z :: 0 <= x < f.width && 0 <= y < f.height && 0 <= z < f.depth && f.Sample(x, y, z) == t
  {
    var s := f.Samples();
    XSetMembers(s, f.height, f.depth, f.width, t);
    if t in f.Types() {
      var x :| 0 <= x < f.width && InLayer(s, f.depth, x, f.height, t);
      var y :| 0 <= y < f.height && InRow(s, x, y, f.depth, t);
      var z :| 0 <= z < f.depth && s(x, y, z) == t;
      assert f.Sample(x, y, z) == t;
    }
    if exists x, y, z :: 0 <= x < f.width && 0 <= y < f.height && 0 <= z < f.depth && f.Sample(x, y, z) == t {
      var x, y, z :| 0 <= x < f.width && 0 <= y < f.height && 0 <= z < f.depth && f.Sample(x, y, z) == t;
      assert s(x, y, z) == t;
      assert InRow(s, x, y, f.depth, t);
      assert InLayer(s, f.depth, x, f.height, t);
    }
  }

  lemma {:induction false} XSetMembers(s: (int, int, int) -> PathType, height: int, depth: int, n: int, t: PathType)
    ensures t in XSetOf(s, height, depth, n) <==> InBlock(s, height, depth, n, t)
    decreases n
  {
    if n > 0 {
      XSetMembers(s, height, depth, n - 1, t);
      YSetMembers(s, depth, n - 1, height, t);
      if InBlock(s, height, depth, n, t) {
        var x :| 0 <= x < n && InLayer(s, depth, x, height, t);
        if x < n - 1 {
          assert InBlock(s, height, depth, n - 1, t);
        }
      }
    }
  }

  lemma {:induction false} YSetMembers(s: (int, int, int) -> PathType, depth: int, x: int, n: int, t: PathType)
    ensures t in YSetOf(s, depth, x, n) <==> InLayer(s, depth, x, n, t)
    decreases n
  {
    if n > 0 {
      YSetMembers(s, depth, x, n - 1, t);
      ZSetMembers(s, x, n - 1, depth, t);
      if InLayer(s, depth, x, n, t) {
        var y :| 0 <= y < n && InRow(s, x, y, depth, t);
        if y < n - 1 {
          assert InLayer(s, depth, x, n - 1, t);
        }
      }
    }
  }

  lemma {:induction false} ZSetMembers(s: (int, int, int) -> PathType, x: int, y: int, n: int, t: PathType)
    ensures t in ZSetOf(s, x, y, n) <==> InRow(s, x, y, n, t)
    decreases n
  {
    if n > 0 {
      ZSetMembers(s, x, y, n - 1, t);
      if InRow(s, x, y, n, t) {
        var z :| 0 <= z < n && s(x, y, z) == t;
        if z < n - 1 {
          assert InRow(s, x, y, n - 1, t);
        }
      }
    }
  }

  /*** Sorting and selection ***/

  /** The classifications of `s` in ascending byte order. */
  function SortedOf(s: set<PathType>): seq<PathType> {
    FilterFrom(s, 0)
  }

  /** `SortedOf` lists exactly the members of `s`, in strictly ascending byte order. */
  lemma SortedOfOrdered(s: set<PathType>)
    ensures var r := SortedOf(s);
      && (forall t :: t in r <==> t in s)
      && (forall i, j :: 0 <= i < j < |r| ==> Less(r[i], r[j]))
  {
  }

  /** The members of `s` among the classifications with byte value `k` or more, ascending. */
  function FilterFrom(s: set<PathType>, k: nat): (r: seq<PathType>)
    requires k <= |AllTypes|
    ensures forall t :: t in r <==> t in s && Ordinal(t) >= k
    ensures forall i :: 0 <= i < |r| ==> Ordinal(r[i]) >= k
    ensures forall i, j :: 0 <= i < j < |r| ==> Less(r[i], r[j])
    decreases |AllTypes| - k
  {
    if k == |AllTypes| then []
    else
      var rest := FilterFrom(s, k + 1);
      OrdinalIsPosition(k);
      if AllTypes[k] in s then [AllTypes[k]] + rest else rest
  }

  /** The classification with the largest cost among `ts`, starting from BLOCKED; a later one wins
      a tie. */
  function BestOf(ts: seq<PathType>, costs: map<PathType, real>): PathType {
    if |ts| == 0 then BLOCKED
    else
      var b := BestOf(ts[..|ts| - 1], costs);
      if Lookup(costs, ts[|ts| - 1]) >= Lookup(costs, b) then ts[|ts| - 1] else b
  }

  /** The first classification of `ts` with a negative cost. */
  function FirstNegative(ts: seq<PathType>, costs: map<PathType, real>): Option<PathType> {
    if |ts| == 0 then None
    else if Lookup(costs, ts[0]) < 0.0 then Some(ts[0])
    else FirstNegative(ts[1..], costs)
  }

  /** The footprint's classification chosen from its centre classification `centre` and its
      ascending distinct classifications `ts`: a fence anywhere wins, then an unpassable rail,
      then the first impassable classification, and otherwise the costliest one; a thin agent
      over open air keeps OPEN when nothing costs anything. */
  function Select(centre: PathType, ts: seq<PathType>, costs: map<PathType, real>, widthInt: int): PathType {
    if FENCE in ts then FENCE
    else if UNPASSABLE_RAIL in ts then UNPASSABLE_RAIL
    else if FirstNegative(ts, costs).Some? then FirstNegative(ts, costs).value
    else
      var best := BestOf(ts, costs);
      if centre == OPEN && Lookup(costs, best) == 0.0 && widthInt <= 1 then OPEN else best
  }

  /** The first negative classification of an ascending list is the lowest-valued impassable
      classification in it. */
  lemma {:induction false} FirstNegativeIsLowest(ts: seq<PathType>, costs: map<PathType, real>)
    requires forall i, j :: 0 <= i < j < |ts| ==> Less(ts[i], ts[j])
    ensures FirstNegative(ts, costs).None? <==> forall t :: t in ts ==> Lookup(costs, t) >= 0.0
    ensures FirstNegative(ts, costs).Some? ==>
      var r := FirstNegative(ts, costs).value;
      && r in ts && Lookup(costs, r) < 0.0
      && forall t :: t in ts && Less(t, r) ==> Lookup(costs, t) >= 0.0
  {
    if |ts| > 0 && Lookup(costs, ts[0]) >= 0.0 {
      FirstNegativeIsLowest(ts[1..], costs);
      assert forall t :: t in ts ==> t == ts[0] || t in ts[1..];
      if FirstNegative(ts, costs).Some? {
        var r := FirstNegative(ts, costs).value;
        var k :| 0 <= k < |ts[1..]| && ts[1..][k] == r;
        assert Less(ts[0], r);
      }
    }
  }

  /** Among distinct classifications, the costliest is at least as costly as every member and as
      BLOCKED, is a member unless nothing reaches BLOCKED's cost, and no later member costs as
      much. */
  lemma {:induction false} BestOfIsLastMaximum(ts: seq<PathType>, costs: map<PathType, real>)
    requires forall i, j :: 0 <= i < j < |ts| ==> ts[i] != ts[j]
    ensures var b := BestOf(ts, costs);
      && (forall t :: t in ts ==> Lookup(costs, t) <= Lookup(costs, b))
      && Lookup(costs, BLOCKED) <= Lookup(costs, b)
      && (b in ts || b == BLOCKED)
      && (b !in ts ==> forall t :: t in ts ==> Lookup(costs, t) < Lookup(costs, b))
      && (forall i :: 0 <= i < |ts| && ts[i] == b ==> forall j :: i < j < |ts| ==> Lookup(costs, ts[j]) < Lookup(costs, b))
  {
    if |ts| > 0 {
      var init := ts[..|ts| - 1];
      BestOfIsLastMaximum(init, costs);
      assert forall t :: t in ts ==> t in init || t == ts[|ts| - 1];
      assert forall i :: 0 <= i < |init| ==> init[i] == ts[i];
    }
  }

  /** The first negative classification of `ts` is the one at `i` when every earlier one costs
      nothing or more, and there is none when no classification is negative. */
  lemma {:induction false} FirstNegativeAt(ts: seq<PathType>, costs: map<PathType, real>, i: nat)
    requires i <= |ts| && forall j :: 0 <= j < i ==> Lookup(costs, ts[j]) >= 0.0
    ensures i < |ts| && Lookup(costs, ts[i]) < 0.0 ==> FirstNegative(ts, costs) == Some(ts[i])
    ensures i == |ts| ==> FirstNegative(ts, costs).None?
  {
    if i > 0 {
      FirstNegativeAt(ts[1..], costs, i - 1);
    }
  }

  /*** The footprint classification of a position ***/

  /** Everything the classification of a position depends on: the world, the cost overrides, the
      agent's size and whether it can pass doors. */
  datatype Classifier = Classifier(w: World, overrides: map<PathType, real>, size: EntitySizeInfo, canPassDoors: bool) {

    function Cost(t: PathType): real {
      Lookup(overrides, t)
    }

    function FootprintAt(p: Pos): Footprint {
      Footprint(w, p, canPassDoors, size.WidthInt(), size.HeightInt(), size.DepthInt())
    }

    /** The classification of the agent standing at `p`. */
    function At(p: Pos): PathType {
      var f := FootprintAt(p);
      Select(f.Centre(BLOCKED), SortedOf(f.Types()), overrides, size.WidthInt())
    }
  }

  /** `b` is the costliest of `types` under `costs`, the one of highest byte value on a tie, or
      BLOCKED, the starting candidate, when that costs strictly more than all of them. */
  ghost predicate Costliest(costs: map<PathType, real>, types: set<PathType>, b: PathType) {
    && (forall t :: t in types ==> Lookup(costs, t) <= Lookup(costs, b))
    && (b in types ==>
          && Lookup(costs, BLOCKED) <= Lookup(costs, b)
          && forall t :: t in types && Less(b, t) ==> Lookup(costs, t) < Lookup(costs, b))
    && (b !in types ==> b == BLOCKED && forall t :: t in types ==> Lookup(costs, t) < Lookup(costs, b))
  }

  /** At most one classification is the costliest. */
  lemma CostliestIsUnique(costs: map<PathType, real>, types: set<PathType>, a: PathType, b: PathType)
    requires Costliest(costs, types, a) && Costliest(costs, types, b)
    ensures a == b
  {
    if a in types && b in types {
      if Less(a, b) || Less(b, a) {
        assert false;
      }
      var n := Ordinal(a);
      assert Ordinal(b) == n && AllTypes[n] == a;
    }
  }

  /** The costliest of an ascending list of distinct classifications, as `BestOf` finds it, is
      the costliest of its members. */
  lemma {:induction false} BestOfIsCostliest(ts: seq<PathType>, costs: map<PathType, real>, types: set<PathType>)
    requires forall i, j :: 0 <= i < j < |ts| ==> Less(ts[i], ts[j])
    requires forall t :: t in ts <==> t in types
    ensures Costliest(costs, types, BestOf(ts, costs))
  {
    var b := BestOf(ts, costs);
    BestOfIsLastMaximum(ts, costs);
    if b in types {
      forall t | t in types && Less(b, t)
        ensures Lookup(costs, t) < Lookup(costs, b)
      {
        var i :| 0 <= i < |ts| && ts[i] == b;
        var j :| 0 <= j < |ts| && ts[j] == t;
        assert i < j;
      }
    }
  }

  /** The classification of a position, stated on the samples under the agent: a fence in any
      sample wins; otherwise an unpassable rail in any sample; otherwise the impassable sampled
      classification of lowest byte value; otherwise the costliest sampled classification, the
      later one on a tie, except that a thin agent whose origin sample is OPEN gets OPEN exactly
      when that cost is zero. */
  lemma ClassificationRules(c: Classifier, p: Pos)
    ensures var f := c.FootprintAt(p); var r := c.At(p);
      && (FENCE in f.Types() ==> r == FENCE)
      && (FENCE !in f.Types() && UNPASSABLE_RAIL in f.Types() ==> r == UNPASSABLE_RAIL)
      && (FENCE !in f.Types() && UNPASSABLE_RAIL !in f.Types() && (exists t :: t in f.Types() && c.Cost(t) < 0.0) ==>
            r in f.Types() && c.Cost(r) < 0.0 && forall t :: t in f.Types() && Less(t, r) ==> c.Cost(t) >= 0.0)
      && (FENCE !in f.Types() && UNPASSABLE_RAIL !in f.Types() && (forall t :: t in f.Types() ==> c.Cost(t) >= 0.0) ==>
            exists b :: Costliest(c.overrides, f.Types(), b) &&
              r == if f.Centre(BLOCKED) == OPEN && c.size.WidthInt() <= 1 && c.Cost(b) == 0.0 then OPEN else b)
  {
    var f := c.FootprintAt(p);
    var ts := SortedOf(f.Types());
    SortedOfOrdered(f.Types());
    FirstNegativeIsLowest(ts, c.overrides);
    BestOfIsCostliest(ts, c.overrides, f.Types());
  }
}
