/** The external world the pathfinder reads: block positions and faces (the `cube` package of the
    game server), axis-aligned boxes, the block kinds the classifier distinguishes, and the world
    accessor with its geometric queries as oracle functions. */
module World {
  import opened Wrappers

  /** An integer voxel position. */
  datatype Pos = Pos(x: int, y: int, z: int) {
    function Add(dx: int, dy: int, dz: int): Pos {
      Pos(x + dx, y + dy, z + dz)
    }

    function Up(): Pos { Add(0, 1, 0) }

    function Down(): Pos { Add(0, -1, 0) }

    /** The neighbouring position across a face. */
    function Side(f: Face): (p: Pos)
      ensures p != this
      ensures f.Horizontal() <==> p.y == y
      ensures f.Horizontal() ==> (p.x == x) != (p.z == z)
    {
      match f
      case FaceDown => Add(0, -1, 0)
      case FaceUp => Add(0, 1, 0)
      case FaceNorth => Add(0, 0, -1)
      case FaceSouth => Add(0, 0, 1)
      case FaceWest => Add(-1, 0, 0)
      case FaceEast => Add(1, 0, 0)
    }
  }

  datatype Face = FaceDown | FaceUp | FaceNorth | FaceSouth | FaceWest | FaceEast {
    predicate Horizontal() { !FaceDown? && !FaceUp? }
  }

  /** The horizontal faces in the order the game server lists them. */
  const HorizontalFaces: seq<Face> := [FaceNorth, FaceSouth, FaceWest, FaceEast]

  datatype Vec3 = Vec3(x: real, y: real, z: real)

  /** The block position that contains a point: each coordinate floored. */
  function PosFromVec3(v: Vec3): (p: Pos)
    ensures p.x as real <= v.x < p.x as real + 1.0
    ensures p.y as real <= v.y < p.y as real + 1.0
    ensures p.z as real <= v.z < p.z as real + 1.0
  {
    Pos(v.x.Floor, v.y.Floor, v.z.Floor)
  }

  /** An axis-aligned box. */
  datatype Box = Box(minX: real, minY: real, minZ: real, maxX: real, maxY: real, maxZ: real) {
    function Width(): real { maxX - minX }
    function Height(): real { maxY - minY }
    function Length(): real { maxZ - minZ }

    function Translate(v: Vec3): (b: Box)
      ensures b.Width() == Width() && b.Height() == Height() && b.Length() == Length()
    {
      Box(minX + v.x, minY + v.y, minZ + v.z, maxX + v.x, maxY + v.y, maxZ + v.z)
    }
  }

  /** The block kinds the pathfinder tells apart; every other block is `OtherBlock`. */
  datatype Block =
    | Air
    | WoodTrapdoor
    | CopperTrapdoor
    | Cactus
    | CocoaBean
    | Water(falling: bool, depth: int)
    | Lava
    | Fire
    | Campfire
    | WoodDoor(open: bool)
    | CopperDoor(open: bool)
    | Leaves
    | WoodFence
    | Wall
    | WoodFenceGate(open: bool)
    | Slab
    | Anvil
    | BrewingStand
    | DragonEgg
    | DeadBush
    | OtherBlock(id: int)

  /** The world accessor of one search. Besides block lookup it answers the geometric queries the
      pathfinder delegates to the game server, as oracles:
      - `boxes(p)`: the collision boxes of the block model at `p`;
      - `intercept(p)`: where a downward ray from `p` hits the block below, if it hits;
      - `sweepClear(box, start, p)`: a box swept in steps from the agent's box at `start` to `p`
        meets no solid block;
      - `sideBlocked(p, facing, q)`: the box at the side of `p` towards `facing`, between the floor
        levels of that side and of `q`, meets a solid block. */
  datatype World = World(
    block: Pos -> Block,
    boxes: Pos -> seq<Box>,
    intercept: Pos -> Option<real>,
    sweepClear: (Box, Pos, Pos) -> bool,
    sideBlocked: (Pos, Face, Pos) -> bool)

  /** The floor height under a block position: the ray-cast intercept, or one below the position
      when the cast misses or fails. */
  function FloorLevelAt(w: World, p: Pos): real
  {
    match w.intercept(p)
    case Some(h) => h
    case None => p.y as real - 1.0
  }
}
