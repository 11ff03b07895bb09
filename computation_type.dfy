/** The fallback test of whether a block can be moved through, per kind of movement (by land,
    through water, through air), and the box-shape tests it uses. */
module ComputationTypes {
  import opened World

  /** The Go code's byte-sized enumeration of movement kinds. */
  newtype PathComputationType = b: int | 0 <= b < 256

  const Land: PathComputationType := 0
  const Water: PathComputationType := 1
  const Air: PathComputationType := 2

  /** The tolerance within which two box extents count as equal. */
  const Elision: real := 0.000001

  /** Whether block `bl`, whose model has the collision boxes `boxes` at its position, can be
      moved through with movement kind `t`. */
  function Pathfindable(t: PathComputationType, bl: Block, boxes: seq<Box>): bool
  {
    match bl
    case WoodDoor(open) => if t == Air || t == Land then open else false
    case CopperDoor(open) => if t == Air || t == Land then open else false
    case Slab => false
    case Anvil => false
    case BrewingStand => false
    case DragonEgg => false
    case DeadBush => if t == Air then true else PathfindableByShape(t, bl, boxes)
    case _ => PathfindableByShape(t, bl, boxes)
  }

  /** The shape rule: by land or air anything but a full cube is passable, in water only water,
      and any other movement kind passes nothing. */
  function PathfindableByShape(t: PathComputationType, bl: Block, boxes: seq<Box>): bool
  {
    if t == Land || t == Air then !IsFullCube(boxes)
    else if t == Water then bl.Water?
    else false
  }

  /** A block model is a full cube when it is a single box, at least one unit on average along
      its edges, and cube-shaped. */
  predicate IsFullCube(boxes: seq<Box>) {
    |boxes| == 1 && AverageEdgeLength(boxes[0]) >= 1.0 && IsCube(boxes[0])
  }

  /** The mean of a box's three extents. */
  function AverageEdgeLength(b: Box): (r: real)
    ensures b.Width() <= b.Height() && b.Width() <= b.Length() ==> b.Width() <= r
    ensures b.Width() >= b.Height() && b.Width() >= b.Length() ==> r <= b.Width()
    ensures b.Width() == b.Height() == b.Length() ==> r == b.Width()
  {
    (b.Width() + b.Height() + b.Length()) / 3.0
  }

  /** All three extents agree within the tolerance. */
  predicate IsCube(b: Box) {
    AbsReal(b.Width() - b.Height()) < Elision && AbsReal(b.Height() - b.Length()) < Elision
  }

  function AbsReal(x: real): (r: real)
    ensures r >= 0.0 && (r == x || r == -x)
  {
    if x < 0.0 then -x else x
  }

  /** Doors: open wood and copper doors can be crossed by land and by air, closed ones cannot, and
      no door can be crossed through water, whatever the door's shape. */
  lemma DoorRule(t: PathComputationType, open: bool, boxes: seq<Box>)
    ensures Pathfindable(t, WoodDoor(open), boxes) <==> open && (t == Land || t == Air)
    ensures Pathfindable(t, CopperDoor(open), boxes) <==> open && (t == Land || t == Air)
    ensures !Pathfindable(Water, WoodDoor(open), boxes) && !Pathfindable(Water, CopperDoor(open), boxes)
  {
  }

  /** Slabs, anvils, brewing stands and dragon eggs are never passable, whatever their shape. */
  lemma NeverPathfindable(t: PathComputationType, boxes: seq<Box>)
    ensures !Pathfindable(t, Slab, boxes) && !Pathfindable(t, Anvil, boxes)
    ensures !Pathfindable(t, BrewingStand, boxes) && !Pathfindable(t, DragonEgg, boxes)
  {
  }

  /** A dead bush is passable through the air whatever its shape; by land it follows the shape
      rule. */
  lemma DeadBushRule(boxes: seq<Box>)
    ensures Pathfindable(Air, DeadBush, boxes)
    ensures Pathfindable(Land, DeadBush, boxes) <==> !IsFullCube(boxes)
    ensures !Pathfindable(Water, DeadBush, boxes)
  {
  }

  /** Every other block: by land and by air passable exactly when its model is not a full cube,
      in water exactly when it is water, and never for a movement kind beyond the three. */
  lemma ShapeRule(t: PathComputationType, bl: Block, boxes: seq<Box>)
    requires !bl.WoodDoor? && !bl.CopperDoor? && !bl.Slab? && !bl.Anvil? && !bl.BrewingStand?
    requires !bl.DragonEgg? && !bl.DeadBush?
    ensures t == Land || t == Air ==> (Pathfindable(t, bl, boxes) <==> !IsFullCube(boxes))
    ensures t == Water ==> (Pathfindable(t, bl, boxes) <==> bl.Water?)
    ensures t != Land && t != Water && t != Air ==> !Pathfindable(t, bl, boxes)
  {
  }

  /** A unit box is a full cube. */
  lemma UnitBoxIsFullCube()
    ensures IsFullCube([Box(0.0, 0.0, 0.0, 1.0, 1.0, 1.0)])
  {
    var u := Box(0.0, 0.0, 0.0, 1.0, 1.0, 1.0);
    assert u.Width() == 1.0 && u.Height() == 1.0 && u.Length() == 1.0;
  }

  /** A model with no box or with two boxes is not a full cube. */
  lemma FullCubeCount(b: Box, c: Box)
    ensures !IsFullCube([]) && !IsFullCube([b, c])
  {
  }

  /** A single box whose extents differ by the tolerance or more, or a cube-shaped box smaller
      than one unit, is not a full cube. */
  lemma NotFullCube(b: Box)
    ensures b.Height() - b.Width() >= Elision ==> !IsFullCube([b])
    ensures b.Width() < 1.0 && b.Width() == b.Height() == b.Length() ==> !IsFullCube([b])
  {
    if b.Width() < 1.0 && b.Width() == b.Height() == b.Length() {
      assert AverageEdgeLength(b) == b.Width();
    }
  }
}
