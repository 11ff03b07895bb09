/** The size of the moving agent, read from its bounding box: how many blocks its footprint spans
    along each axis, and how full a water block is. */
module Entities {
  import opened World

  datatype EntitySizeInfo = EntitySizeInfo(box: Box) {

    function Width(): real { box.Width() }

    function Height(): real { box.Height() }

    /** Blocks spanned across the width: one more than the whole part of the width, so the
        footprint always reaches strictly past the box's far edge. */
    function WidthInt(): (n: int)
      ensures (n - 1) as real <= Width() < n as real
      ensures Width() >= 0.0 ==> n >= 1
    {
      Width().Floor + 1
    }

    /** Blocks spanned across the height, by the same rule as the width. */
    function HeightInt(): (n: int)
      ensures (n - 1) as real <= Height() < n as real
      ensures Height() >= 0.0 ==> n >= 1
    {
      Height().Floor + 1
    }

    /** Blocks spanned across the depth: the agent is taken to be as deep as it is wide. */
    function DepthInt(): (n: int)
      ensures n == WidthInt()
    {
      WidthInt()
    }
  }

  /** How full a water block is: nothing for falling water, otherwise ninths by depth level. */
  function WaterDepthPercent(falling: bool, depth: int): (r: real)
    ensures falling ==> r == 0.0
    ensures !falling && 0 <= depth < 8 ==> 0.0 < r <= 8.0 / 9.0
    ensures !falling ==> 9.0 * r == (depth + 1) as real
  {
    if falling then 0.0 else (depth + 1) as real / 9.0
  }
}
