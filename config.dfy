/** The settings a walk evaluator is built from, and the defaults applied to settings left at their
    zero value. */
module Configs {
  import opened Wrappers
  import opened World
  import opened CostMaps

  /** The caller's settings. `costMap` is a shared table, or `None` for the nil table;
      `liquidsCanStandOn` lists the liquid blocks the agent may stand on. */
  datatype Config = Config(
    costMap: Option<CostMap>,
    box: Box,
    pos: Vec3,
    canPathDoors: bool,
    canOpenDoors: bool,
    canFloat: bool,
    canWalkOverFences: bool,
    maxStepUp: real,
    maxFallDistance: int,
    liquidsCanStandOn: seq<Block>)

  const DefaultMaxStepUp: real := 1.0
  const DefaultMaxFallDistance: int := 3

  /** The settings with the numeric defaults applied: a zero step-up height becomes one block and a
      zero fall distance becomes three; every other setting is kept as given. (The nil cost table
      is replaced when the evaluator is built, since that allocates a table.) */
  function WithDefaults(c: Config): (d: Config)
    ensures d == c.(maxStepUp := d.maxStepUp, maxFallDistance := d.maxFallDistance)
    ensures c.maxStepUp == 0.0 ==> d.maxStepUp == DefaultMaxStepUp
    ensures c.maxStepUp != 0.0 ==> d.maxStepUp == c.maxStepUp
    ensures c.maxFallDistance == 0 ==> d.maxFallDistance == DefaultMaxFallDistance
    ensures c.maxFallDistance != 0 ==> d.maxFallDistance == c.maxFallDistance
  {
    var stepUp := if c.maxStepUp == 0.0 then DefaultMaxStepUp else c.maxStepUp;
    var fall := if c.maxFallDistance == 0 then DefaultMaxFallDistance else c.maxFallDistance;
    c.(maxStepUp := stepUp, maxFallDistance := fall)
  }

  /** Applying the defaults twice changes nothing more, and the result never holds a zero limit. */
  lemma DefaultsSettle(c: Config)
    ensures WithDefaults(WithDefaults(c)) == WithDefaults(c)
    ensures WithDefaults(c).maxStepUp != 0.0 && WithDefaults(c).maxFallDistance != 0
  {
  }

  /** The runtime identifiers of the standable liquids, one per liquid, in the given order. */
  method RuntimeIds(liquids: seq<Block>, runtimeId: Block -> nat) returns (ids: seq<nat>)
    ensures |ids| == |liquids|
    ensures forall i :: 0 <= i < |liquids| ==> ids[i] == runtimeId(liquids[i])
  {
    ids := [];
    for k := 0 to |liquids|
      invariant |ids| == k
      invariant forall i :: 0 <= i < k ==> ids[i] == runtimeId(liquids[i])
    {
      ids := ids + [runtimeId(liquids[k])];
    }
  }
}
