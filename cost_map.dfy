/** The per-search table of cost overrides: a classification present in the table costs what the
    table says, any other costs its default malus. The table is shared by reference, like the
    Go code's map. */
module CostMaps {
  import opened PathTypes

  /** The cost of classification `t` under the overrides `overrides`: the override when there is
      one, the default malus otherwise. */
  function Lookup(overrides: map<PathType, real>, t: PathType): real {
    if t in overrides then overrides[t] else Malus(t) as real
  }

  /** An empty table costs exactly the defaults, and an override changes the cost of its own
      classification only. */
  lemma LookupOverride(overrides: map<PathType, real>, t: PathType, u: PathType, m: real)
    ensures Lookup(map[], t) == Malus(t) as real
    ensures Lookup(overrides[t := m], t) == m
    ensures u != t ==> Lookup(overrides[t := m], u) == Lookup(overrides, u)
  {
  }

  class CostMap {
    var overrides: map<PathType, real>

    /** An empty table. */
    constructor ()
      ensures overrides == map[]
      ensures forall t :: PathfindingMalus(t) == Malus(t) as real
    {
      overrides := map[];
    }

    /** The cost of crossing a cell of classification `t`. */
    function PathfindingMalus(t: PathType): real
      reads this
    {
      Lookup(overrides, t)
    }

    /** Records an override for `t`; the cost of every other classification is unchanged. */
    method SetPathfindingMalus(t: PathType, malus: real)
      modifies this
      ensures overrides == old(overrides)[t := malus]
      ensures PathfindingMalus(t) == malus
      ensures forall u :: u != t ==> PathfindingMalus(u) == old(PathfindingMalus(u))
    {
      overrides := overrides[t := malus];
    }
  }
}
