/** The goal of a search: its position, the node seen so far whose heuristic is smallest, and
    whether the goal was reached. The best heuristic is a running minimum over every value
    offered; ghost state records the offered values so that this can be stated. */
module Targets {
  import opened Wrappers
  import opened World

  /** The smallest of `hs`, or +Inf for none. */
  ghost function MinOf(hs: seq<real>): ExtReal {
    if |hs| == 0 then PosInf else Min(MinOf(hs[..|hs| - 1]), Finite(hs[|hs| - 1]))
  }

  /** The running minimum is a lower bound of every value offered and is one of them. */
  lemma {:induction false} MinOfIsMinimum(hs: seq<real>)
    ensures MinOf(hs).PosInf? <==> hs == []
    ensures forall i :: 0 <= i < |hs| ==> !Finite(hs[i]).Below(MinOf(hs))
    ensures hs != [] ==> exists i :: 0 <= i < |hs| && MinOf(hs) == Finite(hs[i])
  {
    if hs != [] {
      var init := hs[..|hs| - 1];
      MinOfIsMinimum(init);
      assert forall i :: 0 <= i < |init| ==> hs[i] == init[i];
      if MinOf(hs) == Finite(hs[|hs| - 1]) {
      } else {
        var j :| 0 <= j < |init| && MinOf(init) == Finite(init[j]);
        assert MinOf(hs) == Finite(hs[j]);
      }
    }
  }

  class Target {
    const pos: Pos
    var bestHeuristic: ExtReal
    var bestNode: Option<nat>
    var reached: bool
    /** Every heuristic offered to `UpdateBest`, oldest first. */
    ghost var offered: seq<real>

    /** The best heuristic is the minimum of all offered values, and a best node exists exactly
        when some value was offered. */
    ghost predicate Valid()
      reads this
    {
      bestHeuristic == MinOf(offered) && (bestNode.None? <==> offered == [])
    }

    /** A target at the position of `node`: no best node, best heuristic +Inf, not reached. */
    constructor (node: Pos)
      ensures Valid() && pos == node && offered == []
      ensures bestHeuristic == PosInf && bestNode.None? && !reached
    {
      pos := node;
      bestHeuristic := PosInf;
      bestNode := None;
      reached := false;
      offered := [];
    }

    /** Offers node `node` with heuristic `heuristic`. It becomes the best node only when its
        heuristic is strictly below the best so far, so on a tie the earlier node stays. */
    method UpdateBest(heuristic: real, node: nat)
      requires Valid()
      modifies this
      ensures Valid() && offered == old(offered) + [heuristic] && reached == old(reached)
      ensures Finite(heuristic).Below(old(bestHeuristic)) ==>
        bestHeuristic == Finite(heuristic) && bestNode == Some(node)
      ensures !Finite(heuristic).Below(old(bestHeuristic)) ==>
        bestHeuristic == old(bestHeuristic) && bestNode == old(bestNode)
      ensures bestNode.Some? && !old(bestHeuristic).Below(bestHeuristic)
    {
      if Finite(heuristic).Below(bestHeuristic) {
        bestHeuristic := Finite(heuristic);
        bestNode := Some(node);
      }
      offered := offered + [heuristic];
      assert offered[..|offered| - 1] == old(offered);
    }

    function BestNode(): (r: Option<nat>)
      requires Valid()
      reads this
      ensures r.Some? <==> offered != []
    {
      bestNode
    }

    method SetReached(r: bool)
      modifies this
      ensures reached == r && Reached() == r
      ensures bestHeuristic == old(bestHeuristic) && bestNode == old(bestNode) && offered == old(offered)
    {
      reached := r;
    }

    function Reached(): bool
      reads this
    {
      reached
    }
  }
}
