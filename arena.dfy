/** The node store of one search. The Go code links nodes by pointer; here every node lives in one
    shared store and is named by its index. The store also keeps, as ghost state, the moment at
    which each node was closed; this is what shows that parent links never form a cycle:
    a parent is always a closed node, and a closed child was closed after its parent. */
module NodeArena {
  import opened Wrappers
  import opened Nodes

  /** The parent-link discipline of the search tree, for close stamps `stamp` and the next stamp
      `clock`. */
  ghost predicate Ranked(ns: seq<Node>, stamp: seq<nat>, clock: nat) {
    && |stamp| == |ns|
    && (forall i {:trigger stamp[i]} :: 0 <= i < |ns| && ns[i].closed ==> stamp[i] < clock)
    && (forall i {:trigger ParentOk(ns, stamp, i)} :: 0 <= i < |ns| && ns[i].cameFrom.Some? ==> ParentOk(ns, stamp, i))
  }

  ghost predicate ParentOk(ns: seq<Node>, stamp: seq<nat>, i: nat)
    requires i < |ns| && |stamp| == |ns| && ns[i].cameFrom.Some?
  {
    var p := ns[i].cameFrom.value;
    p < |ns| && ns[p].closed && (ns[i].closed ==> stamp[p] < stamp[i])
  }

  /** How far a node is from the end of the closing order; strictly smaller at a parent. */
  ghost function Rank(ns: seq<Node>, stamp: seq<nat>, clock: nat, i: nat): (r: nat)
    requires Ranked(ns, stamp, clock) && i < |ns|
    ensures r <= clock
  {
    if ns[i].closed then stamp[i] else clock
  }

  /** The nodes from just below the root down to `i`, following parent links: what path
      reconstruction collects, in start-to-end order. Empty when `i` has no parent. */
  ghost function Chain(ns: seq<Node>, stamp: seq<nat>, clock: nat, i: nat): seq<nat>
    requires Ranked(ns, stamp, clock) && i < |ns|
    decreases Rank(ns, stamp, clock, i)
  {
    match ns[i].cameFrom
    case None => []
    case Some(p) =>
      assert ParentOk(ns, stamp, i);
      Chain(ns, stamp, clock, p) + [i]
  }

  /** The chain is a path of parent links that ends at `i`, holds only nodes with a parent, and
      starts at a child of a parentless root. */
  lemma {:induction false} ChainFollowsParents(ns: seq<Node>, stamp: seq<nat>, clock: nat, i: nat)
    requires Ranked(ns, stamp, clock) && i < |ns|
    ensures var c := Chain(ns, stamp, clock, i);
      && (|c| == 0 <==> ns[i].cameFrom.None?)
      && (forall k :: 0 <= k < |c| ==> c[k] < |ns| && ns[c[k]].cameFrom.Some?)
      && (forall k :: 0 <= k < |c| - 1 ==> ns[c[k + 1]].cameFrom == Some(c[k]))
      && (|c| > 0 ==> c[|c| - 1] == i && ParentOk(ns, stamp, c[0]) && ns[ns[c[0]].cameFrom.value].cameFrom.None?)
    decreases Rank(ns, stamp, clock, i)
  {
    match ns[i].cameFrom
    case None =>
    case Some(p) =>
      assert ParentOk(ns, stamp, i);
      ChainFollowsParents(ns, stamp, clock, p);
      var cp := Chain(ns, stamp, clock, p);
      var c := cp + [i];
      assert |cp| > 0 ==> cp[|cp| - 1] == p;
  }

  /** Parent links are acyclic: ranks strictly increase along the chain, so no node repeats. */
  lemma {:induction false} ChainIsAcyclic(ns: seq<Node>, stamp: seq<nat>, clock: nat, i: nat)
    requires Ranked(ns, stamp, clock) && i < |ns|
    ensures var c := Chain(ns, stamp, clock, i);
      && (forall k :: 0 <= k < |c| ==> c[k] < |ns| && Rank(ns, stamp, clock, c[k]) <= Rank(ns, stamp, clock, i))
      && (forall j, k :: 0 <= j < k < |c| ==>
            c[j] < |ns| && c[k] < |ns| && Rank(ns, stamp, clock, c[j]) < Rank(ns, stamp, clock, c[k]))
      && (forall j, k :: 0 <= j < k < |c| ==> c[j] != c[k])
    decreases Rank(ns, stamp, clock, i)
  {
    match ns[i].cameFrom
    case None =>
    case Some(p) =>
      assert ParentOk(ns, stamp, i);
      ChainIsAcyclic(ns, stamp, clock, p);
      ChainFollowsParents(ns, stamp, clock, p);
  }

  class Arena {
    var nodes: seq<Node>
    ghost var stamp: seq<nat>
    ghost var clock: nat

    ghost predicate Valid()
      reads this
    {
      Ranked(nodes, stamp, clock)
    }

    /** An empty store. */
    constructor ()
      ensures Valid() && nodes == []
    {
      nodes := [];
      stamp := [];
      clock := 0;
    }

    /** Adds a node that has no parent and is not closed; returns its index. */
    method Append(n: Node) returns (id: nat)
      requires Valid() && n.cameFrom.None? && !n.closed
      modifies this
      ensures Valid()
      ensures id == |old(nodes)| && nodes == old(nodes) + [n]
    {
      id := |nodes|;
      nodes := nodes + [n];
      stamp := stamp + [0];
      forall i | 0 <= i < |nodes| && nodes[i].closed ensures stamp[i] < clock {
        assert i < id && stamp[i] == old(stamp)[i];
      }
      forall i | 0 <= i < |nodes| && nodes[i].cameFrom.Some? ensures ParentOk(nodes, stamp, i) {
        assert i < id && ParentOk(old(nodes), old(stamp), i);
      }
    }

    /** Replaces node `id` by `n`, which has the same parent and closed flag. */
    method Put(id: nat, n: Node)
      requires Valid() && id < |nodes|
      requires n.cameFrom == nodes[id].cameFrom && n.closed == nodes[id].closed
      modifies this
      ensures Valid()
      ensures nodes == old(nodes)[id := n]
    {
      nodes := nodes[id := n];
      forall i | 0 <= i < |nodes| && nodes[i].closed ensures stamp[i] < clock {
        assert old(nodes)[i].closed;
      }
      forall i | 0 <= i < |nodes| && nodes[i].cameFrom.Some? ensures ParentOk(nodes, stamp, i) {
        assert ParentOk(old(nodes), stamp, i);
      }
    }

    /** Marks node `id` closed; a node closed for the first time gets the next stamp. */
    method Close(id: nat)
      requires Valid() && id < |nodes|
      modifies this
      ensures Valid()
      ensures nodes == old(nodes)[id := old(nodes)[id].(closed := true)]
    {
      if !nodes[id].closed {
        stamp := stamp[id := clock];
        clock := clock + 1;
        nodes := nodes[id := nodes[id].(closed := true)];
        forall i | 0 <= i < |nodes| && nodes[i].closed ensures stamp[i] < clock {
          if i != id {
            assert old(nodes)[i].closed && old(stamp)[i] < old(clock);
          }
        }
        forall i | 0 <= i < |nodes| && nodes[i].cameFrom.Some? ensures ParentOk(nodes, stamp, i) {
          assert ParentOk(old(nodes), old(stamp), i);
          var p := nodes[i].cameFrom.value;
          if p != id {
            assert old(stamp)[p] < old(clock);
          }
        }
      } else {
        assert nodes == old(nodes)[id := old(nodes)[id].(closed := true)];
      }
    }

    /** Makes the closed node `parent` the parent of the open node `id`. */
    method SetParent(id: nat, parent: nat)
      requires Valid() && id < |nodes| && parent < |nodes|
      requires nodes[parent].closed && !nodes[id].closed
      modifies this
      ensures Valid()
      ensures nodes == old(nodes)[id := old(nodes)[id].(cameFrom := Some(parent))]
    {
      nodes := nodes[id := nodes[id].(cameFrom := Some(parent))];
      forall i | 0 <= i < |nodes| && nodes[i].closed ensures stamp[i] < clock {
        assert old(nodes)[i].closed;
      }
      forall i | 0 <= i < |nodes| && nodes[i].cameFrom.Some? ensures ParentOk(nodes, stamp, i) {
        if i != id {
          assert ParentOk(old(nodes), stamp, i);
        }
      }
    }
  }
}
