/** The open set of the search: a binary min-heap of node indices keyed on each node's `f`.
    Every node in the heap records its own slot in `heapIdx`, so a node can be removed or have its
    key changed in place. The children of slot `p` are slots `2p + 1` and `2p + 2`. */
module Heap {
  import opened Wrappers
  import opened Nodes
  import opened NodeArena

  /** Slot `c` is a child of slot `p`. */
  predicate IsChild(p: int, c: int) {
    c == 2 * p + 1 || c == 2 * p + 2
  }

  /** Every slot names a node of the store. */
  ghost predicate InRange(h: seq<nat>, ns: seq<Node>) {
    forall i :: 0 <= i < |h| ==> h[i] < |ns|
  }

  /** The node in slot `idx` appears in no other slot. */
  ghost predicate Unique(h: seq<nat>, idx: nat)
    requires idx < |h|
  {
    forall i :: 0 <= i < |h| && i != idx ==> h[i] != h[idx]
  }

  /** Every slot but `hole` holds a node that records that slot. */
  ghost predicate SlottedExcept(h: seq<nat>, ns: seq<Node>, hole: int)
    requires InRange(h, ns)
  {
    forall i :: 0 <= i < |h| && i != hole ==> ns[h[i]].heapIdx == i
  }

  ghost predicate Slotted(h: seq<nat>, ns: seq<Node>)
    requires InRange(h, ns)
  {
    SlottedExcept(h, ns, -1)
  }

  /** Every node with a slot sits in that slot; `Clear` is the one operation that breaks this. */
  ghost predicate Tracks(h: seq<nat>, ns: seq<Node>) {
    forall id :: 0 <= id < |ns| && ns[id].heapIdx >= 0 ==> ns[id].heapIdx < |h| && h[ns[id].heapIdx] == id
  }

  /** The heap order: no node's key is below its parent's. */
  ghost predicate HeapOrdered(h: seq<nat>, ns: seq<Node>)
    requires InRange(h, ns)
  {
    forall p, c {:trigger IsChild(p, c)} :: 0 <= p < |h| && 0 <= c < |h| && IsChild(p, c) ==>
      ns[h[p]].f <= ns[h[c]].f
  }

  /** The heap order, except on the edge from `hole` up to its parent. */
  ghost predicate OrderedAboveHole(h: seq<nat>, ns: seq<Node>, hole: int)
    requires InRange(h, ns)
  {
    forall p, c {:trigger IsChild(p, c)} :: 0 <= p < |h| && 0 <= c < |h| && IsChild(p, c) && c != hole ==>
      ns[h[p]].f <= ns[h[c]].f
  }

  /** The heap order, except on the edges from `hole` down to its children. */
  ghost predicate OrderedBelowHole(h: seq<nat>, ns: seq<Node>, hole: int)
    requires InRange(h, ns)
  {
    forall p, c {:trigger IsChild(p, c)} :: 0 <= p < |h| && 0 <= c < |h| && IsChild(p, c) && p != hole ==>
      ns[h[p]].f <= ns[h[c]].f
  }

  /** The parent of `hole` is no greater than the children of `hole`. */
  ghost predicate BridgesHole(h: seq<nat>, ns: seq<Node>, hole: nat)
    requires InRange(h, ns) && hole < |h|
  {
    hole > 0 ==> forall c {:trigger IsChild(hole, c)} :: 0 <= c < |h| && IsChild(hole, c) ==>
      ns[h[(hole - 1) / 2]].f <= ns[h[c]].f
  }

  /** `b` differs from `a` at most in heap slots. */
  ghost predicate SlotsOnly(a: seq<Node>, b: seq<Node>) {
    |a| == |b| && forall i {:trigger SameButSlot(a[i], b[i])} :: 0 <= i < |a| ==> SameButSlot(a[i], b[i])
  }

  ghost predicate SameButSlot(m: Node, n: Node) {
    && m.pos == n.pos && m.g == n.g && m.h == n.h && m.f == n.f && m.cameFrom == n.cameFrom
    && m.closed == n.closed && m.walkedDistance == n.walkedDistance && m.costMalus == n.costMalus
    && m.pathType == n.pathType
  }

  /** In a heap-ordered array the root holds a minimal key. */
  lemma {:induction false} RootIsMinimal(h: seq<nat>, ns: seq<Node>, i: nat)
    requires InRange(h, ns) && HeapOrdered(h, ns) && i < |h|
    ensures ns[h[0]].f <= ns[h[i]].f
    decreases i
  {
    if i > 0 {
      var p := (i - 1) / 2;
      RootIsMinimal(h, ns, p);
      assert IsChild(p, i);
    }
  }

  /** In a non-empty heap-ordered array the root holds a key no greater than any other. */
  lemma RootIsMinimum(h: seq<nat>, ns: seq<Node>)
    requires InRange(h, ns) && HeapOrdered(h, ns) && |h| > 0
    ensures forall i :: 0 <= i < |h| ==> ns[h[0]].f <= ns[h[i]].f
  {
    forall i | 0 <= i < |h| ensures ns[h[0]].f <= ns[h[i]].f {
      RootIsMinimal(h, ns, i);
    }
  }

  /** One step of sift-up: the key at `idx` is below its parent's, so they swap and the hole moves up. */
  lemma SiftUpStep(v: seq<nat>, ns: seq<Node>, idx: nat)
    requires InRange(v, ns) && 0 < idx < |v|
    requires OrderedAboveHole(v, ns, idx) && BridgesHole(v, ns, idx)
    requires ns[v[idx]].f < ns[v[(idx - 1) / 2]].f
    ensures var q := (idx - 1) / 2; var w := v[idx := v[q]][q := v[idx]];
      InRange(w, ns) && OrderedAboveHole(w, ns, q) && BridgesHole(w, ns, q)
  {
    var q := (idx - 1) / 2;
    var w := v[idx := v[q]][q := v[idx]];
    assert IsChild(q, idx);
    forall p, c | 0 <= p < |w| && 0 <= c < |w| && IsChild(p, c) && c != q
      ensures ns[w[p]].f <= ns[w[c]].f
    {
      if c == idx {
        assert p == q;
      } else if p == idx {
        assert w[p] == v[q] && w[c] == v[c];
      } else if p == q {
        assert w[c] == v[c];
      } else {
        assert w[p] == v[p] && w[c] == v[c];
      }
    }
    if q > 0 {
      var g := (q - 1) / 2;
      assert IsChild(g, q);
      forall c | 0 <= c < |w| && IsChild(q, c)
        ensures ns[w[g]].f <= ns[w[c]].f
      {
        if c != idx {
          assert w[c] == v[c];
        }
      }
    }
  }

  /** One step of sift-down: the smaller child `m` of `idx` has a key below the sifted node's, so
      they swap and the hole moves down. */
  lemma SiftDownStep(v: seq<nat>, ns: seq<Node>, idx: nat, m: nat)
    requires InRange(v, ns) && m < |v| && IsChild(idx, m)
    requires forall c :: 0 <= c < |v| && IsChild(idx, c) ==> ns[v[m]].f <= ns[v[c]].f
    requires ns[v[m]].f < ns[v[idx]].f
    requires OrderedBelowHole(v, ns, idx) && BridgesHole(v, ns, idx)
    ensures var w := v[idx := v[m]][m := v[idx]];
      InRange(w, ns) && OrderedBelowHole(w, ns, m) && BridgesHole(w, ns, m)
  {
    var w := v[idx := v[m]][m := v[idx]];
    forall p, c | 0 <= p < |w| && 0 <= c < |w| && IsChild(p, c) && p != m
      ensures ns[w[p]].f <= ns[w[c]].f
    {
      if c == idx {
        assert p == (idx - 1) / 2 && w[p] == v[p];
      } else if c == m {
      } else if p == idx {
        assert w[c] == v[c];
      } else {
        assert w[p] == v[p] && w[c] == v[c];
      }
    }
    forall c | 0 <= c < |w| && IsChild(m, c)
      ensures ns[w[(m - 1) / 2]].f <= ns[w[c]].f
    {
      assert (m - 1) / 2 == idx && w[c] == v[c];
    }
  }

  /** Slot `i` of `h` now holds a node whose key may differ (a new key, or another node moved
      there), and the other slots keep their keys; `w` may also drop trailing slots. The heap order
      is then broken at most around slot `i`, in the direction the key moved. */
  lemma SlotRekeyed(h: seq<nat>, ns: seq<Node>, w: seq<nat>, ns': seq<Node>, i: nat)
    requires InRange(h, ns) && InRange(w, ns') && i < |w| <= |h|
    requires HeapOrdered(h, ns)
    requires forall k :: 0 <= k < |w| && k != i ==> ns'[w[k]].f == ns[h[k]].f
    ensures ns'[w[i]].f < ns[h[i]].f ==> OrderedAboveHole(w, ns', i) && BridgesHole(w, ns', i)
    ensures ns'[w[i]].f >= ns[h[i]].f ==> OrderedBelowHole(w, ns', i) && BridgesHole(w, ns', i)
  {
    forall p, c | 0 <= p < |w| && 0 <= c < |w| && IsChild(p, c) && p != i && c != i
      ensures ns'[w[p]].f <= ns'[w[c]].f
    {
    }
    if i > 0 {
      var g := (i - 1) / 2;
      assert IsChild(g, i);
      forall c | 0 <= c < |w| && IsChild(i, c)
        ensures ns'[w[g]].f <= ns'[w[c]].f
      {
      }
    }
    forall c | 0 <= c < |w| && IsChild(i, c)
      ensures ns[h[i]].f <= ns'[w[c]].f
    {
    }
  }

  /** Nodes that record no slot in `ns0` record the same in `ns`. */
  ghost predicate UnslottedKept(ns0: seq<Node>, ns: seq<Node>) {
    |ns0| == |ns| && forall i :: 0 <= i < |ns| && ns0[i].heapIdx < 0 ==> ns[i].heapIdx == ns0[i].heapIdx
  }

  /** The state of a sift: the sifted `node` sits in slot `idx` of `h`, which holds the nodes of
      `h0`; every other slot is recorded in its node, and compared with the store `ns0` the sift
      started from only slots have changed, and only those of nodes that recorded one. */
  ghost predicate SiftState(h: seq<nat>, ns0: seq<Node>, ns: seq<Node>, idx: nat, node: nat, h0: seq<nat>) {
    && idx < |h| == |h0| && h[idx] == node
    && multiset(h) == multiset(h0) && Unique(h, idx)
    && SlotsOnly(ns0, ns) && InRange(h, ns0) && InRange(h, ns)
    && SlottedExcept(h, ns, idx)
    && UnslottedKept(ns0, ns) && ns0[node].heapIdx >= 0
  }

  /** Moving the node in slot `q` to slot `idx`, recording that slot in it, and putting the sifted
      node in slot `q` keeps the sift state with the sifted node at `q`. */
  lemma SiftMoves(h: seq<nat>, ns0: seq<Node>, ns: seq<Node>, ns': seq<Node>, idx: nat, q: nat, node: nat, h0: seq<nat>)
    requires SiftState(h, ns0, ns, idx, node, h0)
    requires q < |h| && q != idx && ns' == ns[h[q] := ns[h[q]].(heapIdx := idx)]
    ensures SiftState(h[idx := h[q]][q := node], ns0, ns', q, node, h0)
  {
    SwapKeeps(h, ns0, ns', idx, q);
    SlotMoved(h, ns, ns', idx, q);
    SlotWritten(ns, h[q], idx);
    SlotsOnlyChain(ns0, ns, ns');
    assert ns[h[q]].heapIdx == q;
    UnslottedWritten(ns0, ns, h[q], idx);
  }

  /** Swapping the unique node in slot `idx` with the node in slot `q` keeps the nodes of the
      array, and the moved node is unique in slot `q`. */
  lemma SwapKeeps(h: seq<nat>, ns: seq<Node>, ns': seq<Node>, idx: nat, q: nat)
    requires idx < |h| && q < |h| && q != idx && Unique(h, idx)
    requires InRange(h, ns) && InRange(h, ns')
    ensures var w := h[idx := h[q]][q := h[idx]];
      multiset(w) == multiset(h) && Unique(w, q) && InRange(w, ns) && InRange(w, ns')
  {
  }

  /** The node moved from slot `q` to slot `idx` records its new slot, so every slot but `q` is
      recorded. */
  lemma SlotMoved(h: seq<nat>, ns: seq<Node>, ns': seq<Node>, idx: nat, q: nat)
    requires idx < |h| && q < |h| && q != idx && Unique(h, idx)
    requires InRange(h, ns) && SlottedExcept(h, ns, idx)
    requires ns' == ns[h[q] := ns[h[q]].(heapIdx := idx)]
    ensures var w := h[idx := h[q]][q := h[idx]];
      InRange(w, ns') && SlottedExcept(w, ns', q)
  {
    var w := h[idx := h[q]][q := h[idx]];
    forall i | 0 <= i < |w| && i != q ensures ns'[w[i]].heapIdx == i {
      if i != idx {
        assert w[i] == h[i] && h[i] != h[q];
      }
    }
  }

  /** Writing the slot of a node that recorded one keeps every node without a slot unchanged. */
  lemma UnslottedWritten(ns0: seq<Node>, ns: seq<Node>, x: nat, k: int)
    requires UnslottedKept(ns0, ns) && x < |ns| && ns[x].heapIdx >= 0
    ensures UnslottedKept(ns0, ns[x := ns[x].(heapIdx := k)])
  {
  }

  /** Recording its slot in the sifted node leaves every slot recorded. */
  lemma SiftEnds(h: seq<nat>, ns0: seq<Node>, ns: seq<Node>, ns': seq<Node>, idx: nat, node: nat, h0: seq<nat>)
    requires SiftState(h, ns0, ns, idx, node, h0)
    requires ns' == ns[node := ns[node].(heapIdx := idx)]
    ensures InRange(h, ns') && Slotted(h, ns') && SlotsOnly(ns0, ns') && UnslottedKept(ns0, ns')
  {
    forall i | 0 <= i < |h| ensures ns'[h[i]].heapIdx == i {
      if i != idx {
        assert h[i] != node;
      }
    }
    forall i | 0 <= i < |ns0| ensures SameButSlot(ns0[i], ns'[i]) {
      assert SameButSlot(ns0[i], ns[i]);
    }
  }

  /** A sift-up that stops below a parent with no greater key leaves the array heap-ordered. */
  lemma UpSettled(h: seq<nat>, ns: seq<Node>, idx: nat)
    requires InRange(h, ns) && idx < |h| && OrderedAboveHole(h, ns, idx)
    requires idx == 0 || ns[h[(idx - 1) / 2]].f <= ns[h[idx]].f
    ensures HeapOrdered(h, ns)
  {
    forall p, c | 0 <= p < |h| && 0 <= c < |h| && IsChild(p, c)
      ensures ns[h[p]].f <= ns[h[c]].f
    {
      if c == idx {
        assert p == (idx - 1) / 2;
      }
    }
  }

  /** A sift-down that stops above children with no smaller key leaves the array heap-ordered. */
  lemma DownSettled(h: seq<nat>, ns: seq<Node>, idx: nat)
    requires InRange(h, ns) && idx < |h| && OrderedBelowHole(h, ns, idx)
    requires forall c :: 0 <= c < |h| && IsChild(idx, c) ==> ns[h[idx]].f <= ns[h[c]].f
    ensures HeapOrdered(h, ns)
  {
  }

  /** The heap order proved on the keys of `ns0` holds on any store that differs only in slots. */
  lemma OrderTransfers(h: seq<nat>, ns0: seq<Node>, ns: seq<Node>)
    requires InRange(h, ns0) && SlotsOnly(ns0, ns) && HeapOrdered(h, ns0)
    ensures InRange(h, ns) && HeapOrdered(h, ns)
  {
    forall p, c | 0 <= p < |h| && 0 <= c < |h| && IsChild(p, c)
      ensures ns[h[p]].f <= ns[h[c]].f
    {
      assert SameButSlot(ns0[h[c]], ns[h[c]]) && SameButSlot(ns0[h[p]], ns[h[p]]);
    }
  }

  /** Writing only a node's slot is a change in slots only. */
  lemma SlotWritten(ns: seq<Node>, id: nat, k: int)
    requires id < |ns|
    ensures SlotsOnly(ns, ns[id := ns[id].(heapIdx := k)])
  {
    var ns' := ns[id := ns[id].(heapIdx := k)];
    forall i | 0 <= i < |ns| ensures SameButSlot(ns[i], ns'[i]) {
    }
  }

  lemma SlotsOnlyChain(a: seq<Node>, b: seq<Node>, c: seq<Node>)
    requires SlotsOnly(a, b) && SlotsOnly(b, c)
    ensures SlotsOnly(a, c)
  {
    forall i | 0 <= i < |a| ensures SameButSlot(a[i], c[i]) {
      assert SameButSlot(a[i], b[i]) && SameButSlot(b[i], c[i]);
    }
  }

  /** The slots after the node in slot `i` is taken out the Go code's way: the last slot's node
      moves into slot `i` and the last slot is dropped. The other slots are untouched and the
      taken node leaves one occurrence fewer. */
  function TakeOut(h: seq<nat>, i: nat): (w: seq<nat>)
    requires i < |h|
    ensures |w| == |h| - 1
    ensures forall k :: 0 <= k < |w| && k != i ==> w[k] == h[k]
    ensures i < |w| ==> w[i] == h[|h| - 1]
    ensures multiset(w) == multiset(h) - multiset{h[i]}
  {
    var n := |h|;
    if i == n - 1 then
      SplitAt(h, i);
      h[..n - 1]
    else
      MovedLastCount(h, i);
      h[..i] + [h[n - 1]] + h[i + 1..n - 1]
  }

  lemma MovedLastCount(h: seq<nat>, i: nat)
    requires i < |h| - 1
    ensures multiset(h[..i] + [h[|h| - 1]] + h[i + 1..|h| - 1]) == multiset(h) - multiset{h[i]}
  {
    var c := h[i + 1..];
    SplitAt(h, i);
    SplitAt(c, |c| - 1);
    assert c[..|c| - 1] == h[i + 1..|h| - 1];
  }

  lemma SplitAt(h: seq<nat>, i: nat)
    requires i < |h|
    ensures h == h[..i] + [h[i]] + h[i + 1..]
  {
  }

  /** A slotted array holds no node twice. */
  lemma SlottedDistinct(h: seq<nat>, ns: seq<Node>, j: nat, k: nat)
    requires InRange(h, ns) && Slotted(h, ns) && j < |h| && k < |h| && j != k
    ensures h[j] != h[k]
  {
    assert ns[h[j]].heapIdx == j && ns[h[k]].heapIdx == k;
  }

  /** Taking a node out of a slotted array leaves it out of the array, and every slot but the
      refilled slot `i` still recorded. */
  lemma TakeOutSlots(h: seq<nat>, ns: seq<Node>, i: nat)
    requires InRange(h, ns) && Slotted(h, ns) && i < |h|
    ensures var w := TakeOut(h, i);
      && InRange(w, ns) && h[i] !in w
      && (i < |w| ==> Unique(w, i) && SlottedExcept(w, ns, i))
      && (i == |w| ==> Slotted(w, ns))
  {
    var w := TakeOut(h, i);
    var n := |h|;
    forall k | 0 <= k < |w| ensures w[k] != h[i] {
      if k == i {
        SlottedDistinct(h, ns, i, n - 1);
      } else {
        SlottedDistinct(h, ns, i, k);
      }
    }
    if i < |w| {
      forall k | 0 <= k < |w| && k != i ensures w[k] != w[i] {
        SlottedDistinct(h, ns, k, n - 1);
      }
    }
  }

  /** Dropping the last slot keeps the heap order. */
  lemma LastDropped(h: seq<nat>, ns: seq<Node>)
    requires InRange(h, ns) && HeapOrdered(h, ns) && |h| > 0
    ensures InRange(h[..|h| - 1], ns) && HeapOrdered(h[..|h| - 1], ns)
  {
    var w := h[..|h| - 1];
    forall p, c | 0 <= p < |w| && 0 <= c < |w| && IsChild(p, c) ensures ns[w[p]].f <= ns[w[c]].f {
      assert w[p] == h[p] && w[c] == h[c];
    }
  }

  /** A node outside the heap may forget its slot without disturbing the heap. */
  lemma SlotForgotten(h: seq<nat>, ns: seq<Node>, id: nat)
    requires InRange(h, ns) && Slotted(h, ns) && HeapOrdered(h, ns) && id < |ns| && id !in multiset(h)
    ensures var ns' := ns[id := ns[id].(heapIdx := -1)];
      InRange(h, ns') && Slotted(h, ns') && HeapOrdered(h, ns') && SlotsOnly(ns, ns')
  {
    var ns' := ns[id := ns[id].(heapIdx := -1)];
    SlotWritten(ns, id, -1);
    forall k | 0 <= k < |h| ensures ns'[h[k]] == ns[h[k]] {
      assert h[k] != id;
    }
    OrderTransfers(h, ns, ns');
  }

  /** Keys survive a change in slots only. */
  lemma KeysKept(a: seq<Node>, b: seq<Node>)
    requires SlotsOnly(a, b)
    ensures forall i :: 0 <= i < |a| ==> b[i].f == a[i].f
  {
    forall i | 0 <= i < |a| ensures b[i].f == a[i].f {
      assert SameButSlot(a[i], b[i]);
    }
  }

  /** `m` is the smaller of the children `left` and `right` of slot `idx` (the right one only when
      it exists) by the keys of `ns`, so by the same keys of `ns0` no child of `idx` has a smaller
      key. */
  lemma SmallerChild(v: seq<nat>, ns0: seq<Node>, ns: seq<Node>, idx: nat, m: nat)
    requires InRange(v, ns0) && SlotsOnly(ns0, ns) && 2 * idx + 1 < |v| && IsChild(idx, m) && m < |v|
    requires ns[v[m]].f <= ns[v[2 * idx + 1]].f
    requires 2 * idx + 2 < |v| ==> ns[v[m]].f <= ns[v[2 * idx + 2]].f
    ensures ns[v[m]].f == ns0[v[m]].f
    ensures forall c :: 0 <= c < |v| && IsChild(idx, c) ==> ns0[v[m]].f <= ns0[v[c]].f
  {
    assert SameButSlot(ns0[v[m]], ns[v[m]]);
    assert SameButSlot(ns0[v[2 * idx + 1]], ns[v[2 * idx + 1]]);
    if 2 * idx + 2 < |v| {
      assert SameButSlot(ns0[v[2 * idx + 2]], ns[v[2 * idx + 2]]);
    }
  }

  /** A node that recorded a slot in `ns0` when `h0` was tracked, or that occurs in `h`, sits at
      the slot it records of a slotted array `h` that still holds every node of `h0` it names. */
  lemma TracksFrom(h0: seq<nat>, ns0: seq<Node>, h: seq<nat>, ns: seq<Node>, k: nat)
    requires Tracks(h0, ns0) && InRange(h, ns) && Slotted(h, ns) && k < |ns| && k < |ns0|
    requires multiset(h)[k] > 0 || ns0[k].heapIdx >= 0
    requires multiset(h0)[k] > 0 ==> multiset(h)[k] > 0
    ensures 0 <= ns[k].heapIdx < |h| && h[ns[k].heapIdx] == k
  {
    if ns0[k].heapIdx >= 0 {
      assert h0[ns0[k].heapIdx] == k;
      assert k in multiset(h0);
    }
    SlottedMember(h, ns, k);
  }

  /** A node of a slotted array records the slot it sits in. */
  lemma SlottedMember(h: seq<nat>, ns: seq<Node>, k: nat)
    requires InRange(h, ns) && Slotted(h, ns) && k in multiset(h)
    ensures k < |ns| && 0 <= ns[k].heapIdx < |h| && h[ns[k].heapIdx] == k
  {
    assert k in h;
    var j :| 0 <= j < |h| && h[j] == k;
  }

  /** After a sift the recorded slots are right again for every node. */
  lemma SiftTracks(h0: seq<nat>, ns0: seq<Node>, h: seq<nat>, ns: seq<Node>)
    requires Tracks(h0, ns0) && InRange(h, ns) && Slotted(h, ns)
    requires multiset(h) == multiset(h0) && UnslottedKept(ns0, ns)
    ensures Tracks(h, ns)
  {
    forall k | 0 <= k < |ns| && ns[k].heapIdx >= 0 ensures ns[k].heapIdx < |h| && h[ns[k].heapIdx] == k {
      TracksFrom(h0, ns0, h, ns, k);
    }
  }

  /** After a node's key changes and the array is sifted, the recorded slots are right again for
      every node. `ns1` is the store with the new key, before the sift. */
  lemma RekeyTracks(h0: seq<nat>, ns0: seq<Node>, ns1: seq<Node>, h: seq<nat>, ns: seq<Node>)
    requires Tracks(h0, ns0) && |ns0| == |ns1|
    requires forall k :: 0 <= k < |ns0| ==> ns1[k].heapIdx == ns0[k].heapIdx
    requires multiset(h) == multiset(h0) && UnslottedKept(ns1, ns)
    requires InRange(h, ns) && Slotted(h, ns)
    ensures Tracks(h, ns)
  {
    forall k | 0 <= k < |ns| && ns[k].heapIdx >= 0 ensures ns[k].heapIdx < |h| && h[ns[k].heapIdx] == k {
      TracksFrom(h0, ns0, h, ns, k);
    }
  }

  lemma UnslottedRefl(ns: seq<Node>)
    ensures UnslottedKept(ns, ns)
  {
  }

  /** A node that recorded a slot and now records none keeps every other node without a slot
      unchanged. */
  lemma RemovalKept(ns0: seq<Node>, ns1: seq<Node>, x: nat)
    requires UnslottedKept(ns0, ns1) && x < |ns1| && ns0[x].heapIdx >= 0
    ensures UnslottedKept(ns0, ns1[x := ns1[x].(heapIdx := -1)])
  {
  }

  /** After the node `x` is taken out and forgets its slot, the recorded slots are right again
      for every node. `ns1` is the store before the node forgets its slot. */
  lemma RemovalTracks(h0: seq<nat>, ns0: seq<Node>, ns1: seq<Node>, h: seq<nat>, ns: seq<Node>, x: nat)
    requires Tracks(h0, ns0) && |ns0| == |ns1| && x < |ns1|
    requires multiset(h) == multiset(h0) - multiset{x}
    requires UnslottedKept(ns0, ns1) && ns == ns1[x := ns1[x].(heapIdx := -1)]
    requires InRange(h, ns) && Slotted(h, ns)
    ensures Tracks(h, ns)
  {
    forall k | 0 <= k < |ns| && ns[k].heapIdx >= 0 ensures ns[k].heapIdx < |h| && h[ns[k].heapIdx] == k {
      TracksFrom(h0, ns0, h, ns, k);
    }
  }

  /** After the node `x`, which recorded no slot, is appended and the array sifted, the recorded
      slots are right again for every node. `ns1` is the store just after `x` records its new
      slot. */
  lemma InsertionTracks(h0: seq<nat>, ns0: seq<Node>, ns1: seq<Node>, h: seq<nat>, ns: seq<Node>, x: nat)
    requires Tracks(h0, ns0) && x < |ns0| && ns0[x].heapIdx < 0
    requires ns1 == ns0[x := ns0[x].(heapIdx := |h0|)]
    requires multiset(h) == multiset(h0 + [x]) && UnslottedKept(ns1, ns)
    requires InRange(h, ns) && Slotted(h, ns)
    ensures Tracks(h, ns)
  {
    forall k | 0 <= k < |ns| && ns[k].heapIdx >= 0 ensures ns[k].heapIdx < |h| && h[ns[k].heapIdx] == k {
      if k == x {
        assert x in multiset(h0 + [x]);
      }
      TracksFrom(h0, ns0, h, ns, k);
    }
  }

  /** Appending a node as a new last leaf leaves the heap order intact except on the new edge, and
      that leaf has no children. */
  lemma LeafAppended(h: seq<nat>, ns: seq<Node>, id: nat, ns': seq<Node>)
    requires InRange(h, ns) && HeapOrdered(h, ns) && Slotted(h, ns) && id !in h
    requires |ns'| == |ns| && id < |ns| && ns' == ns[id := ns'[id]] && ns'[id].heapIdx == |h|
    ensures InRange(h + [id], ns') && Unique(h + [id], |h|) && SlottedExcept(h + [id], ns', |h|)
    ensures OrderedAboveHole(h + [id], ns', |h|) && BridgesHole(h + [id], ns', |h|)
  {
    var w := h + [id];
    forall k | 0 <= k < |h| ensures w[k] == h[k] && ns'[w[k]] == ns[h[k]] {
      assert h[k] != id;
    }
    forall p, c | 0 <= p < |w| && 0 <= c < |w| && IsChild(p, c) && c != |h|
      ensures ns'[w[p]].f <= ns'[w[c]].f
    {
      assert ns[h[p]].f <= ns[h[c]].f;
    }
  }

  class BinaryHeap {
    /** The occupied slots, in heap order; the Go code's slot-to-node map restricted to its size. */
    var heap: seq<nat>
    /** The node store whose nodes the slots name. */
    const arena: Arena

    ghost predicate Valid()
      reads this, arena
    {
      && arena.Valid()
      && InRange(heap, arena.nodes)
      && Slotted(heap, arena.nodes)
      && HeapOrdered(heap, arena.nodes)
    }

    /** An empty heap over the store `a`. */
    constructor (a: Arena)
      requires a.Valid()
      ensures Valid() && arena == a && heap == []
    {
      arena := a;
      heap := [];
    }

    function Size(): (n: nat)
      reads this
      ensures n == |heap|
    {
      |heap|
    }

    predicate IsEmpty()
      reads this
    {
      |heap| == 0
    }

    /** The node with the smallest key, or nothing when the heap is empty. */
    function Peek(): (r: Option<nat>)
      requires Valid()
      reads this, arena
      ensures r.None? <==> heap == []
      ensures r.Some? ==> r.value in heap && forall i :: 0 <= i < |heap| ==> arena.nodes[r.value].f <= arena.nodes[heap[i]].f
    {
      if |heap| == 0 then None
      else
        RootIsMinimum(heap, arena.nodes);
        Some(heap[0])
    }

    /** Empties the heap. The nodes that were in it keep their recorded slots. */
    method Clear()
      requires Valid()
      modifies this
      ensures Valid() && heap == [] && IsEmpty()
      ensures arena.nodes == old(arena.nodes)
    {
      heap := [];
    }

    /** Adds node `id`. A node that already records a slot is refused (the Go code's "node is
        already in the heap" error) and nothing changes; otherwise the node is added and records
        its slot. */
    method Insert(id: nat) returns (r: Option<nat>)
      requires Valid() && id < |arena.nodes|
      modifies this, arena
      ensures Valid() && SlotsOnly(old(arena.nodes), arena.nodes)
      ensures old(arena.nodes[id].OpenSet()) ==> r.None? && heap == old(heap) && arena.nodes == old(arena.nodes)
      ensures !old(arena.nodes[id].OpenSet()) ==>
        && r == Some(id)
        && multiset(heap) == old(multiset(heap)) + multiset{id}
        && |heap| == old(|heap|) + 1
        && arena.nodes[id].OpenSet()
        && 0 <= arena.nodes[id].heapIdx < |heap| && heap[arena.nodes[id].heapIdx] == id
      ensures old(Tracks(heap, arena.nodes)) ==> Tracks(heap, arena.nodes)
    {
      if arena.nodes[id].OpenSet() {
        return None;
      }
      ghost var h0, ns0 := heap, arena.nodes;
      heap := heap + [id];
      arena.Put(id, arena.nodes[id].(heapIdx := |heap| - 1));
      assert id !in h0;
      LeafAppended(h0, ns0, id, arena.nodes);
      SlotWritten(ns0, id, |heap| - 1);
      ghost var ns1 := arena.nodes;
      UpHeap(|heap| - 1);
      SlotsOnlyChain(ns0, ns1, arena.nodes);
      r := Some(id);
      SlottedMember(heap, arena.nodes, id);
      if Tracks(h0, ns0) {
        InsertionTracks(h0, ns0, ns1, heap, arena.nodes, id);
      }
    }

    /** Removes and returns a node of minimal key, which no longer records a slot; an empty heap
        yields nothing and is unchanged. */
    method Pop() returns (r: Option<nat>)
      requires Valid()
      modifies this, arena
      ensures Valid() && SlotsOnly(old(arena.nodes), arena.nodes)
      ensures old(heap) == [] ==> r.None? && heap == [] && arena.nodes == old(arena.nodes)
      ensures old(heap) != [] ==>
        && r == Some(old(heap)[0])
        && (forall i :: 0 <= i < |old(heap)| ==> old(arena.nodes)[r.value].f <= old(arena.nodes)[old(heap)[i]].f)
        && multiset(heap) == old(multiset(heap)) - multiset{r.value}
        && |heap| == old(|heap|) - 1
        && r.value !in multiset(heap)
        && arena.nodes[r.value].heapIdx == -1
      ensures UnslottedKept(old(arena.nodes), arena.nodes)
      ensures old(Tracks(heap, arena.nodes)) ==> Tracks(heap, arena.nodes)
    {
      if |heap| == 0 {
        return None;
      }
      RootIsMinimum(heap, arena.nodes);
      var top := heap[0];
      DropRoot();
      r := Some(top);
    }

    /** The body of `Pop` once the heap is known to be non-empty: the last node takes the root's
        slot and sinks to its place. */
    method DropRoot()
      requires Valid() && |heap| > 0
      modifies this, arena
      ensures Valid() && SlotsOnly(old(arena.nodes), arena.nodes)
      ensures multiset(heap) == old(multiset(heap)) - multiset{old(heap)[0]}
      ensures |heap| == old(|heap|) - 1 && old(heap)[0] !in multiset(heap)
      ensures arena.nodes[old(heap)[0]].heapIdx == -1
      ensures UnslottedKept(old(arena.nodes), arena.nodes)
      ensures old(Tracks(heap, arena.nodes)) ==> Tracks(heap, arena.nodes)
    {
      ghost var h0, ns0 := heap, arena.nodes;
      var top := heap[0];
      TakeOutSlots(heap, arena.nodes, 0);
      heap := TakeOut(heap, 0);
      if |heap| > 0 {
        SlotRekeyed(h0, ns0, heap, ns0, 0);
        DownHeap(0);
      } else {
        UnslottedRefl(arena.nodes);
      }
      Forget(top, h0, ns0);
    }

    /** Removes the open node `id` from the heap; it no longer records a slot and the other nodes
        stay in the heap. */
    method Remove(id: nat)
      requires Valid() && id < |arena.nodes|
      requires 0 <= arena.nodes[id].heapIdx < |heap| && heap[arena.nodes[id].heapIdx] == id
      modifies this, arena
      ensures Valid() && SlotsOnly(old(arena.nodes), arena.nodes)
      ensures multiset(heap) == old(multiset(heap)) - multiset{id}
      ensures |heap| == old(|heap|) - 1 && id !in multiset(heap)
      ensures arena.nodes[id].heapIdx == -1
      ensures UnslottedKept(old(arena.nodes), arena.nodes)
      ensures old(Tracks(heap, arena.nodes)) ==> Tracks(heap, arena.nodes)
    {
      ghost var h0, ns0 := heap, arena.nodes;
      var i := arena.nodes[id].heapIdx;
      var last := heap[|heap| - 1];
      TakeOutSlots(heap, arena.nodes, i);
      heap := TakeOut(heap, i);
      if i < |heap| {
        SlotRekeyed(h0, ns0, heap, ns0, i);
        if arena.nodes[last].f < arena.nodes[id].f {
          UpHeap(i);
        } else {
          DownHeap(i);
        }
      } else {
        UnslottedRefl(arena.nodes);
      }
      Forget(id, h0, ns0);
    }

    /** The last step of a removal: node `id`, taken out of the heap `h0` over the store `ns0`,
        records that it has no slot. */
    method Forget(id: nat, ghost h0: seq<nat>, ghost ns0: seq<Node>)
      requires Valid() && id < |arena.nodes| && id !in multiset(heap)
      requires SlotsOnly(ns0, arena.nodes) && UnslottedKept(ns0, arena.nodes)
      requires multiset(heap) == multiset(h0) - multiset{id} && ns0[id].heapIdx >= 0
      modifies arena
      ensures Valid() && arena.nodes == old(arena.nodes)[id := old(arena.nodes)[id].(heapIdx := -1)]
      ensures SlotsOnly(ns0, arena.nodes) && UnslottedKept(ns0, arena.nodes)
      ensures Tracks(h0, ns0) ==> Tracks(heap, arena.nodes)
    {
      ghost var ns1 := arena.nodes;
      SlotForgotten(heap, arena.nodes, id);
      arena.Put(id, arena.nodes[id].(heapIdx := -1));
      SlotsOnlyChain(ns0, ns1, arena.nodes);
      RemovalKept(ns0, ns1, id);
      if Tracks(h0, ns0) {
        RemovalTracks(h0, ns0, ns1, heap, arena.nodes, id);
      }
    }

    /** Gives the open node `id` the key `newCost` and restores the heap order: sifting up when the
        key decreased and down otherwise. The heap holds the same nodes. */
    method ChangeCost(id: nat, newCost: real)
      requires Valid() && id < |arena.nodes|
      requires 0 <= arena.nodes[id].heapIdx < |heap| && heap[arena.nodes[id].heapIdx] == id
      modifies this, arena
      ensures Valid() && SlotsOnly(old(arena.nodes)[id := old(arena.nodes)[id].(f := newCost)], arena.nodes)
      ensures multiset(heap) == old(multiset(heap)) && |heap| == old(|heap|)
      ensures arena.nodes[id].f == newCost
      ensures old(Tracks(heap, arena.nodes)) ==> Tracks(heap, arena.nodes)
    {
      ghost var h0, ns0 := heap, arena.nodes;
      var oldCost := arena.nodes[id].f;
      arena.Put(id, arena.nodes[id].(f := newCost));
      var i := arena.nodes[id].heapIdx;
      SlotRekeyed(heap, ns0, heap, arena.nodes, i);
      ghost var ns1 := arena.nodes;
      if newCost < oldCost {
        UpHeap(i);
      } else {
        DownHeap(i);
      }
      assert SameButSlot(ns1[id], arena.nodes[id]);
      if Tracks(h0, ns0) {
        RekeyTracks(h0, ns0, ns1, heap, arena.nodes);
      }
    }

    /** One move of a sift: the node in slot `from` moves to slot `to` and records it there; the
        sifted node, which sat in slot `to`, takes slot `from`. */
    method MoveSlot(to: nat, from: nat, node: nat, ghost ns0: seq<Node>, ghost h0: seq<nat>)
      requires arena.Valid() && SiftState(heap, ns0, arena.nodes, to, node, h0) && from < |heap| && from != to
      modifies this, arena
      ensures arena.Valid() && SiftState(heap, ns0, arena.nodes, from, node, h0)
      ensures heap == old(heap)[to := old(heap)[from]][from := node]
    {
      var moved := heap[from];
      ghost var ns1 := arena.nodes;
      arena.Put(moved, arena.nodes[moved].(heapIdx := to));
      SiftMoves(heap, ns0, ns1, arena.nodes, to, from, node, h0);
      heap := heap[to := moved][from := node];
    }

    /** The end of a sift: the sifted node takes slot `idx` and records it, so every slot is
        recorded again. */
    method Settle(idx: nat, node: nat, ghost ns0: seq<Node>, ghost h0: seq<nat>)
      requires arena.Valid() && SiftState(heap, ns0, arena.nodes, idx, node, h0)
      modifies this, arena
      ensures arena.Valid() && heap == old(heap)
      ensures InRange(heap, arena.nodes) && Slotted(heap, arena.nodes) && SlotsOnly(ns0, arena.nodes)
      ensures UnslottedKept(ns0, arena.nodes)
    {
      ghost var ns1 := arena.nodes;
      heap := heap[idx := node];
      arena.Put(node, arena.nodes[node].(heapIdx := idx));
      SiftEnds(heap, ns0, ns1, arena.nodes, idx, node, h0);
    }

    /** Moves the node at slot `index` up past every parent with a greater key. */
    method UpHeap(index: nat)
      requires arena.Valid() && InRange(heap, arena.nodes) && index < |heap| && Unique(heap, index)
      requires arena.nodes[heap[index]].heapIdx >= 0
      requires SlottedExcept(heap, arena.nodes, index)
      requires OrderedAboveHole(heap, arena.nodes, index) && BridgesHole(heap, arena.nodes, index)
      modifies this, arena
      ensures Valid() && SlotsOnly(old(arena.nodes), arena.nodes)
      ensures multiset(heap) == old(multiset(heap)) && |heap| == old(|heap|)
      ensures UnslottedKept(old(arena.nodes), arena.nodes)
    {
      ghost var ns0, h0 := arena.nodes, heap;
      var node := heap[index];
      var idx := index;
      while idx > 0
        invariant SiftState(heap, ns0, arena.nodes, idx, node, h0) && arena.Valid()
        invariant OrderedAboveHole(heap, ns0, idx) && BridgesHole(heap, ns0, idx)
      {
        var parentIdx := (idx - 1) / 2;
        var parent := heap[parentIdx];
        assert SameButSlot(ns0[node], arena.nodes[node]) && SameButSlot(ns0[parent], arena.nodes[parent]);
        if !(arena.nodes[node].f < arena.nodes[parent].f) {
          break;
        }
        SiftUpStep(heap, ns0, idx);
        MoveSlot(idx, parentIdx, node, ns0, h0);
        idx := parentIdx;
      }
      Settle(idx, node, ns0, h0);
      UpSettled(heap, ns0, idx);
      OrderTransfers(heap, ns0, arena.nodes);
    }

    /** Moves the node at slot `index` down, past the smaller child, while that child's key is
        below the node's. */
    method DownHeap(index: nat)
      requires arena.Valid() && InRange(heap, arena.nodes) && index < |heap| && Unique(heap, index)
      requires arena.nodes[heap[index]].heapIdx >= 0
      requires SlottedExcept(heap, arena.nodes, index)
      requires OrderedBelowHole(heap, arena.nodes, index) && BridgesHole(heap, arena.nodes, index)
      modifies this, arena
      ensures Valid() && SlotsOnly(old(arena.nodes), arena.nodes)
      ensures multiset(heap) == old(multiset(heap)) && |heap| == old(|heap|)
      ensures UnslottedKept(old(arena.nodes), arena.nodes)
    {
      ghost var ns0, h0 := arena.nodes, heap;
      var node := heap[index];
      var currentCost := arena.nodes[node].f;
      var idx := index;
      while true
        invariant SiftState(heap, ns0, arena.nodes, idx, node, h0) && arena.Valid()
        invariant OrderedBelowHole(heap, ns0, idx) && BridgesHole(heap, ns0, idx)
        invariant currentCost == ns0[node].f
        decreases |heap| - idx
      {
        var left := idx * 2 + 1;
        var right := left + 1;
        if left >= |heap| {
          DownSettled(heap, ns0, idx);
          break;
        }
        var minChild := left;
        if right < |heap| && arena.nodes[heap[right]].f < arena.nodes[heap[left]].f {
          minChild := right;
        }
        SmallerChild(heap, ns0, arena.nodes, idx, minChild);
        if arena.nodes[heap[minChild]].f >= currentCost {
          DownSettled(heap, ns0, idx);
          break;
        }
        SiftDownStep(heap, ns0, idx, minChild);
        MoveSlot(idx, minChild, node, ns0, h0);
        idx := minChild;
      }
      Settle(idx, node, ns0, h0);
      OrderTransfers(heap, ns0, arena.nodes);
    }
  }
}
