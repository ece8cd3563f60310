/**
 * The history over a doubly linked list (projet-listechainee/src/history.c).
 *
 * Nodes live in an arena `nodes` and point at each other by index; `NIL`
 * stands for the NULL pointer. The ghost `chain` lists the arena indices of
 * the live nodes from `head` to `tail`, and `pos` is the place of `cur` in
 * it. Nodes that are unlinked stay in the arena but are never reached again.
 */
module ListHistory {
  import opened Wrappers
  import opened Grids
  import Timeline

  const NIL: int := -1

  /** `HistoryNode`: a snapshot and the indices of its neighbours. */
  datatype Node = Node(grid: Snap, prev: int, next: int)

  /**
   * The nodes at the arena indices `chain` form a doubly linked list in that
   * order: each index is in the arena and appears once, `prev` and `next`
   * point at the neighbours in `chain`, and the two ends point at `NIL`.
   */
  ghost predicate Wired(nodes: seq<Node>, chain: seq<nat>) {
    (forall k :: 0 <= k < |chain| ==> chain[k] < |nodes|) &&
    (forall j, k :: 0 <= j < k < |chain| ==> chain[j] != chain[k]) &&
    (forall k :: 0 <= k < |chain| ==> nodes[chain[k]].prev == if k == 0 then NIL else chain[k - 1]) &&
    (forall k :: 0 <= k < |chain| ==> nodes[chain[k]].next == if k == |chain| - 1 then NIL else chain[k + 1])
  }

  /** The links of the `k`-th node of a wired list. */
  lemma WiredAt(nodes: seq<Node>, chain: seq<nat>, k: int)
    requires Wired(nodes, chain) && 0 <= k < |chain|
    ensures chain[k] < |nodes|
    ensures nodes[chain[k]].prev == if k == 0 then NIL else chain[k - 1]
    ensures nodes[chain[k]].next == if k == |chain| - 1 then NIL else chain[k + 1]
  {
  }

  /** The snapshots held by the nodes of `chain`, in order. */
  function Snaps(nodes: seq<Node>, chain: seq<nat>): (s: seq<Snap>)
    ensures |s| == |chain|
  {
    seq(|chain|, k requires 0 <= k < |chain| => if chain[k] < |nodes| then nodes[chain[k]].grid else Unallocated)
  }

  /** The indices met by following `next` from `from`, for at most `fuel` nodes. */
  function Walk(nodes: seq<Node>, from: int, fuel: nat): seq<int>
    decreases fuel
  {
    if fuel == 0 || from < 0 || from >= |nodes| then []
    else [from] + Walk(nodes, nodes[from].next, fuel - 1)
  }

  /** Walking a wired list from its `k`-th node meets exactly the rest of the chain, then stops at `NIL`. */
  lemma {:induction false} WalkFrom(nodes: seq<Node>, chain: seq<nat>, k: nat, fuel: nat)
    requires Wired(nodes, chain) && k < |chain| && fuel >= |chain| - k
    ensures Walk(nodes, chain[k], fuel) == chain[k..]
    decreases |chain| - k
  {
    if k == |chain| - 1 {
      assert Walk(nodes, NIL, fuel - 1) == [];
    } else {
      WalkFrom(nodes, chain, k + 1, fuel - 1);
      assert chain[k..] == [chain[k]] + chain[k + 1..];
    }
  }

  /** Unlinking the head of a list of two or more nodes leaves a list of the rest, whose new head has no `prev`. */
  lemma UnlinkHead(nodes: seq<Node>, chain: seq<nat>)
    requires Wired(nodes, chain) && |chain| >= 2
    ensures nodes[chain[0]].next == chain[1]
    ensures Wired(nodes[chain[1] := nodes[chain[1]].(prev := NIL)], chain[1..])
    ensures Snaps(nodes[chain[1] := nodes[chain[1]].(prev := NIL)], chain[1..]) == Snaps(nodes, chain)[1..]
  {
    var nodes' := nodes[chain[1] := nodes[chain[1]].(prev := NIL)];
    var chain' := chain[1..];
    forall k | 0 <= k < |chain'|
      ensures nodes'[chain'[k]].prev == if k == 0 then NIL else chain'[k - 1]
      ensures nodes'[chain'[k]].next == if k == |chain'| - 1 then NIL else chain'[k + 1]
    {
      var i := chain[k + 1];
      assert chain'[k] == i;
      assert nodes[i].next == if k + 1 == |chain| - 1 then NIL else chain[k + 2];
      assert nodes[i].prev == chain[k];
      if k > 0 {
        assert i != chain[1];
        assert chain'[k - 1] == chain[k];
      }
      if k < |chain'| - 1 {
        assert chain'[k + 1] == chain[k + 2];
      }
    }
    assert forall k :: 0 <= k < |chain'| ==> chain'[k] < |nodes'|;
    assert forall j, k :: 0 <= j < k < |chain'| ==> chain'[j] != chain'[k];
    assert Wired(nodes', chain');
  }

  /** Cutting a list after its node at place `p` leaves a list of the nodes up to it. */
  lemma CutAfter(nodes: seq<Node>, chain: seq<nat>, p: nat)
    requires Wired(nodes, chain) && p < |chain|
    ensures Wired(nodes[chain[p] := nodes[chain[p]].(next := NIL)], chain[..p + 1])
    ensures Snaps(nodes[chain[p] := nodes[chain[p]].(next := NIL)], chain[..p + 1]) == Snaps(nodes, chain)[..p + 1]
  {
    var nodes' := nodes[chain[p] := nodes[chain[p]].(next := NIL)];
    var chain' := chain[..p + 1];
    forall k | 0 <= k < |chain'|
      ensures nodes'[chain'[k]].prev == if k == 0 then NIL else chain'[k - 1]
      ensures nodes'[chain'[k]].next == if k == |chain'| - 1 then NIL else chain'[k + 1]
    {
      WiredAt(nodes, chain, k);
      if k < p {
        assert chain[k] != chain[p];
      }
    }
    assert forall k :: 0 <= k < |chain'| ==> chain'[k] < |nodes'|;
    assert forall j, k :: 0 <= j < k < |chain'| ==> chain'[j] != chain'[k];
    assert Wired(nodes', chain');
  }

  /** On the timeline, cutting the list after its node at place `p` (giving `cut`) is `Timeline.ClearForward`. */
  lemma CutTimeline(nodes: seq<Node>, chain: seq<nat>, p: nat, cap: nat, cut: seq<Node>)
    requires Wired(nodes, chain) && p < |chain|
    requires cut == nodes[chain[p] := nodes[chain[p]].(next := NIL)]
    ensures Wired(cut, chain[..p + 1])
    ensures Timeline.State(Snaps(cut, chain[..p + 1]), p, cap) == Timeline.ClearForward(Timeline.State(Snaps(nodes, chain), p, cap))
    ensures forall k :: 0 <= k <= p ==> cut[chain[k]].grid == nodes[chain[k]].grid
  {
    CutAfter(nodes, chain, p);
  }

  /** Linking a new arena node after the tail of a non-empty list makes it the new tail. */
  lemma LinkAfterTail(nodes: seq<Node>, chain: seq<nat>, snap: Snap)
    requires Wired(nodes, chain) && |chain| > 0
    ensures var n := |nodes|;
      var t := chain[|chain| - 1];
      var nodes' := (nodes + [Node(snap, t, NIL)])[t := nodes[t].(next := n)];
      Wired(nodes', chain + [n]) && Snaps(nodes', chain + [n]) == Snaps(nodes, chain) + [snap]
  {
    var n := |nodes|;
    var t := chain[|chain| - 1];
    var nodes' := (nodes + [Node(snap, t, NIL)])[t := nodes[t].(next := n)];
    var chain' := chain + [n];
    forall k | 0 <= k < |chain'|
      ensures chain'[k] < |nodes'|
      ensures nodes'[chain'[k]].prev == if k == 0 then NIL else chain'[k - 1]
      ensures nodes'[chain'[k]].next == if k == |chain'| - 1 then NIL else chain'[k + 1]
    {
      if k < |chain| {
        var i := chain[k];
        assert chain'[k] == i;
        assert nodes[i].prev == if k == 0 then NIL else chain[k - 1];
        assert nodes[i].next == if k == |chain| - 1 then NIL else chain[k + 1];
        if k < |chain| - 1 {
          assert i != t;
        }
      }
    }
    forall j, k | 0 <= j < k < |chain'|
      ensures chain'[j] != chain'[k]
    {
    }
    assert Wired(nodes', chain');
    assert Snaps(nodes', chain') == Snaps(nodes, chain) + [snap];
  }

  class History {
    var nodes: seq<Node>
    var head: int
    var tail: int
    var cur: int
    var len: nat
    var cap: nat
    ghost var chain: seq<nat>
    ghost var pos: nat

    /** The list structure: `head`, `tail` and `cur` on the chain, `len` its length, every snapshot allocated. */
    ghost predicate Shape()
      reads this
    {
      Wired(nodes, chain) && len == |chain| &&
      (forall k :: 0 <= k < |chain| ==> WellFormed(nodes[chain[k]].grid)) &&
      if chain == [] then head == NIL && tail == NIL && cur == NIL && pos == 0
      else head == chain[0] && tail == chain[|chain| - 1] && pos < |chain| && cur == chain[pos]
    }

    /** The list structure, and at most `cap` snapshots when `cap > 0`. */
    ghost predicate Valid()
      reads this
    {
      Shape() && (cap > 0 ==> len <= cap)
    }

    /** The timeline this history stands for: the snapshots from `head` to `tail`, the cursor at `cur`. */
    ghost function Abs(): Timeline.State
      reads this
    {
      if chain == [] then Timeline.Empty else Timeline.State(Snaps(nodes, chain), pos, cap)
    }

    /** A valid history stands for a valid timeline. */
    lemma AbsValid()
      requires Valid()
      ensures Timeline.Valid(Abs())
    {
    }

    /** Following `next` from `head` meets exactly the chain: the ghost chain is the list the pointers describe. */
    lemma ChainIsWalk(fuel: nat)
      requires Shape() && fuel >= len
      ensures Walk(nodes, head, fuel) == chain
    {
      if chain != [] {
        WalkFrom(nodes, chain, 0, fuel);
      }
    }

    /** `History h = {0}`. */
    constructor ()
      ensures Valid() && Abs() == Timeline.Empty && nodes == []
    {
      nodes := [];
      head, tail, cur, len, cap := NIL, NIL, NIL, 0, 0;
      chain, pos := [], 0;
    }

    /** `history_zero`: forgets every node (the arena keeps them) and resets the counters. */
    method Zero()
      modifies this
      ensures Valid() && Abs() == Timeline.Empty && cap == 0 && nodes == old(nodes)
    {
      head, tail, cur, len, cap := NIL, NIL, NIL, 0, 0;
      chain, pos := [], 0;
    }

    /**
     * `history_init`: refused, with the history untouched, for a null or
     * unallocated initial grid. Otherwise the history is reset with the given
     * capacity (0 = unbounded); when the copy or the node allocation fails
     * it stays empty. On success one node, both head and tail, is current.
     */
    method Init(initial: Grid?, capacity: nat, allocFails: bool) returns (ok: bool)
      requires Valid() && (initial != null ==> initial.Valid())
      modifies this
      ensures Valid()
      ensures (ok, Abs()) == Timeline.Init(old(Abs()), ValueOf(initial), capacity, allocFails)
      ensures ValueOf(initial).Some? ==> cap == capacity
      ensures ok ==> head == tail == cur && len == 1 && nodes[cur] == Node(ValueOf(initial).value, NIL, NIL)
    {
      if initial == null || initial.cells == null {
        return false;
      }
      Zero();
      cap := capacity;
      if allocFails {
        return false;
      }
      var n := |nodes|;
      nodes := nodes + [Node(initial.Value().value, NIL, NIL)];
      head, tail, cur, len := n, n, n, 1;
      chain, pos := [n], 0;
      assert Snaps(nodes, chain) == [initial.Value().value];
      return true;
    }

    /** `history_free`: walks the list from `head` releasing each node, then resets the history. */
    method Free()
      requires Valid()
      modifies this
      ensures Valid() && Abs() == Timeline.Empty && cap == 0
    {
      var it := head;
      ghost var k := 0;
      while it != NIL
        modifies {}
        invariant k <= |chain|
        invariant it == if k < |chain| then chain[k] else NIL
        decreases |chain| - k
      {
        WiredAt(nodes, chain, k);
        var next := nodes[it].next;
        it := next;
        k := k + 1;
      }
      Zero();
    }

    /** `history_current`: the snapshot of `cur`; none for an empty history. */
    function Current(): (g: Option<Snap>)
      requires Valid()
      reads this
      ensures g == Timeline.Current(Abs())
    {
      if cur == NIL then None else Some(nodes[cur].grid)
    }

    /**
     * `history_clear_forward`: cuts the list after `cur`, makes `cur` the
     * tail and releases the nodes that followed it one by one, decreasing
     * `len` for each; the nodes up to `cur` are untouched.
     */
    method ClearForward()
      requires Valid()
      modifies this
      ensures Valid() && Abs() == Timeline.ClearForward(old(Abs()))
      ensures cap == old(cap) && cur == old(cur) && head == old(head) && |nodes| == |old(nodes)|
      ensures cur != NIL ==> tail == cur && nodes[cur].next == NIL && len == old(pos) + 1
      ensures cur == NIL ==> unchanged(this)
    {
      if cur == NIL {
        return;
      }
      ghost var n0, c0, t0 := nodes, chain, Abs();
      WiredAt(nodes, chain, pos);
      CutTimeline(nodes, chain, pos, cap, nodes[cur := nodes[cur].(next := NIL)]);
      var it := nodes[cur].next;
      nodes, tail, chain := nodes[cur := nodes[cur].(next := NIL)], cur, chain[..pos + 1];
      assert Abs() == Timeline.ClearForward(t0);
      ReleaseFrom(it, n0, c0, pos + 1);
    }

    /**
     * The release loop of `history_clear_forward`: follows `next` from `it`,
     * the node at place `k` of `chain0`, to the end of the list, decreasing
     * `len` once for every node it releases.
     */
    method ReleaseFrom(it: int, ghost arena: seq<Node>, ghost chain0: seq<nat>, ghost k0: nat)
      requires Wired(arena, chain0) && 0 < k0 <= |chain0|
      requires nodes == arena[chain0[k0 - 1] := arena[chain0[k0 - 1]].(next := NIL)]
      requires it == if k0 < |chain0| then chain0[k0] else NIL
      requires len >= |chain0| - k0
      modifies this`len
      ensures len == old(len) - (|chain0| - k0)
    {
      var node := it;
      ghost var k := k0;
      while node != NIL
        invariant k0 <= k <= |chain0|
        invariant node == if k < |chain0| then chain0[k] else NIL
        invariant len == old(len) - (k - k0) && nodes == old(nodes)
        decreases |chain0| - k
      {
        WiredAt(arena, chain0, k);
        assert chain0[k0 - 1] != chain0[k];
        var next := nodes[node].next;
        len := len - 1;
        node := next;
        k := k + 1;
      }
    }

    /**
     * `history_evict_oldest_if_needed`: with `cap > 0`, unlinks `head` while
     * there are more than `cap` nodes, giving the new head `prev = NIL`.
     * Called right after a push, when `cur` is the tail, so the loop stops
     * before it would reach `cur`.
     */
    method EvictOldestIfNeeded()
      requires Shape() && |chain| > 0 && pos == |chain| - 1
      modifies this
      ensures Valid() && cap == old(cap) && cur == old(cur) && tail == old(tail) && |nodes| == |old(nodes)|
      ensures forall i :: 0 <= i < |nodes| ==> nodes[i].grid == old(nodes)[i].grid && nodes[i].next == old(nodes)[i].next
      ensures Abs() == old(Abs()).(snaps := old(Abs()).snaps[Timeline.Excess(old(len), cap)..],
                                   cursor := old(Abs()).cursor - Timeline.Excess(old(len), cap))
    {
      if cap == 0 {
        return;
      }
      ghost var oldChain := chain;
      ghost var oldNodes := nodes;
      ghost var t0 := Abs();
      assert t0 == Timeline.State(Snaps(nodes, chain), |chain| - 1, cap);
      ghost var e := 0;
      while len > cap && head != NIL
        invariant Shape() && |chain| > 0 && pos == |chain| - 1
        invariant cap == old(cap) > 0 && cur == old(cur) && tail == old(tail) && |nodes| == |oldNodes|
        invariant forall i :: 0 <= i < |nodes| ==> nodes[i].grid == oldNodes[i].grid && nodes[i].next == oldNodes[i].next
        invariant e <= Timeline.Excess(|oldChain|, cap) && chain == oldChain[e..]
        invariant Snaps(nodes, chain) == Snaps(oldNodes, oldChain)[e..]
        decreases len
      {
        UnlinkOldest();
        e := e + 1;
        assert oldChain[e..] == chain;
        assert Snaps(nodes, chain) == Snaps(oldNodes, oldChain)[e..];
      }
      assert e == Timeline.Excess(|oldChain|, cap);
      assert Abs() == Timeline.State(t0.snaps[e..], t0.cursor - e, cap);
    }

    /** One pass of the eviction loop: `head` is unlinked and its successor becomes the head. */
    method UnlinkOldest()
      requires Shape() && |chain| >= 2 && pos == |chain| - 1
      modifies this
      ensures Shape() && chain == old(chain)[1..] && pos == |chain| - 1 && len == old(len) - 1
      ensures cap == old(cap) && cur == old(cur) && tail == old(tail) && |nodes| == |old(nodes)|
      ensures forall i :: 0 <= i < |nodes| ==> nodes[i].grid == old(nodes)[i].grid && nodes[i].next == old(nodes)[i].next
      ensures Snaps(nodes, chain) == Snaps(old(nodes), old(chain))[1..]
    {
      UnlinkHead(nodes, chain);
      var oldest := head;
      head := nodes[oldest].next;
      if head != NIL {
        nodes := nodes[head := nodes[head].(prev := NIL)];
      } else {
        // Unreachable: the list has at least two nodes, so the head has a successor.
        assert false;
      }
      len := len - 1;
      chain := chain[1..];
      pos := pos - 1;
    }

    /**
     * `history_push`: refused for an empty history or a null or unallocated
     * grid. A push from a past position first clears the forward branch; a
     * failed copy or node allocation then returns false. Otherwise a new
     * node (`prev` = old tail, `next` = NIL) becomes tail and current, and
     * the oldest nodes beyond the capacity are evicted.
     */
    method Push(g: Grid?, allocFails: bool) returns (ok: bool)
      requires Valid() && (g != null ==> g.Valid())
      modifies this
      ensures Valid() && cap == old(cap)
      ensures (ok, Abs()) == Timeline.Push(old(Abs()), ValueOf(g), allocFails)
      ensures ok ==> cur == tail && nodes[cur].grid == ValueOf(g).value && nodes[cur].next == NIL
    {
      if cur == NIL || g == null || g.cells == null {
        return false;
      }
      ghost var t0 := Abs();
      if cur != tail {
        ClearForward();
      }
      ghost var t1 := Abs();
      assert t1 == Timeline.ClearForward(t0);
      if allocFails {
        return false;
      }
      var snap := g.Value().value;
      Append(snap);
      assert Abs() == Timeline.State(t1.snaps + [snap], |t1.snaps|, cap);
      EvictOldestIfNeeded();
      // The C code's `if (!h->cur) return false;` after eviction never fires.
      assert cur != NIL;
      return true;
    }

    /** The linking step of `history_push`: a new node after `tail` becomes tail and current, `len` grows by one. */
    method Append(snap: Snap)
      requires Shape() && |chain| > 0 && cur == tail && WellFormed(snap)
      modifies this
      ensures Shape() && |chain| > 0 && pos == |chain| - 1 && cap == old(cap)
      ensures len == old(len) + 1 && cur == tail && nodes[cur] == Node(snap, old(tail), NIL)
      ensures Abs() == Timeline.State(old(Abs()).snaps + [snap], old(len), cap)
    {
      LinkAfterTail(nodes, chain, snap);
      var n := |nodes|;
      nodes := nodes + [Node(snap, tail, NIL)];
      nodes := nodes[tail := nodes[tail].(next := n)];
      tail, cur, len := n, n, len + 1;
      chain := chain + [n];
      pos := |chain| - 1;
    }

    predicate CanBack()
      requires Valid()
      reads this
    {
      cur != NIL && nodes[cur].prev != NIL
    }

    predicate CanForward()
      requires Valid()
      reads this
    {
      cur != NIL && nodes[cur].next != NIL
    }

    /** The two predicates are those of the timeline. */
    lemma CanMove()
      requires Valid()
      ensures CanBack() <==> Timeline.CanBack(Abs())
      ensures CanForward() <==> Timeline.CanForward(Abs())
    {
      if chain != [] {
        WiredAt(nodes, chain, pos);
      }
    }

    /** `history_back`: `cur` moves to its `prev` when there is one; nothing else changes. */
    method Back() returns (ok: bool)
      requires Valid()
      modifies this`cur, this`pos
      ensures Valid() && (ok, Abs()) == Timeline.Back(old(Abs()))
    {
      CanMove();
      if !CanBack() {
        return false;
      }
      cur := nodes[cur].prev;
      pos := pos - 1;
      return true;
    }

    /** `history_forward`: `cur` moves to its `next` when there is one; nothing else changes. */
    method Forward() returns (ok: bool)
      requires Valid()
      modifies this`cur, this`pos
      ensures Valid() && (ok, Abs()) == Timeline.Forward(old(Abs()))
    {
      CanMove();
      if !CanForward() {
        return false;
      }
      cur := nodes[cur].next;
      pos := pos + 1;
      return true;
    }
  }
}
