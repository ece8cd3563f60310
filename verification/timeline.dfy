/**
 * The undo/redo timeline that both history implementations provide
 * (projet-ringbuffer/include/history.h, projet-listechainee/include/history.h).
 *
 * A timeline is the sequence of stored snapshots, oldest first, a cursor on
 * the current one and a capacity (0 = unbounded). The ring buffer and the
 * linked list are each proved to move this abstract state exactly as the
 * functions below do, so for the same positive capacity the two
 * implementations agree call for call. A requested capacity of 0 is 512
 * slots in the ring buffer and unbounded in the list.
 */
module Timeline {
  import opened Wrappers
  import opened Grids

  datatype State = State(snaps: seq<Snap>, cursor: nat, cap: nat)

  /** A history that is not initialised (or was freed): nothing stored. */
  const Empty: State := State([], 0, 0)

  predicate Initialized(t: State) {
    |t.snaps| > 0
  }

  /**
   * An initialised timeline has its cursor on a stored snapshot, holds at
   * most `cap` snapshots when bounded, and stores only allocated grids.
   */
  predicate Valid(t: State) {
    if !Initialized(t) then t == Empty
    else
      t.cursor < |t.snaps| &&
      (t.cap > 0 ==> |t.snaps| <= t.cap) &&
      forall i :: 0 <= i < |t.snaps| ==> WellFormed(t.snaps[i])
  }

  /**
   * `history_init`: a null or unallocated initial grid is refused before the
   * history is touched; a failed allocation leaves the history reset; otherwise
   * the history holds the one snapshot.
   */
  function Init(t: State, seed: Option<Snap>, cap: nat, allocFails: bool): (bool, State) {
    if seed.None? then (false, t)
    else if allocFails then (false, Empty)
    else (true, State([seed.value], 0, cap))
  }

  /** `history_current`: the snapshot under the cursor. */
  function Current(t: State): Option<Snap> {
    if t.cursor < |t.snaps| then Some(t.snaps[t.cursor]) else None
  }

  predicate CanBack(t: State) {
    Initialized(t) && t.cursor > 0
  }

  predicate CanForward(t: State) {
    t.cursor + 1 < |t.snaps|
  }

  /** `history_back`: one step towards the oldest snapshot, when there is one. */
  function Back(t: State): (bool, State) {
    if CanBack(t) then (true, t.(cursor := t.cursor - 1)) else (false, t)
  }

  /** `history_forward`: one step towards the newest snapshot, when there is one. */
  function Forward(t: State): (bool, State) {
    if CanForward(t) then (true, t.(cursor := t.cursor + 1)) else (false, t)
  }

  /** `history_clear_forward`: drops every snapshot newer than the current one. */
  function ClearForward(t: State): State {
    if Initialized(t) && t.cursor + 1 < |t.snaps| then t.(snaps := t.snaps[..t.cursor + 1]) else t
  }

  /** How many of the oldest snapshots a bounded timeline of `n` snapshots must drop. */
  function Excess(n: nat, cap: nat): nat {
    if cap > 0 && n > cap then n - cap else 0
  }

  /**
   * `history_push`: refused for an uninitialised history or a null or
   * unallocated grid. Otherwise the forward branch is discarded first; if
   * copying the grid then fails, the push fails with the branch already
   * gone. On success the copy is appended, the oldest snapshots beyond the
   * capacity are evicted, and the cursor lands on the new snapshot.
   */
  function Push(t: State, g: Option<Snap>, allocFails: bool): (bool, State) {
    if !Initialized(t) || g.None? then (false, t)
    else
      var t1 := ClearForward(t);
      if allocFails then (false, t1)
      else
        var s := t1.snaps + [g.value];
        var k := Excess(|s|, t.cap);
        (true, State(s[k..], |s| - k - 1, t.cap))
  }

  // ------------------------------------------------------------------
  // Properties of one call
  // ------------------------------------------------------------------

  /** Init succeeds exactly for an allocated seed and a successful allocation, and leaves a valid timeline. */
  lemma InitSpec(t: State, seed: Option<Snap>, cap: nat, allocFails: bool)
    requires Valid(t) && (seed.Some? ==> WellFormed(seed.value))
    ensures Init(t, seed, cap, allocFails).0 <==> seed.Some? && !allocFails
    ensures Valid(Init(t, seed, cap, allocFails).1)
    ensures Init(t, seed, cap, allocFails).0 ==>
      Current(Init(t, seed, cap, allocFails).1) == seed &&
      !CanBack(Init(t, seed, cap, allocFails).1) && !CanForward(Init(t, seed, cap, allocFails).1)
  {
  }

  /** Push succeeds exactly when the history is initialised, the grid allocated and the copy made. */
  lemma PushOk(t: State, g: Option<Snap>, allocFails: bool)
    ensures Push(t, g, allocFails).0 <==> Initialized(t) && g.Some? && !allocFails
  {
  }

  /** Push keeps the timeline valid. */
  lemma PushValid(t: State, g: Option<Snap>, allocFails: bool)
    requires Valid(t) && (g.Some? ==> WellFormed(g.value))
    ensures Valid(Push(t, g, allocFails).1)
  {
    if Initialized(t) && g.Some? && !allocFails {
      var s := ClearForward(t).snaps + [g.value];
      var r := Push(t, g, allocFails).1;
      assert r.snaps == s[Excess(|s|, t.cap)..];
      forall i | 0 <= i < |r.snaps|
        ensures WellFormed(r.snaps[i])
      {
        assert r.snaps[i] == s[i + Excess(|s|, t.cap)];
      }
    }
  }

  /** After a successful push the new snapshot is current and there is nothing to redo. */
  lemma PushLandsOnTail(t: State, g: Option<Snap>, allocFails: bool)
    requires Valid(t)
    ensures Push(t, g, allocFails).0 ==>
      Current(Push(t, g, allocFails).1) == g && !CanForward(Push(t, g, allocFails).1)
  {
  }

  /**
   * What a successful push keeps: the snapshots up to the current one, then
   * the new one; at capacity, the oldest of them is dropped, never more.
   */
  lemma PushContents(t: State, g: Option<Snap>, allocFails: bool)
    requires Valid(t) && Push(t, g, allocFails).0
    ensures t.cap == 0 || t.cursor + 1 < t.cap ==>
      Push(t, g, allocFails).1.snaps == t.snaps[..t.cursor + 1] + [g.value]
    ensures t.cap > 0 && t.cursor + 1 == t.cap ==>
      Push(t, g, allocFails).1.snaps == t.snaps[1..t.cursor + 1] + [g.value]
    ensures Push(t, g, allocFails).1.cap == t.cap
  {
    var t1 := ClearForward(t);
    assert t1.snaps == t.snaps[..t.cursor + 1];
    var s := t1.snaps + [g.value];
    if t.cap > 0 && t.cursor + 1 == t.cap {
      assert Excess(|s|, t.cap) == 1;
      assert s[1..] == t.snaps[1..t.cursor + 1] + [g.value];
    }
  }

  /** Pushing at the newest snapshot truncates nothing: the new snapshot is appended to all of them. */
  lemma PushFromTail(t: State, g: Option<Snap>)
    requires Valid(t) && Initialized(t) && !CanForward(t) && g.Some?
    requires t.cap == 0 || |t.snaps| < t.cap
    ensures Push(t, g, false) == (true, State(t.snaps + [g.value], |t.snaps|, t.cap))
  {
    assert ClearForward(t) == t;
  }

  /** A bounded full timeline pushed at its newest snapshot slides by one: `old[1..] + [g]`, same length. */
  lemma PushWhenFull(t: State, g: Option<Snap>)
    requires Valid(t) && !CanForward(t) && g.Some? && t.cap > 0 && |t.snaps| == t.cap
    ensures Push(t, g, false).1.snaps == t.snaps[1..] + [g.value]
    ensures |Push(t, g, false).1.snaps| == |t.snaps|
  {
    assert ClearForward(t) == t;
    var s := t.snaps + [g.value];
    assert s[1..] == t.snaps[1..] + [g.value];
  }

  /** A push whose copy fails has still discarded the forward branch. */
  lemma PushFailureTruncates(t: State, g: Option<Snap>)
    requires Valid(t) && Initialized(t) && g.Some?
    ensures Push(t, g, true) == (false, ClearForward(t))
    ensures Push(t, g, true).1.snaps == t.snaps[..t.cursor + 1]
  {
  }

  /** Back and forward keep the snapshots and the capacity, move the cursor by one, and keep the timeline valid. */
  lemma MoveSpec(t: State)
    requires Valid(t)
    ensures Back(t).0 <==> CanBack(t)
    ensures Forward(t).0 <==> CanForward(t)
    ensures Back(t).1.snaps == t.snaps && Forward(t).1.snaps == t.snaps
    ensures Back(t).0 ==> Back(t).1.cursor + 1 == t.cursor
    ensures Forward(t).0 ==> Forward(t).1.cursor == t.cursor + 1
    ensures !Back(t).0 ==> Back(t).1 == t
    ensures !Forward(t).0 ==> Forward(t).1 == t
    ensures Valid(Back(t).1) && Valid(Forward(t).1)
  {
  }

  /** Back then forward, or forward then back, returns to the same state. */
  lemma BackForwardInverse(t: State)
    requires Valid(t)
    ensures CanBack(t) ==> Forward(Back(t).1) == (true, t)
    ensures CanForward(t) ==> Back(Forward(t).1) == (true, t)
  {
  }

  /** Clearing the forward branch keeps the cursor and the snapshots up to it, and leaves nothing to redo. */
  lemma ClearForwardSpec(t: State)
    requires Valid(t)
    ensures Valid(ClearForward(t))
    ensures ClearForward(t).cursor == t.cursor && ClearForward(t).cap == t.cap
    ensures Initialized(t) ==> ClearForward(t).snaps == t.snaps[..t.cursor + 1]
    ensures !CanForward(ClearForward(t))
    ensures Current(ClearForward(t)) == Current(t)
  {
  }

  // ------------------------------------------------------------------
  // Sequences of calls
  // ------------------------------------------------------------------

  /** Pushes every snapshot of `gs` in order. */
  function PushAll(t: State, gs: seq<Snap>): State
    decreases |gs|
  {
    if gs == [] then t else PushAll(Push(t, Some(gs[0]), false).1, gs[1..])
  }

  /** Steps back `n` times. */
  function BackN(t: State, n: nat): State
    decreases n
  {
    if n == 0 then t else BackN(Back(t).1, n - 1)
  }

  /** One push at the newest snapshot: appended, then the oldest beyond the capacity dropped; still at the newest. */
  lemma PushAtNewest(t: State, g: Snap)
    requires Valid(t) && Initialized(t) && !CanForward(t) && WellFormed(g)
    ensures var e := Excess(|t.snaps| + 1, t.cap);
      Push(t, Some(g), false).1 == State((t.snaps + [g])[e..], |t.snaps| - e, t.cap)
    ensures var r := Push(t, Some(g), false).1; Valid(r) && Initialized(r) && !CanForward(r)
  {
    assert ClearForward(t) == t;
    PushValid(t, Some(g), false);
  }

  /** Dropping `e` and then `d` of the oldest snapshots is dropping `e + d` of them. */
  lemma DropTwice(a: seq<Snap>, gs: seq<Snap>, e: nat, d: nat)
    requires |gs| > 0 && e <= |a| + 1 && d <= |a| + 1 - e + |gs| - 1
    ensures ((a + [gs[0]])[e..] + gs[1..])[d..] == (a + gs)[e + d..]
  {
    assert (a + [gs[0]])[e..] + gs[1..] == (a + gs)[e..];
  }

  /**
   * Pushes at the newest snapshot append, and a bounded timeline then keeps
   * only its `cap` newest snapshots; the cursor follows the last push.
   */
  lemma {:induction false} PushAllSpec(t: State, gs: seq<Snap>)
    requires Valid(t) && Initialized(t) && !CanForward(t)
    requires forall i :: 0 <= i < |gs| ==> WellFormed(gs[i])
    ensures var d := Excess(|t.snaps| + |gs|, t.cap);
      PushAll(t, gs) == State((t.snaps + gs)[d..], |t.snaps| + |gs| - d - 1, t.cap)
    ensures Valid(PushAll(t, gs))
    decreases |gs|
  {
    if gs == [] {
      assert t.snaps + gs == t.snaps;
    } else {
      var t' := Push(t, Some(gs[0]), false).1;
      PushAtNewest(t, gs[0]);
      PushAllSpec(t', gs[1..]);
      var e := Excess(|t.snaps| + 1, t.cap);
      var d' := Excess(|t'.snaps| + |gs| - 1, t.cap);
      assert e + d' == Excess(|t.snaps| + |gs|, t.cap);
      DropTwice(t.snaps, gs, e, d');
    }
  }

  /** Stepping back `n` times from cursor `c >= n` lands on cursor `c - n` and keeps the snapshots. */
  lemma {:induction false} BackNSpec(t: State, n: nat)
    requires Valid(t) && n <= t.cursor
    ensures BackN(t, n) == t.(cursor := t.cursor - n)
    decreases n
  {
    if n > 0 {
      MoveSpec(t);
      BackNSpec(Back(t).1, n - 1);
    }
  }

  /**
   * Undoing as many pushes as were made, when none of them had to evict,
   * returns to the snapshot current before them with the pushes left to
   * redo; from the oldest snapshot there is then nothing left to undo.
   */
  lemma UndoPushes(t: State, gs: seq<Snap>)
    requires Valid(t) && Initialized(t) && !CanForward(t)
    requires t.cap == 0 || |t.snaps| + |gs| <= t.cap
    requires forall i :: 0 <= i < |gs| ==> WellFormed(gs[i])
    ensures Current(BackN(PushAll(t, gs), |gs|)) == Current(t)
    ensures CanForward(BackN(PushAll(t, gs), |gs|)) <==> gs != []
    ensures t.cursor == 0 ==> !CanBack(BackN(PushAll(t, gs), |gs|))
  {
    PushAllSpec(t, gs);
    var u := PushAll(t, gs);
    assert Excess(|t.snaps| + |gs|, t.cap) == 0;
    assert (t.snaps + gs)[0..] == t.snaps + gs;
    assert u == State(t.snaps + gs, |t.snaps| + |gs| - 1, t.cap);
    BackNSpec(u, |gs|);
    var v := BackN(u, |gs|);
    assert v.cursor == t.cursor && v.snaps == t.snaps + gs;
    assert v.snaps[t.cursor] == t.snaps[t.cursor];
  }

  /** A bounded timeline pushed at least `cap` times holds exactly the last `cap` pushed snapshots: the older ones are gone. */
  lemma BoundedForgets(t: State, gs: seq<Snap>)
    requires Valid(t) && Initialized(t) && !CanForward(t) && t.cap > 0 && |gs| >= t.cap
    requires forall i :: 0 <= i < |gs| ==> WellFormed(gs[i])
    ensures PushAll(t, gs).snaps == gs[|gs| - t.cap..]
    ensures Current(PushAll(t, gs)) == Some(gs[|gs| - 1])
  {
    PushAllSpec(t, gs);
    var d := Excess(|t.snaps| + |gs|, t.cap);
    assert (t.snaps + gs)[d..] == gs[|gs| - t.cap..];
  }
}
