/**
 * The bounded history over a ring buffer (projet-ringbuffer/src/history.c).
 *
 * `buf` has `cap` slots. The `len` stored snapshots occupy the logical
 * positions `0 .. len - 1`, oldest first; logical position `rel` lives in the
 * physical slot `(start + rel) % cap`. `cur` is a logical position. Every
 * other slot is empty (NULL in C, `None` here).
 */
module RingHistory {
  import opened Wrappers
  import opened Grids
  import Timeline

  /** The capacity `history_init` uses when it is asked for 0. */
  const DEFAULT_CAP: nat := 512

  /** The capacity `history_init` actually allocates for a requested one. */
  function EffectiveCap(requested: nat): (c: nat)
    ensures c > 0
    ensures requested > 0 ==> c == requested
  {
    if requested == 0 then DEFAULT_CAP else requested
  }

  // ------------------------------------------------------------------
  // Logical and physical positions
  // ------------------------------------------------------------------

  /** `pos_phys`: the physical slot of logical position `rel`. */
  function Phys(start: nat, rel: nat, cap: nat): (p: nat)
    requires cap > 0
    ensures p < cap
  {
    (start + rel) % cap
  }

  /** The logical position that physical slot `p` stands for: the inverse of `Phys`. */
  function Rel(start: nat, p: nat, cap: nat): (rel: nat)
    requires start < cap && p < cap
    ensures rel < cap
  {
    (p + cap - start) % cap
  }

  /** Reducing a value below `2 * cap` modulo `cap` subtracts `cap` at most once. */
  lemma ModOnce(x: int, cap: int)
    requires cap > 0 && 0 <= x < 2 * cap
    ensures x % cap == if x < cap then x else x - cap
  {
    var q, r := x / cap, x % cap;
    assert x == q * cap + r && 0 <= r < cap;
    var k := if x < cap then 0 else 1;
    MulStep(q - k, cap);
    assert (q - k) * cap == x - k * cap - r;
  }

  /** A nonzero multiple of a positive `cap` is at least `cap` away from zero. */
  lemma MulStep(q: int, cap: int)
    requires cap > 0
    ensures q >= 1 ==> q * cap >= cap
    ensures q <= -1 ==> q * cap <= -cap
  {
  }

  /** `Phys` and `Rel` are inverse bijections of `0 .. cap - 1` for a fixed `start`. */
  lemma RelOfPhys(start: nat, rel: nat, cap: nat)
    requires start < cap && rel < cap
    ensures Rel(start, Phys(start, rel, cap), cap) == rel
  {
    ModOnce(start + rel, cap);
    ModOnce(Phys(start, rel, cap) + cap - start, cap);
  }

  lemma PhysOfRel(start: nat, p: nat, cap: nat)
    requires start < cap && p < cap
    ensures Phys(start, Rel(start, p, cap), cap) == p
  {
    ModOnce(p + cap - start, cap);
    ModOnce(start + Rel(start, p, cap), cap);
  }

  /** Distinct logical positions sit in distinct physical slots. */
  lemma PhysInjective(start: nat, r1: nat, r2: nat, cap: nat)
    requires start < cap && r1 < cap && r2 < cap
    ensures Phys(start, r1, cap) == Phys(start, r2, cap) <==> r1 == r2
  {
    RelOfPhys(start, r1, cap);
    RelOfPhys(start, r2, cap);
  }

  /** Advancing `start` by one slot shifts every logical position down by one. */
  lemma PhysAdvance(start: nat, rel: nat, cap: nat)
    requires start < cap && rel < cap
    ensures Phys((start + 1) % cap, rel, cap) == Phys(start, rel + 1, cap)
  {
    ModOnce(start + 1, cap);
    ModOnce(start + rel + 1, cap);
    ModOnce((start + 1) % cap + rel, cap);
  }

  // ------------------------------------------------------------------
  // The abstraction of a buffer
  // ------------------------------------------------------------------

  /** The snapshots at logical positions `0 .. len - 1` of the buffer `b`. */
  function Window(b: seq<Option<Snap>>, start: nat, len: nat): (w: seq<Snap>)
    requires |b| > 0
    ensures |w| == len
  {
    seq(len, rel requires 0 <= rel < len => OrUnallocated(b[Phys(start, rel, |b|)]))
  }

  /** The buffer `b` with the slots of logical positions `from .. to - 1` emptied. */
  function Cleared(b: seq<Option<Snap>>, start: nat, from: nat, to: nat): (c: seq<Option<Snap>>)
    requires start < |b|
    ensures |c| == |b|
  {
    seq(|b|, p requires 0 <= p < |b| => if from <= Rel(start, p, |b|) < to then None else b[p])
  }

  /** Emptying one more logical position extends the cleared range by one. */
  lemma ClearedStep(b: seq<Option<Snap>>, start: nat, from: nat, to: nat)
    requires start < |b| && from <= to < |b|
    ensures Cleared(b, start, from, to)[Phys(start, to, |b|) := None] == Cleared(b, start, from, to + 1)
  {
    var cap := |b|;
    var p0 := Phys(start, to, cap);
    var c := Cleared(b, start, from, to)[p0 := None];
    var d := Cleared(b, start, from, to + 1);
    RelOfPhys(start, to, cap);
    forall p | 0 <= p < cap
      ensures c[p] == d[p]
    {
      PhysOfRel(start, p, cap);
    }
    assert c == d;
  }

  /** Overwriting the oldest slot of a full buffer and advancing `start` drops the oldest snapshot and appends the new one. */
  lemma OverwriteOldest(b: seq<Option<Snap>>, s0: nat, snap: Snap)
    requires |b| > 0 && s0 < |b|
    ensures Window(b[s0 := Some(snap)], (s0 + 1) % |b|, |b|) == Window(b, s0, |b|)[1..] + [snap]
  {
    var cap := |b|;
    var b' := b[s0 := Some(snap)];
    var s1 := (s0 + 1) % cap;
    forall i | 0 <= i < cap
      ensures Window(b', s1, cap)[i] == (Window(b, s0, cap) + [snap])[i + 1]
    {
      PhysAdvance(s0, i, cap);
      if i + 1 < cap {
        PhysInjective(s0, i + 1, 0, cap);
        ModOnce(s0, cap);
      } else {
        ModOnce(s0 + cap, cap);
      }
    }
    assert Window(b', s1, cap) == (Window(b, s0, cap) + [snap])[1..];
  }

  class History {
    var buf: array?<Option<Snap>>
    var cap: nat
    var start: nat
    var len: nat
    var cur: nat

    /**
     * A zeroed history has no buffer and all counters 0. Otherwise the buffer
     * has `cap` slots, `1 <= len <= cap`, `cur < len`, a slot is filled
     * exactly when its logical position is below `len`, and it holds an
     * allocated grid.
     */
    ghost predicate Valid()
      reads this, buf
    {
      if buf == null then cap == 0 && start == 0 && len == 0 && cur == 0
      else
        buf.Length == cap && 0 < len <= cap && start < cap && cur < len &&
        (forall p :: 0 <= p < cap ==> (buf[p].Some? <==> Rel(start, p, cap) < len)) &&
        (forall p :: 0 <= p < cap && buf[p].Some? ==> WellFormed(buf[p].value))
    }

    /** The timeline this history stands for: logical position `i` is `buf[(start + i) % cap]`. */
    ghost function Abs(): (t: Timeline.State)
      reads this, buf
      ensures Valid() ==> Timeline.Valid(t)
      ensures Valid() && buf != null ==> t.cap == cap && |t.snaps| == len && t.cursor == cur
    {
      if buf == null || buf.Length == 0 then Timeline.Empty
      else
        var t := Timeline.State(Window(buf[..], start, len), cur, cap);
        assert Valid() && buf != null ==> forall i :: 0 <= i < len ==> WellFormed(t.snaps[i]) by {
          if Valid() && buf != null {
            forall i | 0 <= i < len
              ensures WellFormed(t.snaps[i])
            {
              RelOfPhys(start, i, cap);
            }
          }
        }
        t
    }

    /** `History h = {0}`: the zeroed history. */
    constructor ()
      ensures Valid() && buf == null && Abs() == Timeline.Empty
    {
      buf, cap, start, len, cur := null, 0, 0, 0, 0;
    }

    /** `history_zero`. */
    method Zero()
      modifies this
      ensures Valid() && buf == null && Abs() == Timeline.Empty
    {
      buf, cap, start, len, cur := null, 0, 0, 0, 0;
    }

    /** `free_slot`: empties the slot of logical position `rel`; nothing else changes. */
    method FreeSlot(rel: nat)
      requires buf != null ==> buf.Length == cap
      modifies buf
      ensures buf != null && cap > 0 ==> buf[..] == old(buf[..])[Phys(start, rel, cap) := None]
      ensures buf != null && cap == 0 ==> unchanged(buf)
    {
      if buf == null || cap == 0 {
        return;
      }
      var p := Phys(start, rel, cap);
      if buf[p].Some? {
        buf[p] := None;
      }
    }

    /**
     * `history_init`: refused, with the history untouched, for a null or
     * unallocated initial grid. A requested capacity of 0 becomes 512. When
     * an allocation fails the history is left zeroed. Otherwise slot 0 holds
     * a copy of the grid and every other slot is empty.
     */
    method Init(initial: Grid?, requested: nat, allocFails: bool) returns (ok: bool)
      requires Valid() && (initial != null ==> initial.Valid())
      modifies this
      ensures Valid()
      ensures (ok, Abs()) == Timeline.Init(old(Abs()), ValueOf(initial), EffectiveCap(requested), allocFails)
      ensures ok ==> fresh(buf) && cap == EffectiveCap(requested) && start == 0 && len == 1 && cur == 0
      ensures ok ==> buf[0] == ValueOf(initial) && forall p :: 1 <= p < cap ==> buf[p] == None
    {
      if initial == null || initial.cells == null {
        return false;
      }
      Zero();
      var c := EffectiveCap(requested);
      var b := new Option<Snap>[c](_ => None);
      buf, cap, start, len, cur := b, c, 0, 0, 0;
      if allocFails {
        Zero();
        return false;
      }
      b[0] := initial.Value();
      len, cur := 1, 0;
      assert Window(buf[..], start, len) == [initial.Value().value];
      forall p | 0 <= p < cap
        ensures buf[p].Some? <==> Rel(start, p, cap) < len
      {
        ModOnce(p + cap, cap);
      }
      return true;
    }

    /** `history_free`: empties the slots of every stored snapshot, then zeroes the history. */
    method Free()
      requires Valid()
      modifies this, buf
      ensures Valid() && buf == null && Abs() == Timeline.Empty
    {
      if buf != null && cap > 0 {
        for rel := 0 to len
          modifies buf
          invariant buf != null && buf.Length == cap
        {
          FreeSlot(rel);
        }
      }
      Zero();
    }

    /** `history_current`: the snapshot under the cursor; none for a zeroed history. */
    function Current(): (g: Option<Snap>)
      requires Valid()
      reads this, buf
      ensures g == Timeline.Current(Abs())
      ensures g.Some? ==> WellFormed(g.value)
    {
      if buf == null || len == 0 || cap == 0 then None
      else
        RelOfPhys(start, cur, cap);
        buf[Phys(start, cur, cap)]
    }

    /**
     * `history_clear_forward`: empties the slots of logical positions
     * `cur + 1 .. len - 1` and sets `len` to `cur + 1`; `start`, `cur` and
     * `cap` never change.
     */
    method ClearForward()
      requires Valid()
      modifies this`len, buf
      ensures Valid() && Abs() == Timeline.ClearForward(old(Abs()))
      ensures buf != null ==> len == cur + 1
      ensures buf == null ==> unchanged(this)
    {
      if buf == null || len == 0 {
        return;
      }
      if cur + 1 >= len {
        return;
      }
      ghost var b := buf[..];
      for rel := cur + 1 to len
        invariant buf[..] == Cleared(b, start, cur + 1, rel)
      {
        FreeSlot(rel);
        ClearedStep(b, start, cur + 1, rel);
      }
      len := cur + 1;
      forall p | 0 <= p < cap
        ensures buf[p].Some? <==> Rel(start, p, cap) < len
      {
        assert buf[p] == Cleared(b, start, cur + 1, old(len))[p];
      }
      forall i | 0 <= i < len
        ensures Window(buf[..], start, len)[i] == Window(b, start, old(len))[i]
      {
        RelOfPhys(start, i, cap);
      }
    }

    predicate CanBack()
      reads this
    {
      len > 0 && cur > 0
    }

    predicate CanForward()
      reads this
    {
      len > 0 && cur + 1 < len
    }

    /** The two predicates are those of the timeline. */
    lemma CanMove()
      requires Valid()
      ensures CanBack() <==> Timeline.CanBack(Abs())
      ensures CanForward() <==> Timeline.CanForward(Abs())
    {
    }

    /** The not-full branch of `history_push`: the copy goes into the slot of logical position `len`. */
    method PushIntoFreeSlot(snap: Snap)
      requires Valid() && buf != null && len < cap && cur + 1 == len && WellFormed(snap)
      modifies this`len, this`cur, buf
      ensures Valid() && Abs() == old(Abs()).(snaps := old(Abs()).snaps + [snap], cursor := old(len))
      ensures cur + 1 == len && buf[Phys(start, cur, cap)] == Some(snap)
    {
      ghost var b := buf[..];
      var p := Phys(start, len, cap);
      RelOfPhys(start, len, cap);
      buf[p] := Some(snap);
      len := len + 1;
      cur := len - 1;
      forall q | 0 <= q < cap
        ensures buf[q].Some? <==> Rel(start, q, cap) < len
      {
        PhysOfRel(start, q, cap);
      }
      forall i | 0 <= i < len
        ensures Window(buf[..], start, len)[i] == (Window(b, start, len - 1) + [snap])[i]
      {
        PhysInjective(start, i, len - 1, cap);
      }
      assert Window(buf[..], start, len) == Window(b, start, len - 1) + [snap];
    }

    /**
     * The full branch of `history_push`: the oldest slot is emptied, `start`
     * advances, and the copy goes into the slot just vacated, which is now
     * the logical end.
     */
    method PushOverOldest(snap: Snap)
      requires Valid() && buf != null && len == cap && cur + 1 == len && WellFormed(snap)
      modifies this`start, this`cur, buf
      ensures Valid() && Abs() == old(Abs()).(snaps := old(Abs()).snaps[1..] + [snap])
      ensures start == (old(start) + 1) % cap && cur + 1 == len && buf[Phys(start, cur, cap)] == Some(snap)
    {
      ghost var b := buf[..];
      var oldStart := start;
      if buf[start].Some? {
        buf[start] := None;
      }
      start := (start + 1) % cap;
      PhysAdvance(oldStart, len - 1, cap);
      ModOnce(oldStart + cap, cap);
      var pe := Phys(start, len - 1, cap);
      assert pe == oldStart;
      buf[pe] := Some(snap);
      cur := len - 1;
      assert buf[..] == b[oldStart := Some(snap)];
      OverwriteOldest(b, oldStart, snap);
    }

    /**
     * `history_push`: refused for a zeroed history or a null or unallocated
     * grid. A push from a past position first clears the forward branch; a
     * failed copy then returns false. While there is room the copy is
     * appended; a full buffer overwrites its oldest snapshot.
     */
    method Push(g: Grid?, allocFails: bool) returns (ok: bool)
      requires Valid() && (g != null ==> g.Valid())
      modifies this, buf
      ensures Valid() && cap == old(cap) && buf == old(buf)
      ensures (ok, Abs()) == Timeline.Push(old(Abs()), ValueOf(g), allocFails)
      ensures ok ==> cur + 1 == len && buf[Phys(start, cur, cap)] == ValueOf(g)
    {
      if buf == null || cap == 0 || len == 0 || g == null || g.cells == null {
        return false;
      }
      ghost var t0 := Abs();
      if cur != len - 1 {
        ClearForward();
      }
      ghost var t1 := Abs();
      assert t1 == Timeline.ClearForward(t0);
      if allocFails {
        return false;
      }
      var snap := g.Value();
      ghost var s := t1.snaps + [snap.value];
      if len < cap {
        PushIntoFreeSlot(snap.value);
        assert Timeline.Excess(|s|, cap) == 0 && s[0..] == s;
        return true;
      }
      // Here len == cap: the C fallback after `if (h->len == h->cap)` is never reached.
      PushOverOldest(snap.value);
      assert Timeline.Excess(|s|, cap) == 1 && s[1..] == t1.snaps[1..] + [snap.value];
      return true;
    }

    /** `history_back`: one step towards the oldest snapshot when `cur > 0`; only `cur` changes. */
    method Back() returns (ok: bool)
      requires Valid()
      modifies this`cur
      ensures Valid() && (ok, Abs()) == Timeline.Back(old(Abs()))
    {
      if !CanBack() {
        return false;
      }
      cur := cur - 1;
      return true;
    }

    /** `history_forward`: one step towards the newest snapshot when `cur + 1 < len`; only `cur` changes. */
    method Forward() returns (ok: bool)
      requires Valid()
      modifies this`cur
      ensures Valid() && (ok, Abs()) == Timeline.Forward(old(Abs()))
    {
      if !CanForward() {
        return false;
      }
      cur := cur + 1;
      return true;
    }
  }
}
