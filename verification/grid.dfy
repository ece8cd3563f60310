/**
 * The grid of the cellular automaton (projet-ringbuffer/src/grid.c).
 *
 * A grid is `w` by `h` cells stored row-major: the cell at column `x` and
 * row `y` lives at index `y * w + x`. A grid whose buffer is not allocated
 * (`cells == null`) is a legal "empty" state, distinct from any sized grid.
 *
 * `Snap` is the value of a grid; the history stores snapshots as such values.
 * `Grid` is the mutable object the C functions update in place.
 */
module Grids {
  import opened Wrappers

  /** SIZE_MAX of the 64-bit size_t in which the cell count is computed. */
  const SIZE_MAX: int := 0xFFFF_FFFF_FFFF_FFFF

  /** The `uint8_t` that `grid_get` returns and `grid_set` takes. */
  newtype u8 = x: int | 0 <= x < 256

  /** A grid value: dimensions and row-major cells (true = alive). */
  datatype Snap = Snap(w: int, h: int, cells: seq<bool>)

  /** An allocated grid: positive dimensions and exactly `w * h` cells. */
  predicate WellFormed(s: Snap) {
    s.w > 0 && s.h > 0 && |s.cells| == s.w * s.h
  }

  predicate InBounds(w: int, h: int, x: int, y: int) {
    0 <= x < w && 0 <= y < h
  }

  /** The cell at `(x, y)`; false outside the grid, as `grid_get` reads it. */
  function At(s: Snap, x: int, y: int): bool {
    InBounds(s.w, s.h, x, y) && 0 <= y * s.w + x < |s.cells| && s.cells[y * s.w + x]
  }

  /** The value of an unallocated grid: no cell is alive. */
  const Unallocated: Snap := Snap(0, 0, [])

  /** What reads of a grid see: its value, or no cells when it has no buffer. */
  function OrUnallocated(v: Option<Snap>): Snap {
    if v.Some? then v.value else Unallocated
  }

  // ------------------------------------------------------------------
  // Row-major index arithmetic
  // ------------------------------------------------------------------

  lemma MulLeftMono(a: int, b: int, w: int)
    requires 0 <= a <= b && w >= 0
    ensures a * w <= b * w
  {
  }

  /** An in-bounds position has an index inside the buffer. */
  lemma IndexInRange(w: int, h: int, x: int, y: int)
    requires InBounds(w, h, x, y)
    ensures 0 <= y * w + x < w * h
  {
    MulLeftMono(y, h - 1, w);
    assert (h - 1) * w == h * w - w;
  }

  /** The index `y * w + x` of a column `x < w` splits back into `x` and `y`. */
  lemma IndexSplit(w: int, x: int, y: int)
    requires w > 0 && 0 <= x < w && 0 <= y
    ensures (y * w + x) / w == y && (y * w + x) % w == x
  {
    var i := y * w + x;
    var q, r := i / w, i % w;
    assert i == q * w + r && 0 <= r < w;
    assert (q - y) * w == x - r;
    if q - y >= 1 {
      MulLeftMono(1, q - y, w);
    } else if q - y <= -1 {
      MulLeftMono(1, y - q, w);
    }
  }

  /** Every index of a `w * h` buffer lies in some row below `h`. */
  lemma RowOfIndex(w: int, h: int, i: int)
    requires w > 0 && 0 <= i < w * h
    ensures 0 <= i / w < h && 0 <= i % w < w && i == (i / w) * w + i % w
  {
    if i / w >= h {
      MulLeftMono(h, i / w, w);
    }
  }

  /** Distinct in-bounds positions have distinct indices. */
  lemma IndexInjective(w: int, x: int, y: int, x': int, y': int)
    requires w > 0 && 0 <= x < w && 0 <= y && 0 <= x' < w && 0 <= y'
    ensures y * w + x == y' * w + x' <==> x == x' && y == y'
  {
    IndexSplit(w, x, y);
    IndexSplit(w, x', y');
  }

  // ------------------------------------------------------------------
  // Grid values
  // ------------------------------------------------------------------

  /** The row-major cells of a `w` by `h` grid whose cell `(x, y)` is `f(x, y)`. */
  function Tabulate(w: int, h: int, f: (int, int) -> bool): (c: seq<bool>)
    requires w > 0 && h > 0
    ensures |c| == w * h
  {
    seq(w * h, i requires 0 <= i < w * h => f(i % w, i / w))
  }

  lemma TabulateIndex(w: int, h: int, f: (int, int) -> bool, x: int, y: int)
    requires w > 0 && h > 0 && InBounds(w, h, x, y)
    ensures 0 <= y * w + x < w * h && Tabulate(w, h, f)[y * w + x] == f(x, y)
  {
    IndexInRange(w, h, x, y);
    IndexSplit(w, x, y);
  }

  lemma TabulateAt(w: int, h: int, f: (int, int) -> bool, x: int, y: int)
    requires w > 0 && h > 0 && InBounds(w, h, x, y)
    ensures At(Snap(w, h, Tabulate(w, h, f)), x, y) == f(x, y)
  {
    IndexInRange(w, h, x, y);
    IndexSplit(w, x, y);
  }

  /** A freshly created grid: every cell dead (`calloc`). */
  function Blank(w: int, h: int): (s: Snap)
    requires w > 0 && h > 0
    ensures WellFormed(s) && s.w == w && s.h == h
    ensures forall i :: 0 <= i < |s.cells| ==> !s.cells[i]
  {
    Snap(w, h, seq(w * h, _ => false))
  }

  /**
   * `grid_count_ok`: the dimensions are positive and the cell count fits in
   * size_t. The overflow is detected by dividing, before anything is multiplied.
   */
  function CountOk(w: int, h: int): (r: Option<nat>)
    ensures r.Some? <==> w > 0 && h > 0 && w * h <= SIZE_MAX
    ensures r.Some? ==> r.value == w * h
  {
    if !(w > 0 && h > 0) then None
    else if h > SIZE_MAX / w then (CountOverflow(w, h); None)
    else (CountFits(w, h); Some(w * h))
  }

  lemma CountFits(w: int, h: int)
    requires w > 0 && 0 < h <= SIZE_MAX / w
    ensures w * h <= SIZE_MAX
  {
    MulLeftMono(h, SIZE_MAX / w, w);
  }

  lemma CountOverflow(w: int, h: int)
    requires w > 0 && h > SIZE_MAX / w
    ensures w * h > SIZE_MAX
  {
    MulLeftMono(SIZE_MAX / w + 1, h, w);
  }

  /** The value after `grid_set(x, y, b)`: only an in-bounds cell is written. */
  function SetCell(s: Snap, x: int, y: int, b: bool): Snap {
    if InBounds(s.w, s.h, x, y) && 0 <= y * s.w + x < |s.cells|
    then s.(cells := s.cells[y * s.w + x := b])
    else s
  }

  /** Setting a cell changes that cell, when it is inside the grid, and no other. */
  lemma SetCellAt(s: Snap, x: int, y: int, b: bool, x': int, y': int)
    requires WellFormed(s)
    ensures WellFormed(SetCell(s, x, y, b))
    ensures At(SetCell(s, x, y, b), x', y') ==
            if x' == x && y' == y && InBounds(s.w, s.h, x, y) then b else At(s, x', y')
  {
    if InBounds(s.w, s.h, x, y) {
      IndexInRange(s.w, s.h, x, y);
      if InBounds(s.w, s.h, x', y') {
        IndexInRange(s.w, s.h, x', y');
        IndexInjective(s.w, x, y, x', y');
      }
    }
  }

  /** The cells of `s` as a function of position. */
  function CellsOf(s: Snap): (int, int) -> bool {
    (x, y) => At(s, x, y)
  }

  /** The value after `grid_resize(nw, nh)` of an allocated grid. */
  function Resized(s: Snap, nw: int, nh: int): Snap
    requires nw > 0 && nh > 0
  {
    Snap(nw, nh, Tabulate(nw, nh, CellsOf(s)))
  }

  /** Resizing keeps the overlapping rectangle and clears every other cell. */
  lemma ResizedAt(s: Snap, nw: int, nh: int, x: int, y: int)
    requires nw > 0 && nh > 0
    ensures WellFormed(Resized(s, nw, nh))
    ensures InBounds(nw, nh, x, y) && x < s.w && y < s.h ==> At(Resized(s, nw, nh), x, y) == At(s, x, y)
    ensures !(InBounds(nw, nh, x, y) && x < s.w && y < s.h) ==> !At(Resized(s, nw, nh), x, y)
  {
    if InBounds(nw, nh, x, y) {
      TabulateAt(nw, nh, CellsOf(s), x, y);
    }
  }

  /**
   * The cell at index `i` of the buffer being filled by a resize to width
   * `nw`: rows before `y`, and the first `x` cells of row `y`, already hold
   * the old value; every other cell is still zero.
   */
  ghost predicate Copied(s: Snap, nw: int, i: int, x: int, y: int)
    requires nw > 0
  {
    (i / nw < y || (i / nw == y && i % nw < x)) && At(s, i % nw, i / nw)
  }

  lemma CopiedStep(s: Snap, nw: int, i: int, x: int, y: int)
    requires nw > 0 && 0 <= x < nw && 0 <= y && 0 <= i
    ensures Copied(s, nw, i, x + 1, y) ==
            if i == y * nw + x then At(s, x, y) else Copied(s, nw, i, x, y)
  {
    IndexSplit(nw, x, y);
  }

  lemma CopiedRowDone(s: Snap, nw: int, nh: int, i: int, copyW: int, y: int)
    requires nw > 0 && 0 <= i < nw * nh && (copyW == nw || copyW == s.w)
    ensures Copied(s, nw, i, copyW, y) == Copied(s, nw, i, 0, y + 1)
  {
    RowOfIndex(nw, nh, i);
  }

  lemma CopiedAllDone(s: Snap, nw: int, nh: int, i: int, copyH: int)
    requires nw > 0 && nh > 0 && 0 <= i < nw * nh && (copyH == nh || copyH == s.h)
    ensures Copied(s, nw, i, 0, copyH) == Resized(s, nw, nh).cells[i]
  {
    RowOfIndex(nw, nh, i);
  }

  // ------------------------------------------------------------------
  // The grid object
  // ------------------------------------------------------------------

  class Grid {
    var w: int
    var h: int
    var cells: array?<bool>

    /** An allocated buffer holds exactly `w * h` cells, a count that passed `grid_count_ok`. */
    ghost predicate Valid()
      reads this
    {
      cells != null ==> w > 0 && h > 0 && w * h <= SIZE_MAX && cells.Length == w * h
    }

    /** The grid's value; None while no buffer is allocated. */
    function Value(): (v: Option<Snap>)
      reads this, cells
      ensures v.None? <==> cells == null
      ensures Valid() && v.Some? ==> WellFormed(v.value) && v.value.w == w && v.value.h == h
    {
      if cells == null then None else Some(Snap(w, h, cells[..]))
    }

    /** `Grid g = {0}`: no buffer, zero dimensions. */
    constructor Empty()
      ensures Valid() && w == 0 && h == 0 && cells == null
    {
      w, h, cells := 0, 0, null;
    }

    /** `grid_create`: a zeroed `nw` by `nh` buffer, refused before allocating when the count is invalid. */
    method Create(nw: int, nh: int) returns (ok: bool)
      modifies this
      ensures ok <==> CountOk(nw, nh).Some?
      ensures ok ==> Valid() && fresh(cells) && Value() == Some(Blank(nw, nh))
      ensures !ok ==> unchanged(this)
    {
      var count := CountOk(nw, nh);
      if count.None? {
        return false;
      }
      var c := new bool[count.value](_ => false);
      w, h, cells := nw, nh, c;
      assert cells[..] == Blank(nw, nh).cells;
      return true;
    }

    /** `grid_free`: drop the buffer and reset the dimensions. */
    method Free()
      modifies this
      ensures Valid() && w == 0 && h == 0 && cells == null && Value() == None
    {
      cells := null;
      w, h := 0, 0;
    }

    /** `grid_clear`: every cell dead, dimensions kept. */
    method Clear()
      requires Valid()
      modifies cells
      ensures old(cells) != null ==> Value() == Some(Blank(w, h))
      ensures old(cells) == null ==> Value() == None
    {
      if cells == null {
        return;
      }
      forall i | 0 <= i < cells.Length {
        cells[i] := false;
      }
      assert cells[..] == Blank(w, h).cells;
    }

    /** `grid_get`: 1 exactly when `(x, y)` is an alive cell of an allocated grid; 0 otherwise. */
    function Get(x: int, y: int): (v: u8)
      reads this, cells
      requires Valid()
      ensures v == 0 || v == 1
      ensures v == 1 <==> At(OrUnallocated(Value()), x, y)
    {
      if cells == null then 0
      else if x < 0 || y < 0 || x >= w || y >= h then 0
      else
        IndexInRange(w, h, x, y);
        if cells[y * w + x] then 1 else 0
    }

    /** `grid_set`: stores `v != 0` at an in-bounds cell of an allocated grid; otherwise nothing. */
    method Set(x: int, y: int, v: u8)
      requires Valid()
      modifies cells
      ensures old(Value()).Some? ==> Value() == Some(SetCell(old(Value()).value, x, y, v != 0))
      ensures old(Value()).None? ==> Value() == None
    {
      if cells == null {
        return;
      }
      if x < 0 || y < 0 || x >= w || y >= h {
        return;
      }
      IndexInRange(w, h, x, y);
      cells[y * w + x] := v != 0;
    }

    /**
     * `grid_resize`: refuses invalid dimensions without touching the grid;
     * an unallocated grid is created; otherwise the overlap is copied row by
     * row into a new zeroed buffer.
     */
    method Resize(nw: int, nh: int) returns (ok: bool)
      requires Valid()
      modifies this
      ensures Valid()
      ensures ok <==> CountOk(nw, nh).Some?
      ensures !ok ==> unchanged(this)
      ensures ok ==> fresh(cells) && w == nw && h == nh
      ensures ok && old(cells) == null ==> Value() == Some(Blank(nw, nh))
      ensures ok && old(cells) != null ==> Value() == Some(Resized(old(Value()).value, nw, nh))
    {
      var count := CountOk(nw, nh);
      if count.None? {
        return false;
      }
      if cells == null {
        w, h := 0, 0;
        ok := Create(nw, nh);
        return;
      }
      var newCells := new bool[count.value](_ => false);
      var copyW := if w < nw then w else nw;
      var copyH := if h < nh then h else nh;
      ghost var s := Snap(w, h, cells[..]);
      var y := 0;
      while y < copyH
        modifies newCells
        invariant 0 <= y <= copyH
        invariant forall i :: 0 <= i < nw * nh ==> newCells[i] == Copied(s, nw, i, 0, y)
      {
        var x := 0;
        while x < copyW
          modifies newCells
          invariant 0 <= x <= copyW
          invariant forall i :: 0 <= i < nw * nh ==> newCells[i] == Copied(s, nw, i, x, y)
        {
          IndexInRange(w, h, x, y);
          IndexInRange(nw, nh, x, y);
          newCells[y * nw + x] := cells[y * w + x];
          forall i | 0 <= i < nw * nh
            ensures newCells[i] == Copied(s, nw, i, x + 1, y)
          {
            CopiedStep(s, nw, i, x, y);
          }
          x := x + 1;
        }
        forall i | 0 <= i < nw * nh
          ensures newCells[i] == Copied(s, nw, i, 0, y + 1)
        {
          CopiedRowDone(s, nw, nh, i, copyW, y);
        }
        y := y + 1;
      }
      forall i | 0 <= i < nw * nh
        ensures newCells[i] == Resized(s, nw, nh).cells[i]
      {
        CopiedAllDone(s, nw, nh, i, copyH);
      }
      cells := newCells;
      w, h := nw, nh;
      assert cells[..] == Resized(s, nw, nh).cells;
      return true;
    }

    /** `grid_clone`: a fresh grid with its own buffer and the same value; null for an unallocated source. */
    method Clone() returns (c: Grid?)
      requires Valid()
      ensures cells == null ==> c == null
      ensures cells != null ==> c != null && fresh(c) && fresh(c.cells) && c.Valid() && c.Value() == Value()
    {
      if cells == null {
        return null;
      }
      c := new Grid.Empty();
      var ok := c.Create(w, h);
      assert ok;
      forall i | 0 <= i < cells.Length {
        c.cells[i] := cells[i];
      }
      assert c.cells[..] == cells[..];
    }
  }

  /** The value behind a possibly null grid pointer; None for null or an unallocated grid. */
  function ValueOf(g: Grid?): (v: Option<Snap>)
    reads g, if g == null then null else g.cells
    ensures v.Some? <==> g != null && g.cells != null
    ensures v.Some? && g.Valid() ==> WellFormed(v.value)
  {
    if g == null then None else g.Value()
  }

  /** `grid_swap`: the two grids exchange dimensions and buffers. */
  method Swap(a: Grid?, b: Grid?)
    modifies a, b
    ensures a != null && b != null ==>
      a.w == old(b.w) && a.h == old(b.h) && a.cells == old(b.cells) &&
      b.w == old(a.w) && b.h == old(a.h) && b.cells == old(a.cells)
    ensures a == null || b == null ==> (a != null ==> unchanged(a)) && (b != null ==> unchanged(b))
  {
    if a == null || b == null {
      return;
    }
    var tw, th, tc := a.w, a.h, a.cells;
    a.w, a.h, a.cells := b.w, b.h, b.cells;
    b.w, b.h, b.cells := tw, th, tc;
  }
}
