/**
 * Conway's rule (projet-listechainee/src/life.c): neighbour counting and
 * one generation step from a current grid into a separate next grid.
 */
module Life {
  import opened Wrappers
  import opened Grids

  function Bit(b: bool): int {
    if b then 1 else 0
  }

  /** The live cells among the eight around `(x, y)`; cells outside the grid count as dead. */
  function Neighbors(s: Snap, x: int, y: int): (n: int)
    ensures 0 <= n <= 8
  {
    Bit(At(s, x - 1, y - 1)) + Bit(At(s, x, y - 1)) + Bit(At(s, x + 1, y - 1)) +
    Bit(At(s, x - 1, y))     +                        Bit(At(s, x + 1, y)) +
    Bit(At(s, x - 1, y + 1)) + Bit(At(s, x, y + 1)) + Bit(At(s, x + 1, y + 1))
  }

  /**
   * The count `count_neighbors` has reached just before it visits the offset
   * `(dx, dy)`: it visits row offsets `dy` outermost and column offsets `dx`
   * innermost, each from -1 to 1, and skips `(0, 0)`, the cell itself.
   * `(-1, dy + 1)` stands for the end of row `dy`.
   */
  function Visited(s: Snap, x: int, y: int, dy: int, dx: int): int
    requires -1 <= dy <= 2 && -1 <= dx <= 2 && (dy == 2 ==> dx == -1)
    decreases 4 * (dy + 1) + dx + 1
  {
    if dx == -1 then
      (if dy == -1 then 0 else Visited(s, x, y, dy - 1, 2))
    else
      Visited(s, x, y, dy, dx - 1) +
      (if dx - 1 == 0 && dy == 0 then 0 else Bit(At(s, x + (dx - 1), y + dy)))
  }

  /** Visiting all nine offsets counts exactly the eight neighbours. */
  lemma VisitedAll(s: Snap, x: int, y: int)
    ensures Visited(s, x, y, 2, -1) == Neighbors(s, x, y)
  {
    assert Visited(s, x, y, -1, 2) == Bit(At(s, x - 1, y - 1)) + Bit(At(s, x, y - 1)) + Bit(At(s, x + 1, y - 1));
    assert Visited(s, x, y, 0, 2) == Visited(s, x, y, -1, 2) + Bit(At(s, x - 1, y)) + Bit(At(s, x + 1, y));
    assert Visited(s, x, y, 1, 2) == Visited(s, x, y, 0, 2) + Bit(At(s, x - 1, y + 1)) + Bit(At(s, x, y + 1)) + Bit(At(s, x + 1, y + 1));
  }

  /** `count_neighbors`: reads the eight surrounding cells through `grid_get`. */
  method CountNeighbors(g: Grid, x: int, y: int) returns (n: int)
    requires g.Valid()
    ensures n == Neighbors(OrUnallocated(g.Value()), x, y)
    ensures 0 <= n <= 8
  {
    ghost var s := OrUnallocated(g.Value());
    n := 0;
    for dy := -1 to 2
      invariant n == Visited(s, x, y, dy, -1)
    {
      for dx := -1 to 2
        invariant n == Visited(s, x, y, dy, dx)
      {
        if dx == 0 && dy == 0 {
          continue;
        }
        n := n + (if g.Get(x + dx, y + dy) != 0 then 1 else 0);
      }
    }
    VisitedAll(s, x, y);
  }

  /** The fate of one cell: a live cell survives with 2 or 3 neighbours, a dead one is born with exactly 3. */
  function Rule(alive: bool, n: int): bool {
    if alive then n == 2 || n == 3 else n == 3
  }

  /** Conway's rule at `(x, y)` of `s`. */
  function NextAt(s: Snap, x: int, y: int): bool {
    Rule(At(s, x, y), Neighbors(s, x, y))
  }

  /** Conway's rule applied at every position of `s`. */
  function Fate(s: Snap): (int, int) -> bool {
    (x, y) => NextAt(s, x, y)
  }

  /** The next generation of an allocated grid. */
  function NextGen(s: Snap): (t: Snap)
    requires WellFormed(s)
    ensures WellFormed(t) && t.w == s.w && t.h == s.h
  {
    Snap(s.w, s.h, Tabulate(s.w, s.h, Fate(s)))
  }

  /** Each cell of the next generation is alive exactly when Conway's rule says so; nothing is alive outside. */
  lemma NextGenAt(s: Snap, x: int, y: int)
    requires WellFormed(s)
    ensures InBounds(s.w, s.h, x, y) ==>
      (At(NextGen(s), x, y) <==>
        (At(s, x, y) && (Neighbors(s, x, y) == 2 || Neighbors(s, x, y) == 3)) ||
        (!At(s, x, y) && Neighbors(s, x, y) == 3))
    ensures !InBounds(s.w, s.h, x, y) ==> !At(NextGen(s), x, y)
  {
    if InBounds(s.w, s.h, x, y) {
      TabulateAt(s.w, s.h, Fate(s), x, y);
    }
  }

  /** A buffer whose cell `i` holds the rule's verdict at the position `i` stands for is the next generation. */
  lemma {:induction false} NextGenCells(s: Snap, c: seq<bool>)
    requires WellFormed(s) && |c| == s.w * s.h
    requires forall i :: 0 <= i < |c| ==> c[i] == NextAt(s, i % s.w, i / s.w)
    ensures c == NextGen(s).cells
  {
    forall i | 0 <= i < |c|
      ensures c[i] == NextGen(s).cells[i]
    {
      RowOfIndex(s.w, s.h, i);
      TabulateIndex(s.w, s.h, Fate(s), i % s.w, i / s.w);
    }
  }

  /** The body of `life_step`'s inner loop: the next state of one in-bounds cell of `cur`. */
  method CellFate(cur: Grid, x: int, y: int) returns (out: bool)
    requires cur.Valid() && cur.cells != null && InBounds(cur.w, cur.h, x, y)
    ensures out == NextAt(cur.Value().value, x, y)
  {
    var alive := cur.Get(x, y);
    var n := CountNeighbors(cur, x, y);
    out := if alive != 0 then n == 2 || n == 3 else n == 3;
  }

  /** `life_step` runs only on two allocated grids of the same dimensions. */
  predicate Applies(cur: Option<Snap>, next: Option<Snap>) {
    cur.Some? && next.Some? && cur.value.w == next.value.w && cur.value.h == next.value.h
  }

  /** One pass of `life_step`'s inner loop: fills row `y` of `cells`, the rows above it already filled. */
  method StepRow(cur: Grid, cells: array<bool>, y: int, ghost s: Snap)
    requires cur.Valid() && cur.Value() == Some(s) && cells != cur.cells
    requires 0 <= y < s.h && y * s.w + s.w <= cells.Length
    requires forall i :: 0 <= i < y * s.w ==> cells[i] == NextAt(s, i % s.w, i / s.w)
    modifies cells
    ensures forall i :: 0 <= i < y * s.w + s.w ==> cells[i] == NextAt(s, i % s.w, i / s.w)
  {
    var w := cur.w;
    var row := y * w;
    assert w == s.w && row + w <= cells.Length;
    for x := 0 to w
      invariant cur.Value() == Some(s)
      invariant forall i :: 0 <= i < row + x ==> cells[i] == NextAt(s, i % w, i / w)
    {
      IndexSplit(w, x, y);
      var out := CellFate(cur, x, y);
      cells[row + x] := out;
    }
  }

  /**
   * `life_step`: writes every cell of `next` from `cur`, so the outcome does
   * not depend on what `next` held. Both grids keep their dimensions and `cur`
   * is only read; the two must not share a buffer.
   */
  method Step(cur: Grid, next: Grid)
    requires cur.Valid() && next.Valid()
    requires cur.cells == null || cur.cells != next.cells
    modifies next.cells
    ensures cur.Value() == old(cur.Value())
    ensures Applies(old(cur.Value()), old(next.Value())) ==>
      next.Value() == Some(NextGen(old(cur.Value()).value))
    ensures !Applies(old(cur.Value()), old(next.Value())) ==> next.Value() == old(next.Value())
  {
    if cur.cells == null || next.cells == null {
      return;
    }
    if cur.w != next.w || cur.h != next.h {
      return;
    }
    ghost var s := cur.Value().value;
    var cells := next.cells;
    assert s.w == cur.w && s.h == cur.h && cells.Length == s.w * s.h;
    ghost var filled := 0;
    for y := 0 to cur.h
      modifies cells
      invariant cur.Value() == Some(s)
      invariant filled == y * s.w && filled <= cells.Length
      invariant forall i :: 0 <= i < filled ==> cells[i] == NextAt(s, i % s.w, i / s.w)
    {
      MulLeftMono(y + 1, s.h, s.w);
      assert filled + s.w == (y + 1) * s.w;
      StepRow(cur, cells, y, s);
      filled := filled + s.w;
    }
    assert filled == cells.Length;
    NextGenCells(s, cells[..]);
  }
}
