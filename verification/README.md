# Game of Life with undo/redo — a Dafny model

This project models the core of a C Game of Life program that keeps an
undo/redo history of grids. The core has five parts:

- **The grid** (`projet-ringbuffer/src/grid.c`). It is a `w` by `h`
  rectangle of cells, stored row-major in a heap buffer. Module `Grids`
  describes it two ways:
  - the value `Snap(w, h, cells)`;
  - the class `Grid`, whose methods update `w`, `h` and the `cells` array in
    place, the way the C functions do.
- **One generation of Conway's rule** (`projet-listechainee/src/life.c`).
  Module `Life` models it:
  - the specification `NextGen`;
  - the loops `CountNeighbors`, `StepRow` and `Step`, proved against
    `NextGen`.
- **The text format** (`projet-ringbuffer/src/io.c`). A file is a
  header `"w h"` followed by `h` rows of `'.'` and `'O'`. Module `GridIO`
  models it:
  - `Parse`, the language the loader accepts;
  - `Load`, the loader that reads one character at a time;
  - `Format` and `Save`, the writer;
  - the round trip: whatever `Save` writes, `Load` reads back as the same
    grid.
- **The history as an abstract timeline** (module `Timeline`). It is the
  sequence of snapshots, a cursor, and a capacity where 0 means unbounded.
  `Init`, `Push`, `ClearForward`, `Back` and `Forward` are defined on it,
  together with the properties the history promises:
  - pushing from an earlier position discards the whole forward branch;
  - a bounded history keeps its `cap` newest snapshots;
  - undo and redo are inverse steps.
- **The two history implementations.** Each is a class. Every method that
  has a namesake in `Timeline` (`Init`, `Current`, `ClearForward`, `Push`,
  `Back`, `Forward`) is proved to move the class's abstraction `Abs()`
  exactly as that function does. The ring buffer's `Init` passes
  `EffectiveCap(requested)` as the capacity. The other methods (`Zero`,
  `Free`, and the helpers that split a push, an eviction or a release into
  steps) state the new fields, or the new abstraction, directly. For the same positive capacity the two
  implementations therefore agree call for call. A requested capacity of 0
  differs: the ring buffer allocates 512 slots and keeps at most 512
  snapshots (`projet-ringbuffer/src/history.c:33-35`), while the list treats
  0 as unbounded (`projet-listechainee/src/history.c:25-27`).
  - `RingHistory.History` models the ring buffer
    (`projet-ringbuffer/src/history.c`): an array of optional snapshots
    with `start`, `len` and `cur`.
  - `ListHistory.History` models the doubly linked list
    (`projet-listechainee/src/history.c`). The nodes live in an arena
    `nodes: seq<Node>`, and links are indices into it, with `NIL = -1` for
    `NULL`. A ghost `chain` lists the node indices from `head` to `tail`.

How the model stands in for the program's environment:

- Snapshots are values, so a history never shares cells with the caller's
  grid. This matches the program, which copies every grid it stores.
- An allocation that can fail during a history `init` or `push` (the grid
  copy, the buffer, the node) is the parameter `allocFails`.
- A file is the sequence of characters it holds. `Load` takes that
  sequence, and `Save` returns the sequence it would write. Each `char`
  stands for one byte of the file, as `fgets` and `fgetc` count bytes; the
  255-character header limit `GridIO.HEADER_MAX` is a byte limit.

A push whose copy fails is not atomic: `history_push` discards the
forward branch before it clones the grid
(`projet-ringbuffer/src/history.c:95-102`,
`projet-listechainee/src/history.c:118-125`). It therefore returns false
with the forward branch already gone. `Timeline.Push` models this, and
`Timeline.PushFailureTruncates` states it.

## Model

| member | source | states |
|---|---|---|
| Grids.SetCell | projet-ringbuffer/src/grid.c:80-88 | defines the value after a set: the in-bounds cell at `y*w+x` takes the new value; otherwise the grid is unchanged |
| Grids.Resized | projet-ringbuffer/src/grid.c:90-126 | defines the value after resizing an allocated grid: new dimensions, each cell copied from the old grid where it exists, dead elsewhere |
| Grids.CountOk | projet-ringbuffer/src/grid.c:7-22 | the dimensions are accepted exactly when both are positive and `w*h` fits in `size_t`; the count is then `w*h` |
| Grids.Blank | projet-ringbuffer/src/grid.c:24-42 | the grid `create` produces has the requested dimensions and every cell dead |
| Grids.SetCellAt | projet-ringbuffer/src/grid.c:80-88 | setting an in-bounds cell changes that cell and no other; an out-of-bounds set changes nothing |
| Grids.ResizedAt | projet-ringbuffer/src/grid.c:90-126 | after a resize, the cells in the overlap of the old and new rectangles keep their values, and every other cell is dead |
| Grids.Grid.Value | projet-ringbuffer/src/grid.c:24-42 | a grid has a value exactly when its buffer is allocated; a valid grid's value has its dimensions and `w*h` cells |
| Grids.Grid.Empty | projet-ringbuffer/src/io.c:48 | a zero-initialised `Grid` is unallocated with dimensions 0 |
| Grids.Grid.Create | projet-ringbuffer/src/grid.c:24-42 | succeeds exactly when the dimensions pass `count_ok`; on success the grid is a fresh all-dead `w` by `h` grid; on failure nothing changes |
| Grids.Grid.Free | projet-ringbuffer/src/grid.c:44-52 | the grid becomes unallocated with dimensions 0 |
| Grids.Grid.Clear | projet-ringbuffer/src/grid.c:62-68 | an allocated grid keeps its dimensions with every cell dead; an unallocated grid stays unallocated |
| Grids.Grid.Get | projet-ringbuffer/src/grid.c:70-78 | returns 1 exactly when the cell is in bounds and alive; otherwise 0, including on an unallocated grid |
| Grids.Grid.Set | projet-ringbuffer/src/grid.c:80-88 | the new value is the old one with that one cell set to `v != 0`, if in bounds; an unallocated grid is untouched |
| Grids.Grid.Resize | projet-ringbuffer/src/grid.c:90-126 | succeeds exactly when the new dimensions pass `count_ok`; on failure nothing changes; on success the grid has the new dimensions and keeps the overlap, or is all dead when it was unallocated |
| Grids.Grid.Clone | projet-ringbuffer/src/grid.c:128-148 | an unallocated grid clones to null; otherwise the clone is a fresh grid with a fresh buffer and the same value |
| Grids.ValueOf | projet-ringbuffer/src/grid.c:70-78 | a grid pointer has a value exactly when it is non-null and allocated |
| Grids.Swap | projet-ringbuffer/src/grid.c:150-157 | two grids exchange dimensions and buffers; with a null argument nothing changes |
| Life.Rule | projet-listechainee/src/life.c:31-35 | defines Conway's rule: a live cell survives with 2 or 3 neighbours, a dead cell is born with exactly 3 |
| Life.NextAt | projet-listechainee/src/life.c:28-35 | defines the next state of one cell: the rule applied to its state and its neighbour count |
| Life.Neighbors | projet-listechainee/src/life.c:5-16 | a neighbour count is between 0 and 8 |
| Life.VisitedAll | projet-listechainee/src/life.c:7-14 | visiting the eight offsets in the loop's order counts exactly the neighbours |
| Life.CountNeighbors | projet-listechainee/src/life.c:5-16 | the loop returns the number of live cells among the eight neighbours, cells outside the grid counting as dead |
| Life.NextGen | projet-listechainee/src/life.c:26-38 | the next generation has the dimensions of the current one |
| Life.NextGenAt | projet-listechainee/src/life.c:28-35 | a cell of the next generation is alive exactly when it is alive with 2 or 3 neighbours, or dead with exactly 3 |
| Life.NextGenCells | projet-listechainee/src/life.c:36 | a buffer holding the rule's verdict for the position at each index, row-major, is the next generation's buffer |
| Life.CellFate | projet-listechainee/src/life.c:28-35 | the value computed for one cell is Conway's rule at that cell |
| Life.StepRow | projet-listechainee/src/life.c:27-37 | one pass of the inner loop fills row `y` with the next generation, keeping the rows above it |
| Life.Step | projet-listechainee/src/life.c:18-39 | for two allocated grids of equal dimensions, `next` becomes the next generation of `cur`; otherwise nothing changes; `cur` is never changed |
| GridIO.LineFrom | projet-ringbuffer/src/io.c:34-39 | the header read stops after the first newline, at the end of the file, or after 255 characters, and holds no newline before its last character |
| GridIO.ScanInt | projet-ringbuffer/src/io.c:41-42 | a successful `%d` conversion yields a value in the `int` range and consumes at least one character |
| GridIO.ScanHeader | projet-ringbuffer/src/io.c:41-46 | two successful conversions yield two `int` values |
| GridIO.Cells | projet-ringbuffer/src/io.c:55-87 | defines the cell scanner: `'\r'` and blanks are skipped, `'.'`/`'O'` are cells, end of file, a newline or any other character before `w` cells are the three errors, in that order of tests |
| GridIO.LineEnd | projet-ringbuffer/src/io.c:89-109 | defines the end of a row: blanks and `'\r'` are skipped, a newline or end of file starts the next row, anything else is trailing characters |
| GridIO.CellsLength | projet-ringbuffer/src/io.c:55-110 | a successful scan of the rows yields exactly `w*h` cells |
| GridIO.LineEndLength | projet-ringbuffer/src/io.c:89-109 | skipping the end of a row keeps the cell count on track for `w*h` cells |
| GridIO.Parse | projet-ringbuffer/src/io.c:22-117 | an accepted file describes an allocated grid whose dimensions fit in an `int` |
| GridIO.IntCountFits | projet-ringbuffer/src/io.c:48-53 | two positive `int` dimensions always pass the `size_t` count check, so creating the grid fails only on allocation |
| GridIO.StoreCell | projet-ringbuffer/src/io.c:74-78 | storing a cell through `grid_set` extends the prefix of cells read, and the rest of the buffer stays dead |
| GridIO.ReadCells | projet-ringbuffer/src/io.c:56-87 | the cell loop of a row stops with exactly the error the scanner gives, or stores the row's `w` cells and continues where the scanner does |
| GridIO.SkipLineEnd | projet-ringbuffer/src/io.c:89-109 | the end-of-line loop stops with exactly the error the scanner gives, or consumes up to and including the newline |
| GridIO.ReadRows | projet-ringbuffer/src/io.c:48-110 | the row loop fails exactly when the scanner fails, with the same error; on success the new grid holds exactly the cells scanned |
| GridIO.Load | projet-ringbuffer/src/io.c:22-117 | a null destination is invalid arguments; otherwise the outcome is `Parse`'s; on failure the destination is untouched; on success it holds the parsed grid |
| GridIO.Decimal | projet-ringbuffer/src/io.c:131 | `%d` of a non-negative number is a non-empty string of digits |
| GridIO.Format | projet-ringbuffer/src/io.c:131-151 | defines the text the writer produces: the header `"w h\n"` then each row's cells and a newline |
| GridIO.WriteRow | projet-ringbuffer/src/io.c:138-150 | one row written through `grid_get` is its cells as `'O'`/`'.'` followed by a newline |
| GridIO.Save | projet-ringbuffer/src/io.c:119-158 | a null or unallocated grid writes nothing; otherwise the text is the header line followed by every row |
| GridIO.DecimalVal | projet-ringbuffer/src/io.c:131 | reading back the digits written for a number gives the number |
| GridIO.ScanDecimal | projet-ringbuffer/src/io.c:41-42 | `%d` reads back a number written in decimal after white space, stopping after its digits |
| GridIO.HeaderRoundTrip | projet-ringbuffer/src/io.c:34-46 | the header the writer produces is read whole and scanned back as the same dimensions |
| GridIO.HeaderLine | projet-ringbuffer/src/io.c:34-39 | the written header is short enough for the 256-byte header buffer to read it whole |
| GridIO.RowRoundTrip | projet-ringbuffer/src/io.c:57-87 | the written cells of a row are read back as that row's cells |
| GridIO.RowsRoundTrip | projet-ringbuffer/src/io.c:55-110 | the written rows are read back as the grid's cells, row after row |
| GridIO.RowInFile | projet-ringbuffer/src/io.c:137-151 | the writer places row `y` after the rows above it, its cells followed by a newline |
| GridIO.FlatCells | projet-ringbuffer/src/io.c:137-151 | the rows of a grid, concatenated, are its row-major cells |
| GridIO.SaveLoad | projet-ringbuffer/src/io.c:22-158 | loading what the writer produced gives back the same grid, whatever follows in the file |
| GridIO.ParseAfterHeader | projet-ringbuffer/src/io.c:41-110 | once the header is read as two positive dimensions, the outcome is the row scanner's |
| GridIO.RowsAfterHeader | projet-ringbuffer/src/io.c:55-110 | under the writer's header the rows are read back; when the header announces more rows than follow, the scan ends early |
| GridIO.MissingRows | projet-ringbuffer/src/io.c:59-64 | a file whose header announces more rows than follow is rejected with premature end of file |
| Timeline.Init | projet-ringbuffer/src/history.c:27-57 | defines init: refused without touching the history for a null or unallocated grid; a failed allocation leaves it empty; otherwise one snapshot, current |
| Timeline.Current | projet-ringbuffer/src/history.c:70-73 | defines current: the snapshot under the cursor, none for an empty history |
| Timeline.CanBack | projet-ringbuffer/src/history.c:133-135 | defines can_back: initialised and the cursor above the oldest snapshot |
| Timeline.CanForward | projet-ringbuffer/src/history.c:137-139 | defines can_forward: a snapshot newer than the current one exists |
| Timeline.Back | projet-ringbuffer/src/history.c:141-145 | defines back: one step towards the oldest snapshot when can_back holds, otherwise nothing changes |
| Timeline.Forward | projet-ringbuffer/src/history.c:147-151 | defines forward: one step towards the newest snapshot when can_forward holds, otherwise nothing changes |
| Timeline.ClearForward | projet-ringbuffer/src/history.c:80-88 | defines clear_forward: every snapshot newer than the current one is dropped |
| Timeline.Excess | projet-listechainee/src/history.c:24-40 | defines how many oldest snapshots a bounded history of `n` snapshots evicts: `n - cap` when over capacity, none when unbounded |
| Timeline.Push | projet-ringbuffer/src/history.c:90-131 | defines push: refused for an uninitialised history or a null or unallocated grid; otherwise the forward branch is dropped, then on a successful copy the grid is appended, the oldest beyond the capacity evicted, and the cursor put on the new snapshot |
| Timeline.InitSpec | projet-ringbuffer/src/history.c:27-57 | init succeeds exactly for an allocated grid and a successful allocation; it then holds that one snapshot with the cursor on it; the result is always a valid timeline |
| Timeline.PushOk | projet-ringbuffer/src/history.c:90-102 | push succeeds exactly for an initialised history, an allocated grid and a successful copy |
| Timeline.PushValid | projet-ringbuffer/src/history.c:90-131 | push keeps the timeline valid: the cursor is on a snapshot, the capacity is respected, and every snapshot is allocated |
| Timeline.PushLandsOnTail | projet-listechainee/src/history.c:132-148 | after a successful push the current snapshot is the pushed grid, and there is nothing to redo |
| Timeline.PushContents | projet-ringbuffer/src/history.c:95-126 | a successful push keeps the snapshots up to the current one, then the new one; at capacity exactly the oldest is dropped; the capacity is unchanged |
| Timeline.PushFromTail | projet-ringbuffer/src/history.c:104-110 | pushing at the newest snapshot below capacity appends without discarding anything |
| Timeline.PushWhenFull | projet-ringbuffer/src/history.c:112-126 | pushing at the newest snapshot of a full history drops the oldest and appends, keeping the size |
| Timeline.PushFailureTruncates | projet-listechainee/src/history.c:118-125 | a push whose copy fails returns false with the forward branch already discarded |
| Timeline.MoveSpec | projet-ringbuffer/src/history.c:133-151 | back (forward) succeeds exactly when there is an older (newer) snapshot, moves the cursor by one, never changes the snapshots, and otherwise changes nothing |
| Timeline.BackForwardInverse | projet-listechainee/src/history.c:151-173 | a successful back followed by forward, or forward followed by back, returns to the same timeline |
| Timeline.ClearForwardSpec | projet-ringbuffer/src/history.c:80-88 | clearing keeps the snapshots up to the current one, leaves nothing to redo, and keeps the cursor, the capacity and the current snapshot |
| Timeline.PushAtNewest | projet-ringbuffer/src/history.c:104-126 | one push at the newest snapshot appends, drops the oldest beyond the capacity, and stays at the newest |
| Timeline.PushAllSpec | projet-ringbuffer/src/history.c:90-131 | a series of pushes from the newest snapshot appends them all, a bounded timeline keeping only its `cap` newest, with the cursor on the last pushed |
| Timeline.BackNSpec | projet-ringbuffer/src/history.c:141-145 | stepping back `n` times from a cursor at least `n` moves the cursor back by `n` and keeps the snapshots |
| Timeline.UndoPushes | projet-listechainee/src/history.c:113-165 | when the pushes fit in the capacity (or it is unbounded), undoing as many pushes as were made returns to the snapshot current before them, with the pushes available to redo; starting from the oldest snapshot, nothing is then left to undo |
| Timeline.BoundedForgets | projet-listechainee/src/history.c:24-40 | after at least `cap` pushes a bounded history holds exactly the last `cap` pushed grids, the current being the last |
| RingHistory.EffectiveCap | projet-ringbuffer/src/history.c:33-35 | the capacity in use is always positive, and a positive requested capacity is kept as it is |
| RingHistory.Phys | projet-ringbuffer/src/history.c:14-16 | a relative position maps to a slot of the buffer |
| RingHistory.RelOfPhys | projet-ringbuffer/src/history.c:14-16 | the slot of a relative position maps back to that position |
| RingHistory.PhysOfRel | projet-ringbuffer/src/history.c:14-16 | every slot is the slot of its relative position |
| RingHistory.PhysInjective | projet-ringbuffer/src/history.c:14-16 | distinct relative positions occupy distinct slots |
| RingHistory.PhysAdvance | projet-ringbuffer/src/history.c:119-123 | advancing `start` by one shifts every relative position down by one |
| RingHistory.ClearedStep | projet-ringbuffer/src/history.c:84-86 | freeing one more slot of the forward range extends the cleared range by one |
| RingHistory.OverwriteOldest | projet-ringbuffer/src/history.c:113-124 | overwriting the oldest slot and advancing `start` drops the oldest snapshot and appends the new one |
| RingHistory.History.Abs | projet-ringbuffer/src/history.c:70-73 | a valid ring stands for a valid timeline whose size, cursor and capacity are `len`, `cur` and `cap` |
| RingHistory.History.constructor | projet-ringbuffer/src/history.c:5-12 | a zero-initialised history is empty |
| RingHistory.History.Zero | projet-ringbuffer/src/history.c:5-12 | resetting leaves an empty history without a buffer |
| RingHistory.History.FreeSlot | projet-ringbuffer/src/history.c:18-25 | freeing a relative position empties exactly its slot; without a buffer nothing changes |
| RingHistory.History.Init | projet-ringbuffer/src/history.c:27-57 | moves the timeline as `Timeline.Init` with the effective capacity; on success slot 0 holds the snapshot and every other slot is empty |
| RingHistory.History.Free | projet-ringbuffer/src/history.c:59-68 | the history becomes empty without a buffer |
| RingHistory.History.Current | projet-ringbuffer/src/history.c:70-73 | the snapshot returned is the timeline's current one, and it is allocated |
| RingHistory.History.ClearForward | projet-ringbuffer/src/history.c:80-88 | moves the timeline as `Timeline.ClearForward`; afterwards the current snapshot is the newest |
| RingHistory.History.CanMove | projet-ringbuffer/src/history.c:133-139 | `can_back` and `can_forward` answer exactly the timeline's questions |
| RingHistory.History.PushIntoFreeSlot | projet-ringbuffer/src/history.c:104-110 | below capacity, the snapshot goes into the next free slot, which becomes current |
| RingHistory.History.PushOverOldest | projet-ringbuffer/src/history.c:112-126 | at capacity, the oldest snapshot is overwritten, `start` advances, and the new snapshot is current |
| RingHistory.History.Push | projet-ringbuffer/src/history.c:90-131 | moves the timeline as `Timeline.Push`; on success the current slot holds the pushed grid |
| RingHistory.History.Back | projet-ringbuffer/src/history.c:141-145 | moves the timeline as `Timeline.Back` |
| RingHistory.History.Forward | projet-ringbuffer/src/history.c:147-151 | moves the timeline as `Timeline.Forward` |
| ListHistory.WiredAt | projet-listechainee/include/history.h:9-21 | in a well-linked chain, each node's `prev` and `next` are its neighbours in the chain, or `NULL` at the ends |
| ListHistory.Snaps | projet-listechainee/include/history.h:9-21 | the chain holds one snapshot per node |
| ListHistory.WalkFrom | projet-listechainee/src/history.c:73-78 | following `next` from a node of the chain visits exactly the rest of the chain |
| ListHistory.UnlinkHead | projet-listechainee/src/history.c:29-33 | unlinking the head leaves a well-linked chain of the remaining nodes, whose snapshots are the old ones minus the oldest |
| ListHistory.CutAfter | projet-listechainee/src/history.c:101-103 | cutting the list after a node leaves a well-linked chain up to that node with the same snapshots |
| ListHistory.CutTimeline | projet-listechainee/src/history.c:96-111 | cutting after the cursor yields exactly the timeline with the forward branch cleared |
| ListHistory.LinkAfterTail | projet-listechainee/src/history.c:127-139 | a new node linked after the tail extends the chain by one and its snapshots by the new one |
| ListHistory.History.AbsValid | projet-listechainee/include/history.h:9-21 | a valid list stands for a valid timeline |
| ListHistory.History.ChainIsWalk | projet-listechainee/src/history.c:73-78 | following `next` from `head` meets exactly the ghost chain: it is the list the pointers describe |
| ListHistory.History.constructor | projet-listechainee/src/history.c:5-14 | a zero-initialised history is empty |
| ListHistory.History.Zero | projet-listechainee/src/history.c:5-14 | resetting leaves an empty history with capacity 0 |
| ListHistory.History.Init | projet-listechainee/src/history.c:42-67 | moves the timeline as `Timeline.Init`; the capacity is set whenever the grid is accepted; on success one node is head, tail and current |
| ListHistory.History.Free | projet-listechainee/src/history.c:69-80 | walks the whole list, then leaves an empty history with capacity 0 |
| ListHistory.History.Current | projet-listechainee/src/history.c:82-87 | the snapshot returned is the timeline's current one |
| ListHistory.History.ClearForward | projet-listechainee/src/history.c:96-111 | moves the timeline as `Timeline.ClearForward`; `cur` becomes the tail and `len` counts the nodes up to it |
| ListHistory.History.ReleaseFrom | projet-listechainee/src/history.c:105-110 | the release loop decrements `len` once per node after the cut |
| ListHistory.History.EvictOldestIfNeeded | projet-listechainee/src/history.c:24-40 | drops exactly the oldest nodes beyond the capacity, keeping `cur`, `tail` and the rest of the timeline |
| ListHistory.History.UnlinkOldest | projet-listechainee/src/history.c:29-38 | one eviction removes the head node and its snapshot, and nothing else |
| ListHistory.History.Push | projet-listechainee/src/history.c:113-149 | moves the timeline as `Timeline.Push`; on success the current node is the tail and holds the pushed grid |
| ListHistory.History.Append | projet-listechainee/src/history.c:127-139 | a node holding the snapshot is linked after the tail and becomes current |
| ListHistory.History.CanMove | projet-listechainee/src/history.c:151-157 | `can_back` and `can_forward` answer exactly the timeline's questions |
| ListHistory.History.Back | projet-listechainee/src/history.c:159-165 | moves the timeline as `Timeline.Back` |
| ListHistory.History.Forward | projet-listechainee/src/history.c:167-173 | moves the timeline as `Timeline.Forward` |

## Left out

- The SDL window, the program's `main` and the benchmark driver are not part of this model.
- Opening, writing and closing files is not modelled. `Load` takes the file's characters and `Save` returns the text it would write. Failures of `fopen`, `fputc` and `fclose`, and the error strings of `set_err`, are left out.
- A failed `malloc` or `calloc` inside `grid_create`, `grid_resize` and `grid_clone` is not modelled: in the model these allocations always succeed. For the histories, allocation failure is the `allocFails` parameter.
- GridIO.ScanInt: a `%d` conversion whose value falls outside `int` is treated as a failed conversion. In C this is undefined behaviour.
- GridIO.ScanInt: only the `%d` rules the header can exercise are modelled: white space, an optional sign, then digits.
- GridIO.Load: `grid_create` failing for lack of memory is not modelled; `IntCountFits` shows that its count check cannot fail for dimensions read from the header.
- Memory reclamation is not modelled. `grid_destroy`, `node_free` and `free` have no counterpart. The list's node arena keeps released nodes, and the ring's slots are emptied to `None`.
- `history_current_const` is the same as `history_current` in both implementations, so it is modelled once, as `Current`.
- Aliasing of the grid pointer that `history_current` returns is not modelled. `Current` returns the snapshot's value, so a caller cannot modify a stored snapshot through it.
- RingHistory.History.Push: the fallback after the two cases (`projet-ringbuffer/src/history.c:128-130`) cannot be reached, because the class invariant `Valid()` keeps `len <= cap`. The model omits the branch, and `Push` verifies without it.
- ListHistory.History.Push: the final `!h->cur` check (`projet-listechainee/src/history.c:144-147`) cannot fail, because eviction never removes the node just pushed. The model proves this instead of modelling the check.
- ListHistory.History.ClearForward: the three updates of lines 101-103 are one simultaneous assignment in the model. The release loop is the separate method `ReleaseFrom`.
- GridIO.Load: the cell loop and the end-of-line loop are the separate methods `ReadCells` and `SkipLineEnd`, and the row loop is `ReadRows`.
- Life.Step: the `size_t` index arithmetic of `projet-listechainee/src/life.c:36` is not modelled for overflow. The index is always below `w*h`, which fits the buffer.
- `grid_destroy` is not modelled. It is `grid_free` plus freeing the `Grid` struct itself.
- ListHistory.History.UnlinkOldest: the `else` branch of `projet-listechainee/src/history.c:34-36`, which clears `tail` and `cur` when the last node is evicted, cannot be reached. Eviction runs only while `len > cap >= 1`, so the list has at least two nodes and the head has a successor. The model proves this instead of modelling the branch.
- `size_t` is taken to be 64 bits wide (`Grids.SIZE_MAX` is 2^64 - 1). `GridIO.IntCountFits` depends on it; with a 32-bit `size_t`, the count check of `grid_create` could reject a header's dimensions.
- Life.Step: a call with `next` sharing `cur`'s cell buffer is excluded by its precondition, and so is the same call to `StepRow`. The C `life_step` would accept such a call and update the grid in place, which gives a different result. Its header (`projet-ringbuffer/include/life.h:9-13`) documents that the update is not in place, and every caller passes two separate grids.
- Life.CountNeighbors and Life.Step take non-null grids, so the null-pointer part of the guard at `projet-listechainee/src/life.c:19` (`!cur || !next`) is not modelled; the unallocated-buffer part is. Every caller passes live grids.
