# life-xr lattice model

A Dafny model of the simulation core of life-xr, a 3D Game of Life shown in
WebXR. The world is a cube of side `gridSize` (32 in the application; here a
parameter `n >= 3`). It is stored as a flat `Uint8Array` of `n^3` cells, and the
cell at `(x, y, z)` sits at index `x + y*n + z*n^2`. Each generation:

- counts, for every cell, the live cells among its 26 Moore neighbours;
- applies the lonely / crowded / birth rule, writing into a back buffer `newGrid`;
- swaps the two buffers.

`countNeighbors` takes one of two routes:

- **Boundary cells** (some coordinate 0 or n-1) go through a generic loop over
  the 3x3x3 block. In the bounded topology it skips positions `oob` reports.
  In the toroidal topology (`config.wrap`) it wraps them with `mod`.
- **Interior cells** go through a hand-unrolled sum of the 26 neighbour bytes.

The model has four modules:

- `Lattice` (lattice.dfy): the index arithmetic, `mod`, `oob`, and the toroidal
  reduction.
- `Neighbours` (neighbours.dfy):
  - both routes of `countNeighbors`, as functions and as the source's loops;
  - the reference count: the number of live cells among the 26 adjacent points,
    each read in the selected topology;
  - the proofs that each route equals the reference.
- `Generation` (generation.dfy): the cell rule, one generation `Step`, and
  `updateGrid` as a loop over the buffer followed by the swap.
- `Engine` (engine.dfy): the world, meaning the side, the rule and both buffers.
  It models `createGrid`, `clear`, `randomize`, repeated generations, and the
  controller toggle. The toggle comes in two versions: as written, and with its
  intended guard.

Cells are bytes, not booleans. Both routes of `countNeighbors` read the buffer
differently: the loop tests `=== 1`, while the unrolled sum adds raw byte
values. They agree exactly on binary buffers. `IsBinary` is therefore a proved
invariant of every operation, not an assumption built into the type. The arrays
are modelled as values: `UpdateGrid` returns the pair `(grid, newGrid)` as it
stands after the swap.

## Model

| member | source | states |
|---|---|---|
| Lattice.Decompose | index.js:241-243 | both divisions of the decomposition are exact (so JavaScript's `/` equals integer division), the coordinates lie in [0, n), and recomposing them gives back i |
| Lattice.DecomposeIndex | index.js:337 | every in-grid point's index lies in [0, n^3) and decomposes back to the same point |
| Lattice.IndexInjective | index.js:337 | two in-grid points with the same index are the same point |
| Lattice.Mod | index.js:152-155 | mod is a wrap on [-1, n]: result in [0, n), identity on [0, n), -1 to n-1, n to 0; below -n it is negative, not a wrap |
| Lattice.ModIsRemainder | index.js:152-155 | from -n upwards mod equals the mathematical remainder, so it agrees with the toroidal reduction |
| Lattice.Oob | index.js:157-160 | inside the frame [-1, n]^3, oob is true exactly when the point is off the lattice; wherever it is true the point is off the lattice |
| Lattice.Wrap | index.js:171 | the toroidal reduction lands on the lattice and fixes lattice points |
| Lattice.WrapOnFrame | index.js:171 | on the frame [-1, n]^3, where every neighbour of an in-grid cell lies, the toroidal reduction is mod applied to each coordinate |
| Neighbours.NeighbourhoodExact | index.js:166-169 | the visited block minus its centre is exactly the 26 adjacent points, each once |
| Neighbours.CentreIgnored | index.js:169 | a cell's own value never affects its count: buffers differing only at p give p the same count, in both topologies (n >= 3 keeps a wrapped neighbour off p) |
| Neighbours.Visit | index.js:169-172 | one pass of the innermost loop adds 0 or 1, and 0 at the centre |
| Neighbours.CubeSum | index.js:165-176 | after k passes the count is at most k, and at most k - 1 once the centre has been passed, so the full count is at most 26 |
| Neighbours.VisitCell | index.js:169-173 | the body of the innermost loop at counters (x, y, z) adds the contribution of the k-th visited position, and for a neighbour that is 1 exactly when the reference counts it live (centre skipped, oob skipped when bounded, mod-reduced read) |
| Neighbours.VisitLine | index.js:168-174 | the innermost loop adds the contributions of the three positions of its line to the running count |
| Neighbours.VisitPlane | index.js:167-175 | the middle loop adds the contributions of the nine positions of its plane to the running count |
| Neighbours.GenericLoop | index.js:165-176 | the three nested loops, with the centre skip, the oob skip and the mod indexing, return the number of live adjacent cells in the selected topology, on any buffer |
| Neighbours.GenericCountIsReference | index.js:164-176 | the generic route's 27-position sum equals the reference count of live neighbours |
| Neighbours.FastCount | index.js:177-206 | the unrolled sum of 26 bytes, every read inside the buffer, is at most 26 on a binary buffer |
| Neighbours.FastIsGeneric | index.js:177-206 | on a binary buffer, the unrolled sum of an interior cell equals the generic loop's count, in either topology |
| Neighbours.NeighbourCount | index.js:162-207 | countNeighbors as a function: on binary buffers, and on boundary cells for any buffer, it equals the live-neighbour count of the selected topology, and on binary buffers it lies in [0, 26] |
| Neighbours.CountNeighbors | index.js:162-207 | countNeighbors returns the reference live-neighbour count on binary buffers (and on boundary cells for any buffer), in [0, 26] on binary buffers |
| Neighbours.InteriorIgnoresWrap | index.js:164 | for an interior cell the count is the same whether the lattice wraps or not |
| Neighbours.BoundaryBoundedBelowFull | index.js:170 | in the bounded topology a boundary cell has at most 25 live neighbours, since some neighbour lies off the lattice |
| Neighbours.FullGridFullCount | index.js:166-173 | on an all-alive lattice every cell counts 26 when wrapping, and every interior cell counts 26 in the bounded topology |
| Neighbours.EmptyGridNoNeighbours | index.js:162-207 | on an all-dead lattice every cell counts 0, through either route |
| Generation.NextState | index.js:246-255 | a live cell stays alive iff lonely < nc < crowded; a dead cell is born iff nc == birth; both give 0 or 1; any other byte becomes 1 on birth and is otherwise kept |
| Generation.Step | index.js:240-256 | the next generation fits the same lattice, and each cell holding 0 or 1 holds 0 or 1 again, so a binary buffer stays binary |
| Generation.StepFollowsRule | index.js:246-256 | on a binary buffer each next-generation cell is alive iff it was alive with a surviving live-neighbour count, or dead with the birth count |
| Generation.StepObeysRule | index.js:240-257 | every cell of the lattice obeys the rule after a generation of a binary buffer |
| Generation.EmptyStaysEmpty | index.js:252 | an all-dead lattice stays all-dead when birth is not 0 |
| Generation.LoneCellDies | index.js:249 | a single live cell with nothing around it dies whenever lonely >= 0, in either topology |
| Generation.NextCell | index.js:240-256 | one pass of updateGrid's loop: the coordinates recovered from i, the neighbour count and the rule give the next value of cell i |
| Generation.UpdateGrid | index.js:238-265 | after the swap, grid holds the next generation, whatever the back buffer held, and newGrid holds the old one; binary buffers stay binary and every cell obeys the rule |
| Engine.Fresh | index.js:32-33 | the buffers allocated at load time are n^3 zero bytes each |
| Engine.CreateGrid | index.js:143-148 | every cell of the lattice is set to 1; the back buffer and the rule are untouched |
| Engine.CreatedGridCounts | index.js:143-148 | after createGrid every cell has 26 live neighbours on the torus, and every interior cell has 26 in the bounded lattice |
| Engine.Clear | index.js:218-224 | every cell is set to 0; the back buffer and the rule are untouched |
| Engine.ClearedStaysEmpty | index.js:218-224 | after clear the lattice stays empty for any number of generations when birth is not 0 |
| Engine.Seed | index.js:231-232 | cell i holds 1 when draw i came up and 0 otherwise |
| Engine.Tick | index.js:238-265 | one generation on the world: the old grid becomes the back buffer, binary-ness is kept, and each cell obeys the rule |
| Engine.Randomize | index.js:226-236 | after randomize the back buffer holds exactly the seeded pattern (1 where the draw came up, 0 elsewhere, so binary), and the grid holds a binary generation in which every cell obeys the rule applied to that pattern |
| Engine.RandomizeForgets | index.js:229-235 | randomize overwrites both buffers: the lattice's earlier contents do not affect the result |
| Engine.StartIgnoresCreate | index.js:149-150 | on the application's 32-cell side with the default rule, the createGrid at load time leaves no trace once randomize runs |
| Engine.Run | index.js:349-352 | k generations keep the side, the rule and the buffers' shape; a binary grid stays binary, and from the first generation on so does the back buffer |
| Engine.RunBinary | index.js:349-352 | every later generation of a binary world is binary and obeys the rule applied to the generation before |
| Engine.Flip | index.js:338 | the toggle always writes 0 or 1, different from the old value, and the complement for a binary cell |
| Engine.ToggleAsWritten | index.js:336-339 | when oob is false and x + y*n + z*n^2 falls inside the buffer, the source's toggle flips that cell and keeps every other; when oob holds or the index falls outside the buffer, nothing changes |
| Engine.Toggle | index.js:336-339 | an in-grid toggle flips exactly the cell at x + y*n + z*n^2 and keeps every other cell; off the lattice nothing changes |
| Engine.ToggleTwice | index.js:338 | toggling the same point twice restores a binary world |
| Engine.ToggleAsWrittenTwice | index.js:336-339 | toggling the same point twice with the source's guard restores a binary world, for every point including stray ones |
| Engine.ToggleKeepsOwnCount | index.js:338 | toggling a cell leaves its own live-neighbour count unchanged |
| Engine.ToggleAsWrittenInFrame | index.js:336-339 | for every point in [-1, n]^3, the source's guard does exactly what the intended toggle does |
| Engine.ToggleAsWrittenStray | index.js:336-337 | the point (n+1, 0, 0) is off the lattice, yet the source toggles cell (1, 1, 0) for it, changing the world |

## Left out

- Rendering: the three.js scene, shaders, sprites and the XR button. None of it affects the cells.
- `sizeArray` updates and `decaySprites` (index.js:219-223, 233, 258-260, 267-276): presentation only, with floating-point decay.
- The pseudo-random generator (`Math.seedrandom`, `makeSeed`, `Date.now`) and the float comparison `Math.random() > randomRatio`. `Engine.Randomize` takes the outcomes as a sequence of booleans. The default `randomRatio` of 0.98 therefore does not appear.
- Gamepad polling, button edges, the conversion from controller pose to coordinates with `Math.round`, and the wrap and enabled switches (index.js:282-346). The toggle takes the rounded integer point as its input.
- Loop timing (`config.delay`, `config.enabled`) and the dat.GUI bindings, including their slider ranges. `Engine.Run` only counts generations.
- Engine.Randomize: stated for the boolean draws. How the float draws and the seed string lead to a pattern is not modelled.
- The source does not bound lonely, crowded and birth beyond the GUI sliders. The model takes any integers, so properties that need a sign carry it as a precondition (`LoneCellDies`, `EmptyStaysEmpty`).
- The list of changed cells. One might expect a generation to report which cells changed state; `updateGrid` returns nothing, and the model follows the code.
- The randomize convention. `randomRatio` reads like the probability that a cell is alive, but a cell is alive when the draw exceeds it (index.js:232), so 0.98 makes about 2% of cells alive. The model follows the code, with each draw's outcome as a boolean.

## Findings

| source | as written | input that shows it | evidently intended | confidence | as-written member | corrected member |
|---|---|---|---|---|---|---|
| index.js:336-337 | the guard `!oob(x, y, z)` only rejects coordinates equal to -1 or n, and the index is then computed and written unchecked | the controller rounded to (n+1, 0, 0): index n+1 is the index of (1, 1, 0), so that cell flips | toggle only when every coordinate lies in [0, n), otherwise nothing changes (a point off the lattice has no cell to toggle, so the toggle is meant to be a no-op there) | medium: reachable when the controller is more than one cell outside the lattice, not executed | Engine.ToggleAsWritten, Engine.ToggleAsWrittenStray | Engine.Toggle |
