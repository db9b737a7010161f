/** The simulation state and the operations the application performs on it:
    filling the lattice (createGrid, clear, randomize), advancing one
    generation (updateGrid) and flipping the cell under the controller. */
module Engine {
  import opened Lattice
  import opened Neighbours
  import opened Generation

  /** The side, the rule and the two buffers: `grid` is read and displayed,
      `newGrid` is the back buffer updateGrid writes (index.js:32-33). */
  datatype World = World(n: int, rule: Rule, grid: seq<Byte>, newGrid: seq<Byte>)

  predicate Valid(w: World) {
    Shape(w.grid, w.n) && Shape(w.newGrid, w.n)
  }

  predicate AllCells(g: seq<Byte>, v: Byte) {
    forall i | 0 <= i < |g| :: g[i] == v
  }

  /** Two zeroed Uint8Arrays of n^3 cells, as allocated at load time. */
  function Fresh(n: int, rule: Rule): (w: World)
    requires n >= 3
    ensures Valid(w) && w.n == n && w.rule == rule
    ensures AllCells(w.grid, 0) && AllCells(w.newGrid, 0)
  {
    World(n, rule, seq(Volume(n), i => 0), seq(Volume(n), i => 0))
  }

  /** createGrid (index.js:143-148): every cell alive. */
  function CreateGrid(w: World): (r: World)
    requires Valid(w)
    ensures Valid(r) && IsBinary(r.grid)
    ensures r.n == w.n && r.rule == w.rule && r.newGrid == w.newGrid
    ensures forall p | InGrid(p, w.n) :: 0 <= Index(p, w.n) < |r.grid| && r.grid[Index(p, w.n)] == 1
  {
    var r := w.(grid := seq(Volume(w.n), i => 1));
    assert forall p | InGrid(p, w.n) :: 0 <= Index(p, w.n) < |r.grid| by {
      forall p | InGrid(p, w.n) ensures 0 <= Index(p, w.n) < |r.grid| {
        IndexInRange(p, w.n);
      }
    }
    r
  }

  /** After createGrid every cell sees 26 live neighbours when the lattice
      wraps, and so does every interior cell when it does not. */
  lemma CreatedGridCounts(w: World, p: Point)
    requires Valid(w) && InGrid(p, w.n)
    ensures LiveNeighbours(CreateGrid(w).grid, w.n, true, p) == 26
    ensures Interior(p, w.n) ==> LiveNeighbours(CreateGrid(w).grid, w.n, false, p) == 26
  {
    FullGridFullCount(CreateGrid(w).grid, w.n, p);
  }

  /** clear (index.js:218-224): every cell dead. */
  function Clear(w: World): (r: World)
    requires Valid(w)
    ensures Valid(r) && IsBinary(r.grid) && AllCells(r.grid, 0)
    ensures r.n == w.n && r.rule == w.rule && r.newGrid == w.newGrid
  {
    w.(grid := seq(Volume(w.n), i => 0))
  }

  /** The lattice a sequence of coin flips seeds: cell i is alive exactly
      when coin i came up (Math.random() > randomRatio, index.js:232). */
  function Seed(w: World, coins: seq<bool>): (r: World)
    requires Valid(w) && |coins| == Volume(w.n)
    ensures Valid(r) && IsBinary(r.grid)
    ensures r.n == w.n && r.rule == w.rule && r.newGrid == w.newGrid
    ensures forall i | 0 <= i < |coins| :: r.grid[i] == (if coins[i] then 1 else 0)
  {
    w.(grid := seq(Volume(w.n), i requires 0 <= i < Volume(w.n) => if coins[i] then 1 else 0))
  }

  /** updateGrid (index.js:238-265) on the world: the next generation is
      written to the back buffer and the buffers swap, so the generation
      just left behind becomes the back buffer. */
  function Tick(w: World): (r: World)
    requires Valid(w)
    ensures Valid(r) && r.n == w.n && r.rule == w.rule
    ensures r.newGrid == w.grid
    ensures IsBinary(w.grid) ==> IsBinary(r.grid)
    ensures IsBinary(w.grid) ==> forall p | InGrid(p, w.n) :: ObeysRule(w.grid, r.grid, w.n, w.rule, p)
  {
    if IsBinary(w.grid) then
      StepObeysRule(w.grid, w.n, w.rule);
      w.(grid := Step(w.grid, w.n, w.rule), newGrid := w.grid)
    else
      w.(grid := Step(w.grid, w.n, w.rule), newGrid := w.grid)
  }

  /** randomize (index.js:226-236) with the seeded generator's draws given as
      coin flips: seed the lattice, then advance one generation. */
  function Randomize(w: World, coins: seq<bool>): (r: World)
    requires Valid(w) && |coins| == Volume(w.n)
    ensures Valid(r) && IsBinary(r.grid) && r.n == w.n && r.rule == w.rule
    ensures IsBinary(r.newGrid)
    ensures forall i | 0 <= i < |coins| :: r.newGrid[i] == (if coins[i] then 1 else 0)
    ensures forall p | InGrid(p, w.n) :: ObeysRule(r.newGrid, r.grid, w.n, w.rule, p)
  {
    Tick(Seed(w, coins))
  }

  /** randomize overwrites both buffers: what the lattice held before has no
      influence on the result. */
  lemma RandomizeForgets(w: World, v: World, coins: seq<bool>)
    requires Valid(w) && Valid(v) && w.n == v.n && w.rule == v.rule
    requires |coins| == Volume(w.n)
    ensures Randomize(w, coins) == Randomize(v, coins)
  {
    assert Seed(w, coins).grid == Seed(v, coins).grid;
  }

  /** The state after loading (index.js:29-33, 149-150): buffers for the
      application's side and default rule, createGrid, then randomize with
      the fixed seed, here its sequence of draws. The initial createGrid
      leaves no trace. */
  lemma StartIgnoresCreate(coins: seq<bool>)
    requires |coins| == Volume(GridSize)
    ensures Randomize(CreateGrid(Fresh(GridSize, DefaultRule)), coins)
            == Randomize(Fresh(GridSize, DefaultRule), coins)
  {
    RandomizeForgets(CreateGrid(Fresh(GridSize, DefaultRule)), Fresh(GridSize, DefaultRule), coins);
  }

  /** k generations in a row (the animation loop, index.js:349-352). A
      binary world stays binary in both buffers from the first generation
      on. */
  function Run(w: World, k: nat): (r: World)
    requires Valid(w)
    ensures Valid(r) && r.n == w.n && r.rule == w.rule
    ensures IsBinary(w.grid) ==> IsBinary(r.grid)
    ensures IsBinary(w.grid) && k > 0 ==> IsBinary(r.newGrid)
    decreases k
  {
    if k == 0 then w else Run(Tick(w), k - 1)
  }

  /** Every generation of a binary world is binary, and each obeys the rule
      applied to the one before it. */
  lemma {:induction false} RunBinary(w: World, k: nat)
    requires Valid(w) && IsBinary(w.grid)
    ensures IsBinary(Run(w, k).grid)
    ensures k > 0 ==> forall p | InGrid(p, w.n) ::
      ObeysRule(Run(w, k).newGrid, Run(w, k).grid, w.n, w.rule, p)
    decreases k
  {
    if k > 0 {
      RunBinary(Tick(w), k - 1);
      if k == 1 {
        assert Run(w, k) == Tick(w);
      }
    }
  }

  /** Once cleared, the lattice stays empty for every number of generations,
      unless the rule gives birth on zero neighbours. */
  lemma {:induction false} ClearedStaysEmpty(w: World, k: nat)
    requires Valid(w) && w.rule.birth != 0
    ensures AllCells(Run(Clear(w), k).grid, 0)
    decreases k
  {
    if k > 0 {
      var c := Clear(w);
      EmptyStaysEmpty(c.grid, c.n, c.rule);
      assert Tick(c) == Clear(Tick(c));
      ClearedStaysEmpty(Tick(c), k - 1);
    }
  }

  /** The value the toggle writes: 0 for a live cell, 1 for anything else
      (index.js:338). */
  function Flip(b: Byte): (r: Byte)
    ensures r != b && (r == 0 || r == 1)
    ensures b == 0 || b == 1 ==> r == 1 - b
  {
    if b == 1 then 0 else 1
  }

  /** The controller toggle as written (index.js:336-339): the guard is
      `!oob`, which only rejects coordinates equal to -1 or n, and the index
      is computed without further checks. A write past either end of the
      typed array is dropped, so only the in-range case changes the world. */
  function ToggleAsWritten(w: World, p: Point): (r: World)
    requires Valid(w)
    ensures Valid(r) && r.n == w.n && r.rule == w.rule && r.newGrid == w.newGrid
    ensures forall i | 0 <= i < |w.grid| :: r.grid[i] == w.grid[i] || r.grid[i] == Flip(w.grid[i])
    ensures forall i, j | 0 <= i < j < |w.grid| :: r.grid[i] == w.grid[i] || r.grid[j] == w.grid[j]
    ensures !Oob(p, w.n) && 0 <= Index(p, w.n) < |w.grid| ==>
              r.grid[Index(p, w.n)] == Flip(w.grid[Index(p, w.n)])
    ensures Oob(p, w.n) || !(0 <= Index(p, w.n) < |w.grid|) ==> r == w
  {
    if !Oob(p, w.n) then
      var i := Index(p, w.n);
      if 0 <= i < |w.grid| then w.(grid := w.grid[i := Flip(w.grid[i])]) else w
    else
      w
  }

  /** The toggle with the guard it evidently intends: a point on the lattice
      has its cell flipped and every other cell kept; a point off the
      lattice changes nothing. */
  function Toggle(w: World, p: Point): (r: World)
    requires Valid(w)
    ensures Valid(r) && r.n == w.n && r.rule == w.rule && r.newGrid == w.newGrid
    ensures !InGrid(p, w.n) ==> r == w
    ensures InGrid(p, w.n) ==>
              0 <= Index(p, w.n) < |r.grid| && r.grid[Index(p, w.n)] == Flip(w.grid[Index(p, w.n)])
    ensures forall q | InGrid(q, w.n) && q != p ::
              0 <= Index(q, w.n) < |r.grid| && r.grid[Index(q, w.n)] == w.grid[Index(q, w.n)]
    ensures IsBinary(w.grid) ==> IsBinary(r.grid)
  {
    if InGrid(p, w.n) then
      IndexInRange(p, w.n);
      var r := w.(grid := w.grid[Index(p, w.n) := Flip(w.grid[Index(p, w.n)])]);
      OtherCellsKept(w, r, p);
      r
    else
      InGridIndices(w.n);
      w
  }

  lemma InGridIndices(n: int)
    requires n > 0
    ensures forall q | InGrid(q, n) :: 0 <= Index(q, n) < Volume(n)
  {
    forall q | InGrid(q, n) ensures 0 <= Index(q, n) < Volume(n) {
      IndexInRange(q, n);
    }
  }

  lemma OtherCellsKept(w: World, r: World, p: Point)
    requires Valid(w) && InGrid(p, w.n) && |r.grid| == |w.grid|
    requires forall i | 0 <= i < |w.grid| && i != Index(p, w.n) :: r.grid[i] == w.grid[i]
    ensures forall q | InGrid(q, w.n) && q != p ::
              0 <= Index(q, w.n) < |r.grid| && r.grid[Index(q, w.n)] == w.grid[Index(q, w.n)]
  {
    forall q | InGrid(q, w.n) && q != p
      ensures 0 <= Index(q, w.n) < |r.grid| && r.grid[Index(q, w.n)] == w.grid[Index(q, w.n)]
    {
      IndexInRange(q, w.n);
      if Index(q, w.n) == Index(p, w.n) {
        IndexInjective(q, p, w.n);
      }
    }
  }

  /** Toggling a dead or live cell twice restores the world. */
  lemma ToggleTwice(w: World, p: Point)
    requires Valid(w) && IsBinary(w.grid)
    ensures Toggle(Toggle(w, p), p) == w
  {
    if InGrid(p, w.n) {
      IndexInRange(p, w.n);
      var i := Index(p, w.n);
      assert w.grid[i] == 0 || w.grid[i] == 1;
      assert Toggle(Toggle(w, p), p).grid == w.grid;
    }
  }

  /** The source's toggle is undone by a second one at the same point, stray
      points included: whatever cell it flips, it flips back. */
  lemma ToggleAsWrittenTwice(w: World, p: Point)
    requires Valid(w) && IsBinary(w.grid)
    ensures ToggleAsWritten(ToggleAsWritten(w, p), p) == w
  {
    var i := Index(p, w.n);
    if !Oob(p, w.n) && 0 <= i < |w.grid| {
      assert w.grid[i] == 0 || w.grid[i] == 1;
      assert ToggleAsWritten(ToggleAsWritten(w, p), p).grid == w.grid;
    }
  }

  /** Toggling a cell does not change its own neighbour count. */
  lemma ToggleKeepsOwnCount(w: World, p: Point)
    requires Valid(w) && InGrid(p, w.n)
    ensures LiveNeighbours(Toggle(w, p).grid, w.n, w.rule.wrap, p)
            == LiveNeighbours(w.grid, w.n, w.rule.wrap, p)
  {
    IndexInRange(p, w.n);
    CentreIgnored(Toggle(w, p).grid, w.grid, w.n, w.rule.wrap, p);
  }

  /** For every point the controller can reach within one cell of the
      lattice the source's guard does what is intended. */
  lemma ToggleAsWrittenInFrame(w: World, p: Point)
    requires Valid(w) && InFrame(p, w.n)
    ensures ToggleAsWritten(w, p) == Toggle(w, p)
  {
    if InGrid(p, w.n) {
      IndexInRange(p, w.n);
    }
  }

  /** Further out the guard lets stray points through: (n + 1, 0, 0) is off
      the lattice, yet its index n + 1 is the index of (1, 1, 0), so that cell
      is flipped instead of nothing. */
  lemma ToggleAsWrittenStray(w: World)
    requires Valid(w)
    ensures !InGrid(Point(w.n + 1, 0, 0), w.n)
    ensures Toggle(w, Point(w.n + 1, 0, 0)) == w
    ensures ToggleAsWritten(w, Point(w.n + 1, 0, 0)) == Toggle(w, Point(1, 1, 0))
    ensures ToggleAsWritten(w, Point(w.n + 1, 0, 0)) != w
  {
    var n := w.n;
    assert Index(Point(n + 1, 0, 0), n) == Index(Point(1, 1, 0), n) == n + 1;
    IndexInRange(Point(1, 1, 0), n);
    assert Toggle(w, Point(1, 1, 0)).grid[n + 1] != w.grid[n + 1];
  }
}
