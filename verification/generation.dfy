/** One generation of the 3D Game of Life: the birth/survival rule applied
    to every cell of the current buffer, written into the back buffer, after
    which the two buffers trade places (updateGrid, index.js:238-265). */
module Generation {
  import opened Lattice
  import opened Neighbours

  /** The rule parameters of the configuration object (index.js:62-69):
      a live cell dies with at most `lonely` or at least `crowded` live
      neighbours, a dead cell comes alive with exactly `birth`. */
  datatype Rule = Rule(wrap: bool, lonely: int, crowded: int, birth: int)

  /** The defaults the application starts with. */
  const DefaultRule: Rule := Rule(false, 16, 23, 4)

  /** A live cell with nc live neighbours stays alive. */
  predicate Survives(nc: int, rule: Rule) {
    rule.lonely < nc < rule.crowded
  }

  /** A dead cell with nc live neighbours is born. */
  predicate Born(nc: int, rule: Rule) {
    nc == rule.birth
  }

  /** The rule's verdict on the cell p of g: alive exactly when it is alive
      with a surviving number of live neighbours, or dead with the birth
      number, counted in the topology the rule selects. */
  predicate NextAlive(g: seq<Byte>, n: int, rule: Rule, p: Point)
    requires Shape(g, n) && InGrid(p, n)
  {
    IndexInRange(p, n);
    var nc := LiveNeighbours(g, n, rule.wrap, p);
    (g[Index(p, n)] == 1 && Survives(nc, rule)) || (g[Index(p, n)] == 0 && Born(nc, rule))
  }

  /** h holds at p the cell the rule makes of the cell p of g. */
  predicate ObeysRule(g: seq<Byte>, h: seq<Byte>, n: int, rule: Rule, p: Point)
    requires Shape(g, n) && Shape(h, n) && InGrid(p, n)
  {
    IndexInRange(p, n);
    h[Index(p, n)] == 1 <==> NextAlive(g, n, rule, p)
  }

  /** The new value of one cell (index.js:245-257). A cell holding 1 is
      compared with both death thresholds in turn; any other byte becomes 1
      on exactly `birth` neighbours and is otherwise copied unchanged. */
  function NextState(alive: Byte, nc: int, rule: Rule): (r: Byte)
    ensures alive == 1 ==> (r == 1 <==> Survives(nc, rule)) && (r == 0 || r == 1)
    ensures alive == 0 ==> (r == 1 <==> Born(nc, rule)) && (r == 0 || r == 1)
    ensures alive != 0 && alive != 1 ==> r == (if Born(nc, rule) then 1 else alive)
  {
    if alive == 1 then
      var a: Byte := if nc <= rule.lonely then 0 else alive;
      if nc >= rule.crowded then 0 else a
    else if nc == rule.birth then
      1
    else
      alive
  }

  /** The buffer updateGrid writes: cell i gets the rule applied to its
      value and to the count countNeighbors returns at its coordinates. The
      next generation fits the same lattice, and every cell that held 0 or 1
      holds 0 or 1 again, so a binary buffer stays binary. */
  function Step(g: seq<Byte>, n: int, rule: Rule): (h: seq<Byte>)
    requires Shape(g, n)
    ensures Shape(h, n)
    ensures forall i | 0 <= i < |h| && (g[i] == 0 || g[i] == 1) :: h[i] == 0 || h[i] == 1
    ensures IsBinary(g) ==> IsBinary(h)
  {
    seq(Volume(n), i requires 0 <= i < Volume(n) =>
      NextState(g[i], NeighbourCount(g, n, rule.wrap, Decompose(i, n)), rule))
  }

  /** On a binary buffer every cell of the next generation obeys the rule
      applied to the true number of live neighbours. */
  lemma StepFollowsRule(g: seq<Byte>, n: int, rule: Rule, p: Point)
    requires Shape(g, n) && IsBinary(g) && InGrid(p, n)
    ensures ObeysRule(g, Step(g, n, rule), n, rule, p)
  {
    DecomposeIndex(p, n);
  }

  /** An empty lattice stays empty unless birth needs no neighbours. */
  lemma EmptyStaysEmpty(g: seq<Byte>, n: int, rule: Rule)
    requires Shape(g, n) && rule.birth != 0
    requires forall i | 0 <= i < |g| :: g[i] == 0
    ensures forall i | 0 <= i < |g| :: Step(g, n, rule)[i] == 0
  {
    forall i | 0 <= i < |g|
      ensures Step(g, n, rule)[i] == 0
    {
      EmptyGridNoNeighbours(g, n, rule.wrap, Decompose(i, n));
    }
  }

  /** A live cell with no live neighbour dies whenever `lonely` is not
      negative, whatever the rest of the rule. */
  lemma LoneCellDies(g: seq<Byte>, n: int, rule: Rule, p: Point)
    requires Shape(g, n) && InGrid(p, n) && rule.lonely >= 0
    requires forall i | 0 <= i < |g| :: g[i] == (if i == Index(p, n) then 1 else 0)
    ensures 0 <= Index(p, n) < Volume(n)
    ensures Step(g, n, rule)[Index(p, n)] == 0
  {
    IndexInRange(p, n);
    var e := seq(|g|, i => 0);
    CentreIgnored(g, e, n, rule.wrap, p);
    EmptyGridNoNeighbours(e, n, rule.wrap, p);
    assert IsBinary(g);
    StepFollowsRule(g, n, rule, p);
    assert ObeysRule(g, Step(g, n, rule), n, rule, p);
  }

  /** Every cell of the next generation of a binary buffer obeys the rule. */
  lemma StepObeysRule(g: seq<Byte>, n: int, rule: Rule)
    requires Shape(g, n) && IsBinary(g)
    ensures forall p | InGrid(p, n) :: ObeysRule(g, Step(g, n, rule), n, rule, p)
  {
    forall p | InGrid(p, n)
      ensures ObeysRule(g, Step(g, n, rule), n, rule, p)
    {
      StepFollowsRule(g, n, rule, p);
    }
  }

  /** The body of updateGrid's loop for cell i (index.js:240-256): recover
      the coordinates, count the neighbours, apply the rule. */
  method NextCell(n: int, rule: Rule, grid: seq<Byte>, i: int) returns (alive: Byte)
    requires Shape(grid, n) && 0 <= i < Volume(n)
    ensures alive == Step(grid, n, rule)[i]
    ensures IsBinary(grid) ==> (alive == 1 <==> NextAlive(grid, n, rule, Decompose(i, n)))
  {
    var x := i % n;
    var y := ((i - x) / n) % n;
    var z := (i - y * n - x) / (n * n);
    DecomposeFacts(i, n, x, y, z);
    var p := Point(x, y, z);
    assert p == Decompose(i, n);
    var nc := CountNeighbors(grid, n, rule.wrap, p);
    alive := grid[i];
    if alive == 1 {
      if nc <= rule.lonely {
        alive := 0;
      }
      if nc >= rule.crowded {
        alive := 0;
      }
    } else {
      if nc == rule.birth {
        alive := 1;
      }
    }
  }

  /** updateGrid (index.js:238-265): each cell's next value goes into the
      back buffer, then the buffers swap. Arrays are modelled as values: the
      method returns the pair (grid, newGrid) as it stands after the swap. */
  method UpdateGrid(n: int, rule: Rule, grid: seq<Byte>, newGrid: seq<Byte>)
    returns (grid': seq<Byte>, newGrid': seq<Byte>)
    requires Shape(grid, n) && |newGrid| == Volume(n)
    ensures grid' == Step(grid, n, rule) && newGrid' == grid
    ensures Shape(grid', n) && Shape(newGrid', n)
    ensures IsBinary(grid) ==> IsBinary(grid')
    ensures IsBinary(grid) ==> forall p | InGrid(p, n) :: ObeysRule(grid, grid', n, rule, p)
  {
    var buf := newGrid;
    for i := 0 to Volume(n)
      invariant |buf| == Volume(n)
      invariant forall j | 0 <= j < i :: buf[j] == Step(grid, n, rule)[j]
    {
      var alive := NextCell(n, rule, grid, i);
      buf := buf[i := alive];
    }
    grid', newGrid' := buf, grid;
    if IsBinary(grid) {
      StepObeysRule(grid, n, rule);
    }
  }
}
