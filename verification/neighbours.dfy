/** The neighbour count of the automaton (countNeighbors, index.js:162-207).
    A cell with a coordinate on the boundary goes through a generic loop over
    the 3x3x3 block around it, which either skips positions off the lattice
    (bounded topology) or reduces them with `mod` (toroidal topology, selected
    by `wrap`). Every other cell goes through a hand-unrolled sum of its 26
    neighbours. Both are related here to one reference count: the number of
    live cells among the 26 Moore neighbours.
 */
module Neighbours {
  import opened Lattice

  // ---------------------------------------------------------------------
  // The generic loop (index.js:165-176)
  // ---------------------------------------------------------------------

  /** The k-th position (0 <= k < 27) the loops of index.js:166-168 visit
      around p: x outermost, z innermost, each from one below to one above. */
  function CubeAt(p: Point, k: int): (q: Point)
    requires 0 <= k < 27
    ensures -1 <= q.x - p.x <= 1 && -1 <= q.y - p.y <= 1 && -1 <= q.z - p.z <= 1
    ensures q == p <==> k == 13
  {
    Point(p.x + k / 9 - 1, p.y + (k / 3) % 3 - 1, p.z + k % 3 - 1)
  }

  /** The visiting position of the loop counters x = p.x - 1 + i,
      y = p.y - 1 + j, z = p.z - 1 + l. */
  lemma CubeAtCounters(p: Point, i: int, j: int, l: int)
    requires 0 <= i < 3 && 0 <= j < 3 && 0 <= l < 3
    ensures CubeAt(p, 9 * i + 3 * j + l) == Point(p.x - 1 + i, p.y - 1 + j, p.z - 1 + l)
  {
  }

  /** The loop counters (x, y, z) are the k-th visiting position. */
  lemma VisitPosition(p: Point, x: int, y: int, z: int, k: int)
    requires -1 <= x - p.x <= 1 && -1 <= y - p.y <= 1 && -1 <= z - p.z <= 1
    requires k == 9 * (x - p.x + 1) + 3 * (y - p.y + 1) + (z - p.z + 1)
    ensures 0 <= k < 27 && CubeAt(p, k) == Point(x, y, z)
  {
    CubeAtCounters(p, x - p.x + 1, y - p.y + 1, z - p.z + 1);
  }

  /** One pass through the body of the innermost loop (index.js:169-172):
      1 when it increments the count, 0 when it skips or finds no life. */
  function Visit(g: seq<Byte>, n: int, wrap: bool, p: Point, q: Point): (r: int)
    requires Shape(g, n) && InFrame(q, n)
    ensures 0 <= r <= 1
    ensures q == p ==> r == 0
  {
    if q == p then 0
    else if !wrap && Oob(q, n) then 0
    else
      var m := Point(Mod(q.x, n), Mod(q.y, n), Mod(q.z, n));
      IndexInRange(m, n);
      if g[Index(m, n)] == 1 then 1 else 0
  }

  /** The count after the first k passes of the generic loop. The centre is
      visited but never counted, so the full count is at most 26. */
  function CubeSum(g: seq<Byte>, n: int, wrap: bool, p: Point, k: int): (r: int)
    requires Shape(g, n) && InGrid(p, n) && 0 <= k <= 27
    ensures 0 <= r <= k
    ensures k > 13 ==> r <= k - 1
  {
    if k == 0 then 0
    else CubeSum(g, n, wrap, p, k - 1) + Visit(g, n, wrap, p, CubeAt(p, k - 1))
  }

  // ---------------------------------------------------------------------
  // The unrolled fast path (index.js:177-206)
  // ---------------------------------------------------------------------

  predicate OnBoundary(p: Point, n: int) {
    p.x == n - 1 || p.y == n - 1 || p.z == n - 1 || p.x == 0 || p.y == 0 || p.z == 0
  }

  predicate Interior(p: Point, n: int) {
    1 <= p.x <= n - 2 && 1 <= p.y <= n - 2 && 1 <= p.z <= n - 2
  }

  /** The byte at (x, y, z) of an index-addressed buffer. */
  function Cell(g: seq<Byte>, n: int, x: int, y: int, z: int): (r: Byte)
    requires Shape(g, n) && InGrid(Point(x, y, z), n)
    ensures IsBinary(g) ==> r == 0 || r == 1
  {
    IndexInRange(Point(x, y, z), n);
    g[Index(Point(x, y, z), n)]
  }

  /** The byte at offset (dx, dy, dz) from an interior cell p: every such
      read lies inside the buffer. */
  function CellAt(g: seq<Byte>, n: int, p: Point, dx: int, dy: int, dz: int): (r: Byte)
    requires Shape(g, n) && Interior(p, n)
    requires -1 <= dx <= 1 && -1 <= dy <= 1 && -1 <= dz <= 1
    ensures IsBinary(g) ==> r == 0 || r == 1
  {
    Cell(g, n, p.x + dx, p.y + dy, p.z + dz)
  }

  /** The 26 reads of the unrolled branch, in the order the source lists
      them. It adds the byte values themselves rather than testing them
      against 1, so only on a binary buffer is it bounded by 26. */
  function FastCount(g: seq<Byte>, n: int, p: Point): (r: int)
    requires Shape(g, n) && Interior(p, n)
    ensures IsBinary(g) ==> 0 <= r <= 26
  {
    CellAt(g, n, p, -1, 0, 0) + CellAt(g, n, p, -1, 0, -1) + CellAt(g, n, p, -1, 0, 1)
    + CellAt(g, n, p, -1, -1, 0) + CellAt(g, n, p, -1, -1, -1) + CellAt(g, n, p, -1, -1, 1)
    + CellAt(g, n, p, -1, 1, 0) + CellAt(g, n, p, -1, 1, -1) + CellAt(g, n, p, -1, 1, 1)
    + CellAt(g, n, p, 1, 0, 0) + CellAt(g, n, p, 1, 0, -1) + CellAt(g, n, p, 1, 0, 1)
    + CellAt(g, n, p, 1, -1, 0) + CellAt(g, n, p, 1, -1, -1) + CellAt(g, n, p, 1, -1, 1)
    + CellAt(g, n, p, 1, 1, 0) + CellAt(g, n, p, 1, 1, -1) + CellAt(g, n, p, 1, 1, 1)
    + CellAt(g, n, p, 0, 0, -1) + CellAt(g, n, p, 0, 0, 1) + CellAt(g, n, p, 0, -1, 0)
    + CellAt(g, n, p, 0, -1, -1) + CellAt(g, n, p, 0, -1, 1) + CellAt(g, n, p, 0, 1, 0)
    + CellAt(g, n, p, 0, 1, -1) + CellAt(g, n, p, 0, 1, 1)
  }

  /** countNeighbors (index.js:162-207): the generic loop for cells with a
      coordinate equal to 0 or n - 1, the unrolled sum for all others. On a
      binary buffer (and on a boundary cell whatever the buffer holds) both
      give the live-neighbour count of the selected topology. */
  function NeighbourCount(g: seq<Byte>, n: int, wrap: bool, p: Point): (r: int)
    requires Shape(g, n) && InGrid(p, n)
    ensures IsBinary(g) || OnBoundary(p, n) ==> r == LiveNeighbours(g, n, wrap, p)
    ensures IsBinary(g) ==> 0 <= r <= 26
  {
    GenericCountIsReference(g, n, wrap, p);
    if OnBoundary(p, n) then CubeSum(g, n, wrap, p, 27)
    else
      FastIsGeneric(g, n, wrap, p);
      FastCount(g, n, p)
  }

  // ---------------------------------------------------------------------
  // The reference count: live cells among the 26 Moore neighbours
  // ---------------------------------------------------------------------

  /** q is one of the 26 cells of the 3x3x3 block around p other than p. */
  predicate Adjacent(p: Point, q: Point) {
    q != p && -1 <= q.x - p.x <= 1 && -1 <= q.y - p.y <= 1 && -1 <= q.z - p.z <= 1
  }

  function NeighbourAt(p: Point, k: int): Point
    requires 0 <= k < 26
  {
    CubeAt(p, if k < 13 then k else k + 1)
  }

  /** The Moore neighbourhood of p as a list. */
  function Neighbourhood(p: Point): seq<Point> {
    seq(26, k requires 0 <= k < 26 => NeighbourAt(p, k))
  }

  /** The list holds every neighbour of p, nothing else, and none twice. */
  lemma NeighbourhoodExact(p: Point)
    ensures |Neighbourhood(p)| == 26
    ensures forall k | 0 <= k < 26 :: Adjacent(p, Neighbourhood(p)[k])
    ensures forall q :: Adjacent(p, q) <==> q in Neighbourhood(p)
    ensures forall i, j | 0 <= i < j < 26 :: Neighbourhood(p)[i] != Neighbourhood(p)[j]
  {
    var nb := Neighbourhood(p);
    forall q | Adjacent(p, q)
      ensures q in nb
    {
      var i, j, l := q.x - p.x + 1, q.y - p.y + 1, q.z - p.z + 1;
      var k := 9 * i + 3 * j + l;
      CubeAtCounters(p, i, j, l);
      if k < 13 {
        assert nb[k] == q;
      } else {
        assert nb[k - 1] == q;
      }
    }
    forall i, j | 0 <= i < j < 26
      ensures nb[i] != nb[j]
    {
      var ki := if i < 13 then i else i + 1;
      var kj := if j < 13 then j else j + 1;
      CubeAtInjective(p, ki, kj);
    }
  }

  lemma CubeAtInjective(p: Point, k1: int, k2: int)
    requires 0 <= k1 < 27 && 0 <= k2 < 27 && k1 != k2
    ensures CubeAt(p, k1) != CubeAt(p, k2)
  {
    assert k1 == 9 * (k1 / 9) + 3 * ((k1 / 3) % 3) + k1 % 3;
    assert k2 == 9 * (k2 / 9) + 3 * ((k2 / 3) % 3) + k2 % 3;
  }

  /** Whether the cell at neighbour position q counts as a live neighbour.
      Bounded topology: positions off the lattice count as dead. Toroidal
      topology: every coordinate is reduced modulo n. */
  function LiveAt(g: seq<Byte>, n: int, wrap: bool, q: Point): (r: int)
    requires Shape(g, n)
  {
    if wrap then
      var w := Wrap(q, n);
      IndexInRange(w, n);
      if g[Index(w, n)] == 1 then 1 else 0
    else if InGrid(q, n) then
      IndexInRange(q, n);
      if g[Index(q, n)] == 1 then 1 else 0
    else
      0
  }

  function CountLive(g: seq<Byte>, n: int, wrap: bool, qs: seq<Point>): (r: int)
    requires Shape(g, n)
    ensures 0 <= r <= |qs|
  {
    if |qs| == 0 then 0
    else CountLive(g, n, wrap, qs[..|qs| - 1]) + LiveAt(g, n, wrap, qs[|qs| - 1])
  }

  /** The number of live cells among the 26 neighbours of p. */
  function LiveNeighbours(g: seq<Byte>, n: int, wrap: bool, p: Point): int
    requires Shape(g, n)
  {
    CountLive(g, n, wrap, Neighbourhood(p))
  }

  // ---------------------------------------------------------------------
  // Facts about counting over a list of positions
  // ---------------------------------------------------------------------

  /** Two readings of the list (grid and topology) that agree on every
      position give the same count. */
  lemma {:induction false} CountLiveFrame(g: seq<Byte>, h: seq<Byte>, n: int, wrapG: bool, wrapH: bool, qs: seq<Point>)
    requires Shape(g, n) && Shape(h, n)
    requires forall k | 0 <= k < |qs| :: LiveAt(g, n, wrapG, qs[k]) == LiveAt(h, n, wrapH, qs[k])
    ensures CountLive(g, n, wrapG, qs) == CountLive(h, n, wrapH, qs)
  {
    if |qs| > 0 {
      var init := qs[..|qs| - 1];
      assert forall k | 0 <= k < |init| :: init[k] == qs[k];
      CountLiveFrame(g, h, n, wrapG, wrapH, init);
    }
  }

  /** When every listed position is live, the count is the list's length. */
  lemma {:induction false} CountLiveAll(g: seq<Byte>, n: int, wrap: bool, qs: seq<Point>)
    requires Shape(g, n)
    requires forall k | 0 <= k < |qs| :: LiveAt(g, n, wrap, qs[k]) == 1
    ensures CountLive(g, n, wrap, qs) == |qs|
  {
    if |qs| > 0 {
      var init := qs[..|qs| - 1];
      assert forall k | 0 <= k < |init| :: init[k] == qs[k];
      CountLiveAll(g, n, wrap, init);
    }
  }

  /** When no listed position is live, the count is zero. */
  lemma {:induction false} CountLiveNone(g: seq<Byte>, n: int, wrap: bool, qs: seq<Point>)
    requires Shape(g, n)
    requires forall k | 0 <= k < |qs| :: LiveAt(g, n, wrap, qs[k]) == 0
    ensures CountLive(g, n, wrap, qs) == 0
  {
    if |qs| > 0 {
      var init := qs[..|qs| - 1];
      assert forall k | 0 <= k < |init| :: init[k] == qs[k];
      CountLiveNone(g, n, wrap, init);
    }
  }

  /** One position known not to be live keeps the count below the length. */
  lemma {:induction false} CountLiveMissing(g: seq<Byte>, n: int, wrap: bool, qs: seq<Point>, j: int)
    requires Shape(g, n) && 0 <= j < |qs| && LiveAt(g, n, wrap, qs[j]) == 0
    ensures CountLive(g, n, wrap, qs) <= |qs| - 1
  {
    if j < |qs| - 1 {
      var init := qs[..|qs| - 1];
      assert init[j] == qs[j];
      CountLiveMissing(g, n, wrap, init, j);
    }
  }

  // ---------------------------------------------------------------------
  // The generic loop counts the reference
  // ---------------------------------------------------------------------

  /** One visit of the generic loop agrees with the reference on a
      neighbour: `oob` is exact inside the frame and `mod` is the true
      remainder there. */
  lemma VisitIsLiveAt(g: seq<Byte>, n: int, wrap: bool, p: Point, q: Point)
    requires Shape(g, n) && InGrid(p, n) && Adjacent(p, q)
    ensures InFrame(q, n) && Visit(g, n, wrap, p, q) == LiveAt(g, n, wrap, q)
  {
    var m := Point(Mod(q.x, n), Mod(q.y, n), Mod(q.z, n));
    if wrap {
      WrapOnFrame(q, n);
    } else if InGrid(q, n) {
      assert m == q;
    }
  }

  /** The neighbour list is the visiting order with the centre left out. */
  lemma NeighbourIsVisit(p: Point, k: int)
    requires 0 <= k < 27 && k != 13
    ensures Neighbourhood(p)[if k < 13 then k else k - 1] == CubeAt(p, k)
  {
  }

  /** Counting a prefix one element longer adds that element. */
  lemma CountLivePrefix(g: seq<Byte>, n: int, wrap: bool, qs: seq<Point>, m: int)
    requires Shape(g, n) && 0 < m <= |qs|
    ensures CountLive(g, n, wrap, qs[..m]) == CountLive(g, n, wrap, qs[..m - 1]) + LiveAt(g, n, wrap, qs[m - 1])
  {
    assert qs[..m][..m - 1] == qs[..m - 1];
  }

  /** Past any position but the centre, the generic sum grows by the
      reference's value for the matching neighbour. */
  lemma CubeSumStepLive(g: seq<Byte>, n: int, wrap: bool, p: Point, k: int)
    requires Shape(g, n) && InGrid(p, n) && 0 <= k < 27 && k != 13
    ensures CubeSum(g, n, wrap, p, k + 1)
            == CubeSum(g, n, wrap, p, k) + LiveAt(g, n, wrap, Neighbourhood(p)[if k < 13 then k else k - 1])
  {
    CubeSumStep(g, n, wrap, p, k);
    NeighbourIsVisit(p, k);
    VisitIsLiveAt(g, n, wrap, p, CubeAt(p, k));
  }

  /** Passing the centre adds nothing. */
  lemma CubeSumCentre(g: seq<Byte>, n: int, wrap: bool, p: Point)
    requires Shape(g, n) && InGrid(p, n)
    ensures CubeSum(g, n, wrap, p, 14) == CubeSum(g, n, wrap, p, 13)
  {
    CubeSumStep(g, n, wrap, p, 13);
  }

  lemma {:induction false} CubeSumIsCountLive(g: seq<Byte>, n: int, wrap: bool, p: Point, k: int)
    requires Shape(g, n) && InGrid(p, n) && 0 <= k <= 27
    ensures CubeSum(g, n, wrap, p, k)
            == CountLive(g, n, wrap, Neighbourhood(p)[..if k <= 13 then k else k - 1])
  {
    if k > 0 {
      CubeSumIsCountLive(g, n, wrap, p, k - 1);
      if k == 14 {
        CubeSumCentre(g, n, wrap, p);
      } else {
        CubeSumStepLive(g, n, wrap, p, k - 1);
        CountLivePrefix(g, n, wrap, Neighbourhood(p), if k <= 13 then k else k - 1);
      }
    }
  }

  /** The generic loop, under either topology, counts exactly the live
      neighbours of the cell as the reference defines them. */
  lemma GenericCountIsReference(g: seq<Byte>, n: int, wrap: bool, p: Point)
    requires Shape(g, n) && InGrid(p, n)
    ensures CubeSum(g, n, wrap, p, 27) == LiveNeighbours(g, n, wrap, p)
  {
    CubeSumIsCountLive(g, n, wrap, p, 27);
    assert Neighbourhood(p)[..26] == Neighbourhood(p);
  }

  // ---------------------------------------------------------------------
  // The fast path agrees with the generic loop
  // ---------------------------------------------------------------------

  /** Around an interior cell every neighbour is on the lattice; on a binary
      grid its value is exactly what the generic loop adds for it. */
  lemma InteriorVisit(g: seq<Byte>, n: int, wrap: bool, p: Point, k: int)
    requires Shape(g, n) && Interior(p, n) && IsBinary(g) && 0 <= k < 27
    ensures Visit(g, n, wrap, p, CubeAt(p, k)) == InteriorTerm(g, n, p, k)
  {
    var q := CubeAt(p, k);
    IndexInRange(q, n);
    var m := Point(Mod(q.x, n), Mod(q.y, n), Mod(q.z, n));
    assert m == q;
  }

  lemma CubeSumStep(g: seq<Byte>, n: int, wrap: bool, p: Point, k: int)
    requires Shape(g, n) && InGrid(p, n) && 0 <= k < 27
    ensures CubeSum(g, n, wrap, p, k + 1) == CubeSum(g, n, wrap, p, k) + Visit(g, n, wrap, p, CubeAt(p, k))
  {
  }

  /** What the generic loop adds at visit k around an interior cell of a
      binary grid: the cell itself, except at the centre. */
  function InteriorTerm(g: seq<Byte>, n: int, p: Point, k: int): int
    requires Shape(g, n) && Interior(p, n) && 0 <= k < 27
  {
    if k == 13 then 0 else CellAt(g, n, p, k / 9 - 1, (k / 3) % 3 - 1, k % 3 - 1)
  }

  /** The unrolled sum adds the interior terms of all 27 visits. */
  lemma FastIsTermSum(g: seq<Byte>, n: int, p: Point)
    requires Shape(g, n) && Interior(p, n)
    ensures FastCount(g, n, p) == TermSum(g, n, p)
  {
  }

  function TermSum(g: seq<Byte>, n: int, p: Point): int
    requires Shape(g, n) && Interior(p, n)
  {
    InteriorTerm(g, n, p, 0) + InteriorTerm(g, n, p, 1) + InteriorTerm(g, n, p, 2) + InteriorTerm(g, n, p, 3) + InteriorTerm(g, n, p, 4) + InteriorTerm(g, n, p, 5) + InteriorTerm(g, n, p, 6) + InteriorTerm(g, n, p, 7) + InteriorTerm(g, n, p, 8) + InteriorTerm(g, n, p, 9) + InteriorTerm(g, n, p, 10) + InteriorTerm(g, n, p, 11) + InteriorTerm(g, n, p, 12) + InteriorTerm(g, n, p, 13) + InteriorTerm(g, n, p, 14) + InteriorTerm(g, n, p, 15) + InteriorTerm(g, n, p, 16) + InteriorTerm(g, n, p, 17) + InteriorTerm(g, n, p, 18) + InteriorTerm(g, n, p, 19) + InteriorTerm(g, n, p, 20) + InteriorTerm(g, n, p, 21) + InteriorTerm(g, n, p, 22) + InteriorTerm(g, n, p, 23) + InteriorTerm(g, n, p, 24) + InteriorTerm(g, n, p, 25) + InteriorTerm(g, n, p, 26)
  }

  /** A running total that grows by t[k] at step k ends at the sum of t. */
  lemma Telescope(s: seq<int>, t: seq<int>)
    requires |s| == 28 && |t| == 27 && s[0] == 0
    requires forall k | 0 <= k < 27 :: s[k + 1] == s[k] + t[k]
    ensures s[27] == t[0] + t[1] + t[2] + t[3] + t[4] + t[5] + t[6] + t[7] + t[8] + t[9] + t[10] + t[11] + t[12] + t[13] + t[14] + t[15] + t[16] + t[17] + t[18] + t[19] + t[20] + t[21] + t[22] + t[23] + t[24] + t[25] + t[26]
  {
  }

  lemma SumOfTerms(g: seq<Byte>, n: int, p: Point, t: seq<int>, x: int)
    requires Shape(g, n) && Interior(p, n) && |t| == 27
    requires forall k | 0 <= k < 27 :: t[k] == InteriorTerm(g, n, p, k)
    requires x == t[0] + t[1] + t[2] + t[3] + t[4] + t[5] + t[6] + t[7] + t[8] + t[9] + t[10] + t[11] + t[12] + t[13] + t[14] + t[15] + t[16] + t[17] + t[18] + t[19] + t[20] + t[21] + t[22] + t[23] + t[24] + t[25] + t[26]
    ensures x == TermSum(g, n, p)
  {
  }

  lemma StepTerms(g: seq<Byte>, n: int, wrap: bool, p: Point)
    requires Shape(g, n) && Interior(p, n) && IsBinary(g)
    ensures forall k | 0 <= k < 27 ::
      CubeSum(g, n, wrap, p, k + 1) == CubeSum(g, n, wrap, p, k) + InteriorTerm(g, n, p, k)
  {
    forall k | 0 <= k < 27
      ensures CubeSum(g, n, wrap, p, k + 1) == CubeSum(g, n, wrap, p, k) + InteriorTerm(g, n, p, k)
    {
      InteriorVisit(g, n, wrap, p, k);
    }
  }

  /** The running totals of the generic loop and the terms it adds. */
  lemma RunningTotals(g: seq<Byte>, n: int, wrap: bool, p: Point) returns (s: seq<int>, t: seq<int>)
    requires Shape(g, n) && Interior(p, n) && IsBinary(g)
    ensures |s| == 28 && |t| == 27 && s[0] == 0 && s[27] == CubeSum(g, n, wrap, p, 27)
    ensures forall k | 0 <= k < 27 :: t[k] == InteriorTerm(g, n, p, k)
    ensures forall k | 0 <= k < 27 :: s[k + 1] == s[k] + t[k]
  {
    StepTerms(g, n, wrap, p);
    s := seq(28, k requires 0 <= k <= 27 => CubeSum(g, n, wrap, p, k));
    t := seq(27, k requires 0 <= k < 27 => InteriorTerm(g, n, p, k));
  }

  lemma GenericIsTermSum(g: seq<Byte>, n: int, wrap: bool, p: Point)
    requires Shape(g, n) && Interior(p, n) && IsBinary(g)
    ensures CubeSum(g, n, wrap, p, 27) == TermSum(g, n, p)
  {
    var s, t := RunningTotals(g, n, wrap, p);
    Telescope(s, t);
    SumOfTerms(g, n, p, t, s[27]);
  }

  /** On a binary grid the unrolled sum of an interior cell equals the
      generic count, whichever topology `wrap` selects. */
  lemma FastIsGeneric(g: seq<Byte>, n: int, wrap: bool, p: Point)
    requires Shape(g, n) && Interior(p, n)
    ensures IsBinary(g) ==> FastCount(g, n, p) == CubeSum(g, n, wrap, p, 27)
  {
    if IsBinary(g) {
      FastIsTermSum(g, n, p);
      GenericIsTermSum(g, n, wrap, p);
    }
  }

  // ---------------------------------------------------------------------
  // countNeighbors as the source runs it
  // ---------------------------------------------------------------------

  /** The body of the innermost loop (index.js:169-173): 1 when the position
      is not the centre, is not skipped by `oob` in the bounded topology,
      and holds a 1 at its `mod`-reduced index; otherwise 0. */
  method VisitCell(g: seq<Byte>, n: int, wrap: bool, p: Point, x: int, y: int, z: int, ghost k: int)
    returns (live: int)
    requires Shape(g, n) && InGrid(p, n)
    requires -1 <= x - p.x <= 1 && -1 <= y - p.y <= 1 && -1 <= z - p.z <= 1
    requires k == 9 * (x - p.x + 1) + 3 * (y - p.y + 1) + (z - p.z + 1)
    ensures 0 <= k < 27 && live == Visits(g, n, wrap, p)[k]
    ensures Adjacent(p, Point(x, y, z)) ==> live == LiveAt(g, n, wrap, Point(x, y, z))
  {
    VisitPosition(p, x, y, z, k);
    var q := Point(x, y, z);
    live := 0;
    if q != p && (wrap || !Oob(q, n)) {
      var m := Point(Mod(x, n), Mod(y, n), Mod(z, n));
      IndexInRange(m, n);
      if g[Index(m, n)] == 1 {
        live := 1;
      }
    }
    if Adjacent(p, q) {
      VisitIsLiveAt(g, n, wrap, p, q);
    }
  }

  /** The generic branch of countNeighbors (index.js:165-176): three nested
      loops over the 3x3x3 block, skipping the centre, and in the bounded
      topology every position `oob` reports; every other position is read
      through `mod`. */
  method GenericLoop(g: seq<Byte>, n: int, wrap: bool, p: Point) returns (count: int)
    requires Shape(g, n) && InGrid(p, n)
    ensures count == CubeSum(g, n, wrap, p, 27)
    ensures count == LiveNeighbours(g, n, wrap, p)
  {
    ghost var vs := Visits(g, n, wrap, p);
    count := 0;
    ghost var k := 0;  // number of positions visited so far
    for x := p.x - 1 to p.x + 2
      invariant k == 9 * (x - p.x + 1)
      invariant count == PrefixSum(vs, k)
    {
      count := VisitPlane(g, n, wrap, p, x, count, k, vs);
      k := k + 9;
    }
    VisitsSum(g, n, wrap, p, 27);
    GenericCountIsReference(g, n, wrap, p);
  }

  /** What each of the 27 positions contributes, in visiting order. */
  function Visits(g: seq<Byte>, n: int, wrap: bool, p: Point): (vs: seq<int>)
    requires Shape(g, n) && InGrid(p, n)
    ensures |vs| == 27
  {
    seq(27, i requires 0 <= i < 27 => Visit(g, n, wrap, p, CubeAt(p, i)))
  }

  function PrefixSum(vs: seq<int>, k: int): int
    requires 0 <= k <= |vs|
  {
    if k == 0 then 0 else PrefixSum(vs, k - 1) + vs[k - 1]
  }

  lemma {:induction false} VisitsSum(g: seq<Byte>, n: int, wrap: bool, p: Point, k: int)
    requires Shape(g, n) && InGrid(p, n) && 0 <= k <= 27
    ensures PrefixSum(Visits(g, n, wrap, p), k) == CubeSum(g, n, wrap, p, k)
  {
    if k > 0 {
      VisitsSum(g, n, wrap, p, k - 1);
    }
  }

  /** The middle loop (index.js:167-175) for one x: the nine positions of
      that plane, continuing the count from position k. */
  method VisitPlane(g: seq<Byte>, n: int, wrap: bool, p: Point, x: int, count0: int, ghost k: int, ghost vs: seq<int>)
    returns (count: int)
    requires Shape(g, n) && InGrid(p, n) && -1 <= x - p.x <= 1 && vs == Visits(g, n, wrap, p)
    requires k == 9 * (x - p.x + 1) && count0 == PrefixSum(vs, k)
    ensures count == PrefixSum(vs, k + 9)
  {
    count := count0;
    ghost var j := k;
    for y := p.y - 1 to p.y + 2
      invariant j == k + 3 * (y - p.y + 1)
      invariant count == PrefixSum(vs, j)
    {
      count := VisitLine(g, n, wrap, p, x, y, count, j, vs);
      j := j + 3;
    }
  }

  /** The innermost loop (index.js:168-174) for one x and y: the three
      positions of that line, continuing the count from position k. */
  method VisitLine(g: seq<Byte>, n: int, wrap: bool, p: Point, x: int, y: int, count0: int, ghost k: int, ghost vs: seq<int>)
    returns (count: int)
    requires Shape(g, n) && InGrid(p, n) && -1 <= x - p.x <= 1 && -1 <= y - p.y <= 1 && vs == Visits(g, n, wrap, p)
    requires k == 9 * (x - p.x + 1) + 3 * (y - p.y + 1) && count0 == PrefixSum(vs, k)
    ensures count == PrefixSum(vs, k + 3)
  {
    count := count0;
    ghost var j := k;
    for z := p.z - 1 to p.z + 2
      invariant j == k + (z - p.z + 1)
      invariant count == PrefixSum(vs, j)
    {
      var live := VisitCell(g, n, wrap, p, x, y, z, j);
      count := count + live;
      j := j + 1;
    }
  }

  /** countNeighbors (index.js:162-207): the loops for a cell with a
      coordinate equal to 0 or n - 1, the unrolled sum for any other. */
  method CountNeighbors(g: seq<Byte>, n: int, wrap: bool, p: Point) returns (count: int)
    requires Shape(g, n) && InGrid(p, n)
    ensures count == NeighbourCount(g, n, wrap, p)
    ensures IsBinary(g) || OnBoundary(p, n) ==> count == LiveNeighbours(g, n, wrap, p)
    ensures IsBinary(g) ==> 0 <= count <= 26
  {
    if OnBoundary(p, n) {
      count := GenericLoop(g, n, wrap, p);
    } else {
      count := FastCount(g, n, p);
    }
  }

  // ---------------------------------------------------------------------
  // Main properties of countNeighbors
  // ---------------------------------------------------------------------

  /** For an interior cell the two topologies agree: every neighbour is on
      the lattice, so wrapping changes nothing. */
  lemma InteriorIgnoresWrap(g: seq<Byte>, n: int, p: Point)
    requires Shape(g, n) && Interior(p, n)
    ensures LiveNeighbours(g, n, true, p) == LiveNeighbours(g, n, false, p)
  {
    var nb := Neighbourhood(p);
    NeighbourhoodExact(p);
    forall k | 0 <= k < |nb|
      ensures LiveAt(g, n, true, nb[k]) == LiveAt(g, n, false, nb[k])
    {
      assert InGrid(nb[k], n);
    }
    CountLiveFrame(g, g, n, true, false, nb);
  }

  /** In the bounded topology a boundary cell has a neighbour off the
      lattice, so its count stays below 26. */
  lemma BoundaryBoundedBelowFull(g: seq<Byte>, n: int, p: Point)
    requires Shape(g, n) && InGrid(p, n) && OnBoundary(p, n)
    ensures LiveNeighbours(g, n, false, p) <= 25
  {
    var q :=
      if p.x == 0 then Point(-1, p.y, p.z)
      else if p.y == 0 then Point(p.x, -1, p.z)
      else if p.z == 0 then Point(p.x, p.y, -1)
      else if p.x == n - 1 then Point(n, p.y, p.z)
      else if p.y == n - 1 then Point(p.x, n, p.z)
      else Point(p.x, p.y, n);
    NeighbourhoodExact(p);
    var nb := Neighbourhood(p);
    assert Adjacent(p, q);
    var j :| 0 <= j < |nb| && nb[j] == q;
    CountLiveMissing(g, n, false, nb, j);
  }

  /** With every cell alive, a cell sees all 26 neighbours in the toroidal
      topology wherever it lies, and in the bounded one when it is interior. */
  lemma FullGridFullCount(g: seq<Byte>, n: int, p: Point)
    requires Shape(g, n) && InGrid(p, n)
    requires forall i | 0 <= i < |g| :: g[i] == 1
    ensures LiveNeighbours(g, n, true, p) == 26
    ensures Interior(p, n) ==> LiveNeighbours(g, n, false, p) == 26
  {
    var nb := Neighbourhood(p);
    NeighbourhoodExact(p);
    forall k | 0 <= k < |nb|
      ensures LiveAt(g, n, true, nb[k]) == 1
    {
      IndexInRange(Wrap(nb[k], n), n);
    }
    CountLiveAll(g, n, true, nb);
    if Interior(p, n) {
      forall k | 0 <= k < |nb|
        ensures LiveAt(g, n, false, nb[k]) == 1
      {
        assert InGrid(nb[k], n);
        IndexInRange(nb[k], n);
      }
      CountLiveAll(g, n, false, nb);
    }
  }

  /** On an all-dead grid every count is zero, under both topologies. */
  lemma EmptyGridNoNeighbours(g: seq<Byte>, n: int, wrap: bool, p: Point)
    requires Shape(g, n) && InGrid(p, n)
    requires forall i | 0 <= i < |g| :: g[i] == 0
    ensures NeighbourCount(g, n, wrap, p) == 0
  {
    var nb := Neighbourhood(p);
    forall k | 0 <= k < |nb|
      ensures LiveAt(g, n, wrap, nb[k]) == 0
    {
      IndexInRange(Wrap(nb[k], n), n);
      if InGrid(nb[k], n) {
        IndexInRange(nb[k], n);
      }
    }
    CountLiveNone(g, n, wrap, nb);
    assert IsBinary(g);
  }

  /** With n >= 3 no neighbour wraps back onto the cell itself. */
  lemma WrapAvoidsCentre(p: Point, q: Point, n: int)
    requires n >= 3 && InGrid(p, n) && Adjacent(p, q)
    ensures Wrap(q, n) != p
  {
    WrapOnFrame(q, n);
  }

  /** The cell's own state never enters its count (the `continue` on the
      centre at index.js:169): two buffers that differ at most at p give p
      the same number of live neighbours. */
  lemma CentreIgnored(g: seq<Byte>, h: seq<Byte>, n: int, wrap: bool, p: Point)
    requires Shape(g, n) && Shape(h, n) && InGrid(p, n)
    requires forall i | 0 <= i < |g| && i != Index(p, n) :: g[i] == h[i]
    ensures LiveNeighbours(g, n, wrap, p) == LiveNeighbours(h, n, wrap, p)
  {
    var qs := Neighbourhood(p);
    NeighbourhoodExact(p);
    forall k | 0 <= k < |qs|
      ensures LiveAt(g, n, wrap, qs[k]) == LiveAt(h, n, wrap, qs[k])
    {
      var q := qs[k];
      if wrap {
        var w := Wrap(q, n);
        WrapAvoidsCentre(p, q, n);
        IndexInRange(w, n);
        if Index(w, n) == Index(p, n) {
          IndexInjective(w, p, n);
        }
      } else if InGrid(q, n) {
        IndexInRange(q, n);
        if Index(q, n) == Index(p, n) {
          IndexInjective(q, p, n);
        }
      }
    }
    CountLiveFrame(g, h, n, wrap, wrap, qs);
  }
}
