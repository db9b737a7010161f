/** The lattice of the 3D Game of Life: a cube of side n stored as one flat
    buffer of n^3 byte cells, where the cell at (x, y, z) lives at the linear
    index x + y*n + z*n^2. This module holds the index arithmetic and the two
    coordinate helpers, `mod` and `oob`, that the neighbour count relies on.
 */
module Lattice {

  /** The side length the application fixes (index.js:29). Every definition
      below takes the side as a parameter n instead. */
  const GridSize: int := 32

  /** A cell of a Uint8Array buffer. The engine only ever writes 0 (dead) and
      1 (alive), but the buffer type admits any byte; `IsBinary` is the
      invariant that keeps cells in {0, 1}. */
  type Byte = b: int | 0 <= b < 256

  datatype Point = Point(x: int, y: int, z: int)

  /** Number of cells of a lattice of side n. */
  function Volume(n: int): int {
    n * n * n
  }

  /** A buffer fits a lattice of side n, and n is large enough that the 26
      neighbours of a cell are distinct even under wrapping. */
  predicate Shape(g: seq<Byte>, n: int) {
    n >= 3 && |g| == Volume(n)
  }

  predicate InGrid(p: Point, n: int) {
    0 <= p.x < n && 0 <= p.y < n && 0 <= p.z < n
  }

  /** Every coordinate lies in [-1, n]: the positions a neighbour of an
      in-grid cell can take. */
  predicate InFrame(p: Point, n: int) {
    -1 <= p.x <= n && -1 <= p.y <= n && -1 <= p.z <= n
  }

  predicate IsBinary(g: seq<Byte>) {
    forall i | 0 <= i < |g| :: g[i] == 0 || g[i] == 1
  }

  /** The linear index of a point (index.js:171, 180-205, 337). */
  function Index(p: Point, n: int): int {
    p.x + p.y * n + p.z * (n * n)
  }

  /** Division with remainder determines quotient and remainder. */
  lemma DivModUnique(i: int, n: int, q: int, r: int)
    requires n > 0 && 0 <= r < n && i == n * q + r
    ensures i / n == q && i % n == r
  {
    var q', r' := i / n, i % n;
    assert n * q' + r' == n * q + r;
    MulSub(n, q, q');
    if q > q' {
      MulAtLeast(n, q - q');
    } else if q < q' {
      MulAtLeast(n, q' - q);
      MulSub(n, q', q);
    }
  }

  lemma MulSub(n: int, a: int, b: int)
    ensures n * (a - b) == n * a - n * b
  {
  }

  lemma MulAtLeast(n: int, k: int)
    requires n > 0 && k >= 1
    ensures n * k >= n
  {
    assert n * k == n + n * (k - 1);
  }

  lemma MulMono(n: int, a: int, b: int)
    requires n > 0 && a <= b
    ensures n * a <= n * b
  {
    MulSub(n, b, a);
    assert n * (b - a) >= 0;
  }

  /** A quotient of a number below n * m lies below m. */
  lemma DivBelow(i: int, n: int, m: int)
    requires n > 0 && 0 <= i < n * m
    ensures 0 <= i / n < m
  {
    var q := i / n;
    assert i == n * q + i % n;
    if q >= m {
      MulMono(n, m, q);
    }
    if q < 0 {
      MulMono(n, q, -1);
    }
  }

  /** The three divisions of the decomposition are exact and produce the
      coordinates of i. */
  lemma DecomposeFacts(i: int, n: int, x: int, y: int, z: int)
    requires n > 0 && 0 <= i < Volume(n)
    requires x == i % n && y == ((i - x) / n) % n && z == (i - y * n - x) / (n * n)
    ensures (i - x) % n == 0 && (i - y * n - x) % (n * n) == 0
    ensures 0 <= x < n && 0 <= y < n && 0 <= z < n
    ensures x + y * n + z * (n * n) == i
  {
    var q := i / n;
    var w := q / n;
    assert (i - x) % n == 0 && y == q % n by {
      DivExact(i, n);
    }
    assert 0 <= w < n by {
      DecomposeBounds(i, n);
    }
    assert i - y * n - x == (n * n) * w && x + y * n + w * (n * n) == i by {
      DivMod(i, n);
      DivMod(q, n);
      Recompose(i, n, q, w, x, y);
    }
    assert z == w && (i - y * n - x) % (n * n) == 0 by {
      DivModUnique(i - y * n - x, n * n, w, 0);
    }
  }

  lemma DivMod(i: int, n: int)
    requires n > 0
    ensures i == n * (i / n) + i % n && 0 <= i % n < n
  {
  }

  /** Taking off the remainder leaves a multiple of n. */
  lemma DivExact(i: int, n: int)
    requires n > 0
    ensures (i - i % n) / n == i / n && (i - i % n) % n == 0
  {
    DivModUnique(i - i % n, n, i / n, 0);
  }

  lemma DecomposeBounds(i: int, n: int)
    requires n > 0 && 0 <= i < Volume(n)
    ensures 0 <= (i / n) / n < n
  {
    assert Volume(n) == n * (n * n);
    DivBelow(i, n, n * n);
    DivBelow(i / n, n, n);
  }

  lemma Recompose(i: int, n: int, q: int, w: int, x: int, y: int)
    requires n > 0 && i == n * q + x && q == n * w + y
    ensures i - y * n - x == (n * n) * w
    ensures x + y * n + w * (n * n) == i
  {
    MulSub(n, q, y);
    assert n * (n * w) == (n * n) * w;
  }

  /** The decomposition of index.js:241-243 (the same arithmetic places the
      sprites at index.js:129-131). JavaScript's `/` divides exactly, so the
      contract first shows both divisions leave no remainder: integer
      division then computes what the source computes. */
  function Decompose(i: int, n: int): (p: Point)
    requires n > 0 && 0 <= i < Volume(n)
    ensures (i - p.x) % n == 0 && (i - p.y * n - p.x) % (n * n) == 0
    ensures InGrid(p, n) && Index(p, n) == i
  {
    var x := i % n;
    var y := ((i - x) / n) % n;
    var z := (i - y * n - x) / (n * n);
    DecomposeFacts(i, n, x, y, z);
    Point(x, y, z)
  }

  /** Every in-grid point has an index inside the buffer. */
  lemma IndexInRange(p: Point, n: int)
    requires n > 0 && InGrid(p, n)
    ensures 0 <= Index(p, n) < Volume(n)
  {
    MulMono(n, p.y, n - 1);
    MulMono(n * n, p.z, n - 1);
    assert p.y * n <= n * n - n;
    assert p.z * (n * n) <= (n * n) * (n - 1);
    assert (n * n) * (n - 1) == Volume(n) - n * n;
    assert 0 <= p.y * n && 0 <= p.z * (n * n);
  }

  /** Composing and decomposing are inverse: an in-grid point maps into the
      buffer and back to itself. */
  lemma DecomposeIndex(p: Point, n: int)
    requires n > 0 && InGrid(p, n)
    ensures 0 <= Index(p, n) < Volume(n)
    ensures Decompose(Index(p, n), n) == p
  {
    IndexInRange(p, n);
    var i := Index(p, n);
    var q := p.y + n * p.z;
    assert i == n * q + p.x by {
      IndexSplit(p, n, q);
    }
    var d := Decompose(i, n);
    assert d.x == p.x by {
      DivModUnique(i, n, q, p.x);
    }
    assert d.y == p.y by {
      DivModUnique(i - p.x, n, q, 0);
      DivModUnique(q, n, p.z, p.y);
    }
    assert d.z == p.z by {
      assert d.z * (n * n) == p.z * (n * n);
      CancelMul(n * n, d.z, p.z);
    }
  }

  /** The index is n times the index within the (y, z) plane, plus x. */
  lemma IndexSplit(p: Point, n: int, q: int)
    requires q == p.y + n * p.z
    ensures Index(p, n) == n * q + p.x
  {
    assert n * q == n * p.y + n * (n * p.z);
  }

  lemma CancelMul(m: int, a: int, b: int)
    requires m > 0 && a * m == b * m
    ensures a == b
  {
    if a < b {
      assert m * (a + 1) == m * a + m;
      MulMono(m, a + 1, b);
    } else if b < a {
      assert m * (b + 1) == m * b + m;
      MulMono(m, b + 1, a);
    }
  }

  /** Two in-grid points with the same index are the same point. */
  lemma IndexInjective(p: Point, q: Point, n: int)
    requires n > 0 && InGrid(p, n) && InGrid(q, n) && Index(p, n) == Index(q, n)
    ensures p == q
  {
    DecomposeIndex(p, n);
    DecomposeIndex(q, n);
  }

  /** `mod` of index.js:152-155: a wrap for coordinates in [-1, n]. Further
      below -n it returns a negative number. */
  function Mod(v: int, s: int): (r: int)
    requires s > 0
    ensures -1 <= v <= s ==> 0 <= r < s
    ensures 0 <= v < s ==> r == v
    ensures v == -1 ==> r == s - 1
    ensures v == s ==> r == 0
    ensures v < -s ==> r < 0
  {
    if v < 0 then s + v else if v < s then v else v % s
  }

  /** From -s upwards `mod` is the mathematical (Euclidean) remainder. */
  lemma ModIsRemainder(v: int, s: int)
    requires s > 0 && -s <= v
    ensures Mod(v, s) == v % s
  {
    if v < 0 {
      DivModUnique(v, s, -1, s + v);
    } else if v < s {
      DivModUnique(v, s, 0, v);
    }
  }

  /** `oob` of index.js:157-160: true when some coordinate equals -1 or n.
      Within the frame [-1, n] that is exactly "not on the lattice"; outside
      the frame it misses points such as (n + 1, 0, 0). */
  function Oob(p: Point, n: int): (r: bool)
    ensures InFrame(p, n) ==> (r <==> !InGrid(p, n))
    ensures r ==> !InGrid(p, n)
  {
    p.x == n || p.y == n || p.z == n || p.x == -1 || p.y == -1 || p.z == -1
  }

  /** Toroidal reduction of a point onto the lattice. */
  function Wrap(p: Point, n: int): (r: Point)
    requires n > 0
    ensures InGrid(r, n)
    ensures InGrid(p, n) ==> r == p
  {
    RemainderOfSmall(p.x, n);
    RemainderOfSmall(p.y, n);
    RemainderOfSmall(p.z, n);
    Point(p.x % n, p.y % n, p.z % n)
  }

  lemma RemainderOfSmall(v: int, n: int)
    requires n > 0
    ensures 0 <= v < n ==> v % n == v
  {
    if 0 <= v < n {
      DivModUnique(v, n, 0, v);
    }
  }

  /** Where the generic loop reads (index.js:171), `mod` applied to each
      coordinate is the toroidal reduction: every neighbour of an in-grid
      cell lies in the frame [-1, n]. */
  lemma WrapOnFrame(p: Point, n: int)
    requires n > 0 && InFrame(p, n)
    ensures Wrap(p, n) == Point(Mod(p.x, n), Mod(p.y, n), Mod(p.z, n))
  {
    ModIsRemainder(p.x, n);
    ModIsRemainder(p.y, n);
    ModIsRemainder(p.z, n);
  }
}
