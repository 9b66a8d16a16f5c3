/**
 The occupancy grid: cells stored row by row from the top of the image, placed in the world by an
 origin, a resolution and a rotation. Coordinates are reals; a rotation is a unit pair of cosine
 and sine; distances are compared through their squares.
 */
module OccupancyGrid {
  import opened Options

  datatype CellState = Free | Occupied | Unknown
  datatype Cell = Cell(row: int, column: int)
  datatype Point = Point(x: real, y: real)

  const SLACK: real := 0.000000000001

  function Sq(x: real): real {
    x * x
  }

  function DistSq(p: Point, q: Point): real {
    Sq(p.x - q.x) + Sq(p.y - q.y)
  }

  /** The distance with square `dd` is at most `r`. */
  predicate Within(dd: real, r: real) {
    r >= 0.0 && dd <= Sq(r)
  }

  /** The length of a vector with the given coordinates. */
  type Hypot = (real, real) -> real

  ghost predicate IsHypot(hypot: Hypot) {
    forall x, y {:trigger hypot(x, y)} :: hypot(x, y) >= 0.0 && Sq(hypot(x, y)) == Sq(x) + Sq(y)
  }

  function Ceil(x: real): int {
    -((-x).Floor)
  }

  lemma CeilBounds(x: real)
    ensures x <= Ceil(x) as real < x + 1.0
  {
  }

  datatype OccupancyMap = OccupancyMap(
    width: int, height: int, resolution: real, origin: Point, cosine: real, sine: real, rows: seq<seq<CellState>>)
  {
    ghost predicate Valid() {
      && width > 0 && height > 0 && resolution > 0.0
      && Sq(cosine) + Sq(sine) == 1.0
      && |rows| == height && forall r :: 0 <= r < height ==> |rows[r]| == width
    }

    predicate InBounds(c: Cell) {
      0 <= c.row < height && 0 <= c.column < width
    }

    function State(c: Cell): CellState
      requires Valid() && InBounds(c)
    {
      rows[c.row][c.column]
    }

    function ToWorld(local: Point): Point {
      Point(origin.x + cosine * local.x - sine * local.y, origin.y + sine * local.x + cosine * local.y)
    }

    function ToLocal(world: Point): Point {
      var dx, dy := world.x - origin.x, world.y - origin.y;
      Point(cosine * dx + sine * dy, -sine * dx + cosine * dy)
    }

    function LocalCenter(c: Cell): Point {
      Point((c.column as real + 0.5) * resolution, ((height - c.row) as real - 0.5) * resolution)
    }

    function CellCenter(c: Cell): Point {
      ToWorld(LocalCenter(c))
    }

    /** The cell indices under a local point, whether or not they are inside the map. */
    function LocalCell(local: Point): Cell
      requires resolution > 0.0
    {
      Cell(height - 1 - (local.y / resolution).Floor, (local.x / resolution).Floor)
    }

    function WorldToCell(world: Point): Option<Cell>
      requires resolution > 0.0
    {
      var c := LocalCell(ToLocal(world));
      if InBounds(c) then Some(c) else None
    }

    /** A point outside the map counts as unknown. */
    function StateAt(world: Point): CellState
      requires Valid()
    {
      match WorldToCell(world)
      case None => Unknown
      case Some(c) => State(c)
    }
  }

  // ----- Rotations -----

  lemma UnrotateIsInverse(c: real, s: real, x: real, y: real)
    requires Sq(c) + Sq(s) == 1.0
    ensures c * (c * x - s * y) + s * (s * x + c * y) == x
    ensures -s * (c * x - s * y) + c * (s * x + c * y) == y
  {
    calc {
      c * (c * x - s * y) + s * (s * x + c * y);
      (c * c + s * s) * x;
      x;
    }
    calc {
      -s * (c * x - s * y) + c * (s * x + c * y);
      (c * c + s * s) * y;
      y;
    }
  }

  lemma RotationKeepsNorm(c: real, s: real, x: real, y: real)
    requires Sq(c) + Sq(s) == 1.0
    ensures Sq(c * x + s * y) + Sq(-s * x + c * y) == Sq(x) + Sq(y)
  {
    calc {
      Sq(c * x + s * y) + Sq(-s * x + c * y);
      (c * c + s * s) * (x * x) + (c * c + s * s) * (y * y);
      Sq(x) + Sq(y);
    }
  }

  /** The map's own axes in the world: to its right along (cosine, sine), upwards a quarter turn to the left of that. */
  lemma MapAxes(m: OccupancyMap, x: real, y: real)
    ensures m.ToWorld(Point(x, 0.0)) == Point(m.origin.x + x * m.cosine, m.origin.y + x * m.sine)
    ensures m.ToWorld(Point(0.0, y)) == Point(m.origin.x - y * m.sine, m.origin.y + y * m.cosine)
    ensures m.ToWorld(Point(x, y)).x - m.origin.x ==
            (m.ToWorld(Point(x, 0.0)).x - m.origin.x) + (m.ToWorld(Point(0.0, y)).x - m.origin.x)
    ensures m.ToWorld(Point(x, y)).y - m.origin.y ==
            (m.ToWorld(Point(x, 0.0)).y - m.origin.y) + (m.ToWorld(Point(0.0, y)).y - m.origin.y)
  {
  }

  lemma LocalOfWorld(m: OccupancyMap, local: Point)
    requires m.Valid()
    ensures m.ToLocal(m.ToWorld(local)) == local
  {
    UnrotateIsInverse(m.cosine, m.sine, local.x, local.y);
  }

  lemma RotatedDifference(c: real, s: real, x0: real, y0: real, x1: real, y1: real)
    ensures (c * x0 + s * y0) - (c * x1 + s * y1) == c * (x0 - x1) + s * (y0 - y1)
    ensures (-s * x0 + c * y0) - (-s * x1 + c * y1) == -s * (x0 - x1) + c * (y0 - y1)
  {
  }

  /** Distances do not depend on which frame they are measured in, whatever the yaw. */
  lemma LocalKeepsDistance(m: OccupancyMap, p: Point, q: Point)
    requires m.Valid()
    ensures DistSq(m.ToLocal(p), m.ToLocal(q)) == DistSq(p, q)
  {
    var c, s, dx, dy := m.cosine, m.sine, p.x - q.x, p.y - q.y;
    RotatedDifference(c, s, p.x - m.origin.x, p.y - m.origin.y, q.x - m.origin.x, q.y - m.origin.y);
    assert (p.x - m.origin.x) - (q.x - m.origin.x) == dx && (p.y - m.origin.y) - (q.y - m.origin.y) == dy;
    assert m.ToLocal(p).x - m.ToLocal(q).x == c * dx + s * dy;
    assert m.ToLocal(p).y - m.ToLocal(q).y == -s * dx + c * dy;
    RotationKeepsNorm(c, s, dx, dy);
  }

  // ----- Cell centres -----

  lemma FloorOfQuotient(x: real, k: int, f: real, r: real)
    requires r > 0.0 && 0.0 <= f < 1.0 && x == (k as real + f) * r
    ensures (x / r).Floor == k
  {
    assert x / r == k as real + f;
  }

  lemma LocalCenterFallsBack(m: OccupancyMap, c: Cell)
    requires m.resolution > 0.0
    ensures m.LocalCell(m.LocalCenter(c)) == c
  {
    CenterHeight(m, c);
    FloorOfQuotient(m.LocalCenter(c).x, c.column, 0.5, m.resolution);
    FloorOfQuotient(m.LocalCenter(c).y, m.height - 1 - c.row, 0.5, m.resolution);
  }

  lemma CenterHeight(m: OccupancyMap, c: Cell)
    ensures m.LocalCenter(c).y == ((m.height - 1 - c.row) as real + 0.5) * m.resolution
  {
    assert (m.height - c.row) as real - 0.5 == (m.height - 1 - c.row) as real + 0.5;
  }

  /** A cell's centre falls back into that cell, under any yaw. */
  lemma CenterRoundTrip(m: OccupancyMap, c: Cell)
    requires m.Valid() && m.InBounds(c)
    ensures m.WorldToCell(m.CellCenter(c)) == Some(c)
  {
    LocalOfWorld(m, m.LocalCenter(c));
    LocalCenterFallsBack(m, c);
  }

  // ----- Matching an obstacle near a world point -----

  function SearchRadius(m: OccupancyMap, tolerance: real): int
    requires m.resolution > 0.0
  {
    var needed := Ceil(tolerance / m.resolution);
    if needed > 1 then needed else 1
  }

  /** Half a cell diagonal on top of the tolerance; `h` stands for one over the square root of two. */
  function CenterTolerance(m: OccupancyMap, tolerance: real, h: real): real {
    tolerance + m.resolution * h + SLACK
  }

  predicate OccupiedCloseTo(m: OccupancyMap, world: Point, reach: real, c: Cell)
    requires m.Valid()
  {
    m.InBounds(c) && m.State(c) == Occupied && Within(DistSq(m.CellCenter(c), world), reach)
  }

  /** What the bounded search looks for around the cell of the point. */
  ghost predicate MatchedInWindow(m: OccupancyMap, world: Point, tolerance: real, h: real, row: int, column: int)
    requires m.Valid()
  {
    && m.WorldToCell(world).Some?
    && InWindow(m.WorldToCell(world).value, SearchRadius(m, tolerance), Cell(row, column))
    && OccupiedCloseTo(m, world, CenterTolerance(m, tolerance, h), Cell(row, column))
  }

  predicate InWindow(centre: Cell, radius: int, c: Cell) {
    -radius <= c.row - centre.row <= radius && -radius <= c.column - centre.column <= radius
  }

  ghost predicate Matched(m: OccupancyMap, world: Point, tolerance: real, h: real)
    requires m.Valid()
  {
    exists row, column :: MatchedInWindow(m, world, tolerance, h, row, column)
  }

  method OccupiedNear(m: OccupancyMap, world: Point, tolerance: real, h: real) returns (found: bool)
    requires m.Valid()
    ensures found == Matched(m, world, tolerance, h)
  {
    var located := m.WorldToCell(world);
    if located.None? {
      return false;
    }
    var centre, radius := located.value, SearchRadius(m, tolerance);
    for row := centre.row - radius to centre.row + radius + 1
      invariant forall r, c :: r < row ==> !MatchedInWindow(m, world, tolerance, h, r, c)
    {
      for column := centre.column - radius to centre.column + radius + 1
        invariant forall r, c :: r < row || (r == row && c < column) ==>
                    !MatchedInWindow(m, world, tolerance, h, r, c)
      {
        if OccupiedCloseTo(m, world, CenterTolerance(m, tolerance, h), Cell(row, column)) {
          assert MatchedInWindow(m, world, tolerance, h, row, column);
          return true;
        }
      }
    }
    return false;
  }

  /** A coordinate no further than `d` from a cell's midline is at most `ceil(d / r)` cells away. */
  lemma WindowReaches(k: int, f: real, n: int, r: real, d: real)
    requires r > 0.0 && d >= 0.0 && 0.0 <= f < 1.0
    requires -d <= (n as real + 0.5) * r - (k as real + f) * r <= d
    ensures -Ceil(d / r) <= n - k <= Ceil(d / r)
  {
    var gap := (n - k) as real + 0.5 - f;
    assert (n as real + 0.5) * r - (k as real + f) * r == gap * r;
    QuotientBound(gap, r, d);
    CeilBounds(d / r);
  }

  lemma QuotientBound(x: real, r: real, d: real)
    requires r > 0.0 && -d <= x * r <= d
    ensures -(d / r) <= x <= d / r
  {
    var q := d / r;
    assert q * r == d;
    assert (x - q) * r <= 0.0 && (x + q) * r >= 0.0;
  }

  lemma SquareBound(x: real, y: real, d: real)
    requires d >= 0.0 && Sq(x) + Sq(y) <= Sq(d)
    ensures -d <= x <= d
  {
    assert y * y >= 0.0;
    if x > d {
      SquareAbove(x, d);
    } else if -x > d {
      SquareAbove(-x, d);
    }
  }

  lemma SquareAbove(x: real, d: real)
    requires x > d >= 0.0
    ensures x * x > d * d
  {
    var e := x - d;
    assert x * x == d * d + d * e + d * e + e * e;
    assert d * e >= 0.0 && e * e > 0.0;
  }

  function Fraction(x: real): real {
    x - x.Floor as real
  }

  lemma SplitQuotient(x: real, r: real)
    requires r > 0.0
    ensures x == ((x / r).Floor as real + Fraction(x / r)) * r && 0.0 <= Fraction(x / r) < 1.0
  {
  }

  /** In local coordinates, a centre within the tolerance is inside the search window. */
  lemma LocalWindow(m: OccupancyMap, q: Point, tolerance: real, c: Cell)
    requires m.resolution > 0.0 && Within(DistSq(m.LocalCenter(c), q), tolerance)
    ensures InWindow(m.LocalCell(q), SearchRadius(m, tolerance), c)
  {
    var p, r := m.LocalCenter(c), m.resolution;
    BothAxes(p, q, tolerance);
    AxisWindow(q.x, r, c.column, tolerance);
    CenterHeight(m, c);
    AxisWindow(q.y, r, m.height - 1 - c.row, tolerance);
    WindowOfAxes(m, q, tolerance, c);
  }

  lemma BothAxes(p: Point, q: Point, d: real)
    requires Within(DistSq(p, q), d)
    ensures -d <= p.x - q.x <= d && -d <= p.y - q.y <= d
  {
    SquareBound(p.x - q.x, p.y - q.y, d);
    SquareBound(p.y - q.y, p.x - q.x, d);
  }

  lemma WindowOfAxes(m: OccupancyMap, q: Point, tolerance: real, c: Cell)
    requires m.resolution > 0.0
    requires var n := Ceil(tolerance / m.resolution);
             && -n <= c.column - (q.x / m.resolution).Floor <= n
             && -n <= m.height - 1 - c.row - (q.y / m.resolution).Floor <= n
    ensures InWindow(m.LocalCell(q), SearchRadius(m, tolerance), c)
  {
  }

  lemma AxisWindow(x: real, r: real, n: int, d: real)
    requires r > 0.0 && d >= 0.0 && -d <= (n as real + 0.5) * r - x <= d
    ensures -Ceil(d / r) <= n - (x / r).Floor <= Ceil(d / r)
  {
    SplitQuotient(x, r);
    WindowReaches((x / r).Floor, Fraction(x / r), n, r, d);
  }

  /** Every centre within the tolerance is inside the search window, under any yaw. */
  lemma WindowNeverMisses(m: OccupancyMap, world: Point, tolerance: real, c: Cell)
    requires m.Valid() && Within(DistSq(m.CellCenter(c), world), tolerance)
    ensures InWindow(m.LocalCell(m.ToLocal(world)), SearchRadius(m, tolerance), c)
  {
    LocalKeepsDistance(m, m.CellCenter(c), world);
    LocalOfWorld(m, m.LocalCenter(c));
    LocalWindow(m, m.ToLocal(world), tolerance, c);
  }

  /** For a point inside the map, an occupied centre within the tolerance is always matched. */
  lemma MatcherIsComplete(m: OccupancyMap, world: Point, tolerance: real, h: real, c: Cell)
    requires m.Valid() && h > 0.0 && Sq(h) == 0.5
    requires m.WorldToCell(world).Some? && OccupiedCloseTo(m, world, tolerance, c)
    ensures Matched(m, world, tolerance, h)
  {
    WindowNeverMisses(m, world, tolerance, c);
    assert m.resolution * h > 0.0;
    SquareGrows(tolerance, CenterTolerance(m, tolerance, h));
    assert MatchedInWindow(m, world, tolerance, h, c.row, c.column);
  }

  lemma SquareGrows(x: real, y: real)
    requires 0.0 <= x <= y
    ensures Sq(x) <= Sq(y)
  {
  }

  /** Whatever the tolerance, the eight cells around that of the point are always searched. */
  lemma SurroundingsAreSearched(m: OccupancyMap, world: Point, tolerance: real, h: real, c: Cell)
    requires m.Valid() && m.WorldToCell(world).Some?
    requires var at := m.WorldToCell(world).value;
             -1 <= c.row - at.row <= 1 && -1 <= c.column - at.column <= 1
    requires OccupiedCloseTo(m, world, CenterTolerance(m, tolerance, h), c)
    ensures Matched(m, world, tolerance, h)
  {
    assert MatchedInWindow(m, world, tolerance, h, c.row, c.column);
  }

  // ----- Any point of an occupied cell -----

  /** Lengths add up: the triangle inequality, through squares. */
  lemma Triangle(ux: real, uy: real, vx: real, vy: real, a: real, b: real)
    requires Within(Sq(ux) + Sq(uy), a) && Within(Sq(vx) + Sq(vy), b)
    ensures Within(Sq(ux + vx) + Sq(uy + vy), a + b)
  {
    var dot, cross := ux * vx + uy * vy, ux * vy - uy * vx;
    LagrangeIdentity(ux, uy, vx, vy);
    ProductGrows(Sq(ux) + Sq(uy), Sq(a), Sq(vx) + Sq(vy), Sq(b));
    SquareOfProduct(a, b);
    SquareBound(dot, cross, a * b);
    SumSquared(ux, uy, vx, vy);
    SquareOfSum(a, b);
  }

  lemma LagrangeIdentity(ux: real, uy: real, vx: real, vy: real)
    ensures Sq(ux * vx + uy * vy) + Sq(ux * vy - uy * vx) == (Sq(ux) + Sq(uy)) * (Sq(vx) + Sq(vy))
    ensures Sq(ux) + Sq(uy) >= 0.0 && Sq(vx) + Sq(vy) >= 0.0
  {
  }

  lemma ProductGrows(x: real, a: real, y: real, b: real)
    requires 0.0 <= x <= a && 0.0 <= y <= b
    ensures x * y <= a * b
  {
    assert x * y <= a * y;
    assert a * y <= a * b;
  }

  lemma SquareOfProduct(a: real, b: real)
    requires a >= 0.0 && b >= 0.0
    ensures Sq(a * b) == Sq(a) * Sq(b) && a * b >= 0.0
  {
  }

  lemma SquareOfSum(a: real, b: real)
    ensures Sq(a + b) == Sq(a) + Sq(b) + (a * b + a * b)
  {
  }

  lemma SumSquared(ux: real, uy: real, vx: real, vy: real)
    ensures Sq(ux + vx) + Sq(uy + vy) ==
            (Sq(ux) + Sq(uy)) + (Sq(vx) + Sq(vy)) + ((ux * vx + uy * vy) + (ux * vx + uy * vy))
  {
    SquareOfSum(ux, vx);
    SquareOfSum(uy, vy);
  }

  /** A point of a cell is at most half a cell from its midline, on either axis. */
  lemma HalfCell(x: real, r: real, n: int)
    requires r > 0.0 && (x / r).Floor == n
    ensures -(r * 0.5) <= (n as real + 0.5) * r - x <= r * 0.5
  {
    SplitQuotient(x, r);
    var f := Fraction(x / r);
    assert (n as real + 0.5) * r - x == (0.5 - f) * r;
    HalfScaled(0.5 - f, r);
  }

  lemma HalfScaled(x: real, r: real)
    requires r > 0.0 && -0.5 <= x <= 0.5
    ensures -(r * 0.5) <= x * r <= r * 0.5
  {
  }

  lemma HalfSquares(x: real, y: real, r: real, h: real)
    requires r > 0.0 && h > 0.0 && Sq(h) == 0.5 && -(r * 0.5) <= x <= r * 0.5 && -(r * 0.5) <= y <= r * 0.5
    ensures Within(Sq(x) + Sq(y), r * h)
  {
    SquareWithin(x, r * 0.5);
    SquareWithin(y, r * 0.5);
    SquareOfProduct(r, h);
    assert Sq(r * 0.5) == Sq(r) * 0.25;
  }

  lemma SquareWithin(x: real, d: real)
    requires -d <= x <= d
    ensures Sq(x) <= Sq(d)
  {
    assert (d - x) * (d + x) >= 0.0;
    assert (d - x) * (d + x) == d * d - x * x;
  }

  /** In local coordinates, a cell's centre is within half a cell diagonal of every point of it. */
  lemma CenterIsNear(m: OccupancyMap, p: Point, h: real)
    requires m.resolution > 0.0 && h > 0.0 && Sq(h) == 0.5
    ensures Within(DistSq(m.LocalCenter(m.LocalCell(p)), p), m.resolution * h)
  {
    var c, r := m.LocalCell(p), m.resolution;
    HalfCell(p.x, r, c.column);
    HalfCell(p.y, r, m.height - 1 - c.row);
    CenterHeight(m, c);
    HalfSquares(m.LocalCenter(c).x - p.x, m.LocalCenter(c).y - p.y, r, h);
  }

  /** Coordinates at most `d` apart fall into cells at most `ceil(d / r)` apart. */
  lemma AxisReaches(x: real, y: real, r: real, d: real)
    requires r > 0.0 && -d <= x - y <= d
    ensures -Ceil(d / r) <= (x / r).Floor - (y / r).Floor <= Ceil(d / r)
  {
    var a, b, q := x / r, y / r, d / r;
    assert a * r == x && b * r == y;
    assert (a - b) * r == x - y;
    QuotientBound(a - b, r, d);
    CeilBounds(q);
  }

  lemma PointWindow(m: OccupancyMap, p: Point, q: Point, tolerance: real)
    requires m.resolution > 0.0 && Within(DistSq(p, q), tolerance)
    ensures InWindow(m.LocalCell(q), SearchRadius(m, tolerance), m.LocalCell(p))
  {
    BothAxes(p, q, tolerance);
    AxisReaches(p.x, q.x, m.resolution, tolerance);
    AxisReaches(p.y, q.y, m.resolution, tolerance);
  }

  lemma CenterFollows(m: OccupancyMap, p: Point, q: Point, tolerance: real, h: real)
    requires m.resolution > 0.0 && h > 0.0 && Sq(h) == 0.5 && Within(DistSq(p, q), tolerance)
    ensures Within(DistSq(m.LocalCenter(m.LocalCell(p)), q), CenterTolerance(m, tolerance, h))
  {
    var k := m.LocalCenter(m.LocalCell(p));
    CenterIsNear(m, p, h);
    Triangle(k.x - p.x, k.y - p.y, p.x - q.x, p.y - q.y, m.resolution * h, tolerance);
    assert k.x - p.x + (p.x - q.x) == k.x - q.x && k.y - p.y + (p.y - q.y) == k.y - q.y;
    SquareGrows(m.resolution * h + tolerance, CenterTolerance(m, tolerance, h));
  }

  /**
   For a point inside the map: if any point of an occupied cell, not only its centre, lies within
   the tolerance, the matcher answers yes, under any yaw. The half diagonal is what this takes.
   */
  lemma MatcherSeesEveryPoint(m: OccupancyMap, world: Point, tolerance: real, h: real, obstacle: Point)
    requires m.Valid() && h > 0.0 && Sq(h) == 0.5 && m.WorldToCell(world).Some?
    requires m.StateAt(obstacle) == Occupied && Within(DistSq(obstacle, world), tolerance)
    ensures Matched(m, world, tolerance, h)
  {
    var p, q := m.ToLocal(obstacle), m.ToLocal(world);
    var c := m.LocalCell(p);
    LocalKeepsDistance(m, obstacle, world);
    PointWindow(m, p, q, tolerance);
    CenterFollows(m, p, q, tolerance, h);
    LocalKeepsDistance(m, m.CellCenter(c), world);
    LocalOfWorld(m, m.LocalCenter(c));
    assert MatchedInWindow(m, world, tolerance, h, c.row, c.column);
  }

  // ----- No smaller margin would do -----

  /** A square map of free cells but for the one at its top right corner. */
  function CornerMap(n: nat, r: real): OccupancyMap {
    OccupancyMap(n + 1, n + 1, r, Point(0.0, 0.0), 1.0, 0.0,
                 seq(n + 1, row => seq(n + 1, column => if row == 0 && column == n then Occupied else Free)))
  }

  lemma CornerMapIsValid(n: nat, r: real)
    requires r > 0.0
    ensures var m := CornerMap(n, r);
            && m.Valid() && (forall p: Point :: m.ToLocal(p) == p && m.ToWorld(p) == p)
            && forall c :: m.InBounds(c) ==> (m.State(c) == Occupied <==> c == Cell(0, n))
  {
  }

  lemma WholeQuotient(n: nat, r: real)
    requires r > 0.0
    ensures (n as real * r / r).Floor == n
  {
    assert n as real * r / r == n as real;
  }

  lemma QuotientInRange(x: real, n: nat, r: real)
    requires r > 0.0 && 0.0 <= x <= n as real * r
    ensures 0 <= (x / r).Floor <= n
  {
    var q := x / r;
    assert q * r == x;
    NotNegativeFactor(q, r);
    FactorsCompare(q, n as real, r);
  }

  lemma NotNegativeFactor(q: real, r: real)
    requires r > 0.0 && q * r >= 0.0
    ensures q >= 0.0
  {
  }

  lemma FactorsCompare(q: real, k: real, r: real)
    requires r > 0.0 && q * r <= k * r
    ensures q <= k
  {
  }

  /** Going a tolerance along the diagonal away from a corner of a cell adds up with half its diagonal. */
  lemma DiagonalAddsUp(r: real, t: real, h: real)
    requires Sq(h) == 0.5
    ensures Sq(t * h) + Sq(t * h) == Sq(t)
    ensures Sq(0.5 * r + t * h) + Sq(0.5 * r + t * h) == Sq(t + r * h)
  {
    var a, b := 0.5 * r, t * h;
    assert Sq(b) == t * t * (h * h);
    assert Sq(r * h) == r * r * (h * h);
    SquareOfSum(a, b);
    SquareOfSum(t, r * h);
    assert a * b == 0.5 * (r * (t * h)) && t * (r * h) == r * (t * h);
  }

  /**
   The margin of half a diagonal is the least: for every resolution and tolerance there is a map, a
   point in it and an obstacle within the tolerance, such that no occupied centre is any nearer than
   the tolerance and half a diagonal.
   */
  lemma HalfDiagonalIsNeeded(resolution: real, tolerance: real, h: real)
    returns (m: OccupancyMap, world: Point, obstacle: Point)
    requires resolution > 0.0 && tolerance >= 0.0 && h > 0.0 && Sq(h) == 0.5
    ensures m.Valid() && m.resolution == resolution && m.WorldToCell(world).Some?
    ensures m.StateAt(obstacle) == Occupied && Within(DistSq(obstacle, world), tolerance)
    ensures forall c, reach :: reach < tolerance + resolution * h ==> !OccupiedCloseTo(m, world, reach, c)
  {
    var r, step := resolution, tolerance * h;
    var n: nat := CellsAcross(step, r);
    m := CornerMap(n, r);
    var corner := n as real * r;
    obstacle, world := Point(corner, corner), Point(corner - step, corner - step);
    CornerMapIsValid(n, r);
    WholeQuotient(n, r);
    QuotientInRange(corner - step, n, r);
    DiagonalAddsUp(r, tolerance, h);
    CornerIsFar(m, n, r, tolerance, h, world);
  }

  /** Enough cells to go a step back from the corner. */
  lemma CellsAcross(step: real, r: real) returns (n: nat)
    requires r > 0.0 && step >= 0.0
    ensures step <= n as real * r
  {
    var q := step / r;
    assert q * r == step;
    NotNegativeFactor(q, r);
    CeilBounds(q);
    n := Ceil(q);
    ScaledFactor(q, n as real, r);
  }

  lemma ScaledFactor(q: real, k: real, r: real)
    requires r > 0.0 && q <= k
    ensures q * r <= k * r
  {
  }

  lemma CornerIsFar(m: OccupancyMap, n: nat, r: real, tolerance: real, h: real, world: Point)
    requires r > 0.0 && tolerance >= 0.0 && h > 0.0 && Sq(h) == 0.5 && m == CornerMap(n, r)
    requires var x := n as real * r - tolerance * h; world == Point(x, x)
    ensures m.Valid()
    ensures forall c, reach :: reach < tolerance + r * h ==> !OccupiedCloseTo(m, world, reach, c)
  {
    CornerMapIsValid(n, r);
    var far := tolerance + r * h;
    var k := m.CellCenter(Cell(0, n));
    assert k == m.LocalCenter(Cell(0, n));
    assert (n as real + 0.5) * r == n as real * r + 0.5 * r;
    assert k.x - world.x == 0.5 * r + tolerance * h && k.y - world.y == 0.5 * r + tolerance * h;
    DiagonalAddsUp(r, tolerance, h);
    forall c, reach | reach < far
      ensures !OccupiedCloseTo(m, world, reach, c)
    {
      if 0.0 <= reach {
        SquareAbove(far, reach);
      }
    }
  }

  /** A match always has an occupied centre within the tolerance plus half a cell diagonal. */
  lemma MatcherIsSound(m: OccupancyMap, world: Point, tolerance: real, h: real) returns (c: Cell)
    requires m.Valid() && h > 0.0 && Sq(h) == 0.5 && Matched(m, world, tolerance, h)
    ensures m.WorldToCell(world).Some?
    ensures OccupiedCloseTo(m, world, CenterTolerance(m, tolerance, h), c)
    ensures CenterTolerance(m, tolerance, h) == tolerance + m.resolution * h + 0.000000000001
  {
    var row, column :| MatchedInWindow(m, world, tolerance, h, row, column);
    c := Cell(row, column);
  }
}
