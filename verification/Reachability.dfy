/**
 Which cells a robot of a given clearance can reach: clearance offsets, clearance-safe cells, the
 breadth-first search over them, and the obstacle boundary seen from the reachable cells.
 */
module Reachability {
  import opened Options
  import opened OccupancyGrid

  // ----- Clearance -----

  function OffsetNorm(resolution: real, o: Cell): real {
    Sq(o.row as real * resolution) + Sq(o.column as real * resolution)
  }

  function OffsetRadius(resolution: real, clearance: real): int
    requires resolution > 0.0
  {
    Ceil(clearance / resolution)
  }

  function ClearanceOffsets(resolution: real, clearance: real): set<Cell>
    requires resolution > 0.0
  {
    var radius := OffsetRadius(resolution, clearance);
    set row, column | -radius <= row <= radius && -radius <= column <= radius
                      && Within(OffsetNorm(resolution, Cell(row, column)), clearance + SLACK)
                    :: Cell(row, column)
  }

  lemma MultipleBound(n: int, r: real, d: real)
    requires r > 0.0 && d >= 0.0 && -d <= n as real * r <= d
    ensures -Ceil(d / r) <= n <= Ceil(d / r)
  {
    QuotientBound(n as real, r, d);
    CeilBounds(d / r);
  }

  /** The offsets hold the whole clearance disc, and nothing beyond the slack around it. */
  lemma OffsetsCoverDisc(resolution: real, clearance: real, o: Cell)
    requires resolution > 0.0 && clearance >= 0.0
    ensures Within(OffsetNorm(resolution, o), clearance) ==> o in ClearanceOffsets(resolution, clearance)
    ensures o in ClearanceOffsets(resolution, clearance) ==> Within(OffsetNorm(resolution, o), clearance + SLACK)
  {
    if Within(OffsetNorm(resolution, o), clearance) {
      DiscInSquare(o.row, o.column, resolution, clearance);
      DiscInSquare(o.column, o.row, resolution, clearance);
      WithinMore(OffsetNorm(resolution, o), clearance, clearance + SLACK);
      ListedOffset(resolution, clearance, o);
    }
  }

  lemma WithinMore(dd: real, r: real, s: real)
    requires Within(dd, r) && r <= s
    ensures Within(dd, s)
  {
    SquareGrows(r, s);
  }

  lemma ListedOffset(resolution: real, clearance: real, o: Cell)
    requires resolution > 0.0 && Within(OffsetNorm(resolution, o), clearance + SLACK)
    requires var n := OffsetRadius(resolution, clearance); -n <= o.row <= n && -n <= o.column <= n
    ensures o in ClearanceOffsets(resolution, clearance)
  {
    assert o == Cell(o.row, o.column);
  }

  lemma DiscInSquare(a: int, b: int, r: real, d: real)
    requires r > 0.0 && d >= 0.0 && Sq(a as real * r) + Sq(b as real * r) <= Sq(d)
    ensures -Ceil(d / r) <= a <= Ceil(d / r)
  {
    SquareBound(a as real * r, b as real * r, d);
    MultipleBound(a, r, d);
  }

  /** For every clearance, the offsets are exactly those within the clearance and its slack. */
  ghost predicate OffsetsAreExact(resolution: real)
    requires resolution > 0.0
  {
    forall clearance: real, o: Cell {:trigger o in ClearanceOffsets(resolution, clearance)} ::
      clearance >= 0.0 ==>
        (o in ClearanceOffsets(resolution, clearance) <==> Within(OffsetNorm(resolution, o), clearance + SLACK))
  }

  /** A whole number of cells within the clearance and less than a cell more is within the radius. */
  lemma SlackIsBelowOneCell(n: int, r: real, d: real)
    requires r > SLACK && d >= 0.0 && -(d + SLACK) <= n as real * r <= d + SLACK
    ensures -Ceil(d / r) <= n <= Ceil(d / r)
  {
    var q := d / r;
    assert q * r == d;
    CeilBounds(q);
    BelowNext(n as real, q, r);
    BelowNext(-(n as real), q, r);
  }

  lemma BelowNext(x: real, q: real, r: real)
    requires r > SLACK && x * r <= q * r + SLACK
    ensures x < q + 1.0
  {
    var y := q + 1.0;
    assert y * r == q * r + r;
    if x >= y {
      ScaledOrder(x, y, r);
    }
  }

  lemma ScaledOrder(x: real, y: real, r: real)
    requires r > 0.0 && x >= y
    ensures x * r >= y * r
  {
  }

  lemma SlackDiscInSquare(a: int, b: int, r: real, d: real)
    requires r > SLACK && d >= 0.0 && Sq(a as real * r) + Sq(b as real * r) <= Sq(d + SLACK)
    ensures -Ceil(d / r) <= a <= Ceil(d / r)
  {
    SquareBound(a as real * r, b as real * r, d + SLACK);
    SlackIsBelowOneCell(a, r, d);
  }

  lemma OffsetIsExact(resolution: real, clearance: real, o: Cell)
    requires resolution > SLACK && clearance >= 0.0
    ensures o in ClearanceOffsets(resolution, clearance) <==> Within(OffsetNorm(resolution, o), clearance + SLACK)
  {
    if Within(OffsetNorm(resolution, o), clearance + SLACK) {
      SlackDiscInSquare(o.row, o.column, resolution, clearance);
      SlackDiscInSquare(o.column, o.row, resolution, clearance);
      ListedOffset(resolution, clearance, o);
    }
  }

  /** The square of candidates cuts nothing off if and only if a cell is wider than the slack. */
  lemma OffsetsAreExactForWideCells(resolution: real)
    requires resolution > 0.0
    ensures OffsetsAreExact(resolution) <==> resolution > SLACK
  {
    if resolution > SLACK {
      forall clearance: real, o: Cell | clearance >= 0.0
        ensures o in ClearanceOffsets(resolution, clearance) <==> Within(OffsetNorm(resolution, o), clearance + SLACK)
      {
        OffsetIsExact(resolution, clearance, o);
      }
    } else {
      NarrowCellIsCutOff(resolution);
    }
  }

  /** With cells no wider than the slack, the neighbour is within it and is not listed. */
  lemma NarrowCellIsCutOff(resolution: real)
    requires 0.0 < resolution <= SLACK
    ensures Cell(1, 0) !in ClearanceOffsets(resolution, 0.0) && Within(OffsetNorm(resolution, Cell(1, 0)), 0.0 + SLACK)
    ensures !OffsetsAreExact(resolution)
  {
    assert 0.0 / resolution == 0.0;
    assert OffsetRadius(resolution, 0.0) == 0;
    SquareGrows(resolution, SLACK);
    assert 1 as real * resolution == resolution && 0 as real * resolution == 0.0;
  }

  /** A larger clearance asks for at least the same offsets. */
  lemma OffsetsGrow(resolution: real, small: real, large: real)
    requires resolution > 0.0 && 0.0 <= small <= large
    ensures ClearanceOffsets(resolution, small) <= ClearanceOffsets(resolution, large)
  {
    QuotientGrows(resolution, small, large);
    SquareGrows(small + SLACK, large + SLACK);
  }

  lemma QuotientGrows(r: real, small: real, large: real)
    requires r > 0.0 && small <= large
    ensures Ceil(small / r) <= Ceil(large / r)
  {
    assert large / r - small / r == (large - small) / r;
    assert (large - small) / r >= 0.0;
  }

  function Shift(c: Cell, o: Cell): Cell {
    Cell(c.row + o.row, c.column + o.column)
  }

  predicate IsFree(m: OccupancyMap, c: Cell)
    requires m.Valid()
  {
    m.InBounds(c) && m.State(c) == Free
  }

  predicate IsSafe(m: OccupancyMap, clearance: real, c: Cell)
    requires m.Valid()
  {
    IsFree(m, c) && forall o :: o in ClearanceOffsets(m.resolution, clearance) ==> IsFree(m, Shift(c, o))
  }

  function AllCells(m: OccupancyMap): set<Cell> {
    set row, column | 0 <= row < m.height && 0 <= column < m.width :: Cell(row, column)
  }

  ghost function SafeCells(m: OccupancyMap, clearance: real): set<Cell>
    requires m.Valid()
  {
    set c | c in AllCells(m) && IsSafe(m, clearance, c)
  }

  method ClearanceSafeCells(m: OccupancyMap, clearance: real) returns (safe: set<Cell>)
    requires m.Valid()
    ensures safe == SafeCells(m, clearance)
  {
    safe := {};
    for row := 0 to m.height
      invariant safe == set c | c in SafeCells(m, clearance) && c.row < row
    {
      for column := 0 to m.width
        invariant safe == set c | c in SafeCells(m, clearance) && (c.row < row || (c.row == row && c.column < column))
      {
        var here := Cell(row, column);
        if IsSafe(m, clearance, here) {
          safe := safe + {here};
        }
      }
    }
  }

  /** Centres are as far apart as their offset says, under any yaw. */
  lemma CenterDistance(m: OccupancyMap, c: Cell, d: Cell)
    requires m.Valid()
    ensures DistSq(m.CellCenter(d), m.CellCenter(c)) ==
            OffsetNorm(m.resolution, Cell(d.row - c.row, d.column - c.column))
  {
    LocalKeepsDistance(m, m.CellCenter(d), m.CellCenter(c));
    LocalOfWorld(m, m.LocalCenter(c));
    LocalOfWorld(m, m.LocalCenter(d));
    LocalDistance(m, c, d);
  }

  lemma LocalDistance(m: OccupancyMap, c: Cell, d: Cell)
    ensures DistSq(m.LocalCenter(d), m.LocalCenter(c)) ==
            OffsetNorm(m.resolution, Cell(d.row - c.row, d.column - c.column))
  {
    var r := m.resolution;
    var x, y := (d.column - c.column) as real * r, (d.row - c.row) as real * r;
    assert m.LocalCenter(d).x - m.LocalCenter(c).x == x;
    assert m.LocalCenter(d).y - m.LocalCenter(c).y == -y;
    assert Sq(-y) == Sq(y);
  }

  /** Around a safe cell, every centre within the clearance belongs to a free cell of the map. */
  lemma SafeCellIsClear(m: OccupancyMap, clearance: real, c: Cell, d: Cell)
    requires m.Valid() && clearance >= 0.0 && IsSafe(m, clearance, c)
    requires Within(DistSq(m.CellCenter(d), m.CellCenter(c)), clearance)
    ensures IsFree(m, d)
  {
    var o := Cell(d.row - c.row, d.column - c.column);
    CenterDistance(m, c, d);
    OffsetsCoverDisc(m.resolution, clearance, o);
    assert Shift(c, o) == d;
  }

  /** A cell is safe when every centre within the clearance and its slack is a free cell. */
  lemma ClearCellIsSafe(m: OccupancyMap, clearance: real, c: Cell)
    requires m.Valid() && clearance >= 0.0 && IsClear(m, clearance, c)
    ensures IsSafe(m, clearance, c)
  {
    var origin := Cell(0, 0);
    forall o | o in ClearanceOffsets(m.resolution, clearance) || o == origin
      ensures IsFree(m, Shift(c, o))
    {
      OffsetsCoverDisc(m.resolution, clearance, o);
      CenterDistance(m, c, Shift(c, o));
      assert Cell(Shift(c, o).row - c.row, Shift(c, o).column - c.column) == o;
      if o == origin {
        ZeroOffset(m.resolution, clearance);
      }
    }
    assert Shift(c, origin) == c;
  }

  /** Every centre within the clearance and its slack belongs to a free cell of the map. */
  ghost predicate IsClear(m: OccupancyMap, clearance: real, c: Cell)
    requires m.Valid()
  {
    forall d {:trigger IsFree(m, d)} ::
      Within(DistSq(m.CellCenter(d), m.CellCenter(c)), clearance + SLACK) ==> IsFree(m, d)
  }

  /** A cell is safe if and only if everything within the clearance, measured in the world, is free. */
  lemma SafeMeansClear(m: OccupancyMap, clearance: real, c: Cell)
    requires m.Valid() && clearance >= 0.0 && m.resolution > SLACK
    ensures IsSafe(m, clearance, c) <==> IsClear(m, clearance, c)
  {
    if IsClear(m, clearance, c) {
      ClearCellIsSafe(m, clearance, c);
    }
    if IsSafe(m, clearance, c) {
      forall d | Within(DistSq(m.CellCenter(d), m.CellCenter(c)), clearance + SLACK)
        ensures IsFree(m, d)
      {
        var o := Cell(d.row - c.row, d.column - c.column);
        CenterDistance(m, c, d);
        OffsetIsExact(m.resolution, clearance, o);
        assert Shift(c, o) == d;
      }
    }
  }

  lemma ZeroOffset(resolution: real, clearance: real)
    requires clearance >= 0.0
    ensures Within(OffsetNorm(resolution, Cell(0, 0)), clearance + SLACK)
  {
    var zero := 0 as real * resolution;
    assert zero == 0.0;
    assert Sq(clearance + SLACK) >= 0.0;
  }

  lemma SafeShrinks(m: OccupancyMap, small: real, large: real)
    requires m.Valid() && 0.0 <= small <= large
    ensures SafeCells(m, large) <= SafeCells(m, small)
  {
    OffsetsGrow(m.resolution, small, large);
  }

  // ----- Four-neighbour reachability -----

  function Neighbours(c: Cell): seq<Cell> {
    [Cell(c.row - 1, c.column), Cell(c.row + 1, c.column), Cell(c.row, c.column - 1), Cell(c.row, c.column + 1)]
  }

  function Abs(n: int): int {
    if n >= 0 then n else -n
  }

  /** Side by side in one row, or one above the other. */
  predicate Adjacent(c: Cell, d: Cell) {
    Abs(d.row - c.row) + Abs(d.column - c.column) == 1
  }

  lemma NeighboursAreAdjacent(c: Cell)
    ensures forall d :: d in Neighbours(c) <==> Adjacent(c, d)
  {
    forall d | Adjacent(c, d)
      ensures d in Neighbours(c)
    {
      assert d == Cell(d.row, d.column);
    }
  }

  ghost predicate IsPath(safe: set<Cell>, from: Cell, to: Cell, path: seq<Cell>) {
    && path != [] && path[0] == from && path[|path| - 1] == to
    && (forall k :: 0 <= k < |path| ==> path[k] in safe)
    && (forall k :: 0 < k < |path| ==> Adjacent(path[k - 1], path[k]))
  }

  ghost predicate Connected(safe: set<Cell>, from: Cell, to: Cell) {
    exists path :: IsPath(safe, from, to, path)
  }

  lemma ConnectedStep(safe: set<Cell>, from: Cell, mid: Cell, to: Cell)
    requires Connected(safe, from, mid) && to in safe && Adjacent(mid, to)
    ensures Connected(safe, from, to)
  {
    var path :| IsPath(safe, from, mid, path);
    assert IsPath(safe, from, to, path + [to]);
  }

  ghost predicate ClosedAt(safe: set<Cell>, reached: set<Cell>, c: Cell) {
    forall n :: n in safe && Adjacent(c, n) ==> n in reached
  }

  lemma {:induction false} ClosedHoldsPath(safe: set<Cell>, reached: set<Cell>, from: Cell, to: Cell, path: seq<Cell>)
    requires from in reached && IsPath(safe, from, to, path)
    requires forall c :: c in reached ==> ClosedAt(safe, reached, c)
    ensures to in reached
    decreases |path|
  {
    if |path| > 1 {
      var last := |path| - 1;
      ClosedHoldsPath(safe, reached, from, path[last - 1], path[..last]);
      assert Adjacent(path[last - 1], path[last]);
    }
  }

  /** Breadth-first search: exactly the cells joined to the start by paths of safe cells. */
  method Component(safe: set<Cell>, start: Cell) returns (reached: set<Cell>)
    requires start in safe
    ensures forall c :: c in reached <==> Connected(safe, start, c)
  {
    assert IsPath(safe, start, start, [start]);
    var queue := [start];
    reached := {start};
    while queue != []
      invariant start in reached && reached <= safe
      invariant forall c :: c in queue ==> c in reached
      invariant forall c :: c in reached ==> Connected(safe, start, c)
      invariant forall c :: c in reached ==> c in queue || ClosedAt(safe, reached, c)
      decreases safe - reached, |queue|
    {
      var here := queue[0];
      ghost var before, waiting := reached, queue;
      queue := queue[1..];
      assert waiting == [here] + queue;
      NeighboursAreAdjacent(here);
      for k := 0 to 4
        invariant before <= reached <= safe
        invariant queue == waiting[1..] || before != reached
        invariant forall c :: c in waiting[1..] ==> c in queue
        invariant forall c :: c in queue ==> c in reached
        invariant forall c :: c in reached ==> Connected(safe, start, c)
        invariant forall c :: c in reached ==> c in before || c in queue
        invariant forall n :: n in Neighbours(here)[..k] && n in safe ==> n in reached
      {
        var candidate := Neighbours(here)[k];
        assert candidate in Neighbours(here);
        assert Neighbours(here)[..k + 1] == Neighbours(here)[..k] + [candidate];
        if candidate in safe && candidate !in reached {
          ConnectedStep(safe, start, here, candidate);
          reached := reached + {candidate};
          queue := queue + [candidate];
        }
      }
      assert Neighbours(here)[..4] == Neighbours(here);
      assert ClosedAt(safe, reached, here);
    }
    forall c | Connected(safe, start, c)
      ensures c in reached
    {
      var path :| IsPath(safe, start, c, path);
      ClosedHoldsPath(safe, reached, start, c, path);
    }
  }

  datatype Result<+T> = Ok(value: T) | Rejected(reason: string)

  const NEGATIVE_CLEARANCE := "robot clearance must be non-negative"
  const START_NOT_SAFE := "robot start is outside the clearance-safe truth free space"

  ghost predicate StartIsSafe(m: OccupancyMap, start: Point, clearance: real)
    requires m.Valid()
  {
    m.WorldToCell(start).Some? && m.WorldToCell(start).value in SafeCells(m, clearance)
  }

  /** The cells joined to the start by safe cells. */
  ghost function ReachableSet(m: OccupancyMap, start: Point, clearance: real): (cells: set<Cell>)
    requires m.Valid() && StartIsSafe(m, start, clearance)
    ensures forall c :: c in cells <==> Connected(SafeCells(m, clearance), m.WorldToCell(start).value, c)
    ensures m.WorldToCell(start).value in cells && cells <= SafeCells(m, clearance)
  {
    var safe, from := SafeCells(m, clearance), m.WorldToCell(start).value;
    assert IsPath(safe, from, from, [from]);
    assert forall c :: Connected(safe, from, c) ==> c in safe;
    set c | c in safe && Connected(safe, from, c)
  }

  /** The search as the evaluator calls it, with its two refusals. */
  method ReachableComponent(m: OccupancyMap, start: Point, clearance: real) returns (result: Result<set<Cell>>)
    requires m.Valid()
    ensures result.Ok? <==> clearance >= 0.0 && StartIsSafe(m, start, clearance)
    ensures result.Ok? ==> result.value == ReachableSet(m, start, clearance)
    ensures clearance < 0.0 ==> result == Rejected(NEGATIVE_CLEARANCE)
    ensures clearance >= 0.0 && !StartIsSafe(m, start, clearance) ==> result == Rejected(START_NOT_SAFE)
  {
    if clearance < 0.0 {
      return Rejected(NEGATIVE_CLEARANCE);
    }
    var safe := ClearanceSafeCells(m, clearance);
    var at := m.WorldToCell(start);
    if at.None? || at.value !in safe {
      return Rejected(START_NOT_SAFE);
    }
    var reached := Component(safe, at.value);
    assert reached == ReachableSet(m, start, clearance);
    return Ok(reached);
  }

  // ----- Reachability in the world -----

  /** The squared distance of two cells, counted in cells. */
  function CellsApart(c: Cell, d: Cell): int {
    (d.row - c.row) * (d.row - c.row) + (d.column - c.column) * (d.column - c.column)
  }

  lemma CentresApart(m: OccupancyMap, c: Cell, d: Cell)
    requires m.Valid()
    ensures DistSq(m.CellCenter(d), m.CellCenter(c)) == CellsApart(c, d) as real * Sq(m.resolution)
  {
    var a, b := d.row - c.row, d.column - c.column;
    CenterDistance(m, c, d);
    ScaledSquare(a, m.resolution);
    ScaledSquare(b, m.resolution);
    SumTimes((a * a) as real, (b * b) as real, Sq(m.resolution));
  }

  lemma ScaledSquare(a: int, r: real)
    ensures Sq(a as real * r) == (a * a) as real * Sq(r)
  {
    var x := a as real;
    assert (a * a) as real == x * x;
    assert (x * r) * (x * r) == (x * x) * (r * r);
  }

  lemma SumTimes(x: real, y: real, k: real)
    ensures x * k + y * k == (x + y) * k
  {
  }

  lemma FactorsOf(n: int, k: real)
    requires k > 0.0
    ensures n as real * k == k <==> n == 1
    ensures n as real * k <= 2.0 * k <==> n <= 2
  {
    var x := n as real;
    assert x * k - k == (x - 1.0) * k && x * k - 2.0 * k == (x - 2.0) * k;
    SignOfProduct(x - 1.0, k);
    SignOfProduct(x - 2.0, k);
  }

  lemma SignOfProduct(x: real, k: real)
    requires k > 0.0
    ensures (x * k == 0.0 <==> x == 0.0) && (x * k <= 0.0 <==> x <= 0.0)
  {
  }

  lemma PositiveSquare(r: real)
    requires r > 0.0
    ensures Sq(r) > 0.0
  {
    SquareAbove(r, 0.0);
  }

  /** Cells are adjacent exactly if their centres are one resolution apart. */
  lemma AdjacentCentres(m: OccupancyMap, c: Cell, d: Cell)
    requires m.Valid()
    ensures Adjacent(c, d) <==> DistSq(m.CellCenter(d), m.CellCenter(c)) == Sq(m.resolution)
  {
    CentresApart(m, c, d);
    PositiveSquare(m.resolution);
    FactorsOf(CellsApart(c, d), Sq(m.resolution));
    SquaresAddToOne(d.row - c.row, d.column - c.column);
  }

  lemma SquaresAddToOne(a: int, b: int)
    ensures a * a + b * b == 1 <==> Abs(a) + Abs(b) == 1
  {
    SquareOfInt(a);
    SquareOfInt(b);
  }

  lemma SquareOfInt(a: int)
    ensures a * a == Abs(a) * Abs(a) && (Abs(a) >= 2 ==> a * a >= 4) && (a == 0 ==> a * a == 0)
    ensures Abs(a) == 1 ==> a * a == 1
  {
    if Abs(a) >= 2 {
      assert Abs(a) * Abs(a) >= 2 * Abs(a);
    }
  }

  /** From a reachable cell, every safe cell whose centre is one resolution away is reachable. */
  lemma ReachableSpreads(m: OccupancyMap, start: Point, clearance: real, c: Cell, d: Cell)
    requires m.Valid() && StartIsSafe(m, start, clearance)
    requires c in ReachableSet(m, start, clearance) && d in SafeCells(m, clearance)
    requires DistSq(m.CellCenter(d), m.CellCenter(c)) == Sq(m.resolution)
    ensures d in ReachableSet(m, start, clearance)
  {
    AdjacentCentres(m, c, d);
    ConnectedStep(SafeCells(m, clearance), m.WorldToCell(start).value, c, d);
  }

  /** Every reachable cell is joined to the start by safe centres, each one resolution from the last. */
  lemma ReachableByCentres(m: OccupancyMap, start: Point, clearance: real, c: Cell) returns (path: seq<Cell>)
    requires m.Valid() && StartIsSafe(m, start, clearance) && c in ReachableSet(m, start, clearance)
    ensures path != [] && path[0] == m.WorldToCell(start).value && path[|path| - 1] == c
    ensures forall k :: 0 <= k < |path| ==> path[k] in SafeCells(m, clearance)
    ensures forall k :: 0 < k < |path| ==>
              DistSq(m.CellCenter(path[k]), m.CellCenter(path[k - 1])) == Sq(m.resolution)
  {
    path :| IsPath(SafeCells(m, clearance), m.WorldToCell(start).value, c, path);
    forall k | 0 < k < |path|
      ensures DistSq(m.CellCenter(path[k]), m.CellCenter(path[k - 1])) == Sq(m.resolution)
    {
      assert Adjacent(path[k - 1], path[k]);
      AdjacentCentres(m, path[k - 1], path[k]);
    }
  }

  function Backwards(path: seq<Cell>): (r: seq<Cell>)
    ensures |r| == |path| && forall k :: 0 <= k < |path| ==> r[k] == path[|path| - 1 - k]
  {
    seq(|path|, k requires 0 <= k < |path| => path[|path| - 1 - k])
  }

  /** The way there is a way back. */
  lemma ConnectedBothWays(safe: set<Cell>, a: Cell, b: Cell)
    ensures Connected(safe, a, b) <==> Connected(safe, b, a)
  {
    if Connected(safe, a, b) {
      WayBack(safe, a, b);
    }
    if Connected(safe, b, a) {
      WayBack(safe, b, a);
    }
  }

  lemma WayBack(safe: set<Cell>, a: Cell, b: Cell)
    requires Connected(safe, a, b)
    ensures Connected(safe, b, a)
  {
    var path :| IsPath(safe, a, b, path);
    var back := Backwards(path);
    forall k | 0 < k < |back|
      ensures Adjacent(back[k - 1], back[k])
    {
      assert Adjacent(path[|path| - 1 - k], path[|path| - k]);
    }
    assert IsPath(safe, b, a, back);
  }

  /** Growing the clearance can only shrink what is reachable; the smaller search never rejects. */
  lemma ReachableShrinks(m: OccupancyMap, start: Point, small: real, large: real)
    requires m.Valid() && 0.0 <= small <= large && StartIsSafe(m, start, large)
    ensures StartIsSafe(m, start, small)
    ensures ReachableSet(m, start, large) <= ReachableSet(m, start, small)
  {
    SafeShrinks(m, small, large);
    forall c | c in ReachableSet(m, start, large)
      ensures c in ReachableSet(m, start, small)
    {
      var path :| IsPath(SafeCells(m, large), m.WorldToCell(start).value, c, path);
      assert IsPath(SafeCells(m, small), m.WorldToCell(start).value, c, path);
    }
  }

  // ----- The obstacle boundary -----

  predicate Touching(c: Cell, d: Cell) {
    c != d && -1 <= d.row - c.row <= 1 && -1 <= d.column - c.column <= 1
  }

  predicate IsWall(m: OccupancyMap, c: Cell)
    requires m.Valid()
  {
    m.InBounds(c) && m.State(c) == Occupied
  }

  ghost predicate SeenFrom(m: OccupancyMap, seen: set<Cell>, wall: Cell)
    requires m.Valid()
  {
    IsWall(m, wall) && exists c :: c in seen && Touching(c, wall)
  }

  ghost function BoundaryOf(m: OccupancyMap, seen: set<Cell>): (walls: set<Cell>)
    requires m.Valid()
    ensures forall w :: w in walls <==> SeenFrom(m, seen, w)
  {
    set w | w in AllCells(m) && SeenFrom(m, seen, w)
  }

  /** The walls around one cell, found by trying its eight neighbours. */
  method WallsAround(m: OccupancyMap, c: Cell) returns (walls: set<Cell>)
    requires m.Valid()
    ensures forall w :: w in walls <==> IsWall(m, w) && Touching(c, w)
  {
    walls := {};
    for row := -1 to 2
      invariant forall w :: w in walls <==> IsWall(m, w) && Touching(c, w) && w.row - c.row < row
    {
      for column := -1 to 2
        invariant forall w :: w in walls <==>
                    IsWall(m, w) && Touching(c, w) &&
                    (w.row - c.row < row || (w.row - c.row == row && w.column - c.column < column))
      {
        var candidate := Cell(c.row + row, c.column + column);
        if !(row == 0 && column == 0) && IsWall(m, candidate) {
          walls := walls + {candidate};
        }
      }
    }
  }

  method ReachableObstacleBoundary(m: OccupancyMap, start: Point) returns (result: Result<set<Cell>>)
    requires m.Valid()
    ensures result.Ok? <==> StartIsSafe(m, start, 0.0)
    ensures result.Ok? ==> result.value == BoundaryOf(m, ReachableSet(m, start, 0.0))
  {
    var raw := ReachableComponent(m, start, 0.0);
    if raw.Rejected? {
      return Rejected(raw.reason);
    }
    var walls := {};
    var rest := raw.value;
    while rest != {}
      invariant rest <= raw.value
      invariant walls == BoundaryOf(m, raw.value - rest)
      decreases rest
    {
      var c :| c in rest;
      var around := WallsAround(m, c);
      assert raw.value - (rest - {c}) == raw.value - rest + {c};
      walls := walls + around;
      rest := rest - {c};
    }
    assert raw.value - {} == raw.value;
    return Ok(walls);
  }

  /** Cells touch exactly if their centres are within one cell diagonal. */
  lemma TouchingCentres(m: OccupancyMap, c: Cell, d: Cell)
    requires m.Valid()
    ensures (Touching(c, d) || c == d) <==> (CentreDistSq(m, c, d) <= 2.0 * Sq(m.resolution))
  {
    CentresApart(m, c, d);
    TouchingByDistance(c, d, CentreDistSq(m, c, d), m.resolution);
  }

  ghost function CentreDistSq(m: OccupancyMap, c: Cell, d: Cell): real {
    DistSq(m.CellCenter(d), m.CellCenter(c))
  }

  lemma TouchingByDistance(c: Cell, d: Cell, dd: real, r: real)
    requires r > 0.0 && dd == CellsApart(c, d) as real * Sq(r)
    ensures (Touching(c, d) || c == d) <==> (dd <= 2.0 * Sq(r))
  {
    PositiveSquare(r);
    FactorsOf(CellsApart(c, d), Sq(r));
    TouchingInCells(c, d);
  }

  lemma TouchingInCells(c: Cell, d: Cell)
    ensures (Touching(c, d) || c == d) <==> CellsApart(c, d) <= 2
  {
    SquareOfInt(d.row - c.row);
    SquareOfInt(d.column - c.column);
  }

  /** The boundary in the world: the walls within one cell diagonal of a cell reachable without clearance. */
  lemma BoundaryInWorld(m: OccupancyMap, start: Point, wall: Cell)
    requires m.Valid() && StartIsSafe(m, start, 0.0)
    ensures var seen := ReachableSet(m, start, 0.0);
            wall in BoundaryOf(m, seen) <==>
            && m.InBounds(wall) && m.State(wall) == Occupied
            && exists c :: c in seen && CentreDistSq(m, c, wall) <= 2.0 * Sq(m.resolution)
  {
    var seen := ReachableSet(m, start, 0.0);
    forall c | c in seen
      ensures (Touching(c, wall) || c == wall) <==> CentreDistSq(m, c, wall) <= 2.0 * Sq(m.resolution)
    {
      TouchingCentres(m, c, wall);
    }
  }
}
