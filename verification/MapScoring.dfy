/**
 Scoring a built map against the truth map: free coverage and unknown share of the reachable
 cells, coverage per region, and how much of the observable obstacle boundary is represented.
 */
module MapScoring {
  import opened Options
  import opened OccupancyGrid
  import opened Reachability
  import opened StableSort

  datatype Region = Region(name: string, minX: real, minY: real, maxX: real, maxY: real) {
    predicate Contains(p: Point) {
      minX <= p.x < maxX && minY <= p.y < maxY
    }
  }

  datatype Thresholds = Thresholds(coverage: real, region: real, unknown: real, recall: real, falseFree: real) {
    predicate Valid() {
      && 0.0 <= coverage <= 1.0 && 0.0 <= region <= 1.0 && 0.0 <= unknown <= 1.0
      && 0.0 <= recall <= 1.0 && 0.0 <= falseFree <= 1.0
    }
  }

  function Ratio(part: nat, whole: nat): (r: real)
    ensures whole > 0 ==> r * whole as real == part as real
    ensures whole == 0 ==> r == 0.0
  {
    if whole == 0 then 0.0 else part as real / whole as real
  }

  /** A region cut in two holds each of its points in exactly one half; it holds its lower left corner only. */
  lemma RegionsTile(r: Region, cut: real, p: Point)
    requires r.minX < cut < r.maxX && r.minY < r.maxY
    ensures var left, right := r.(maxX := cut), r.(minX := cut);
            && (r.Contains(p) <==> left.Contains(p) || right.Contains(p)) && !(left.Contains(p) && right.Contains(p))
            && right.Contains(Point(cut, r.minY)) && !left.Contains(Point(cut, r.minY))
    ensures r.Contains(Point(r.minX, r.minY))
    ensures !r.Contains(Point(r.minX, r.maxY)) && !r.Contains(Point(r.maxX, r.minY))
    ensures r.Contains(p) ==> r.minX <= p.x <= r.maxX && r.minY <= p.y <= r.maxY
    ensures r.minX < p.x < r.maxX && r.minY < p.y < r.maxY ==> r.Contains(p)
  {
  }

  // ----- Reachable cells by what the built map says about them -----

  predicate Says(truth: OccupancyMap, built: OccupancyMap, state: CellState, c: Cell)
    requires built.Valid()
  {
    built.StateAt(truth.CellCenter(c)) == state
  }

  ghost function Saying(truth: OccupancyMap, built: OccupancyMap, cells: set<Cell>, state: CellState): set<Cell>
    requires built.Valid()
  {
    set c | c in cells && Says(truth, built, state, c)
  }

  method CountSaying(truth: OccupancyMap, built: OccupancyMap, cells: set<Cell>, state: CellState) returns (n: nat)
    requires built.Valid()
    ensures n == |Saying(truth, built, cells, state)|
  {
    n := 0;
    ghost var all := Saying(truth, built, cells, state);
    var rest := cells;
    assert all - rest == {};
    while rest != {}
      invariant rest <= cells && n == |all - rest|
      decreases rest
    {
      var c :| c in rest;
      CountedOneMore(all, rest, c);
      if Says(truth, built, state, c) {
        n := n + 1;
      }
      rest := rest - {c};
    }
    assert all - rest == all;
  }

  /** Taking one more cell from the rest counts it if it is among those to be counted. */
  lemma CountedOneMore(all: set<Cell>, rest: set<Cell>, c: Cell)
    requires c in rest
    ensures |all - (rest - {c})| == |all - rest| + if c in all then 1 else 0
  {
    if c in all {
      assert all - (rest - {c}) == (all - rest) + {c};
    } else {
      assert all - (rest - {c}) == all - rest;
    }
  }

  /** A reachable cell cannot be both covered and unknown. */
  lemma CoveredAndUnknownAreDisjoint(truth: OccupancyMap, built: OccupancyMap, cells: set<Cell>)
    requires built.Valid()
    ensures |Saying(truth, built, cells, Free)| + |Saying(truth, built, cells, Unknown)| <= |cells|
  {
    var free, unknown := Saying(truth, built, cells, Free), Saying(truth, built, cells, Unknown);
    assert free !! unknown && free + unknown <= cells;
    assert |free + unknown| == |free| + |unknown|;
    SubsetSize(free + unknown, cells);
  }

  lemma SubsetSize(a: set<Cell>, b: set<Cell>)
    requires a <= b
    ensures |a| <= |b|
  {
    assert b == a + (b - a);
    assert |b| == |a| + |b - a|;
  }

  // ----- Regions -----

  ghost function RegionCells(truth: OccupancyMap, cells: set<Cell>, region: Region): set<Cell> {
    set c | c in cells && region.Contains(truth.CellCenter(c))
  }

  ghost function RegionRatio(truth: OccupancyMap, built: OccupancyMap, cells: set<Cell>, region: Region): real
    requires built.Valid()
  {
    var inside := RegionCells(truth, cells, region);
    Ratio(|Saying(truth, built, inside, Free)|, |inside|)
  }

  /** Ratios by region name; of two regions with one name the later wins. */
  ghost function RegionRatios(
    truth: OccupancyMap, built: OccupancyMap, cells: set<Cell>, regions: seq<Region>): map<string, real>
    requires built.Valid()
  {
    if regions == [] then map[]
    else
      var last := regions[|regions| - 1];
      RegionRatios(truth, built, cells, regions[..|regions| - 1])[
        last.name := RegionRatio(truth, built, cells, last)]
  }

  method CellsInRegion(truth: OccupancyMap, cells: set<Cell>, region: Region) returns (inside: set<Cell>)
    ensures inside == RegionCells(truth, cells, region)
  {
    inside := set c | c in cells && region.Contains(truth.CellCenter(c));
  }

  // ----- Regions in the order of their names -----

  /** Names compare character by character, a shorter name before its extensions. */
  predicate NotAfter(a: string, b: string) {
    a == "" || (b != "" && (a[0] < b[0] || (a[0] == b[0] && NotAfter(a[1..], b[1..]))))
  }

  function ByName(): (Region, Region) -> bool {
    (r: Region, s: Region) => NotAfter(r.name, s.name)
  }

  lemma {:induction false} NamesAreTotal(a: string, b: string)
    ensures NotAfter(a, b) || NotAfter(b, a)
    ensures a == b ==> NotAfter(a, b)
  {
    if a != "" && b != "" {
      NamesAreTotal(a[1..], b[1..]);
    }
  }

  lemma {:induction false} NamesAreTransitive(a: string, b: string, c: string)
    requires NotAfter(a, b) && NotAfter(b, c)
    ensures NotAfter(a, c)
  {
    if a != "" && a[0] == b[0] == c[0] {
      NamesAreTransitive(a[1..], b[1..], c[1..]);
    }
  }

  lemma SortedByName(regions: seq<Region>)
    ensures IsSorted(ByName(), Sort(ByName(), regions)) && multiset(Sort(ByName(), regions)) == multiset(regions)
  {
    forall r: Region, s: Region
      ensures ByName()(r, s) || ByName()(s, r)
    {
      NamesAreTotal(r.name, s.name);
    }
    forall r: Region, s: Region, u: Region | ByName()(r, s) && ByName()(s, u)
      ensures ByName()(r, u)
    {
      NamesAreTransitive(r.name, s.name, u.name);
    }
    SortSorts(ByName(), regions);
    SortKeepsItems(ByName(), regions);
  }

  function Named(name: string): Region -> bool {
    (r: Region) => r.name == name
  }

  /** What stands under a name is the ratio of the last region that bears it. */
  lemma {:induction false} RatioUnderName(
    truth: OccupancyMap, built: OccupancyMap, cells: set<Cell>, regions: seq<Region>, name: string)
    requires built.Valid()
    ensures var ratios, bearers := RegionRatios(truth, built, cells, regions), Filter(Named(name), regions);
            && (name in ratios <==> bearers != [])
            && (bearers != [] ==> ratios[name] == RegionRatio(truth, built, cells, bearers[|bearers| - 1]))
  {
    if regions != [] {
      RatioUnderName(truth, built, cells, regions[..|regions| - 1], name);
    }
  }

  /** Sorting the regions by name is stable, so it does not change what is reported. */
  lemma SortingKeepsRatios(truth: OccupancyMap, built: OccupancyMap, cells: set<Cell>, regions: seq<Region>)
    requires built.Valid()
    ensures RegionRatios(truth, built, cells, Sort(ByName(), regions)) == RegionRatios(truth, built, cells, regions)
  {
    var ordered := Sort(ByName(), regions);
    var a, b := RegionRatios(truth, built, cells, ordered), RegionRatios(truth, built, cells, regions);
    forall name
      ensures name in a <==> name in b
      ensures name in a ==> a[name] == b[name]
    {
      forall r: Region, s: Region | Named(name)(r) && Named(name)(s)
        ensures ByName()(r, s)
      {
        NamesAreTotal(r.name, s.name);
      }
      SortIsStable(ByName(), regions, Named(name));
      RatioUnderName(truth, built, cells, ordered, name);
      RatioUnderName(truth, built, cells, regions, name);
    }
  }

  method ComputeRegionRatios(truth: OccupancyMap, built: OccupancyMap, cells: set<Cell>, regions: seq<Region>)
    returns (ratios: map<string, real>)
    requires built.Valid()
    ensures ratios == RegionRatios(truth, built, cells, regions)
  {
    ratios := map[];
    var ordered := Sort(ByName(), regions);
    for k := 0 to |ordered|
      invariant ratios == RegionRatios(truth, built, cells, ordered[..k])
    {
      var inside := CellsInRegion(truth, cells, ordered[k]);
      var covered := CountSaying(truth, built, inside, Free);
      ratios := ratios[ordered[k].name := Ratio(covered, |inside|)];
      assert ordered[..k + 1][..k] == ordered[..k];
    }
    assert ordered[..|ordered|] == ordered;
    SortingKeepsRatios(truth, built, cells, regions);
  }

  /** The names in the order in which a table filled region by region lists them. */
  function NamesEntered(regions: seq<Region>): (names: seq<string>)
    ensures forall name :: name in names <==> exists k :: 0 <= k < |regions| && regions[k].name == name
  {
    if regions == [] then []
    else
      var init, last := NamesEntered(regions[..|regions| - 1]), regions[|regions| - 1].name;
      assert regions == regions[..|regions| - 1] + [regions[|regions| - 1]];
      if last in init then init else init + [last]
  }

  /** Each name once, in ascending order. */
  ghost predicate Ascending(names: seq<string>) {
    forall i, j :: 0 <= i < j < |names| ==> NotAfter(names[i], names[j]) && names[i] != names[j]
  }

  lemma {:induction false} SortedNamesAscend(ordered: seq<Region>)
    requires IsSorted(ByName(), ordered)
    ensures Ascending(NamesEntered(ordered))
  {
    if ordered != [] {
      var init, last := ordered[..|ordered| - 1], ordered[|ordered| - 1];
      SortedNamesAscend(init);
      forall name | name in NamesEntered(init)
        ensures NotAfter(name, last.name)
      {
        var k :| 0 <= k < |init| && init[k].name == name;
        assert ByName()(ordered[k], last);
      }
    }
  }

  /** The report lists every region name once, in ascending order. */
  lemma ReportIsInNameOrder(
    truth: OccupancyMap, built: OccupancyMap, cells: set<Cell>, regions: seq<Region>, name: string)
    requires built.Valid()
    ensures Ascending(NamesEntered(Sort(ByName(), regions)))
    ensures name in NamesEntered(Sort(ByName(), regions)) <==> name in RegionRatios(truth, built, cells, regions)
  {
    var ordered := Sort(ByName(), regions);
    SortedByName(regions);
    SortedNamesAscend(ordered);
    SortingKeepsRatios(truth, built, cells, regions);
    EveryNameIsReported(truth, built, cells, ordered, name);
  }

  /** Region `k` is the one whose ratio is reported under its name. */
  predicate Reported(regions: seq<Region>, k: int) {
    0 <= k < |regions| && forall j :: k < j < |regions| ==> regions[j].name != regions[k].name
  }

  lemma {:induction false} ReportedRatio(
    truth: OccupancyMap, built: OccupancyMap, cells: set<Cell>, regions: seq<Region>, k: nat)
    requires built.Valid() && Reported(regions, k)
    ensures regions[k].name in RegionRatios(truth, built, cells, regions)
    ensures RegionRatios(truth, built, cells, regions)[regions[k].name] == RegionRatio(truth, built, cells, regions[k])
  {
    var last := |regions| - 1;
    if k < last {
      ReportedRatio(truth, built, cells, regions[..last], k);
      assert regions[last].name != regions[k].name;
    }
  }

  /** The last region of a name is reported. */
  lemma {:induction false} LastOfName(regions: seq<Region>, j: nat) returns (k: nat)
    requires j < |regions|
    ensures j <= k && Reported(regions, k) && regions[k].name == regions[j].name
    decreases |regions| - j
  {
    k := j;
    if i :| j < i < |regions| && regions[i].name == regions[j].name {
      k := LastOfName(regions, i);
    }
  }

  /** A name is in the table exactly when a region bears it, which is when a reported region does. */
  lemma EveryNameIsReported(
    truth: OccupancyMap, built: OccupancyMap, cells: set<Cell>, regions: seq<Region>, name: string)
    requires built.Valid()
    ensures name in RegionRatios(truth, built, cells, regions) <==>
            exists k :: Reported(regions, k) && regions[k].name == name
    ensures name in RegionRatios(truth, built, cells, regions) <==>
            exists j :: 0 <= j < |regions| && regions[j].name == name
  {
    var bearers := Filter(Named(name), regions);
    RatioUnderName(truth, built, cells, regions, name);
    FilterMembers(Named(name), regions);
    if bearers != [] {
      assert bearers[0] in regions && bearers[0].name == name;
      var j :| 0 <= j < |regions| && regions[j] == bearers[0];
      var k := LastOfName(regions, j);
    }
    if j :| 0 <= j < |regions| && regions[j].name == name {
      assert regions[j] in bearers;
    }
  }

  // ----- The obstacle boundary -----

  function MatchTolerance(truth: OccupancyMap, built: OccupancyMap): real {
    var coarsest := if truth.resolution >= built.resolution then truth.resolution else built.resolution;
    if 1.5 * coarsest >= 0.10 then 1.5 * coarsest else 0.10
  }

  /** The tolerance is the least that reaches ten centimetres and one and a half cells of either map. */
  lemma MatchToleranceIsLeast(truth: OccupancyMap, built: OccupancyMap, t: real)
    ensures MatchTolerance(truth, built) <= t <==>
            0.1 <= t && 1.5 * truth.resolution <= t && 1.5 * built.resolution <= t
  {
  }

  ghost function Represented(truth: OccupancyMap, built: OccupancyMap, walls: set<Cell>, h: real): set<Cell>
    requires built.Valid()
  {
    set w | w in walls && Matched(built, truth.CellCenter(w), MatchTolerance(truth, built), h)
  }

  ghost function FalseFree(truth: OccupancyMap, built: OccupancyMap, walls: set<Cell>, h: real): set<Cell>
    requires built.Valid()
  {
    set w | w in walls - Represented(truth, built, walls, h) && Says(truth, built, Free, w)
  }

  method CountBoundary(truth: OccupancyMap, built: OccupancyMap, walls: set<Cell>, h: real)
    returns (represented: nat, falseFree: nat)
    requires built.Valid()
    ensures represented == |Represented(truth, built, walls, h)|
    ensures falseFree == |FalseFree(truth, built, walls, h)|
  {
    ghost var hit, open := Represented(truth, built, walls, h), FalseFree(truth, built, walls, h);
    represented, falseFree := CountWalls(truth, built, walls, h, hit, open);
  }

  method CountWalls(
    truth: OccupancyMap, built: OccupancyMap, walls: set<Cell>, h: real, ghost hit: set<Cell>, ghost open: set<Cell>)
    returns (represented: nat, falseFree: nat)
    requires built.Valid() && hit <= walls && open <= walls
    requires forall w :: w in walls ==>
               && (w in hit <==> Matched(built, truth.CellCenter(w), MatchTolerance(truth, built), h))
               && (w in open <==> w !in hit && Says(truth, built, Free, w))
    ensures represented == |hit| && falseFree == |open|
  {
    represented, falseFree := 0, 0;
    var rest := walls;
    assert hit - rest == {} && open - rest == {};
    while rest != {}
      invariant rest <= walls && represented == |hit - rest| && falseFree == |open - rest|
      decreases rest
    {
      var w :| w in rest;
      CountedOneMore(hit, rest, w);
      CountedOneMore(open, rest, w);
      var matched := OccupiedNear(built, truth.CellCenter(w), MatchTolerance(truth, built), h);
      if matched {
        represented := represented + 1;
      } else if Says(truth, built, Free, w) {
        falseFree := falseFree + 1;
      }
      rest := rest - {w};
    }
    assert hit - rest == hit && open - rest == open;
  }

  /** A wall is represented, falsely free, or neither; never both. */
  lemma RepresentedAndFalseFreeAreDisjoint(truth: OccupancyMap, built: OccupancyMap, walls: set<Cell>, h: real)
    requires built.Valid()
    ensures |Represented(truth, built, walls, h)| + |FalseFree(truth, built, walls, h)| <= |walls|
  {
    var hit, open := Represented(truth, built, walls, h), FalseFree(truth, built, walls, h);
    assert |hit + open| == |hit| + |open|;
    SubsetSize(hit + open, walls);
  }

  // ----- The evaluation -----

  predicate RegionsPass(ratios: map<string, real>, threshold: real) {
    ratios != map[] && forall name :: name in ratios ==> ratios[name] >= threshold
  }

  datatype Evaluation = Evaluation(
    reachable: nat, covered: nat, unknown: nat, regionRatios: map<string, real>,
    boundary: nat, represented: nat, falseFree: nat)
  {
    function RecallRatio(): real {
      if boundary == 0 then 1.0 else Ratio(represented, boundary)
    }

    function FalseFreeRatio(): real {
      if boundary == 0 then 0.0 else Ratio(falseFree, boundary)
    }

    predicate Passes(t: Thresholds) {
      && Ratio(covered, reachable) >= t.coverage
      && RegionsPass(regionRatios, t.region)
      && Ratio(unknown, reachable) <= t.unknown
      && RecallRatio() >= t.recall
      && FalseFreeRatio() <= t.falseFree
    }
  }

  ghost function Evaluated(
    truth: OccupancyMap, built: OccupancyMap, start: Point, regions: seq<Region>, clearance: real, h: real): Evaluation
    requires truth.Valid() && built.Valid() && clearance >= 0.0 && StartIsSafe(truth, start, clearance)
  {
    ReachableShrinks(truth, start, 0.0, clearance);
    var cells := ReachableSet(truth, start, clearance);
    var walls := BoundaryOf(truth, ReachableSet(truth, start, 0.0));
    Evaluation(|cells|, |Saying(truth, built, cells, Free)|, |Saying(truth, built, cells, Unknown)|,
               RegionRatios(truth, built, cells, regions),
               |walls|, |Represented(truth, built, walls, h)|, |FalseFree(truth, built, walls, h)|)
  }

  /** Only the clearance search can refuse: once it accepts the start, the boundary search does too. */
  method EvaluateMap(
    truth: OccupancyMap, built: OccupancyMap, start: Point, regions: seq<Region>, clearance: real, h: real)
    returns (result: Result<Evaluation>)
    requires truth.Valid() && built.Valid()
    ensures result.Ok? <==> clearance >= 0.0 && StartIsSafe(truth, start, clearance)
    ensures result.Ok? ==> result.value == Evaluated(truth, built, start, regions, clearance, h)
  {
    var reached := ReachableComponent(truth, start, clearance);
    if reached.Rejected? {
      return Rejected(reached.reason);
    }
    ReachableShrinks(truth, start, 0.0, clearance);
    var covered := CountSaying(truth, built, reached.value, Free);
    var unknown := CountSaying(truth, built, reached.value, Unknown);
    var ratios := ComputeRegionRatios(truth, built, reached.value, regions);
    var walls := ReachableObstacleBoundary(truth, start);
    var represented, falseFree := CountBoundary(truth, built, walls.value, h);
    return Ok(Evaluation(|reached.value|, covered, unknown, ratios, |walls.value|, represented, falseFree));
  }

  predicate AtLeastShare(part: nat, whole: nat, t: real) {
    part as real >= t * whole as real
  }

  predicate AtMostShare(part: nat, whole: nat, t: real) {
    part as real <= t * whole as real
  }

  /** A map passes exactly if it reaches all five thresholds, counted in cells. */
  lemma PassesExactly(e: Evaluation, t: Thresholds)
    requires e.reachable > 0
    ensures e.Passes(t) <==>
            && AtLeastShare(e.covered, e.reachable, t.coverage) && AtMostShare(e.unknown, e.reachable, t.unknown)
            && (if e.boundary == 0 then t.recall <= 1.0 && 0.0 <= t.falseFree
                else AtLeastShare(e.represented, e.boundary, t.recall) &&
                     AtMostShare(e.falseFree, e.boundary, t.falseFree))
            && e.regionRatios != map[]
            && forall name :: name in e.regionRatios ==> e.regionRatios[name] >= t.region
  {
    RatioCompares(e.covered, e.reachable, t.coverage);
    RatioCompares(e.unknown, e.reachable, t.unknown);
    RegionsPassExactly(e.regionRatios, t.region);
    if e.boundary > 0 {
      RatioCompares(e.represented, e.boundary, t.recall);
      RatioCompares(e.falseFree, e.boundary, t.falseFree);
    }
  }

  lemma RegionsPassExactly(ratios: map<string, real>, threshold: real)
    ensures RegionsPass(ratios, threshold) <==>
            ratios != map[] && forall name :: name in ratios ==> ratios[name] >= threshold
  {
  }

  lemma RatioCompares(part: nat, whole: nat, t: real)
    requires whole > 0
    ensures Ratio(part, whole) >= t <==> AtLeastShare(part, whole, t)
    ensures Ratio(part, whole) <= t <==> AtMostShare(part, whole, t)
  {
    FactorOrder(Ratio(part, whole), t, whole as real);
    FactorOrder(t, Ratio(part, whole), whole as real);
  }

  lemma FactorOrder(x: real, y: real, k: real)
    requires k > 0.0
    ensures x <= y <==> x * k <= y * k
  {
    if x > y {
      assert (x - y) * k > 0.0;
    } else {
      assert (y - x) * k >= 0.0;
    }
  }

  // ----- A map scored against itself -----

  lemma OwnStateAtCentre(m: OccupancyMap, c: Cell)
    requires m.Valid() && m.InBounds(c)
    ensures m.StateAt(m.CellCenter(c)) == m.State(c)
  {
    CenterRoundTrip(m, c);
  }

  lemma OwnFreeCells(m: OccupancyMap, cells: set<Cell>)
    requires m.Valid() && forall c :: c in cells ==> IsFree(m, c)
    ensures Saying(m, m, cells, Free) == cells && Saying(m, m, cells, Unknown) == {}
  {
    forall c | c in cells
      ensures m.StateAt(m.CellCenter(c)) == Free
    {
      OwnStateAtCentre(m, c);
    }
  }

  lemma OwnWallIsMatched(m: OccupancyMap, w: Cell, h: real)
    requires m.Valid() && h > 0.0 && Sq(h) == 0.5 && IsWall(m, w)
    ensures Matched(m, m.CellCenter(w), MatchTolerance(m, m), h)
  {
    CenterRoundTrip(m, w);
    var p, tolerance := m.CellCenter(w), MatchTolerance(m, m);
    assert Within(DistSq(p, p), tolerance) by {
      assert p.x - p.x == 0.0 && p.y - p.y == 0.0 && Sq(0.0) == 0.0;
      SquareGrows(0.0, tolerance);
    }
    MatcherIsComplete(m, p, tolerance, h, w);
  }

  lemma OwnWalls(m: OccupancyMap, walls: set<Cell>, h: real)
    requires m.Valid() && h > 0.0 && Sq(h) == 0.5 && forall w :: w in walls ==> IsWall(m, w)
    ensures Represented(m, m, walls, h) == walls && FalseFree(m, m, walls, h) == {}
  {
    forall w | w in walls
      ensures w in Represented(m, m, walls, h)
    {
      OwnWallIsMatched(m, w, h);
    }
  }

  lemma SelfCounts(m: OccupancyMap, start: Point, regions: seq<Region>, clearance: real, h: real)
    requires m.Valid() && h > 0.0 && Sq(h) == 0.5 && clearance >= 0.0 && StartIsSafe(m, start, clearance)
    ensures var e := Evaluated(m, m, start, regions, clearance, h);
            e.covered == e.reachable > 0 && e.unknown == 0 && e.represented == e.boundary && e.falseFree == 0
  {
    ReachableShrinks(m, start, 0.0, clearance);
    var cells := ReachableSet(m, start, clearance);
    OwnFreeCells(m, cells);
    OwnWalls(m, BoundaryOf(m, ReachableSet(m, start, 0.0)), h);
    assert m.WorldToCell(start).value in cells;
  }

  lemma RatioOfWhole(n: nat)
    ensures n > 0 ==> Ratio(n, n) == 1.0
    ensures Ratio(0, n) == 0.0
  {
  }

  /** The truth map scores perfectly against itself, whatever its yaw and resolution. */
  lemma SelfScore(m: OccupancyMap, start: Point, regions: seq<Region>, clearance: real, h: real)
    requires m.Valid() && h > 0.0 && Sq(h) == 0.5 && clearance >= 0.0 && StartIsSafe(m, start, clearance)
    ensures var e := Evaluated(m, m, start, regions, clearance, h);
            && Ratio(e.covered, e.reachable) == 1.0 && Ratio(e.unknown, e.reachable) == 0.0
            && e.RecallRatio() == 1.0 && e.FalseFreeRatio() == 0.0
  {
    SelfCounts(m, start, regions, clearance, h);
    PerfectCounts(Evaluated(m, m, start, regions, clearance, h));
  }

  lemma PerfectCounts(e: Evaluation)
    requires e.covered == e.reachable > 0 && e.unknown == 0 && e.represented == e.boundary && e.falseFree == 0
    ensures Ratio(e.covered, e.reachable) == 1.0 && Ratio(e.unknown, e.reachable) == 0.0
    ensures e.RecallRatio() == 1.0 && e.FalseFreeRatio() == 0.0
  {
    RatioOfWhole(e.reachable);
    RatioOfWhole(e.boundary);
  }

  ghost predicate Visited(m: OccupancyMap, cells: set<Cell>, region: Region) {
    RegionCells(m, cells, region) != {}
  }

  /** The ratio of a region on the truth map itself: one if it holds a reachable cell, else zero. */
  lemma SelfRegionRatio(m: OccupancyMap, cells: set<Cell>, region: Region)
    requires m.Valid() && forall c :: c in cells ==> IsFree(m, c)
    ensures RegionRatio(m, m, cells, region) == if Visited(m, cells, region) then 1.0 else 0.0
  {
    var inside := RegionCells(m, cells, region);
    OwnFreeCells(m, inside);
    RatioOfWhole(|inside|);
  }

  /**
   The truth map passes its own evaluation exactly when there is a region and, unless the region
   threshold is zero, every reported region holds a reachable cell.
   */
  lemma SelfPasses(m: OccupancyMap, start: Point, regions: seq<Region>, t: Thresholds, clearance: real, h: real)
    requires m.Valid() && t.Valid() && h > 0.0 && Sq(h) == 0.5
    requires clearance >= 0.0 && StartIsSafe(m, start, clearance)
    ensures Evaluated(m, m, start, regions, clearance, h).Passes(t) <==>
            regions != [] &&
            forall k :: Reported(regions, k) ==>
              t.region == 0.0 || Visited(m, ReachableSet(m, start, clearance), regions[k])
  {
    SelfScore(m, start, regions, clearance, h);
    var e := Evaluated(m, m, start, regions, clearance, h);
    var cells := ReachableSet(m, start, clearance);
    assert e.Passes(t) <==> RegionsPass(e.regionRatios, t.region);
    SelfRegionsPass(m, cells, regions, t.region);
  }

  lemma SelfRegionsPass(m: OccupancyMap, cells: set<Cell>, regions: seq<Region>, threshold: real)
    requires m.Valid() && 0.0 <= threshold <= 1.0 && forall c :: c in cells ==> IsFree(m, c)
    ensures RegionsPass(RegionRatios(m, m, cells, regions), threshold) <==>
            regions != [] && forall k :: Reported(regions, k) ==> threshold == 0.0 || Visited(m, cells, regions[k])
  {
    var ratios := RegionRatios(m, m, cells, regions);
    forall k | Reported(regions, k)
      ensures regions[k].name in ratios
      ensures ratios[regions[k].name] == if Visited(m, cells, regions[k]) then 1.0 else 0.0
    {
      ReportedRatio(m, m, cells, regions, k);
      SelfRegionRatio(m, cells, regions[k]);
    }
    forall name | name in ratios
      ensures exists k :: Reported(regions, k) && regions[k].name == name
    {
      EveryNameIsReported(m, m, cells, regions, name);
    }
    if regions != [] {
      assert Reported(regions, |regions| - 1);
    }
  }

  // ----- Maps that leave out the walls -----

  lemma NoWallNoMatch(built: OccupancyMap, p: Point, tolerance: real, h: real)
    requires built.Valid() && h > 0.0 && Sq(h) == 0.5 && forall c :: !IsWall(built, c)
    ensures !Matched(built, p, tolerance, h)
  {
    forall row, column
      ensures !MatchedInWindow(built, p, tolerance, h, row, column)
    {
      assert !IsWall(built, Cell(row, column));
    }
  }

  /** A built map without a single occupied cell represents no wall, however free it looks. */
  lemma WallFreeMapFails(
    truth: OccupancyMap, built: OccupancyMap, start: Point, regions: seq<Region>, t: Thresholds, clearance: real,
    h: real)
    requires truth.Valid() && built.Valid() && h > 0.0 && Sq(h) == 0.5
    requires clearance >= 0.0 && StartIsSafe(truth, start, clearance)
    requires forall c :: !IsWall(built, c)
    ensures var e := Evaluated(truth, built, start, regions, clearance, h);
            e.represented == 0 && (e.boundary > 0 && t.recall > 0.0 ==> !e.Passes(t))
  {
    ReachableShrinks(truth, start, 0.0, clearance);
    var walls := BoundaryOf(truth, ReachableSet(truth, start, 0.0));
    forall w | w in walls
      ensures w !in Represented(truth, built, walls, h)
    {
      NoWallNoMatch(built, truth.CellCenter(w), MatchTolerance(truth, built), h);
    }
    assert Represented(truth, built, walls, h) == {};
    RatioOfWhole(|walls|);
  }
}
