/**
 Printing a scene as a plain PGM map and loading the map back: what the loaded cells say about the
 objects of the scene.
 */
module ShowcaseScene {
  import opened Options
  import opened OccupancyGrid
  import opened Numerals
  import opened PlainPgm
  import opened Rounding

  // ----- The scene -----

  datatype Item =
    | Box(x: real, y: real, sizeX: real, sizeY: real, collides: bool)
    | Cylinder(x: real, y: real, radius: real, collides: bool)

  datatype Scene = Scene(
    minX: real, maxX: real, minY: real, maxY: real, resolution: real, objects: seq<Item>, spawn: Point)
  {
    function Columns(): int
      requires resolution > 0.0
    {
      RoundToInt((maxX - minX) / resolution)
    }

    function Rows(): int
      requires resolution > 0.0
    {
      RoundToInt((maxY - minY) / resolution)
    }

    /** The world point printed for an image row and column. */
    function PrintedCenter(row: int, column: int): Point {
      Point(minX + (column as real + 0.5) * resolution, maxY - (row as real + 0.5) * resolution)
    }
  }

  predicate Close(a: real, b: real, d: real) {
    -d <= a - b <= d
  }

  predicate Covers(item: Item, p: Point) {
    item.collides &&
    match item
    case Box(x, y, sizeX, sizeY, _) => Close(p.x, x, sizeX / 2.0) && Close(p.y, y, sizeY / 2.0)
    case Cylinder(x, y, radius, _) => Within(DistSq(p, Point(x, y)), radius)
  }

  predicate Covered(objects: seq<Item>, p: Point) {
    exists k :: 0 <= k < |objects| && Covers(objects[k], p)
  }

  /** A box covers what lies at most half its size from its middle on both axes, a cylinder its disc, and a
      thing without collision nothing. */
  lemma CoveredPoints(x: real, y: real, sizeX: real, sizeY: real, u: real, v: real)
    requires sizeX > 0.0 && sizeY > 0.0
    ensures Covers(Box(x, y, sizeX, sizeY, true), Point(x + u * sizeX, y + v * sizeY)) <==>
            -0.5 <= u <= 0.5 && -0.5 <= v <= 0.5
  {
    HalfOf(u, sizeX);
    HalfOf(v, sizeY);
  }

  lemma HalfOf(u: real, size: real)
    requires size > 0.0
    ensures -(size / 2.0) <= u * size <= size / 2.0 <==> -0.5 <= u <= 0.5
  {
    var half := size / 2.0;
    assert half == 0.5 * size;
    if u > 0.5 {
      assert (u - 0.5) * size > 0.0;
    } else if u < -0.5 {
      assert (u + 0.5) * size < 0.0;
    } else {
      assert (0.5 - u) * size >= 0.0 && (u + 0.5) * size >= 0.0;
    }
  }

  lemma CylinderCoversDisc(x: real, y: real, radius: real, p: Point)
    ensures Covers(Cylinder(x, y, radius, true), p) <==> radius >= 0.0 && Sq(p.x - x) + Sq(p.y - y) <= radius * radius
  {
  }

  lemma OnlyCollidingThingsCover(item: Item, p: Point)
    requires !item.collides
    ensures !Covers(item, p)
  {
  }

  const WALL := 0
  const FLOOR := 254

  function Pixel(scene: Scene, row: int, column: int): int {
    if Covered(scene.objects, scene.PrintedCenter(row, column)) then WALL else FLOOR
  }

  function AtLeastZero(n: int): (r: nat)
    ensures r == n || (n < 0 && r == 0)
  {
    if n < 0 then 0 else n
  }

  function PixelRow(scene: Scene, row: int, columns: nat): (pixels: seq<int>)
    ensures |pixels| == columns
  {
    seq(columns, c requires 0 <= c < columns => Pixel(scene, row, c))
  }

  function PixelGrid(scene: Scene): (grid: seq<seq<int>>)
    requires scene.resolution > 0.0
    ensures |grid| == AtLeastZero(scene.Rows())
    ensures forall r :: 0 <= r < |grid| ==> grid[r] == PixelRow(scene, r, AtLeastZero(scene.Columns()))
  {
    var columns := AtLeastZero(scene.Columns());
    seq(AtLeastZero(scene.Rows()), r requires 0 <= r < AtLeastZero(scene.Rows()) => PixelRow(scene, r, columns))
  }

  // ----- Printing -----

  function Join(separator: string, parts: seq<string>): string {
    if parts == [] then ""
    else if |parts| == 1 then parts[0]
    else parts[0] + separator + Join(separator, parts[1..])
  }

  function Texts(values: seq<int>): (texts: seq<string>)
    ensures |texts| == |values|
  {
    seq(|values|, i requires 0 <= i < |values| => PrintInt(values[i]))
  }

  function RowTexts(grid: seq<seq<int>>): (texts: seq<string>)
    ensures |texts| == |grid|
  {
    seq(|grid|, r requires 0 <= r < |grid| => Join(" ", Texts(grid[r])))
  }

  function PgmText(width: int, height: int, grid: seq<seq<int>>): string {
    HeaderText(PrintInt, width, height) + (Join("\n", RowTexts(grid)) + "\n")
  }

  method RenderPgm(scene: Scene) returns (text: string)
    requires scene.resolution > 0.0
    ensures text == PgmText(scene.Columns(), scene.Rows(), PixelGrid(scene))
  {
    var width, height := scene.Columns(), scene.Rows();
    var columns, count := AtLeastZero(width), AtLeastZero(height);
    ghost var grid := PixelGrid(scene);
    var rows: seq<string> := [];
    for r := 0 to count
      invariant rows == RowTexts(grid[..r])
    {
      var values: seq<string> := [];
      for c := 0 to columns
        invariant |values| == c && forall k :: 0 <= k < c ==> values[k] == PrintInt(Pixel(scene, r, k))
      {
        values := values + [PrintInt(if Covered(scene.objects, scene.PrintedCenter(r, c)) then WALL else FLOOR)];
      }
      assert values == Texts(grid[r]);
      rows := rows + [Join(" ", values)];
      assert rows == RowTexts(grid[..r + 1]);
    }
    assert grid[..count] == grid;
    PrintsWhite();
    var header := "P2\n" + COMMENT + "\n" + PrintInt(width) + " " + PrintInt(height) + "\n" + "255" + "\n";
    text := header + (Join("\n", rows) + "\n");
  }

  // ----- Reading the printed raster back -----

  function RowItems(values: seq<int>): (items: seq<Printed>)
    ensures |items| == |values|
  {
    seq(|values|, i requires 0 <= i < |values| => Printed(values[i], if i == |values| - 1 then '\n' else ' '))
  }

  lemma {:induction false} JoinedRow(values: seq<int>)
    requires values != []
    ensures Join(" ", Texts(values)) + "\n" == PrintAll(PrintInt, RowItems(values))
  {
    var items := RowItems(values);
    assert Texts(values)[1..] == Texts(values[1..]);
    if |values| == 1 {
      assert PrintAll(PrintInt, items[1..]) == "";
    } else {
      JoinedRow(values[1..]);
      assert items[1..] == RowItems(values[1..]);
    }
  }

  function AllItems(grid: seq<seq<int>>): seq<Printed> {
    if grid == [] then [] else RowItems(grid[0]) + AllItems(grid[1..])
  }

  function Flatten(grid: seq<seq<int>>): seq<int> {
    if grid == [] then [] else grid[0] + Flatten(grid[1..])
  }

  lemma {:induction false} PrintAllJoins(a: seq<Printed>, b: seq<Printed>)
    ensures PrintAll(PrintInt, a + b) == PrintAll(PrintInt, a) + PrintAll(PrintInt, b)
  {
    if a == [] {
      assert a + b == b;
    } else {
      assert (a + b)[1..] == a[1..] + b;
      PrintAllJoins(a[1..], b);
    }
  }

  lemma {:induction false} JoinedRows(grid: seq<seq<int>>)
    requires grid != [] && forall r :: 0 <= r < |grid| ==> grid[r] != []
    ensures Join("\n", RowTexts(grid)) + "\n" == PrintAll(PrintInt, AllItems(grid))
  {
    JoinedRow(grid[0]);
    PrintAllJoins(RowItems(grid[0]), AllItems(grid[1..]));
    assert RowTexts(grid)[1..] == RowTexts(grid[1..]);
    if |grid| > 1 {
      JoinedRows(grid[1..]);
      var first, rest := Join(" ", Texts(grid[0])), Join("\n", RowTexts(grid[1..]));
      assert first + "\n" + rest + "\n" == (first + "\n") + (rest + "\n");
    } else {
      assert PrintAll(PrintInt, AllItems(grid[1..])) == "";
    }
  }

  lemma {:induction false} ItemsHoldValues(grid: seq<seq<int>>)
    ensures ValuesOf(AllItems(grid)) == Flatten(grid)
    ensures forall i :: 0 <= i < |AllItems(grid)| ==> IsBlank(AllItems(grid)[i].separator)
  {
    if grid != [] {
      ItemsHoldValues(grid[1..]);
      assert ValuesOf(RowItems(grid[0])) == grid[0];
      assert ValuesOf(AllItems(grid)) == ValuesOf(RowItems(grid[0])) + ValuesOf(AllItems(grid[1..]));
    }
  }

  lemma {:induction false} FlattenedSize(grid: seq<seq<int>>, width: nat)
    requires forall r :: 0 <= r < |grid| ==> |grid[r]| == width
    ensures |Flatten(grid)| == |grid| * width
  {
    if grid != [] {
      FlattenedSize(grid[1..], width);
      assert |grid| * width == width + (|grid| - 1) * width;
    }
  }

  lemma {:induction false} FlattenedRange(grid: seq<seq<int>>, maximum: int)
    requires forall r :: 0 <= r < |grid| ==> InRange(grid[r], maximum)
    ensures InRange(Flatten(grid), maximum)
  {
    if grid != [] {
      FlattenedRange(grid[1..], maximum);
    }
  }

  ghost predicate IsRaster(width: int, height: int, grid: seq<seq<int>>) {
    && width > 0 && height > 0 && |grid| == height
    && forall r :: 0 <= r < height ==> |grid[r]| == width && InRange(grid[r], 255)
  }

  /** Printing a raster as plain PGM and reading it gives width, height, maximum and samples back. */
  lemma PgmRoundTrip(width: int, height: int, grid: seq<seq<int>>)
    requires IsRaster(width, height, grid)
    ensures ReadPgm(ParseInt, PgmText(width, height, grid)) == Ok(Image(width, height, 255, Flatten(grid)))
  {
    var body := Join("\n", RowTexts(grid)) + "\n";
    IntegersRoundTrip();
    HeaderIsRead(PrintInt, ParseInt, width, height, body);
    RasterIsRead(width, height, grid);
    FlattenedRange(grid, 255);
  }

  lemma RasterIsRead(width: int, height: int, grid: seq<seq<int>>)
    requires IsRaster(width, height, grid)
    ensures ReadRaster(ParseInt, "P2", Area(width, height), "\n" + (Join("\n", RowTexts(grid)) + "\n")) ==
            Ok(Flatten(grid))
  {
    JoinedRows(grid);
    ItemsHoldValues(grid);
    FlattenedSize(grid, width);
    IntegersRoundTrip();
    PrintedValuesAreRead(PrintInt, ParseInt, '\n', AllItems(grid));
    assert |AllItems(grid)| == |ValuesOf(AllItems(grid))|;
    assert ['\n'] + PrintAll(PrintInt, AllItems(grid)) == "\n" + PrintAll(PrintInt, AllItems(grid));
  }

  /** A scene whose bounds round to no column or no row prints a file the reader refuses. */
  lemma EmptySceneIsRefused(width: int, height: int, grid: seq<seq<int>>)
    requires width <= 0 || height <= 0
    ensures ReadPgm(ParseInt, PgmText(width, height, grid)) == Failed(BadMetadata)
  {
    IntegersRoundTrip();
    HeaderIsRead(PrintInt, ParseInt, width, height, Join("\n", RowTexts(grid)) + "\n");
  }

  // ----- Loading the map -----

  datatype MapYaml = MapYaml(
    resolution: real, origin: Point, cosine: real, sine: real, negate: bool, occupied: real, free: real)

  datatype LoadError = BadImage(error: PgmError) | BadPlacement | BadThresholds
  datatype Loaded = Map(m: OccupancyMap) | Refused(error: LoadError)

  function Classify(pixel: int, maximum: int, yaml: MapYaml): CellState
    requires maximum > 0
  {
    var normalized := pixel as real / maximum as real;
    var occupancy := if yaml.negate then normalized else 1.0 - normalized;
    if occupancy > yaml.occupied then Occupied
    else if occupancy < yaml.free then Free
    else Unknown
  }

  /** The samples cut into rows of the image, top row first. */
  function Cut(samples: seq<int>, width: nat, height: nat): (rows: seq<seq<int>>)
    requires |samples| == width * height
    ensures |rows| == height && forall r :: 0 <= r < height ==> |rows[r]| == width
    decreases height
  {
    if height == 0 then []
    else
      assert width * height == width + width * (height - 1);
      assert width * (height - 1) >= 0;
      [samples[..width]] + Cut(samples[width..], width, height - 1)
  }

  /** Row `r` and column `c` of the cut is sample `r * width + c`, as the flat list is indexed. */
  lemma {:induction false} CutIsRowMajor(samples: seq<int>, width: nat, height: nat, r: nat, c: nat)
    requires |samples| == width * height && r < height && c < width
    ensures 0 <= r * width + c < |samples| && Cut(samples, width, height)[r][c] == samples[r * width + c]
    decreases height
  {
    assert width * height == width + width * (height - 1);
    assert width * (height - 1) >= 0;
    if r > 0 {
      CutIsRowMajor(samples[width..], width, height - 1, r - 1, c);
      assert (r - 1) * width + c + width == r * width + c;
    }
  }

  lemma {:induction false} CutUndoesFlatten(grid: seq<seq<int>>, width: nat)
    requires forall r :: 0 <= r < |grid| ==> |grid[r]| == width
    ensures |Flatten(grid)| == width * |grid| && Cut(Flatten(grid), width, |grid|) == grid
  {
    FlattenedSize(grid, width);
    if grid != [] {
      CutUndoesFlatten(grid[1..], width);
      assert Flatten(grid)[..width] == grid[0] && Flatten(grid)[width..] == Flatten(grid[1..]);
    }
  }

  function StateRow(pixels: seq<int>, maximum: int, yaml: MapYaml): (states: seq<CellState>)
    requires maximum > 0
    ensures |states| == |pixels|
  {
    seq(|pixels|, c requires 0 <= c < |pixels| => Classify(pixels[c], maximum, yaml))
  }

  function StateRows(grid: seq<seq<int>>, maximum: int, yaml: MapYaml): (rows: seq<seq<CellState>>)
    requires maximum > 0
    ensures |rows| == |grid| && forall r :: 0 <= r < |grid| ==> rows[r] == StateRow(grid[r], maximum, yaml)
  {
    seq(|grid|, r requires 0 <= r < |grid| => StateRow(grid[r], maximum, yaml))
  }

  predicate GoodThresholds(yaml: MapYaml) {
    0.0 <= yaml.free < yaml.occupied <= 1.0
  }

  function LoadImage(image: Image, yaml: MapYaml): Loaded
    requires image.width > 0 && image.height > 0 && image.maximum > 0
    requires |image.samples| == image.width * image.height
  {
    if yaml.resolution <= 0.0 then Refused(BadPlacement)
    else if !GoodThresholds(yaml) then Refused(BadThresholds)
    else Map(OccupancyMap(image.width, image.height, yaml.resolution, yaml.origin, yaml.cosine, yaml.sine,
                          StateRows(Cut(image.samples, image.width, image.height), image.maximum, yaml)))
  }

  function LoadMap(data: string, yaml: MapYaml): Loaded {
    var image := ReadPgm(ParseInt, data);
    if image.Failed? then Refused(BadImage(image.error))
    else AcceptedImageIsSound(ParseInt, data); LoadImage(image.value, yaml)
  }

  /** A map is loaded exactly from an accepted image, a positive resolution and ordered thresholds. */
  lemma LoadedExactly(data: string, yaml: MapYaml)
    ensures LoadMap(data, yaml).Map? <==>
            ReadPgm(ParseInt, data).Ok? && yaml.resolution > 0.0 && 0.0 <= yaml.free < yaml.occupied <= 1.0
    ensures var loaded := LoadMap(data, yaml); loaded.Refused? ==>
              && (ReadPgm(ParseInt, data).Failed? ==> loaded.error == BadImage(ReadPgm(ParseInt, data).error))
              && (loaded.error == BadPlacement <==> ReadPgm(ParseInt, data).Ok? && yaml.resolution <= 0.0)
  {
  }

  /** A loaded cell shows the sample that the reader found in its place of the file, the top row first. */
  lemma LoadedCellShowsItsSample(data: string, yaml: MapYaml, r: nat, c: nat)
    requires LoadMap(data, yaml).Map?
    requires r < LoadMap(data, yaml).m.height && c < LoadMap(data, yaml).m.width
    ensures var m, image := LoadMap(data, yaml).m, ReadPgm(ParseInt, data).value;
            && m.width == image.width && m.height == image.height && |m.rows| == m.height && |m.rows[r]| == m.width
            && image.maximum > 0 && 0 <= r * m.width + c < |image.samples|
            && m.rows[r][c] == Classify(image.samples[r * m.width + c], image.maximum, yaml)
  {
    var image := ReadPgm(ParseInt, data).value;
    AcceptedImageIsSound(ParseInt, data);
    CutIsRowMajor(image.samples, image.width, image.height, r, c);
  }

  /** The map description printed beside the image, in world or in start-relative coordinates. */
  function RenderMapYaml(scene: Scene, relativeToSpawn: bool): MapYaml {
    var offset := if relativeToSpawn then scene.spawn else Point(0.0, 0.0);
    MapYaml(scene.resolution, Point(scene.minX - offset.x, scene.minY - offset.y), 1.0, 0.0, false, 0.65, 0.196)
  }

  /** What a sample says: how dark it is against the two thresholds, or how bright if negated. */
  lemma ClassifiedExactly(pixel: int, maximum: int, yaml: MapYaml)
    requires maximum > 0 && GoodThresholds(yaml)
    ensures var dark := (if yaml.negate then pixel else maximum - pixel) as real;
            && (Classify(pixel, maximum, yaml) == Occupied <==> dark > yaml.occupied * maximum as real)
            && (Classify(pixel, maximum, yaml) == Free <==> dark < yaml.free * maximum as real)
  {
    var m, dark := maximum as real, (if yaml.negate then pixel else maximum - pixel) as real;
    var occupancy := dark / m;
    assert occupancy * m == dark;
    var normalized := pixel as real / m;
    assert normalized * m == pixel as real;
    assert (1.0 - normalized) * m == m - pixel as real;
    SameQuotient(if yaml.negate then normalized else 1.0 - normalized, occupancy, m);
    QuotientOrder(occupancy, yaml.occupied, m);
    QuotientOrder(occupancy, yaml.free, m);
  }

  lemma SameQuotient(x: real, y: real, m: real)
    requires m > 0.0 && x * m == y * m
    ensures x == y
  {
  }

  lemma QuotientOrder(x: real, t: real, m: real)
    requires m > 0.0
    ensures (x > t <==> x * m > t * m) && (x < t <==> x * m < t * m)
  {
    assert (x - t) * m == x * m - t * m;
    if x > t {
      assert (x - t) * m > 0.0;
    } else if x < t {
      assert (x - t) * m < 0.0;
    }
  }

  /** The two values as they stand in the file. */
  lemma PixelTexts(scene: Scene, row: int, column: int)
    ensures PrintInt(Pixel(scene, row, column)) ==
            if Covered(scene.objects, scene.PrintedCenter(row, column)) then "0" else "254"
  {
    assert Decimal(0) == "0";
    assert Decimal(2) == "2";
    assert Decimal(25) == "2" + "5";
    assert Decimal(254) == "25" + "4";
  }

  // ----- What the loaded cells say -----

  lemma PixelsClassify(yaml: MapYaml)
    requires !yaml.negate && yaml.occupied == 0.65 && yaml.free == 0.196
    ensures Classify(WALL, 255, yaml) == Occupied && Classify(FLOOR, 255, yaml) == Free
  {
    assert 0 as real / 255 as real == 0.0;
    assert 254 as real / 255 as real > 0.99;
  }

  ghost predicate ShowsScene(scene: Scene, m: OccupancyMap)
    requires scene.resolution > 0.0
  {
    && m.Valid() && m.width == scene.Columns() && m.height == scene.Rows()
    && forall r, c :: 0 <= r < m.height && 0 <= c < m.width ==>
         m.State(Cell(r, c)) == if Covered(scene.objects, scene.PrintedCenter(r, c)) then Occupied else Free
  }

  lemma SceneIsRaster(scene: Scene)
    requires scene.resolution > 0.0 && scene.Columns() > 0 && scene.Rows() > 0
    ensures IsRaster(scene.Columns(), scene.Rows(), PixelGrid(scene))
  {
  }

  lemma LoadedCells(scene: Scene, yaml: MapYaml, m: OccupancyMap)
    requires scene.resolution > 0.0 && scene.Columns() > 0 && scene.Rows() > 0
    requires !yaml.negate && yaml.occupied == 0.65 && yaml.free == 0.196
    requires m.Valid() && m.width == scene.Columns() && m.height == scene.Rows()
    requires m.rows == StateRows(PixelGrid(scene), 255, yaml)
    ensures ShowsScene(scene, m)
  {
    PixelsClassify(yaml);
    forall r, c | 0 <= r < m.height && 0 <= c < m.width
      ensures m.State(Cell(r, c)) == if Covered(scene.objects, scene.PrintedCenter(r, c)) then Occupied else Free
    {
      assert m.rows[r] == StateRow(PixelGrid(scene)[r], 255, yaml);
      assert PixelGrid(scene)[r][c] == Pixel(scene, r, c);
    }
  }

  /** Printing a scene and loading it gives a map that shows every printed sample, none unknown. */
  lemma SceneRoundTrip(scene: Scene, relativeToSpawn: bool)
    requires scene.resolution > 0.0 && scene.Columns() > 0 && scene.Rows() > 0
    ensures var text := PgmText(scene.Columns(), scene.Rows(), PixelGrid(scene));
            var loaded := LoadMap(text, RenderMapYaml(scene, relativeToSpawn));
            loaded.Map? && ShowsScene(scene, loaded.m)
  {
    var width, height, grid := scene.Columns(), scene.Rows(), PixelGrid(scene);
    var yaml := RenderMapYaml(scene, relativeToSpawn);
    SceneIsRaster(scene);
    PgmRoundTrip(width, height, grid);
    CutUndoesFlatten(grid, width);
    var states := StateRows(grid, 255, yaml);
    var m := OccupancyMap(width, height, yaml.resolution, yaml.origin, yaml.cosine, yaml.sine, states);
    assert Sq(1.0) + Sq(0.0) == 1.0;
    LoadedCells(scene, yaml, m);
  }

  /** The world point that the loaded map takes for the centre of a cell. */
  function LoadedCenter(scene: Scene, relativeToSpawn: bool, m: OccupancyMap, r: int, c: int): Point {
    var offset := if relativeToSpawn then scene.spawn else Point(0.0, 0.0);
    var p := m.CellCenter(Cell(r, c));
    Point(p.x + offset.x, p.y + offset.y)
  }

  /** The bounds are a whole number of rows apart. */
  predicate RowsFill(scene: Scene)
    requires scene.resolution > 0.0
  {
    scene.Rows() as real * scene.resolution == scene.maxY - scene.minY
  }

  predicate RowsSpan(scene: Scene, n: int) {
    n as real * scene.resolution == scene.maxY - scene.minY
  }

  /** They are, exactly when some whole number of rows spans them. */
  lemma RowsFillExactly(scene: Scene)
    requires scene.resolution > 0.0
    ensures RowsFill(scene) <==> exists n :: RowsSpan(scene, n)
  {
    if RowsFill(scene) {
      assert RowsSpan(scene, scene.Rows());
    }
    if n :| RowsSpan(scene, n) {
      WholeCount(n, scene.maxY - scene.minY, scene.resolution);
    }
  }

  /** The image is as wide and as high as the bounds, up to half a cell. */
  lemma GridFitsBounds(scene: Scene)
    requires scene.resolution > 0.0
    ensures Close(scene.Rows() as real * scene.resolution, scene.maxY - scene.minY, scene.resolution / 2.0)
    ensures Close(scene.Columns() as real * scene.resolution, scene.maxX - scene.minX, scene.resolution / 2.0)
  {
    CountTimesSize(scene.maxX - scene.minX, scene.resolution);
    CountTimesSize(scene.maxY - scene.minY, scene.resolution);
  }

  lemma CountTimesSize(length: real, size: real)
    requires size > 0.0
    ensures Close(RoundToInt(length / size) as real * size, length, size / 2.0)
  {
    var count := length / size;
    var off := RoundToInt(count) as real - count;
    assert count * size == length;
    assert RoundToInt(count) as real * size == count * size + off * size;
    HalfOf(off, size);
  }

  lemma WholeCount(n: int, length: real, size: real)
    requires size > 0.0 && n as real * size == length
    ensures RoundToInt(length / size) == n
  {
    assert length / size * size == length;
    SameQuotient(length / size, n as real, size);
    assert (n as real).Floor == n;
  }

  ghost predicate PlacedAs(scene: Scene, relativeToSpawn: bool, m: OccupancyMap)
    requires scene.resolution > 0.0
  {
    var yaml := RenderMapYaml(scene, relativeToSpawn);
    && m.resolution == yaml.resolution && m.origin == yaml.origin && m.cosine == yaml.cosine && m.sine == yaml.sine
    && m.height == scene.Rows()
  }

  /** Printed and loaded centres agree across, and up to the unfilled part of the last row in height. */
  lemma CentersDiffer(scene: Scene, relativeToSpawn: bool, m: OccupancyMap, r: int, c: int)
    requires scene.resolution > 0.0 && PlacedAs(scene, relativeToSpawn, m)
    ensures var p := LoadedCenter(scene, relativeToSpawn, m, r, c);
            && p.x == scene.PrintedCenter(r, c).x
            && p.y - scene.PrintedCenter(r, c).y == scene.Rows() as real * scene.resolution - (scene.maxY - scene.minY)
  {
    var local := m.LocalCenter(Cell(r, c));
    assert m.ToWorld(local) == Point(m.origin.x + local.x, m.origin.y + local.y);
    RowHeight(m.height, r, m.resolution);
  }

  lemma RowHeight(height: int, r: int, resolution: real)
    ensures ((height - r) as real - 0.5) * resolution == height as real * resolution - (r as real + 0.5) * resolution
  {
    assert (height - r) as real - 0.5 == height as real - (r as real + 0.5);
  }

  /** Every cell of the loaded map is occupied exactly when an object covers its world centre. */
  ghost predicate TellsTruth(scene: Scene, relativeToSpawn: bool, m: OccupancyMap)
    requires scene.resolution > 0.0 && ShowsScene(scene, m)
  {
    forall r, c :: 0 <= r < m.height && 0 <= c < m.width ==>
      (m.State(Cell(r, c)) == Occupied <==> Covered(scene.objects, LoadedCenter(scene, relativeToSpawn, m, r, c)))
  }

  lemma FilledRowsTellTruth(scene: Scene, relativeToSpawn: bool, m: OccupancyMap)
    requires scene.resolution > 0.0 && ShowsScene(scene, m) && PlacedAs(scene, relativeToSpawn, m) && RowsFill(scene)
    ensures TellsTruth(scene, relativeToSpawn, m)
  {
    forall r, c | 0 <= r < m.height && 0 <= c < m.width
      ensures LoadedCenter(scene, relativeToSpawn, m, r, c) == scene.PrintedCenter(r, c)
    {
      CentersDiffer(scene, relativeToSpawn, m, r, c);
    }
  }

  /** With the top row not filled, a point object on a printed centre makes the map tell a lie. */
  lemma UnfilledRowsLie(scene: Scene, relativeToSpawn: bool, m: OccupancyMap)
    requires scene.resolution > 0.0 && ShowsScene(scene, m) && PlacedAs(scene, relativeToSpawn, m) && !RowsFill(scene)
    requires var p := scene.PrintedCenter(0, 0);
             scene.objects == [Box(p.x, p.y, 0.0, 0.0, true)]
    ensures !TellsTruth(scene, relativeToSpawn, m)
  {
    CentersDiffer(scene, relativeToSpawn, m, 0, 0);
    var p := scene.PrintedCenter(0, 0);
    assert Covers(scene.objects[0], p);
    assert m.State(Cell(0, 0)) == Occupied;
  }

  /**
   Whatever objects a scene holds, its printed and loaded map is occupied exactly where an object
   covers the cell centre: this holds if and only if the vertical bounds are a whole number of
   rows apart. The horizontal bounds do not matter.
   */
  lemma MapIsTruthfulExactlyWhenRowsFill(scene: Scene, relativeToSpawn: bool)
    requires scene.resolution > 0.0 && scene.Columns() > 0 && scene.Rows() > 0
    ensures (forall objects :: SceneMapTellsTruth(scene.(objects := objects), relativeToSpawn)) <==> RowsFill(scene)
  {
    if RowsFill(scene) {
      forall objects
        ensures SceneMapTellsTruth(scene.(objects := objects), relativeToSpawn)
      {
        FilledSceneTellsTruth(scene.(objects := objects), relativeToSpawn);
      }
    } else {
      var objects := LyingObjects(scene, relativeToSpawn);
    }
  }

  lemma FilledSceneTellsTruth(scene: Scene, relativeToSpawn: bool)
    requires scene.resolution > 0.0 && scene.Columns() > 0 && scene.Rows() > 0 && RowsFill(scene)
    ensures SceneMapTellsTruth(scene, relativeToSpawn)
  {
    FilledRowsTellTruth(scene, relativeToSpawn, SceneMap(scene, relativeToSpawn));
  }

  lemma UnfilledSceneLies(scene: Scene, relativeToSpawn: bool)
    requires scene.resolution > 0.0 && scene.Columns() > 0 && scene.Rows() > 0 && !RowsFill(scene)
    requires var p := scene.PrintedCenter(0, 0);
             scene.objects == [Box(p.x, p.y, 0.0, 0.0, true)]
    ensures !SceneMapTellsTruth(scene, relativeToSpawn)
  {
    UnfilledRowsLie(scene, relativeToSpawn, SceneMap(scene, relativeToSpawn));
  }

  lemma LyingObjects(scene: Scene, relativeToSpawn: bool) returns (objects: seq<Item>)
    requires scene.resolution > 0.0 && scene.Columns() > 0 && scene.Rows() > 0 && !RowsFill(scene)
    ensures !SceneMapTellsTruth(scene.(objects := objects), relativeToSpawn)
  {
    var p := scene.PrintedCenter(0, 0);
    objects := [Box(p.x, p.y, 0.0, 0.0, true)];
    UnfilledSceneLies(scene.(objects := objects), relativeToSpawn);
  }

  ghost function SceneMap(scene: Scene, relativeToSpawn: bool): (m: OccupancyMap)
    requires scene.resolution > 0.0 && scene.Columns() > 0 && scene.Rows() > 0
    ensures ShowsScene(scene, m) && PlacedAs(scene, relativeToSpawn, m)
  {
    SceneRoundTrip(scene, relativeToSpawn);
    LoadMap(PgmText(scene.Columns(), scene.Rows(), PixelGrid(scene)), RenderMapYaml(scene, relativeToSpawn)).m
  }

  ghost predicate SceneMapTellsTruth(scene: Scene, relativeToSpawn: bool)
    requires scene.resolution > 0.0 && scene.Columns() > 0 && scene.Rows() > 0
  {
    TellsTruth(scene, relativeToSpawn, SceneMap(scene, relativeToSpawn))
  }
}
