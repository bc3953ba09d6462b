/**
 * The generator object: the grid of cells, the grid size, the selected pattern and the
 * selected swatch, with the operations that change them. Each pattern method, and the
 * rebuild-or-keep step, is proved to leave the grid exactly as the corresponding function
 * of module GridSpec says; the click, clear and resize methods state the new grid directly,
 * and the pattern and swatch setters leave the grid alone.
 */
module Generator {
  import opened Wrappers
  import opened Palette
  import opened Formulas
  import opened GridSpec

  /** The colour a click paints: the selected swatch if there is one, else a random one. */
  function ClickColor(selected: Option<Color>, u: UnitInterval): (c: Color)
    ensures selected.Some? ==> c == selected.value
    ensures selected.None? ==> c == RandomColor(u)
  {
    match selected
    case Some(s) => s
    case None => RandomColor(u)
  }

  /**
   * The scan of generateOrganicPattern for the seed closest to (x, y). The source starts
   * from `minDistance = Infinity`, which `closest == None` stands for here, so the first
   * seed is always taken; a later seed replaces the best only when strictly closer.
   */
  method ClosestSeed(seeds: seq<Seed>, x: int, y: int) returns (closest: Option<nat>)
    ensures closest.None? <==> |seeds| == 0
    ensures closest.Some? ==> IsFirstNearest(seeds, x, y, closest.value)
  {
    closest := None;
    var minDistance := 0.0;
    for i := 0 to |seeds|
      invariant closest.None? <==> i == 0
      invariant closest.Some? ==> IsFirstNearest(seeds[..i], x, y, closest.value)
      invariant closest.Some? ==> minDistance == DistSq(seeds[closest.value], x, y)
    {
      var d := DistSq(seeds[i], x, y);
      if closest.None? || d < minDistance {
        closest, minDistance := Some(i), d;
      }
      assert forall j :: 0 <= j <= i ==> seeds[..i + 1][j] == seeds[j];
    }
    assert seeds[..|seeds|] == seeds;
  }

  // ---------------------------------------------------------------------------
  // The offset loops of one cluster, painted up to offset (dx, dy) in (dx, dy) order.

  predicate Reached(ox: int, oy: int, dx: int, dy: int) {
    ox < dx || (ox == dx && oy < dy)
  }

  ghost function PartialDisk(before: seq<Cell>, n: nat, c: Cluster, dx: int, dy: int): (r: seq<Cell>)
    requires |before| == n * n
    ensures |r| == n * n
  {
    seq(|before|, i requires 0 <= i < |before| => PartialCell(before, n, c, dx, dy, i))
  }

  ghost function PartialCell(before: seq<Cell>, n: nat, c: Cluster, dx: int, dy: int, i: nat): Cell
    requires |before| == n * n && i < |before|
  {
    if InDisk(c, Col(i, n), Row(i, n)) && Reached(Col(i, n) - c.cx, Row(i, n) - c.cy, dx, dy)
    then Colored(c.color) else before[i]
  }

  /** Before the first offset nothing is painted. */
  lemma PartialDiskStart(before: seq<Cell>, n: nat, c: Cluster)
    requires |before| == n * n
    ensures PartialDisk(before, n, c, -(c.radius as int), -(c.radius as int)) == before
  {
    var r := PartialDisk(before, n, c, -(c.radius as int), -(c.radius as int));
    forall i | 0 <= i < |before| ensures r[i] == before[i] {
      if InDisk(c, Col(i, n), Row(i, n)) {
        InDiskOffsets(c, Col(i, n), Row(i, n));
      }
    }
  }

  /** Visiting offset (dx, dy) paints its cell, if it is inside the grid and the disk. */
  lemma PartialDiskStep(before: seq<Cell>, n: nat, c: Cluster, dx: int, dy: int)
    requires |before| == n * n
    ensures var x, y := c.cx + dx, c.cy + dy;
      PartialDisk(before, n, c, dx, dy + 1) ==
        if 0 <= x < n && 0 <= y < n && dx * dx + dy * dy <= c.radius * c.radius
        then PartialDisk(before, n, c, dx, dy)[CellIndex(x, y, n) := Colored(c.color)]
        else PartialDisk(before, n, c, dx, dy)
  {
    var x, y := c.cx + dx, c.cy + dy;
    var written := 0 <= x < n && 0 <= y < n && dx * dx + dy * dy <= c.radius * c.radius;
    var prev, next := PartialDisk(before, n, c, dx, dy), PartialDisk(before, n, c, dx, dy + 1);
    if written {
      PositionRoundTrip(x, y, n);
      var w := CellIndex(x, y, n);
      forall i | 0 <= i < |before| ensures next[i] == prev[w := Colored(c.color)][i] {
        PartialDiskStepCell(before, n, c, dx, dy, i);
      }
      assert next == prev[w := Colored(c.color)];
    } else {
      forall i | 0 <= i < |before| ensures next[i] == prev[i] {
        PartialDiskStepCell(before, n, c, dx, dy, i);
      }
      assert next == prev;
    }
  }

  lemma PartialDiskStepCell(before: seq<Cell>, n: nat, c: Cluster, dx: int, dy: int, i: nat)
    requires |before| == n * n && i < |before|
    ensures var x, y := c.cx + dx, c.cy + dy;
      var written := 0 <= x < n && 0 <= y < n && dx * dx + dy * dy <= c.radius * c.radius;
      PartialDisk(before, n, c, dx, dy + 1)[i] ==
        if written && i == CellIndex(x, y, n) then Colored(c.color) else PartialDisk(before, n, c, dx, dy)[i]
  {
    var x, y := c.cx + dx, c.cy + dy;
    var col, row := Col(i, n), Row(i, n);
    var prev, next := PartialDisk(before, n, c, dx, dy), PartialDisk(before, n, c, dx, dy + 1);
    assert prev[i] == PartialCell(before, n, c, dx, dy, i);
    assert next[i] == PartialCell(before, n, c, dx, dy + 1, i);
    IndexRoundTrip(i, n);
    if col == x && row == y {
      assert i == CellIndex(x, y, n);
    } else if 0 <= x < n && 0 <= y < n {
      PositionRoundTrip(x, y, n);
      assert i != CellIndex(x, y, n);
    }
  }

  /** Finishing column dx is the same as starting column dx + 1. */
  lemma PartialDiskNextColumn(before: seq<Cell>, n: nat, c: Cluster, dx: int)
    requires |before| == n * n
    ensures PartialDisk(before, n, c, dx, c.radius + 1) == PartialDisk(before, n, c, dx + 1, -(c.radius as int))
  {
    var a, b := PartialDisk(before, n, c, dx, c.radius + 1), PartialDisk(before, n, c, dx + 1, -(c.radius as int));
    forall i | 0 <= i < |before| ensures a[i] == b[i] {
      if InDisk(c, Col(i, n), Row(i, n)) {
        InDiskOffsets(c, Col(i, n), Row(i, n));
      }
    }
  }

  /** After the last column every cell of the disk is painted. */
  lemma PartialDiskDone(before: seq<Cell>, n: nat, c: Cluster)
    requires |before| == n * n
    ensures PartialDisk(before, n, c, c.radius + 1, -(c.radius as int)) == PaintDisk(before, n, c)
  {
    var a, b := PartialDisk(before, n, c, c.radius + 1, -(c.radius as int)), PaintDisk(before, n, c);
    forall i | 0 <= i < |before| ensures a[i] == b[i] {
      if InDisk(c, Col(i, n), Row(i, n)) {
        InDiskOffsets(c, Col(i, n), Row(i, n));
      }
    }
  }

  // ---------------------------------------------------------------------------

  class PixelArtGenerator {
    var gridSize: nat
    var pattern: Pattern
    var selectedColor: Option<Color>
    var grid: array<Cell>

    /** The grid always has gridSize * gridSize cells, row-major. */
    ghost predicate Valid()
      reads this
    {
      grid.Length == gridSize * gridSize
    }

    /**
     * A 30 x 30 generator with the random pattern and no swatch selected, which then runs
     * generatePixelArt once: the grid starts with no cells, so it is built and filled.
     */
    constructor (d: Draws, geo: Geometry)
      requires DrawsFit(d, 30) && GeometryFits(geo, 30)
      ensures Valid() && fresh(grid)
      ensures gridSize == 30 && pattern == Random && selectedColor == None
      ensures grid[..] == RandomFill(EmptyGrid(30), d.cells)
    {
      gridSize := 30;
      pattern := Random;
      selectedColor := None;
      grid := new Cell[0];
      new;
      GeneratePixelArt(d, geo);
    }

    /** `createGrid`: a new grid of gridSize * gridSize empty cells, built one cell at a time. */
    method CreateGrid()
      modifies this`grid
      ensures Valid() && fresh(grid)
      ensures grid[..] == EmptyGrid(gridSize)
    {
      var cells := new Cell[gridSize * gridSize];
      for i := 0 to cells.Length
        invariant forall j :: 0 <= j < i ==> cells[j] == Empty
      {
        cells[i] := Empty;
      }
      grid := cells;
      assert grid[..] == EmptyGrid(gridSize);
    }

    /** The grid-size selector: a new size rebuilds the grid. */
    method ChangeGridSize(n: nat)
      modifies this`gridSize, this`grid
      ensures Valid() && fresh(grid)
      ensures gridSize == n && grid[..] == EmptyGrid(n)
    {
      gridSize := n;
      CreateGrid();
    }

    /** The pattern selector. */
    method ChangePattern(p: Pattern)
      modifies this`pattern
      ensures pattern == p
    {
      pattern := p;
    }

    /** A click on a palette swatch selects its colour for later cell clicks. */
    method SelectColor(c: Color)
      modifies this`selectedColor
      ensures selectedColor == Some(c)
    {
      selectedColor := Some(c);
    }

    /**
     * `togglePixel`: the clicked cell takes the selected colour, or a random one when no
     * swatch is selected, whatever it held; no other cell changes.
     */
    method TogglePixel(index: nat, u: UnitInterval)
      requires index < grid.Length
      modifies grid
      ensures grid[..] == old(grid[..])[index := Colored(ClickColor(selectedColor, u))]
    {
      grid[index] := Colored(ClickColor(selectedColor, u));
    }

    /** `clearGrid`: every cell becomes empty, whatever it held. */
    method ClearGrid()
      modifies grid
      ensures AllEmpty(grid[..])
    {
      for i := 0 to grid.Length
        invariant forall j :: 0 <= j < i ==> grid[j] == Empty
      {
        grid[i] := Empty;
      }
    }

    /** `generateRandomPattern`: every empty cell takes its drawn colour; no other cell changes. */
    method RandomPattern(cells: seq<UnitInterval>)
      requires |cells| >= grid.Length
      modifies grid
      ensures grid[..] == RandomFill(old(grid[..]), cells)
    {
      ghost var before := grid[..];
      for i := 0 to grid.Length
        invariant forall j :: 0 <= j < i ==> grid[j] == RandomFill(before, cells)[j]
        invariant forall j :: i <= j < grid.Length ==> grid[j] == before[j]
      {
        if IsEmpty(grid[i]) {
          grid[i] := Colored(RandomColor(cells[i]));
        }
      }
      assert grid[..] == RandomFill(before, cells);
    }

    /** The offset loops of one cluster: every in-bounds cell of its disk takes its colour. */
    method PaintCluster(c: Cluster)
      requires Valid()
      modifies grid
      ensures grid[..] == PaintDisk(old(grid[..]), gridSize, c)
    {
      ghost var before := grid[..];
      var n := gridSize;
      var r: int := c.radius;
      PartialDiskStart(before, n, c);
      var dx := -r;
      while dx <= r
        invariant -r <= dx <= r + 1
        invariant grid[..] == PartialDisk(before, n, c, dx, -r)
      {
        var dy := -r;
        while dy <= r
          invariant -r <= dy <= r + 1
          invariant grid[..] == PartialDisk(before, n, c, dx, dy)
        {
          var x, y := c.cx + dx, c.cy + dy;
          PartialDiskStep(before, n, c, dx, dy);
          if 0 <= x < n && 0 <= y < n && dx * dx + dy * dy <= r * r {
            PositionRoundTrip(x, y, n);
            grid[CellIndex(x, y, n)] := Colored(c.color);
          }
          dy := dy + 1;
        }
        PartialDiskNextColumn(before, n, c, dx);
        dx := dx + 1;
      }
      PartialDiskDone(before, n, c);
    }

    /**
     * `generateClusterPattern`: the base fill of empty cells, then floor(N/2) clusters,
     * each painting its disk over whatever is there.
     */
    method ClusterPattern(cells: seq<UnitInterval>, ds: seq<ClusterDraw>)
      requires Valid() && |cells| >= grid.Length && |ds| >= NumClusters(gridSize)
      modifies grid
      ensures grid[..] == ClusterResult(old(grid[..]), gridSize, cells, ds)
    {
      RandomPattern(cells);
      ghost var base := grid[..];
      ghost var clusters := MakeClusters(ds, gridSize);
      var numClusters := NumClusters(gridSize);
      for k := 0 to numClusters
        invariant grid[..] == Overlay(base, gridSize, clusters[..k])
      {
        var c := MakeCluster(ds[k], gridSize);
        PaintCluster(c);
        assert clusters[..k + 1][..k] == clusters[..k];
      }
      assert clusters[..numClusters] == clusters;
    }

    /**
     * `generateGradientPattern`: draw a direction and a ramp of 2 to 4 colours, then paint
     * every empty cell with the ramp colour at its ramp index; painted cells keep theirs.
     */
    method GradientPattern(d: GradientDraw, geo: Geometry)
      requires Valid() && |d.uColors| >= 4 && GeometryFits(geo, gridSize)
      modifies grid
      ensures grid[..] == GradientFill(old(grid[..]), gridSize, DirectionOf(d.uDirection), Ramp(d), geo)
    {
      ghost var before := grid[..];
      var direction := DirectionOf(d.uDirection);
      var numColors := RampLength(d.uCount);
      var ramp: seq<Color> := [];
      for j := 0 to numColors
        invariant ramp == Ramp(d)[..j]
      {
        ramp := ramp + [RandomColor(d.uColors[j])];
      }
      assert ramp == Ramp(d);
      for i := 0 to grid.Length
        invariant forall j :: 0 <= j < i ==> grid[j] == GradientFill(before, gridSize, direction, ramp, geo)[j]
        invariant forall j :: i <= j < grid.Length ==> grid[j] == before[j]
      {
        if IsEmpty(grid[i]) {
          var progress := Progress(direction, i, gridSize, geo);
          grid[i] := Colored(ramp[RampIndex(progress, |ramp|)]);
        }
      }
      assert grid[..] == GradientFill(before, gridSize, direction, ramp, geo);
    }

    /**
     * `generateGeometricPattern`: draw a shape and three colours, then paint every cell
     * with the colour of its band, whatever it held.
     */
    method GeometricPattern(d: GeometricDraw, geo: Geometry)
      requires Valid() && GeometryFits(geo, gridSize)
      modifies grid
      ensures grid[..] == GeometricPaint(old(grid[..]), gridSize, ShapeOf(d.uShape), d, geo)
    {
      ghost var before := grid[..];
      var shape := ShapeOf(d.uShape);
      var primary, secondary, tertiary := RandomColor(d.uPrimary), RandomColor(d.uSecondary), RandomColor(d.uTertiary);
      for i := 0 to grid.Length
        invariant forall j :: 0 <= j < i ==> grid[j] == GeometricPaint(before, gridSize, shape, d, geo)[j]
      {
        var x, y := Col(i, gridSize), Row(i, gridSize);
        grid[i] := Colored(BandColor(Band(shape, x, y, geo.rings[i]), primary, secondary, tertiary));
      }
      assert grid[..] == GeometricPaint(before, gridSize, shape, d, geo);
    }

    /**
     * `generateOrganicPattern`: scatter floor(N/2.5) seeds, then give every cell the colour
     * of its nearest seed when inside that seed's influence, else a drawn colour. With no
     * seeds no cell is painted.
     */
    method OrganicPattern(d: OrganicDraw)
      requires Valid() && |d.seeds| >= NumSeeds(gridSize) && |d.noise| >= grid.Length
      modifies grid
      ensures grid[..] == OrganicPaint(old(grid[..]), gridSize, MakeSeeds(d.seeds, gridSize), d.noise)
    {
      ghost var before := grid[..];
      var numSeeds := NumSeeds(gridSize);
      var seeds: seq<Seed> := [];
      for k := 0 to numSeeds
        invariant seeds == MakeSeeds(d.seeds, gridSize)[..k]
      {
        seeds := seeds + [MakeSeed(d.seeds[k], gridSize)];
      }
      assert seeds == MakeSeeds(d.seeds, gridSize);
      for i := 0 to grid.Length
        invariant forall j :: 0 <= j < i ==> grid[j] == OrganicPaint(before, gridSize, seeds, d.noise)[j]
        invariant forall j :: i <= j < grid.Length ==> grid[j] == before[j]
      {
        var x, y := Col(i, gridSize), Row(i, gridSize);
        var closest := ClosestSeed(seeds, x, y);
        NearestIsFirstNearest(seeds, x, y);
        if closest.Some? {
          FirstNearestUnique(seeds, x, y, closest.value, Nearest(seeds, x, y).value);
          var seed := seeds[closest.value];
          if WithinInfluence(DistSq(seed, x, y), seed.influence) {
            grid[i] := Colored(seed.color);
          } else {
            grid[i] := Colored(RandomColor(d.noise[i]));
          }
        }
      }
      assert grid[..] == OrganicPaint(before, gridSize, seeds, d.noise);
    }

    /** The pattern switch of generatePixelArt; an unrecognised pattern runs the random fill. */
    method RunPattern(d: Draws, geo: Geometry)
      requires Valid() && DrawsFit(d, gridSize) && GeometryFits(geo, gridSize)
      modifies grid
      ensures grid[..] == PatternResult(pattern, old(grid[..]), gridSize, d, geo)
    {
      match pattern
      case Random => RandomPattern(d.cells);
      case Clusters => ClusterPattern(d.cells, d.clusters);
      case Gradient => GradientPattern(d.gradient, geo);
      case Geometric => GeometricPattern(d.geometric, geo);
      case Organic => OrganicPattern(d.organic);
      case Other => RandomPattern(d.cells);
    }

    /**
     * `generatePixelArt`: a grid with no cells, or with every cell empty, is rebuilt; any
     * other grid is kept with its colours. Then the selected pattern runs.
     */
    method GeneratePixelArt(d: Draws, geo: Geometry)
      requires grid.Length == 0 || Valid()
      requires DrawsFit(d, gridSize) && GeometryFits(geo, gridSize)
      modifies this`grid, grid
      ensures Valid()
      ensures NeedsRebuild(old(grid[..])) ==> fresh(grid)
      ensures !NeedsRebuild(old(grid[..])) ==> grid == old(grid)
      ensures grid[..] == GenerateResult(pattern, old(grid[..]), gridSize, d, geo)
    {
      if grid.Length == 0 || AllEmpty(grid[..]) {
        CreateGrid();
      }
      RunPattern(d, geo);
    }
  }
}
