/**
 * What each pattern does to the whole grid, as functions from the grid before to the grid
 * after. The generator's pattern methods and its rebuild-or-keep step are proved to compute
 * exactly these; the lemmas here state
 * what the patterns promise about the result.
 */
module GridSpec {
  import opened Wrappers
  import opened Palette
  import opened Formulas

  // ---------------------------------------------------------------------------
  // Grid lifecycle (createGrid, clearGrid, the rebuild test of generatePixelArt).

  /** A freshly built grid: N*N cells, every one empty. */
  function EmptyGrid(n: nat): (g: seq<Cell>)
    ensures |g| == n * n && AllEmpty(g)
  {
    seq(n * n, _ => Empty)
  }

  /** `generatePixelArt` rebuilds when the grid has no cells or every cell is empty. */
  predicate NeedsRebuild(g: seq<Cell>) {
    |g| == 0 || AllEmpty(g)
  }

  /** The grid a pattern pass starts from. */
  function PrepareGrid(g: seq<Cell>, n: nat): (r: seq<Cell>)
    requires |g| == n * n || |g| == 0
    ensures |r| == n * n
    ensures NeedsRebuild(g) ==> AllEmpty(r)
    ensures !NeedsRebuild(g) ==> r == g
  {
    if NeedsRebuild(g) then EmptyGrid(n) else g
  }

  /** A grid holding at least one colour is kept, so its colours persist into the next pass. */
  lemma ColoredGridIsKept(g: seq<Cell>, n: nat, i: nat)
    requires |g| == n * n && i < |g| && g[i] != Empty
    ensures PrepareGrid(g, n) == g
  {
  }

  // ---------------------------------------------------------------------------
  // Random fill (generateRandomPattern, and the base pass of generateClusterPattern).

  /** Each empty cell takes the colour drawn for it; painted cells keep theirs. */
  function RandomFill(g: seq<Cell>, draws: seq<UnitInterval>): (r: seq<Cell>)
    requires |draws| >= |g|
    ensures |r| == |g|
    ensures NoneEmpty(r)
    ensures forall i :: 0 <= i < |g| && g[i] != Empty ==> r[i] == g[i]
  {
    seq(|g|, i requires 0 <= i < |g| => if g[i] == Empty then Colored(RandomColor(draws[i])) else g[i])
  }

  /** A second fill finds no empty cell, so it changes nothing, whatever it draws. */
  lemma RandomFillIdempotent(g: seq<Cell>, d1: seq<UnitInterval>, d2: seq<UnitInterval>)
    requires |d1| >= |g| && |d2| >= |g|
    ensures RandomFill(RandomFill(g, d1), d2) == RandomFill(g, d1)
  {
    var once := RandomFill(g, d1);
    assert forall i :: 0 <= i < |once| ==> once[i] != Empty;
  }

  // ---------------------------------------------------------------------------
  // Clusters (generateClusterPattern).

  /** One cluster overwrites every cell of its disk, whatever the cell held. */
  function PaintDisk(g: seq<Cell>, n: nat, c: Cluster): (r: seq<Cell>)
    requires |g| == n * n
    ensures |r| == n * n
  {
    seq(|g|, i requires 0 <= i < |g| =>
      if InDisk(c, Col(i, n), Row(i, n)) then Colored(c.color) else g[i])
  }

  /** Cluster k holds (x, y) in its disk and no later cluster does. */
  predicate IsLastCover(cs: seq<Cluster>, x: int, y: int, k: int) {
    0 <= k < |cs| && InDisk(cs[k], x, y) &&
    forall j :: k < j < |cs| ==> !InDisk(cs[j], x, y)
  }

  /** The clusters painted in list order. */
  function Overlay(g: seq<Cell>, n: nat, cs: seq<Cluster>): (r: seq<Cell>)
    requires |g| == n * n
    ensures |r| == n * n
    decreases |cs|
  {
    if |cs| == 0 then g else PaintDisk(Overlay(g, n, cs[..|cs| - 1]), n, cs[|cs| - 1])
  }

  /**
   * A cell inside no disk keeps what it held; a cell inside some disks ends with the colour
   * of the highest-numbered cluster whose disk holds it.
   */
  lemma {:induction false} OverlayCell(g: seq<Cell>, n: nat, cs: seq<Cluster>, i: nat)
    requires |g| == n * n && i < |g|
    ensures (forall k :: 0 <= k < |cs| ==> !InDisk(cs[k], Col(i, n), Row(i, n))) ==>
      Overlay(g, n, cs)[i] == g[i]
    ensures forall k :: IsLastCover(cs, Col(i, n), Row(i, n), k) ==>
      Overlay(g, n, cs)[i] == Colored(cs[k].color)
    decreases |cs|
  {
    if |cs| > 0 {
      var x, y := Col(i, n), Row(i, n);
      var last := |cs| - 1;
      var prefix := cs[..last];
      var prev := Overlay(g, n, prefix);
      OverlayCell(g, n, prefix, i);
      assert Overlay(g, n, cs)[i] == if InDisk(cs[last], x, y) then Colored(cs[last].color) else prev[i];
      forall k | IsLastCover(cs, x, y, k)
        ensures Overlay(g, n, cs)[i] == Colored(cs[k].color)
      {
        if k < last {
          assert prefix[k] == cs[k];
          assert forall j :: k < j < last ==> prefix[j] == cs[j];
          assert IsLastCover(prefix, x, y, k);
        }
      }
      if forall k :: 0 <= k < |cs| ==> !InDisk(cs[k], x, y) {
        assert forall k :: 0 <= k < last ==> prefix[k] == cs[k];
      }
    }
  }

  /** The clusters drawn for a grid of side n. */
  function MakeClusters(ds: seq<ClusterDraw>, n: nat): (cs: seq<Cluster>)
    requires |ds| >= NumClusters(n)
    ensures |cs| == NumClusters(n)
    ensures forall k :: 0 <= k < |cs| ==> cs[k].cx < n && cs[k].cy < n && 4 <= cs[k].radius <= 9
  {
    seq(NumClusters(n), k requires 0 <= k < NumClusters(n) => MakeCluster(ds[k], n))
  }

  /** The base fill, then the clusters in order. */
  function ClusterResult(g: seq<Cell>, n: nat, cells: seq<UnitInterval>, ds: seq<ClusterDraw>): (r: seq<Cell>)
    requires |g| == n * n && |cells| >= |g| && |ds| >= NumClusters(n)
    ensures |r| == n * n
  {
    Overlay(RandomFill(g, cells), n, MakeClusters(ds, n))
  }

  /**
   * After the cluster pattern no cell is empty; a cell inside no disk holds its base-fill
   * colour (its old colour if it had one), and a cell inside disks holds the colour of the
   * last of them.
   */
  lemma ClusterResultCell(g: seq<Cell>, n: nat, cells: seq<UnitInterval>, ds: seq<ClusterDraw>, i: nat)
    requires |g| == n * n && |cells| >= |g| && |ds| >= NumClusters(n) && i < |g|
    ensures ClusterResult(g, n, cells, ds)[i] != Empty
    ensures (forall k :: 0 <= k < NumClusters(n) ==> !InDisk(MakeClusters(ds, n)[k], Col(i, n), Row(i, n))) ==>
      ClusterResult(g, n, cells, ds)[i] == (if g[i] == Empty then Colored(RandomColor(cells[i])) else g[i])
    ensures forall k :: IsLastCover(MakeClusters(ds, n), Col(i, n), Row(i, n), k) ==>
      ClusterResult(g, n, cells, ds)[i] == Colored(MakeClusters(ds, n)[k].color)
  {
    var cs := MakeClusters(ds, n);
    var base := RandomFill(g, cells);
    OverlayCell(base, n, cs, i);
    if forall k :: 0 <= k < |cs| ==> !InDisk(cs[k], Col(i, n), Row(i, n)) {
    } else {
      LastCoverExists(cs, Col(i, n), Row(i, n));
    }
  }

  /** When some disk holds (x, y), one of them is the last. */
  lemma {:induction false} LastCoverExists(cs: seq<Cluster>, x: int, y: int)
    requires exists k :: 0 <= k < |cs| && InDisk(cs[k], x, y)
    ensures exists k :: IsLastCover(cs, x, y, k)
    decreases |cs|
  {
    var last := |cs| - 1;
    if InDisk(cs[last], x, y) {
      assert IsLastCover(cs, x, y, last);
    } else {
      var prefix := cs[..last];
      var k0 :| 0 <= k0 < |cs| && InDisk(cs[k0], x, y);
      assert prefix[k0] == cs[k0];
      LastCoverExists(prefix, x, y);
      var k :| IsLastCover(prefix, x, y, k);
      assert prefix[k] == cs[k];
      assert forall j :: k < j < last ==> prefix[j] == cs[j];
      assert IsLastCover(cs, x, y, k);
    }
  }

  // ---------------------------------------------------------------------------
  // Gradients (generateGradientPattern).

  /**
   * The floating-point geometry the model takes as given, one entry per cell: the progress
   * of the radial and spiral gradients, and `Math.floor(distance / 3)` for circles.
   */
  datatype Geometry = Geometry(radial: seq<real>, spiral: seq<real>, rings: seq<nat>)

  /**
   * The ranges those tables have in the source: radial progress is a distance from the
   * centre divided by the centre-to-corner distance, so in [0, 1]; spiral progress is an
   * angle taken modulo a full turn and divided by it, so in [0, 1).
   */
  predicate GeometryFits(geo: Geometry, n: nat) {
    |geo.radial| >= n * n && |geo.spiral| >= n * n && |geo.rings| >= n * n &&
    (forall i :: 0 <= i < |geo.radial| ==> 0.0 <= geo.radial[i] <= 1.0) &&
    (forall i :: 0 <= i < |geo.spiral| ==> 0.0 <= geo.spiral[i] < 1.0)
  }

  /** The progress of cell i along the drawn direction; every direction gives a value in [0, 1]. */
  function Progress(dir: Direction, i: nat, n: nat, geo: Geometry): (p: real)
    requires i < n * n && GeometryFits(geo, n)
    ensures 0.0 <= p <= 1.0
    ensures dir != Radial ==> p < 1.0
  {
    RowBound(i, n);
    match dir
    case Radial => geo.radial[i]
    case Spiral => geo.spiral[i]
    case _ =>
      LinearProgressInRange(dir, Col(i, n), Row(i, n), n);
      LinearProgress(dir, Col(i, n), Row(i, n), n)
  }

  datatype GradientDraw = GradientDraw(uDirection: UnitInterval, uCount: UnitInterval, uColors: seq<UnitInterval>)

  /** The ramp: 2 to 4 independently drawn palette colours. */
  function Ramp(d: GradientDraw): (ramp: seq<Color>)
    requires |d.uColors| >= RampLength(d.uCount)
    ensures 2 <= |ramp| <= 4
  {
    seq(RampLength(d.uCount), j requires 0 <= j < RampLength(d.uCount) => RandomColor(d.uColors[j]))
  }

  /** The gradient colour of cell i: the ramp entry at its ramp index. */
  function GradientColor(dir: Direction, ramp: seq<Color>, i: nat, n: nat, geo: Geometry): Color
    requires |ramp| >= 2 && i < n * n && GeometryFits(geo, n)
  {
    ramp[RampIndex(Progress(dir, i, n, geo), |ramp|)]
  }

  /** Empty cells take their gradient colour; painted cells keep theirs. */
  function GradientFill(g: seq<Cell>, n: nat, dir: Direction, ramp: seq<Color>, geo: Geometry): (r: seq<Cell>)
    requires |g| == n * n && |ramp| >= 2 && GeometryFits(geo, n)
    ensures |r| == |g|
    ensures NoneEmpty(r)
    ensures forall i :: 0 <= i < |g| && g[i] != Empty ==> r[i] == g[i]
  {
    seq(|g|, i requires 0 <= i < |g| =>
      if g[i] == Empty then Colored(GradientColor(dir, ramp, i, n, geo)) else g[i])
  }

  /**
   * The last ramp colour is never chosen: a cell the gradient paints gets one of the first
   * |ramp| - 1 ramp colours, so if the last colour differs from those, no cell it paints
   * takes it.
   */
  lemma GradientNeverPaintsLastColor(g: seq<Cell>, n: nat, dir: Direction, ramp: seq<Color>, geo: Geometry, i: nat)
    requires |g| == n * n && |ramp| >= 2 && GeometryFits(geo, n) && i < |g| && g[i] == Empty
    requires forall j :: 0 <= j < |ramp| - 1 ==> ramp[j] != ramp[|ramp| - 1]
    ensures GradientFill(g, n, dir, ramp, geo)[i] != Colored(ramp[|ramp| - 1])
  {
    var k := RampIndex(Progress(dir, i, n, geo), |ramp|);
    assert GradientFill(g, n, dir, ramp, geo)[i] == Colored(ramp[k]);
  }

  /** With a two-colour ramp every empty cell takes the first ramp colour. */
  lemma TwoColorGradientIsUniform(g: seq<Cell>, n: nat, dir: Direction, ramp: seq<Color>, geo: Geometry, i: nat)
    requires |g| == n * n && |ramp| == 2 && GeometryFits(geo, n) && i < |g| && g[i] == Empty
    ensures GradientFill(g, n, dir, ramp, geo)[i] == Colored(ramp[0])
  {
    TwoColorRampUsesFirst(Progress(dir, i, n, geo));
  }

  /** Left to right, a horizontal gradient never steps back along the ramp. */
  lemma HorizontalGradientOrdered(n: nat, ramp: seq<Color>, geo: Geometry, i1: nat, i2: nat)
    requires |ramp| >= 2 && GeometryFits(geo, n) && i1 < n * n && i2 < n * n
    requires Col(i1, n) <= Col(i2, n)
    ensures RampIndex(Progress(Horizontal, i1, n, geo), |ramp|) <= RampIndex(Progress(Horizontal, i2, n, geo), |ramp|)
  {
    RowBound(i1, n);
    HorizontalProgressMonotone(Col(i1, n), Col(i2, n), Row(i1, n), Row(i2, n), n);
    RampIndexMonotone(Progress(Horizontal, i1, n, geo), Progress(Horizontal, i2, n, geo), |ramp|);
  }

  // ---------------------------------------------------------------------------
  // Geometric tilings (generateGeometricPattern).

  datatype GeometricDraw = GeometricDraw(uShape: UnitInterval, uPrimary: UnitInterval, uSecondary: UnitInterval, uTertiary: UnitInterval)

  /** The tiling colour of cell i. */
  function TileColor(shape: Shape, d: GeometricDraw, i: nat, n: nat, geo: Geometry): Color
    requires i < n * n && GeometryFits(geo, n)
  {
    BandColor(Band(shape, Col(i, n), Row(i, n), geo.rings[i]),
      RandomColor(d.uPrimary), RandomColor(d.uSecondary), RandomColor(d.uTertiary))
  }

  /** Every cell takes its tiling colour. */
  function GeometricPaint(g: seq<Cell>, n: nat, shape: Shape, d: GeometricDraw, geo: Geometry): (r: seq<Cell>)
    requires |g| == n * n && GeometryFits(geo, n)
    ensures |r| == |g|
  {
    seq(|g|, i requires 0 <= i < |g| => Colored(TileColor(shape, d, i, n, geo)))
  }

  /** The tiling overwrites whatever was there: the result does not depend on the old grid. */
  lemma GeometricIgnoresOldGrid(g1: seq<Cell>, g2: seq<Cell>, n: nat, shape: Shape, d: GeometricDraw, geo: Geometry)
    requires |g1| == n * n && |g2| == n * n && GeometryFits(geo, n)
    ensures GeometricPaint(g1, n, shape, d, geo) == GeometricPaint(g2, n, shape, d, geo)
    ensures NoneEmpty(GeometricPaint(g1, n, shape, d, geo))
  {
  }

  /** Two cells in the same band get the same colour, whatever colours were drawn. */
  lemma SameBandSameColor(shape: Shape, d: GeometricDraw, n: nat, geo: Geometry, i1: nat, i2: nat)
    requires GeometryFits(geo, n) && i1 < n * n && i2 < n * n
    requires Band(shape, Col(i1, n), Row(i1, n), geo.rings[i1]) == Band(shape, Col(i2, n), Row(i2, n), geo.rings[i2])
    ensures TileColor(shape, d, i1, n, geo) == TileColor(shape, d, i2, n, geo)
  {
  }

  // ---------------------------------------------------------------------------
  // Organic blotches (generateOrganicPattern).

  datatype OrganicDraw = OrganicDraw(seeds: seq<SeedDraw>, noise: seq<UnitInterval>)

  /** The seeds scattered over a grid of side n. */
  function MakeSeeds(ds: seq<SeedDraw>, n: nat): (seeds: seq<Seed>)
    requires |ds| >= NumSeeds(n)
    ensures |seeds| == NumSeeds(n)
    ensures forall k :: 0 <= k < |seeds| ==> 8.0 <= seeds[k].influence < 16.0
  {
    seq(NumSeeds(n), k requires 0 <= k < NumSeeds(n) => MakeSeed(ds[k], n))
  }

  /**
   * A cell takes the colour of its nearest seed when it lies inside that seed's
   * influence, and a freshly drawn colour otherwise; with no seed it is left alone.
   */
  function OrganicCell(seeds: seq<Seed>, x: int, y: int, prior: Cell, noise: UnitInterval): Cell
    requires forall k :: 0 <= k < |seeds| ==> seeds[k].influence > 0.0
  {
    match Nearest(seeds, x, y)
    case None => prior
    case Some(k) =>
      NearestIsFirstNearest(seeds, x, y);
      if WithinInfluence(DistSq(seeds[k], x, y), seeds[k].influence) then Colored(seeds[k].color)
      else Colored(RandomColor(noise))
  }

  function OrganicPaint(g: seq<Cell>, n: nat, seeds: seq<Seed>, noise: seq<UnitInterval>): (r: seq<Cell>)
    requires |g| == n * n && |noise| >= |g|
    requires forall k :: 0 <= k < |seeds| ==> seeds[k].influence > 0.0
    ensures |r| == |g|
  {
    seq(|g|, i requires 0 <= i < |g| => OrganicCell(seeds, Col(i, n), Row(i, n), g[i], noise[i]))
  }

  /**
   * With no seeds the organic pass paints nothing. With seeds, every cell is painted: with
   * the colour of the first nearest seed when it lies inside that seed's influence, and
   * with its own drawn colour otherwise.
   */
  lemma OrganicCellSpec(g: seq<Cell>, n: nat, seeds: seq<Seed>, noise: seq<UnitInterval>, i: nat, k: nat)
    requires |g| == n * n && |noise| >= |g| && i < |g|
    requires forall j :: 0 <= j < |seeds| ==> seeds[j].influence > 0.0
    ensures |seeds| == 0 ==> OrganicPaint(g, n, seeds, noise)[i] == g[i]
    ensures IsFirstNearest(seeds, Col(i, n), Row(i, n), k) ==>
      OrganicPaint(g, n, seeds, noise)[i] ==
        if WithinInfluence(DistSq(seeds[k], Col(i, n), Row(i, n)), seeds[k].influence)
        then Colored(seeds[k].color) else Colored(RandomColor(noise[i]))
  {
    var x, y := Col(i, n), Row(i, n);
    NearestIsFirstNearest(seeds, x, y);
    if IsFirstNearest(seeds, x, y, k) {
      FirstNearestUnique(seeds, x, y, k, Nearest(seeds, x, y).value);
    }
  }

  // ---------------------------------------------------------------------------
  // Pattern dispatch (generatePixelArt).

  /** The pattern selector; any unrecognised value falls back to the random fill. */
  datatype Pattern = Random | Clusters | Gradient | Geometric | Organic | Other

  /** Everything the random source supplies to one pattern pass. */
  datatype Draws = Draws(
    cells: seq<UnitInterval>,
    clusters: seq<ClusterDraw>,
    gradient: GradientDraw,
    geometric: GeometricDraw,
    organic: OrganicDraw)

  /** The random source supplies at least as many draws as a grid of side n asks for. */
  predicate DrawsFit(d: Draws, n: nat) {
    |d.cells| >= n * n && |d.clusters| >= NumClusters(n) &&
    |d.gradient.uColors| >= 4 &&
    |d.organic.seeds| >= NumSeeds(n) && |d.organic.noise| >= n * n
  }

  /** The grid after one pattern pass over g. */
  function PatternResult(p: Pattern, g: seq<Cell>, n: nat, d: Draws, geo: Geometry): (r: seq<Cell>)
    requires |g| == n * n && DrawsFit(d, n) && GeometryFits(geo, n)
    ensures |r| == n * n
  {
    match p
    case Clusters => ClusterResult(g, n, d.cells, d.clusters)
    case Gradient =>
      GradientFill(g, n, DirectionOf(d.gradient.uDirection), Ramp(d.gradient), geo)
    case Geometric => GeometricPaint(g, n, ShapeOf(d.geometric.uShape), d.geometric, geo)
    case Organic => OrganicPaint(g, n, MakeSeeds(d.organic.seeds, n), d.organic.noise)
    case _ => RandomFill(g, d.cells)
  }

  /** `generatePixelArt`: rebuild if needed, then run the selected pattern. */
  function GenerateResult(p: Pattern, g: seq<Cell>, n: nat, d: Draws, geo: Geometry): (r: seq<Cell>)
    requires |g| == n * n || |g| == 0
    requires DrawsFit(d, n) && GeometryFits(geo, n)
    ensures |r| == n * n
  {
    PatternResult(p, PrepareGrid(g, n), n, d, geo)
  }

  /**
   * Generating twice with the random pattern repaints nothing the second time: the first
   * run leaves no empty cell, so the grid is kept and the fill finds nothing to do.
   */
  lemma RandomGenerateIdempotent(g: seq<Cell>, n: nat, d1: Draws, d2: Draws, geo: Geometry)
    requires |g| == n * n || |g| == 0
    requires DrawsFit(d1, n) && DrawsFit(d2, n) && GeometryFits(geo, n)
    ensures GenerateResult(Random, GenerateResult(Random, g, n, d1, geo), n, d2, geo) ==
      GenerateResult(Random, g, n, d1, geo)
  {
    var once := GenerateResult(Random, g, n, d1, geo);
    if |once| > 0 {
      assert once[0] != Empty;
      assert PrepareGrid(once, n) == once;
      RandomFillIdempotent(PrepareGrid(g, n), d1.cells, d2.cells);
    } else {
      assert once == [] == EmptyGrid(n);
    }
  }

  /**
   * Under the empty-only patterns (random, gradient, and an unrecognised pattern, which runs
   * the random fill) every cell that was painted keeps its colour through a generate.
   */
  lemma ColorsPersist(p: Pattern, g: seq<Cell>, n: nat, d: Draws, geo: Geometry, i: nat)
    requires |g| == n * n && DrawsFit(d, n) && GeometryFits(geo, n)
    requires p == Random || p == Gradient || p == Other
    requires i < |g| && g[i] != Empty
    ensures GenerateResult(p, g, n, d, geo)[i] == g[i]
  {
    ColoredGridIsKept(g, n, i);
  }
}
