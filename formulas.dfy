/**
 * The per-cell formulas of the patterns: cell coordinates, cluster disks and their
 * reveal delays, gradient progress and ramp index, the geometric band formulas, and the
 * organic nearest-seed rule. Everything here is a pure function of its arguments.
 */
module Formulas {
  import opened Wrappers
  import opened Palette

  // ---------------------------------------------------------------------------
  // Cell coordinates: the grid is row-major, index = y * N + x.

  function Col(i: nat, n: nat): (x: nat)
    requires i < n * n
    ensures x < n
  {
    i % n
  }

  function Row(i: nat, n: nat): (y: nat)
    requires i < n * n
    ensures y < n
  {
    RowBound(i, n);
    i / n
  }

  lemma RowBound(i: nat, n: nat)
    requires i < n * n
    ensures n > 0 && i / n < n
  {
  }

  /** `y * currentGridSize + x`; an in-bounds position has an index inside the grid. */
  function CellIndex(x: nat, y: nat, n: nat): (i: nat)
    ensures x < n && y < n ==> i < n * n
  {
    if x < n && y < n then
      MulLe(y + 1, n, n);
      y * n + x
    else
      y * n + x
  }

  /** Every in-bounds position has an index inside the grid, and the index gives the position back. */
  lemma PositionRoundTrip(x: nat, y: nat, n: nat)
    requires x < n && y < n
    ensures CellIndex(x, y, n) < n * n
    ensures Col(CellIndex(x, y, n), n) == x && Row(CellIndex(x, y, n), n) == y
  {
    DivMod(y * n + x, n, y, x);
  }

  lemma MulLe(a: nat, b: nat, c: nat)
    requires a <= b
    ensures a * c <= b * c
  {
  }

  /** Integer division is determined by quotient and remainder. */
  lemma DivMod(a: nat, n: nat, q: nat, r: nat)
    requires r < n && a == q * n + r
    ensures a / n == q && a % n == r
  {
    var q', r' := a / n, a % n;
    assert q' * n + r' == q * n + r;
    if q' > q {
      MulLe(q + 1, q', n);
    } else if q' < q {
      MulLe(q' + 1, q, n);
    }
  }

  /** Every index inside the grid is the index of its own position. */
  lemma IndexRoundTrip(i: nat, n: nat)
    requires i < n * n
    ensures CellIndex(Col(i, n), Row(i, n), n) == i
  {
  }

  // ---------------------------------------------------------------------------
  // Clusters (generateClusterPattern).

  datatype ClusterDraw = ClusterDraw(ux: UnitInterval, uy: UnitInterval, uColor: UnitInterval, uSize: UnitInterval)

  /** A blob: integer centre, one palette colour, integer radius. */
  datatype Cluster = Cluster(cx: nat, cy: nat, color: Color, radius: nat)

  /** `Math.floor(currentGridSize / 2)` clusters are drawn. */
  function NumClusters(n: nat): nat {
    n / 2
  }

  /** The centre, colour and size drawn for one cluster. */
  function MakeCluster(d: ClusterDraw, n: nat): (c: Cluster)
    requires n > 0
    ensures c.cx < n && c.cy < n
    ensures 4 <= c.radius <= 9
  {
    Cluster(Pick(d.ux, n), Pick(d.uy, n), RandomColor(d.uColor), Pick(d.uSize, 6) + 4)
  }

  /**
   * `Math.sqrt(dx*dx + dy*dy) <= clusterSize`, stated on integers: the square root of a
   * non-negative number is at most r exactly when the number is at most r*r.
   */
  predicate InDisk(c: Cluster, x: int, y: int) {
    var dx, dy := x - c.cx, y - c.cy;
    dx * dx + dy * dy <= c.radius * c.radius
  }

  lemma MulLess(a: nat, b: nat, c: nat)
    requires a < b && c > 0
    ensures a * c < b * c
  {
  }

  lemma SquareStrict(a: nat, b: nat)
    ensures a < b ==> a * a < b * b
  {
    if a < b {
      MulLe(a, b, a);
      MulLess(a, b, b);
    }
  }

  /** |a| <= b when a*a <= b*b. */
  lemma SquareMonotone(a: int, b: nat)
    requires a * a <= b * b
    ensures -(b as int) <= a <= b
  {
    var m: nat := if a < 0 then -a else a;
    assert m * m == a * a;
    SquareStrict(b, m);
  }

  lemma SquareNonNegative(a: int)
    ensures a * a >= 0
  {
    var m: nat := if a < 0 then -a else a;
    assert m * m == a * a;
    MulLe(0, m, m);
  }

  /** A disk point is reached by the offset loops, which run dx and dy over [-r, r]. */
  lemma InDiskOffsets(c: Cluster, x: int, y: int)
    requires InDisk(c, x, y)
    ensures -(c.radius as int) <= x - c.cx <= c.radius
    ensures -(c.radius as int) <= y - c.cy <= c.radius
  {
    var dx, dy := x - c.cx, y - c.cy;
    SquareNonNegative(dx);
    SquareNonNegative(dy);
    SquareMonotone(dx, c.radius);
    SquareMonotone(dy, c.radius);
  }

  /** The delay in milliseconds at which cluster k paints a cell whose distance floors to s. */
  function ClusterDelay(k: nat, s: nat): nat {
    (k + 1) * 200 + s * 10
  }

  /**
   * Every write of an earlier cluster is scheduled before every write of a later one: the
   * floored distance of a disk point is at most the radius, which is at most 9, so cluster
   * k's writes all fall in [200(k+1), 200(k+1) + 90].
   */
  lemma EarlierClusterWritesFirst(
    a: Cluster, ka: nat, xa: int, ya: int, sa: nat,
    kb: nat, sb: nat)
    requires a.radius <= 9 && ka < kb
    requires InDisk(a, xa, ya)
    requires sa * sa <= (xa - a.cx) * (xa - a.cx) + (ya - a.cy) * (ya - a.cy)
    ensures ClusterDelay(ka, sa) < ClusterDelay(kb, sb)
  {
    SquareMonotone(sa, a.radius);
    assert ClusterDelay(ka, sa) <= (ka + 1) * 200 + 90;
    assert ClusterDelay(kb, sb) >= (ka + 2) * 200;
  }

  // ---------------------------------------------------------------------------
  // Gradients (generateGradientPattern).

  datatype Direction = Horizontal | Vertical | Diagonal1 | Diagonal2 | Radial | Spiral

  predicate IsLinear(d: Direction) {
    d.Horizontal? || d.Vertical? || d.Diagonal1? || d.Diagonal2?
  }

  /** The direction list of the source, in its order. */
  const Directions: seq<Direction> := [Horizontal, Vertical, Diagonal1, Diagonal2, Radial, Spiral]

  /** One of the six directions, picked by `Math.floor(Math.random() * 6)`. */
  function DirectionOf(u: UnitInterval): Direction {
    Directions[Pick(u, 6)]
  }

  /** Direction k is drawn exactly when the random value falls in the k-th sixth of [0, 1). */
  lemma DirectionOfSixth(u: UnitInterval, k: nat)
    requires k < 6
    ensures DirectionOf(u) == Directions[k] <==> k as real <= u * 6.0 < k as real + 1.0
  {
    var j := Pick(u, 6);
    if DirectionOf(u) == Directions[k] {
      assert Directions[j] == Directions[k];
      assert j == k;
    }
    if k as real <= u * 6.0 < k as real + 1.0 {
      PickUnique(u, 6, k);
    }
  }

  /** The ramp has `Math.floor(Math.random() * 3) + 2` colours. */
  function RampLength(u: UnitInterval): (len: nat)
    ensures 2 <= len <= 4
  {
    Pick(u, 3) + 2
  }

  /** The progress of cell (x, y) along one of the four straight directions. */
  function LinearProgress(d: Direction, x: nat, y: nat, n: nat): real
    requires IsLinear(d) && n > 0
  {
    match d
    case Horizontal => x as real / n as real
    case Vertical => y as real / n as real
    case Diagonal1 => (x + y) as real / (2 * n) as real
    case Diagonal2 => (x - y + n) as real / (2 * n) as real
  }

  /** Along every straight direction the progress of an in-bounds cell lies in [0, 1). */
  lemma LinearProgressInRange(d: Direction, x: nat, y: nat, n: nat)
    requires IsLinear(d) && x < n && y < n
    ensures 0.0 <= LinearProgress(d, x, y, n) < 1.0
  {
    match d
    case Horizontal => FractionBelowOne(x as real, n as real);
    case Vertical => FractionBelowOne(y as real, n as real);
    case Diagonal1 => FractionBelowOne((x + y) as real, (2 * n) as real);
    case Diagonal2 => FractionBelowOne((x - y + n) as real, (2 * n) as real);
  }

  lemma FractionBelowOne(a: real, b: real)
    requires 0.0 <= a < b
    ensures 0.0 <= a / b < 1.0
  {
    assert a / b * b == a;
    if a / b >= 1.0 {
      RealMulLe(1.0, a / b, b);
    }
  }

  /** Horizontal progress grows with the column: a ramp runs left to right. */
  lemma HorizontalProgressMonotone(x1: nat, x2: nat, y1: nat, y2: nat, n: nat)
    requires x1 <= x2 && n > 0
    ensures LinearProgress(Horizontal, x1, y1, n) <= LinearProgress(Horizontal, x2, y2, n)
  {
    var p1, p2 := LinearProgress(Horizontal, x1, y1, n), LinearProgress(Horizontal, x2, y2, n);
    assert p1 * n as real <= p2 * n as real;
  }

  /** `Math.floor(progress * (numColors - 1) * 0.99)`. */
  function ColorIndex(p: real, len: nat): int {
    (p * (len - 1) as real * 0.99).Floor
  }

  function Min(a: int, b: int): int {
    if a <= b then a else b
  }

  /**
   * The ramp position actually used, `Math.min(colorIndex, numColors - 1)`. For any
   * progress in [0, 1] the clamp leaves the index alone, and the index never reaches the
   * last ramp colour: progress * (len - 1) * 0.99 < len - 1.
   */
  function RampIndex(p: real, len: nat): (k: int)
    requires 0.0 <= p <= 1.0 && len >= 2
    ensures k == ColorIndex(p, len)
    ensures 0 <= k <= len - 2
  {
    var span := (len - 1) as real;
    assert 0.0 <= p * span <= span by {
      assert p * span <= 1.0 * span;
    }
    assert p * span * 0.99 < span;
    Min(ColorIndex(p, len), len - 1)
  }

  /** With a two-colour ramp every painted cell takes the first ramp colour. */
  lemma TwoColorRampUsesFirst(p: real)
    requires 0.0 <= p <= 1.0
    ensures RampIndex(p, 2) == 0
  {
  }

  /** The ramp index never decreases as progress grows. */
  lemma RampIndexMonotone(p: real, q: real, len: nat)
    requires 0.0 <= p <= q <= 1.0 && len >= 2
    ensures RampIndex(p, len) <= RampIndex(q, len)
  {
    RealMulLe(p, q, (len - 1) as real);
    RealMulLe(p * (len - 1) as real, q * (len - 1) as real, 0.99);
    FloorMonotone(p * (len - 1) as real * 0.99, q * (len - 1) as real * 0.99);
  }

  lemma FloorMonotone(a: real, b: real)
    requires a <= b
    ensures a.Floor <= b.Floor
  {
    assert a.Floor as real <= a;
    assert b < b.Floor as real + 1.0;
  }

  // ---------------------------------------------------------------------------
  // Geometric tilings (generateGeometricPattern).

  datatype Shape = Stripes | Checkerboard | Circles | Diamonds

  /** The tiling list of the source, in its order. */
  const Shapes: seq<Shape> := [Stripes, Checkerboard, Circles, Diamonds]

  /** One of the four shapes, picked by `Math.floor(Math.random() * 4)`. */
  function ShapeOf(u: UnitInterval): Shape {
    Shapes[Pick(u, 4)]
  }

  /** Shape k is drawn exactly when the random value falls in the k-th quarter of [0, 1). */
  lemma ShapeOfQuarter(u: UnitInterval, k: nat)
    requires k < 4
    ensures ShapeOf(u) == Shapes[k] <==> k as real <= u * 4.0 < k as real + 1.0
  {
    var j := Pick(u, 4);
    if ShapeOf(u) == Shapes[k] {
      assert Shapes[j] == Shapes[k];
      assert j == k;
    }
    if k as real <= u * 4.0 < k as real + 1.0 {
      PickUnique(u, 4, k);
    }
  }

  /** Diagonal stripes of width 3. */
  function StripeBand(x: nat, y: nat): nat {
    ((x + y) / 3) % 2
  }

  /** Squares of side 4, alternating. */
  function CheckerBand(x: nat, y: nat): nat {
    ((x / 4) % 2 + (y / 4) % 2) % 2
  }

  function Abs(a: int): nat {
    if a < 0 then -a else a
  }

  /** `Math.abs((k % 12) - 6)`: the coordinate folded into a tent of period 12. */
  function DiamondFold(k: nat): nat {
    Abs(k % 12 - 6)
  }

  function DiamondBand(x: nat, y: nat): nat {
    ((DiamondFold(x) + DiamondFold(y)) / 6) % 2
  }

  /** Concentric rings: `ringDistance` is `Math.floor(distance / 3)` from the grid centre. */
  function CircleBand(ringDistance: nat): nat {
    ringDistance % 3
  }

  /** The band a cell falls in, for the shape drawn; only circles use a third band. */
  function Band(shape: Shape, x: nat, y: nat, ringDistance: nat): (b: nat)
    ensures shape != Circles ==> b < 2
    ensures b < 3
  {
    match shape
    case Stripes => StripeBand(x, y)
    case Checkerboard => CheckerBand(x, y)
    case Circles => CircleBand(ringDistance)
    case Diamonds => DiamondBand(x, y)
  }

  /** Band 0 takes the primary colour, band 1 the secondary, band 2 the tertiary. */
  function BandColor(b: nat, primary: Color, secondary: Color, tertiary: Color): Color {
    if b == 0 then primary else if b == 1 then secondary else tertiary
  }

  /** Stripes depend on x + y only. */
  lemma StripeDependsOnSum(x1: nat, y1: nat, x2: nat, y2: nat)
    requires x1 + y1 == x2 + y2
    ensures StripeBand(x1, y1) == StripeBand(x2, y2)
  {
  }

  /** Stripes repeat every 6 steps of x + y. */
  lemma StripePeriod(x: nat, y: nat)
    ensures StripeBand(x + 6, y) == StripeBand(x, y)
    ensures StripeBand(x, y + 6) == StripeBand(x, y)
  {
    assert (x + 6 + y) / 3 == (x + y) / 3 + 2;
    assert (x + y + 6) / 3 == (x + y) / 3 + 2;
  }

  /** Adjacent stripes differ: moving x + y forward by 3 flips the band. */
  lemma StripeAlternates(x: nat, y: nat)
    ensures StripeBand(x + 3, y) != StripeBand(x, y)
  {
    assert (x + 3 + y) / 3 == (x + y) / 3 + 1;
  }

  /** The checkerboard repeats every 8 cells along each axis. */
  lemma CheckerPeriod(x: nat, y: nat)
    ensures CheckerBand(x + 8, y) == CheckerBand(x, y)
    ensures CheckerBand(x, y + 8) == CheckerBand(x, y)
  {
    assert (x + 8) / 4 == x / 4 + 2;
    assert (y + 8) / 4 == y / 4 + 2;
  }

  /** (0,0) and (4,4) share a square colour, while (0,0) and (4,0) do not. */
  lemma CheckerSamples()
    ensures CheckerBand(0, 0) == CheckerBand(4, 4)
    ensures CheckerBand(0, 0) != CheckerBand(4, 0)
  {
  }

  /** The diamond tiling repeats every 12 cells along each axis. */
  lemma DiamondPeriod(x: nat, y: nat)
    ensures DiamondBand(x + 12, y) == DiamondBand(x, y)
    ensures DiamondBand(x, y + 12) == DiamondBand(x, y)
  {
    assert (x + 12) % 12 == x % 12;
    assert (y + 12) % 12 == y % 12;
  }

  /** The fold is symmetric under k |-> 12 - k, so each tile is mirror-symmetric. */
  lemma DiamondMirror(x: nat, y: nat)
    requires x <= 12
    ensures DiamondFold(12 - x) == DiamondFold(x)
    ensures DiamondBand(12 - x, y) == DiamondBand(x, y)
  {
    if x == 0 || x == 12 {
      assert (12 - x) % 12 == 0 == x % 12;
    } else {
      assert (12 - x) % 12 == 12 - x;
      assert x % 12 == x;
    }
  }

  // ---------------------------------------------------------------------------
  // Organic blotches (generateOrganicPattern).

  datatype SeedDraw = SeedDraw(ux: UnitInterval, uy: UnitInterval, uColor: UnitInterval, uInfluence: UnitInterval)

  /** A seed: fractional position, one palette colour, influence radius. */
  datatype Seed = Seed(x: real, y: real, color: Color, influence: real)

  /** `Math.floor(currentGridSize / 2.5)` seeds are scattered. */
  function NumSeeds(n: nat): (k: nat)
    ensures k == (2 * n) / 5
  {
    var q := n as real / 2.5;
    assert q * 5.0 == 2.0 * n as real;
    var k := (2 * n) / 5;
    assert 5 * k <= 2 * n < 5 * k + 5;
    assert k as real <= q < k as real + 1.0 by {
      assert 5.0 * k as real <= 2.0 * n as real < 5.0 * k as real + 5.0;
    }
    q.Floor
  }

  function MakeSeed(d: SeedDraw, n: nat): (s: Seed)
    ensures 0.0 <= s.x && (n > 0 ==> s.x < n as real)
    ensures 0.0 <= s.y && (n > 0 ==> s.y < n as real)
    ensures 8.0 <= s.influence < 16.0
  {
    Seed(Scaled(d.ux, n), Scaled(d.uy, n), RandomColor(d.uColor), d.uInfluence * 8.0 + 8.0)
  }

  /** `Math.random() * currentGridSize`: a position in [0, N). */
  function Scaled(u: UnitInterval, n: nat): (r: real)
    ensures 0.0 <= r && (n > 0 ==> r < n as real)
  {
    RealMulLe(0.0, u, n as real);
    if n > 0 then
      RealMulLess(u, 1.0, n as real);
      u * n as real
    else
      u * n as real
  }

  /** The squared Euclidean distance from cell (x, y) to the seed. */
  function DistSq(s: Seed, x: int, y: int): real {
    (x as real - s.x) * (x as real - s.x) + (y as real - s.y) * (y as real - s.y)
  }

  /**
   * The scan over the seeds for the closest one: a seed replaces the current best only
   * when strictly closer. Comparing squared distances orders the seeds as the square
   * roots do.
   */
  function Nearest(seeds: seq<Seed>, x: int, y: int): (r: Option<nat>)
    ensures r.Some? ==> r.value < |seeds|
    decreases |seeds|
  {
    if |seeds| == 0 then None
    else
      var last := |seeds| - 1;
      match Nearest(seeds[..last], x, y)
      case None => Some(last)
      case Some(k) =>
        if DistSq(seeds[last], x, y) < DistSq(seeds[k], x, y) then Some(last)
        else Some(k)
  }

  /** k is the first seed, in list order, at the least distance from (x, y). */
  predicate IsFirstNearest(seeds: seq<Seed>, x: int, y: int, k: nat) {
    k < |seeds| &&
    (forall j :: 0 <= j < |seeds| ==> DistSq(seeds[k], x, y) <= DistSq(seeds[j], x, y)) &&
    (forall j :: 0 <= j < k ==> DistSq(seeds[k], x, y) < DistSq(seeds[j], x, y))
  }

  /** The scan returns a seed exactly when there is one, and the seed it returns is the first nearest. */
  lemma {:induction false} NearestIsFirstNearest(seeds: seq<Seed>, x: int, y: int)
    ensures Nearest(seeds, x, y).None? <==> |seeds| == 0
    ensures Nearest(seeds, x, y).Some? ==> IsFirstNearest(seeds, x, y, Nearest(seeds, x, y).value)
    decreases |seeds|
  {
    if |seeds| > 0 {
      var last := |seeds| - 1;
      var prefix := seeds[..last];
      NearestIsFirstNearest(prefix, x, y);
      match Nearest(prefix, x, y)
      case None =>
      case Some(k) =>
        assert IsFirstNearest(prefix, x, y, k);
        forall j | 0 <= j < last ensures seeds[j] == prefix[j] { }
    }
  }

  /** There is only one first nearest seed. */
  lemma FirstNearestUnique(seeds: seq<Seed>, x: int, y: int, k1: nat, k2: nat)
    requires IsFirstNearest(seeds, x, y, k1) && IsFirstNearest(seeds, x, y, k2)
    ensures k1 == k2
  {
    assert DistSq(seeds[k1], x, y) <= DistSq(seeds[k2], x, y);
  }

  lemma RealMulLe(a: real, b: real, c: real)
    requires a <= b && c >= 0.0
    ensures a * c <= b * c
  {
  }

  lemma RealMulLess(a: real, b: real, c: real)
    requires a < b && c > 0.0
    ensures a * c < b * c
  {
  }

  /** `Math.max(0, 1 - minDistance / influence)`. */
  function Closeness(d: real, influence: real): real
    requires influence > 0.0
  {
    var c := 1.0 - d / influence;
    if c > 0.0 then c else 0.0
  }

  /** The source's test for painting a cell with its seed's colour, on the distance itself. */
  predicate KeepsSeedColor(d: real, influence: real)
    requires influence > 0.0
  {
    Closeness(d, influence) > 0.3 || d < influence
  }

  /** The same test on the squared distance, as the model evaluates it. */
  predicate WithinInfluence(d2: real, influence: real) {
    d2 < influence * influence
  }

  /**
   * The closeness disjunct adds nothing: closeness above 0.3 already means the distance is
   * below 0.7 times the influence. So a cell keeps its seed's colour exactly when it lies
   * strictly inside the seed's influence radius.
   */
  lemma KeepsSeedColorIffWithin(d: real, influence: real)
    requires d >= 0.0 && influence > 0.0
    ensures KeepsSeedColor(d, influence) <==> d < influence
    ensures KeepsSeedColor(d, influence) <==> WithinInfluence(d * d, influence)
  {
    if Closeness(d, influence) > 0.3 {
      assert d / influence < 0.7;
      assert d == (d / influence) * influence;
      RealMulLess(d / influence, 0.7, influence);
    }
    if d < influence {
      RealMulLe(d, influence, d);
      RealMulLess(d, influence, influence);
      assert d * d <= influence * d == d * influence < influence * influence;
    } else {
      RealMulLe(influence, d, d);
      RealMulLe(influence, d, influence);
      assert influence * influence <= d * influence == influence * d <= d * d;
    }
  }
}
