# Pastel pixel-art generator, modelled in Dafny

The pixel-art generator keeps a square grid of N x N cells, stored row-major
(index = y * N + x). A cell is either empty (the light-grey background) or
painted with one of ten pastel palette colours. The user can click a cell to
paint it, clear the grid, change the grid size, choose a swatch, and fill the
grid with one of five patterns:

- random, which fills the empty cells;
- clusters, which does a base fill and then paints floor(N/2) disks;
- gradient, which paints the empty cells along a ramp of 2 to 4 colours;
- geometric, which paints every cell as stripes, a checkerboard, rings or diamonds;
- organic, which paints each cell with its nearest seed's colour when the cell lies
  inside that seed's influence, and with a random colour otherwise; with no seeds
  (N <= 2) it paints nothing.

The project has five modules:

- `Wrappers` (wrappers.dfy) has the `Option` type.
- `Palette` (palette.dfy) has the colour type (an index below 10) and the cell
  type `Empty | Colored(c)`. It also has `UnitInterval`, one value of `Math.random()` in
  [0, 1), and the `Math.floor(Math.random() * k)` choice.
- `Formulas` (formulas.dfy) has the per-cell formulas, as pure functions with
  lemmas: coordinates, cluster disks and their reveal delays, gradient progress
  and ramp index, the band formulas of the tilings, and the organic
  nearest-seed and paint rules.
- `GridSpec` (grid_spec.dfy) says what each operation does to the whole grid.
  It is a function from the cell sequence before to the cell sequence after,
  with lemmas about the result.
- `Generator` (generator.dfy) has the class `PixelArtGenerator`. Its fields are
  the grid (an `array<Cell>`), the grid size, the selected pattern and the
  selected swatch. Its methods use the loops of the original. Each pattern
  method, and the rebuild-or-keep step, is proved to leave the grid exactly as
  the matching `GridSpec` function says. The click, clear and resize methods
  state the new grid directly, and the pattern and swatch setters leave the
  grid alone.

Random draws are inputs. A draw is a `UnitInterval`, and the model computes
`Math.floor(u * k)` from it as the code does. So the bounds are proved, not
assumed: a radius in [4, 9], a ramp length in [2, 4], a centre inside the grid,
an influence in [8, 16). The draws come as a `Draws` record. It holds one draw
per cell for the random and cluster base fills, one per cluster, one per seed,
and one per cell for the organic pattern's fallback colour, plus those of the
gradient and the tiling.

The proved facts worth knowing:

- The gradient clamp `Math.min(colorIndex, numColors - 1)` never fires. The
  index is at most `numColors - 2`, so the last ramp colour is never chosen,
  and a two-colour ramp paints every empty cell with its first colour. This holds for
  every direction, radial included, where progress can reach exactly 1; for
  radial and spiral it holds given the ranges the supplied radial and spiral
  progress tables have ([0, 1] and [0, 1)). So the
  last column of a horizontal gradient does not take the last ramp colour; the
  model follows the code here.
- In the organic pattern, the test `closeness > 0.3 || distance < influence`
  comes down to `distance < influence`.
- The cluster delay, `(cluster + 1) * 200 + floor(distance) * 10`, puts every
  write of a cluster before every write of the next one. Together with the
  empty-only base pass, this gives the final state that `ClusterResult` states.

## Model

| member | source | states |
|---|---|---|
| Palette.IsEmpty | script.js:121-129 | `isPixelEmpty` holds exactly when `isPixelColored` does not: a cell is empty exactly when it holds no palette colour |
| Palette.Pick | script.js:88 | `Math.floor(Math.random() * k)` is an index below k: the floor of u * k |
| Palette.RandomColor | script.js:87-89 | `getRandomColor` yields a palette index below 10, the floor of u * 10 |
| GridSpec.EmptyGrid | script.js:64-77 | a new grid has exactly N*N cells and every one is empty |
| Generator.PixelArtGenerator.CreateGrid | script.js:64-77 | the counting loop builds a fresh grid of N*N empty cells; size, pattern and swatch unchanged |
| Generator.PixelArtGenerator.constructor | script.js:2-25 | a 30 x 30 generator, random pattern, no swatch; with no cells, generatePixelArt builds the grid and random-fills it |
| Generator.PixelArtGenerator.ChangeGridSize | script.js:39-42 | a new size rebuilds the grid as N*N empty cells |
| Generator.PixelArtGenerator.ChangePattern | script.js:43-45 | the pattern selector sets the pattern and nothing else |
| Generator.PixelArtGenerator.SelectColor | script.js:55-56 | a swatch click selects that colour for later cell clicks |
| GridSpec.PrepareGrid | script.js:93-95 | the grid is rebuilt (all empty, N*N cells) exactly when it has no cells or every cell is empty; otherwise it is kept as it is |
| GridSpec.ColoredGridIsKept | script.js:93-95 | a grid with at least one painted cell is never rebuilt |
| Generator.PixelArtGenerator.GeneratePixelArt | script.js:91-118 | rebuild-or-keep, then the selected pattern; the array is fresh exactly when rebuilt and the same array otherwise; the final grid is `GenerateResult` |
| Generator.PixelArtGenerator.RunPattern | script.js:97-117 | the pattern switch; an unrecognised pattern runs the random fill |
| Generator.ClickColor | script.js:81 | a click paints the selected swatch colour if there is one, otherwise the drawn random colour |
| Generator.PixelArtGenerator.TogglePixel | script.js:79-85 | exactly the clicked cell takes the click colour, whatever it held; all other cells are unchanged |
| Generator.PixelArtGenerator.ClearGrid | script.js:349-357 | every cell becomes empty, whatever it held |
| GridSpec.RandomFill | script.js:131-143 | the random fill leaves no empty cell and keeps every painted cell's colour |
| Generator.PixelArtGenerator.RandomPattern | script.js:131-143 | the loop changes only empty cells, each to its drawn palette colour (grid equals `RandomFill` of the old grid) |
| GridSpec.RandomFillIdempotent | script.js:135-140 | a second random fill changes nothing, whatever it draws |
| GridSpec.RandomGenerateIdempotent | script.js:91-143 | generating twice with the random pattern leaves the grid as the first run left it |
| GridSpec.ColorsPersist | script.js:93-95 | under the random and gradient patterns and an unrecognised pattern, a painted cell keeps its colour through a generate |
| Formulas.MakeCluster | script.js:160-163 | a cluster's centre lies in [0,N) x [0,N) and its radius in [4, 9] |
| GridSpec.MakeClusters | script.js:157-163 | there are floor(N/2) clusters, each with centre in the grid and radius in [4, 9] |
| Formulas.InDiskOffsets | script.js:165-172 | every disk point lies within the offset ranges dx, dy in [-r, r] that the loops scan |
| Formulas.PositionRoundTrip | script.js:167-173 | an in-bounds position's index y*N+x is below N*N and gives (x, y) back through `% N` and `/ N` |
| Formulas.IndexRoundTrip | script.js:197-198 | an index is the index of its own position (x = i % N, y = floor(i / N)) |
| Generator.PixelArtGenerator.PaintCluster | script.js:165-182 | the offset loops write the cluster colour exactly at the in-bounds cells with dx*dx+dy*dy <= r*r; nothing else changes |
| GridSpec.OverlayCell | script.js:159-183 | a cell inside no disk keeps its colour; a cell inside several disks ends with the colour of the highest-numbered one |
| Formulas.EarlierClusterWritesFirst | script.js:174-178 | the floored distance of a disk point is at most r <= 9, so every write of cluster k is scheduled before every write of any later cluster |
| Generator.PixelArtGenerator.ClusterPattern | script.js:145-184 | base fill of empty cells, then the clusters in order (grid equals `ClusterResult`) |
| GridSpec.ClusterResultCell | script.js:145-184 | after clusters no cell is empty; a cell in no disk has its base-fill colour (its old colour if painted); a cell in disks has the last disk's colour |
| Formulas.DirectionOfSixth | script.js:187-188 | direction k of the six-entry list is drawn exactly when the random value lies in [k/6, (k+1)/6) |
| Formulas.RampLength | script.js:190 | the ramp has between 2 and 4 colours |
| GridSpec.Ramp | script.js:190-194 | the ramp is 2 to 4 drawn palette colours |
| Formulas.LinearProgressInRange | script.js:205-216 | horizontal, vertical and both diagonal progress values of an in-bounds cell lie in [0, 1) |
| Formulas.HorizontalProgressMonotone | script.js:206-208 | horizontal progress never decreases from left to right |
| GridSpec.Progress | script.js:203-234 | the progress of every direction lies in [0, 1], and below 1 for all but radial |
| Formulas.RampIndex | script.js:236-237 | for progress in [0, 1] the clamp leaves the index unchanged, and the index lies in [0, L-2] |
| Formulas.TwoColorRampUsesFirst | script.js:236-237 | with L = 2 the ramp index is always 0 |
| Formulas.RampIndexMonotone | script.js:236 | the ramp index never decreases as progress grows |
| GridSpec.GradientFill | script.js:196-244 | the gradient leaves no empty cell and keeps every painted cell |
| GridSpec.GradientNeverPaintsLastColor | script.js:236-239 | a painted cell never takes the last ramp colour when that colour differs from the others |
| GridSpec.TwoColorGradientIsUniform | script.js:236-239 | with a two-colour ramp every empty cell takes the first ramp colour |
| GridSpec.HorizontalGradientOrdered | script.js:206-237 | along a horizontal gradient the ramp index never decreases from left to right |
| Generator.PixelArtGenerator.GradientPattern | script.js:186-245 | builds the ramp, then paints only empty cells with the ramp colour at their ramp index (grid equals `GradientFill`) |
| Formulas.ShapeOfQuarter | script.js:248-249 | tiling k of the four-entry list is drawn exactly when the random value lies in [k/4, (k+1)/4) |
| Formulas.Band | script.js:264-293 | stripes, checkerboard and diamonds give band 0 or 1; circles give 0, 1 or 2 |
| Formulas.StripeDependsOnSum | script.js:265-268 | the stripe band depends only on x + y |
| Formulas.StripePeriod | script.js:265-268 | the stripe band has period 6 in x + y |
| Formulas.StripeAlternates | script.js:265-268 | moving x + y on by 3 flips the stripe band |
| Formulas.CheckerPeriod | script.js:270-274 | the checkerboard band has period 8 in x and in y |
| Formulas.CheckerSamples | script.js:270-274 | (0,0) and (4,4) share a band; (0,0) and (4,0) do not |
| Formulas.DiamondPeriod | script.js:284-289 | the diamond band has period 12 in each axis |
| Formulas.DiamondMirror | script.js:284-289 | the fold is symmetric under k -> 12-k, and so is the band |
| GridSpec.SameBandSameColor | script.js:264-293 | cells in the same band take the same colour, whatever colours were drawn |
| GridSpec.GeometricIgnoresOldGrid | script.js:256-299 | the tiling paints every cell regardless of its prior state: the result does not depend on the old grid and has no empty cell |
| Generator.PixelArtGenerator.GeometricPattern | script.js:247-300 | paints every cell with the colour of its band (grid equals `GeometricPaint`) |
| Formulas.NumSeeds | script.js:304 | floor(N / 2.5) equals floor(2N / 5) |
| Formulas.MakeSeed | script.js:307-312 | a seed lies in [0,N) x [0,N) and its influence in [8, 16) |
| GridSpec.MakeSeeds | script.js:303-313 | there are floor(N / 2.5) seeds, each with influence in [8, 16) |
| Formulas.NearestIsFirstNearest | script.js:319-328 | the scan finds a seed exactly when there is one, and the seed is the first in list order at the least distance |
| Formulas.FirstNearestUnique | script.js:319-328 | the first nearest seed is unique |
| Generator.ClosestSeed | script.js:319-328 | the seed loop with strict `<` returns the first nearest seed, or none when there are no seeds |
| Formulas.KeepsSeedColorIffWithin | script.js:332-339 | `max(0, 1 - d/inf) > 0.3 or d < inf` holds exactly when d < inf, that is when the squared distance is below inf squared |
| GridSpec.OrganicCellSpec | script.js:330-344 | with no seeds nothing is painted; otherwise a cell takes its first nearest seed's colour when inside that seed's influence, else its drawn colour |
| Generator.PixelArtGenerator.OrganicPattern | script.js:302-347 | scatters the seeds, then paints every cell by the nearest-seed rule (grid equals `OrganicPaint`) |

## Left out

- The page goes unmodelled: DOM construction, the `animate` class and event
  wiring. That covers `initializeElements`, `setupEventListeners`,
  `displayColorPalette` beyond the selection it records, and the keyboard
  shortcuts at script.js:366-373. Only their effects on the generator's state
  are modelled: `ChangeGridSize`, `ChangePattern` and `SelectColor`.
- Timers are left out. Each `setTimeout`-staggered pass is treated as finishing
  at once, and so is the 100 ms delay before a pattern runs. Timers still
  pending across separate generate, clear or resize calls are a concurrency
  matter and are not modelled. The one timing fact used is the cluster delay
  ordering (`EarlierClusterWritesFirst`).
- `Math.random` becomes input values. Each value is a `UnitInterval` in [0, 1). The
  fills take one value per cell, by cell index. The source instead draws only
  when it finds a cell empty, from a single stream.
- Floating-point geometry is supplied, not computed. The radial and spiral
  gradient progress and the ring number `Math.floor(distance / 3)` of the
  circles tiling are per-cell tables (`Geometry`), with the ranges the source
  gives them. Their formulas (`Math.sqrt`, `Math.atan2`, `Math.PI`, float
  modulo) are not modelled.
- Arithmetic is exact. Progress, seed positions and distances are exact
  rationals, not IEEE doubles, so rounding is not modelled.
- Organic distances are compared squared. The square root is monotone, so this
  picks the same seed. `KeepsSeedColorIffWithin` links the source's test on the
  distance to the model's test on its square.
- The gradient and geometric switches have `default` branches that cannot be
  reached, because the direction and shape come from fixed lists. They are not
  modelled.
- Emptiness is a cell type, not CSS strings. `isPixelEmpty` also accepts `''`
  and `rgb(240, 240, 240)`, while the rebuild test accepts only the two
  spellings of `#f5f5f5`. Both become the `Empty` cell. `isPixelColored` has no
  caller in the source; it is modelled as `Palette.IsColored`, the complement of
  `IsEmpty`.
- `parseInt` of the size option is not modelled; the new size is a natural
  number.
