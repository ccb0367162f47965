# Grid flow-field navigation of motte and warband, in Dafny

This project models the grid flow-field navigation of the `motte` and
`warband` game crates (Rust, on the Bevy engine) together with a few small
rules beside it, and proves what each piece promises.

The navigation appears in several generations, each modelled on its own:

- **motte** (`crates/motte_lib/src/navigation/...`), the most evolved one:
  - `Cell` with `u8` coordinates, `Direction` and the row-major `Field<T>` (`MotteGrid`);
  - the obstacle field, splatted per agent size from Huge down to Small (`MotteObstacleField`);
  - the square dilation of footprints (`MotteFootprint`);
  - the field layout and its boundary rings (`MotteLayout`);
  - the agents' sizes and decision rules (`MotteAgent`) and obstacle outlines (`MotteObstacle`);
  - `FlowField::build`, a uniform-cost search over the tiered `IntegrationCost` followed by the pass that points each cell at its cheapest neighbour (`MotteFlow`);
  - resource pools with their clamp and percentage rules (`MottePool`).
- **warband navigation** (`crates/warband_lib/src/navigation/...`):
  - the `usize` grid (`WbNavGrid`);
  - the cost-only `IntegrationCost` search with its obstacle and bounds post-passes (`WbNavFlow`);
  - two obstacle fields (`WbNavObstacleField`, `WbNavCostObstacle`);
  - the diamond dilation (`WbNavFootprint`);
  - the layout (`WbNavLayout`) and the TTL cache (`WbNavCache`);
  - agents (`WbNavAgent`) and obstacles (`WbNavObstacle`).
- **warband `flow_field`** (`crates/warband_lib/src/flow_field/...`):
  - the square field (`WbFfField`);
  - the `u16` distance search with occupied cells at a hundred times the step (`WbFfFlow`);
  - the occupancy index and cost update (`WbFfCost`);
  - the layout (`WbFfLayout`) and the cache whose teardown waits for rebuilds (`WbFfCache`).
- **warband `flowfield` prototype** (`crates/warband_lib/src/flowfield/field.rs`):
  `IntegrationField::build`, a label-correcting shortest-path search (`WbFlowfield`).
- **small rules**: the `Despawn` countdown (`WbDespawn`) and the stat clamp policy (`WbStat`).

Shared modules:

- `Opt` is the `Option` type.
- `Glam` is the 2-D vector over exact reals.
- `BevyEcs` gives entities as numbers.
- `BevyTimer` is the one-shot timer.

Everything that changes in place is modelled as such:

- fields, heaps, caches and components are classes whose methods modify them;
- loops are `while`/`for` loops with invariants;
- each method is specified by functions on its state, about which the lemmas prove what the source promises.

The searches are proved to terminate, by a strict decrease in a finite order. They are also proved to leave every reachable cell settled: no move the search considers would lower its cost, which is the triangle inequality of the search. In the warband navigation search (`WbNavFlow`) and the warband flow-field search (`WbFfFlow`), every direction they record is proved to explain its cell's cost. The motte search (`MotteFlow`) and the warband integration field (`WbFlowfield`) instead prove what their costs mean: every finite cost is bounded below by the length of a path from a goal and above along every open path, and in `MotteFlow` every reached cell other than a goal is proved to get a direction into one of its relaxable neighbours.

`f32` values are modelled as exact `real`s. Integer widths are modelled where they matter:

- `u8` coordinates and sums wrap;
- `u16` sums saturate or wrap as the code says;
- `usize` offsets wrap and are judged through `isize`.

## Model

| member | source | states |
|---|---|---|
| MotteGrid.IndexInRange | crates/motte_lib/src/navigation/flow_field/fields/mod.rs:97-101 | the row-major index `y * width + x` of a valid cell lies below `width * height` |
| MotteGrid.IndexInjective | crates/motte_lib/src/navigation/flow_field/fields/mod.rs:97-101 | distinct cells inside a `width`-wide grid have distinct indices |
| MotteGrid.FromIndexOfIndex | crates/motte_lib/src/navigation/flow_field/fields/mod.rs:46-50 | `from_index(index(c))` gives back every cell of a grid of that width |
| MotteGrid.IndexOfFromIndex | crates/motte_lib/src/navigation/flow_field/fields/mod.rs:46-50 | below `size * 256`, `index(from_index(i))` is `i`; above it the `u8` row wraps |
| MotteGrid.FromIndexInBounds | crates/motte_lib/src/navigation/flow_field/fields/mod.rs:46-50 | every index below `width * height` names a valid cell whose index it is |
| MotteGrid.ManhattanAgrees | crates/motte_lib/src/navigation/flow_field/fields/mod.rs:118-122 | the `u8` sum of the two differences equals the true distance exactly when that distance is below 256 |
| MotteGrid.ManhattanWraps | crates/motte_lib/src/navigation/flow_field/fields/mod.rs:118-122 | (0, 0) and (200, 200) are 400 apart but `manhattan` returns 144 |
| MotteGrid.ManhattanIsMetric | crates/motte_lib/src/navigation/flow_field/fields/mod.rs:118-122 | the corrected distance is symmetric, zero only between equal cells, and obeys the triangle inequality |
| MotteGrid.ChebyshevBounds | crates/motte_lib/src/navigation/flow_field/fields/mod.rs:139-143 | `chebyshev` is symmetric and lies between half the Manhattan distance and the Manhattan distance |
| MotteGrid.CheckedAddSigned | crates/motte_lib/src/navigation/flow_field/fields/mod.rs:203-209 | `checked_add_signed` on a `u8` succeeds exactly when the sum stays in 0..=255, and then is the sum |
| MotteGrid.NeighborOfNone | crates/motte_lib/src/navigation/flow_field/fields/mod.rs:203-209 | a step in `Direction::None` stays on the cell |
| MotteGrid.NeighborDirection | crates/motte_lib/src/navigation/flow_field/fields/mod.rs:145-162 | for every proper direction, `neighbor(c, d) == Some(n)` exactly when `direction(c, n) == d` |
| MotteGrid.DirectionNoneIffNotUnit | crates/motte_lib/src/navigation/flow_field/fields/mod.rs:145-162 | `direction` is `None` exactly for cells not at Chebyshev distance one |
| MotteGrid.NeighborsVia | crates/motte_lib/src/navigation/flow_field/fields/mod.rs:198-201 | the filter-map over directions yields no more cells than directions, and exactly the steps that stay inside `u8` |
| MotteGrid.AdjacentExactly | crates/motte_lib/src/navigation/flow_field/fields/mod.rs:163-177 | `adjacent` yields exactly the cells at Manhattan distance one |
| MotteGrid.DiagonalExactly | crates/motte_lib/src/navigation/flow_field/fields/mod.rs:178-192 | `diagonal` yields exactly the cells one step away on both axes |
| MotteGrid.NeighborsDistinct | crates/motte_lib/src/navigation/flow_field/fields/mod.rs:193-196 | `neighbors` lists at most eight cells, none twice, never the cell itself; the adjacent ones at distance one and the diagonal ones at distance two |
| MotteGrid.Put | crates/motte_lib/src/navigation/flow_field/fields/mod.rs:447-453 | writing a valid cell keeps the length of the data |
| MotteGrid.AtPut | crates/motte_lib/src/navigation/flow_field/fields/mod.rs:439-453 | after writing a valid cell, that cell reads the new value and every other cell its old one |
| MotteGrid.FilterValid | crates/motte_lib/src/navigation/flow_field/fields/mod.rs:376-389 | filtering by `valid` keeps exactly the cells inside the field |
| MotteGrid.FieldNeighborsExactly | crates/motte_lib/src/navigation/flow_field/fields/mod.rs:376-389 | the field's `adjacent`, `diagonal` and `neighbors` yield exactly the valid cells at the right distances |
| MotteGrid.FieldNeighbor | crates/motte_lib/src/navigation/flow_field/fields/mod.rs:391-394 | `Field::neighbor` is the cell's neighbour when that is valid, and `None` otherwise |
| MotteGrid.Resized | crates/motte_lib/src/navigation/flow_field/fields/mod.rs:413-421 | `Vec::resize` gives length `n`, keeps the old prefix and fills the rest with the default |
| MotteGrid.Field.constructor | crates/motte_lib/src/navigation/flow_field/fields/mod.rs:293-296 | `Field::new` stores the given dimensions and data |
| MotteGrid.Field.Len | crates/motte_lib/src/navigation/flow_field/fields/mod.rs:313-316 | `len` is the number of stored values |
| MotteGrid.Field.IsEmpty | crates/motte_lib/src/navigation/flow_field/fields/mod.rs:318-321 | `is_empty` holds exactly when the width or the height is zero |
| MotteGrid.Field.Center | crates/motte_lib/src/navigation/flow_field/fields/mod.rs:308-311 | `center` is half the width and height rounded down, a valid cell of a non-empty field |
| MotteGrid.Field.IndexOf | crates/motte_lib/src/navigation/flow_field/fields/mod.rs:323-331 | `index` is `Some` exactly for valid cells, and then the row-major index below `len` |
| MotteGrid.Field.CellAt | crates/motte_lib/src/navigation/flow_field/fields/mod.rs:340-349 | `cell` as written returns valid cells only, and inverts `index` below `len` |
| MotteGrid.Field.CellAtChecked | crates/motte_lib/src/navigation/flow_field/fields/mod.rs:340-349 | the intended `cell`: `Some` exactly below `len`, and then the valid cell with that index |
| MotteGrid.Field.Get | crates/motte_lib/src/navigation/flow_field/fields/mod.rs:358-369 | `get` is `Some` exactly for valid cells, holding the stored value |
| MotteGrid.Field.Set | crates/motte_lib/src/navigation/flow_field/fields/mod.rs:447-453 | `IndexMut<Cell>` overwrites one slot of the data and nothing else |
| MotteGrid.Field.Resize | crates/motte_lib/src/navigation/flow_field/fields/mod.rs:413-421 | `resize` stores the new dimensions, `width * height` values, the old prefix kept and the rest defaulted |
| MotteGrid.CellAtPastEnd | crates/motte_lib/src/navigation/flow_field/fields/mod.rs:340-349 | on a 1 x 255 field index 259 is past the end, yet `cell` returns the valid cell (0, 3) |
| MotteAgent.OrderAgreesWithSize | crates/motte_lib/src/navigation/agent.rs:6-37 | the derived order of `Agent` is the order of its sizes and radii; the height is the size, twice the radius, and the sizes are 1, 3, 5, 7 cells |
| MotteAgent.AllDescending | crates/motte_lib/src/navigation/agent.rs:18-25 | `ALL` lists the four agents from `LARGEST` down to `SMALLEST` in strictly decreasing size, and every agent lies between those two |
| MotteAgent.ReachedTargetTolerance | crates/motte_lib/src/navigation/agent.rs:75-89 | an agent has reached its target exactly when the distance is below radius + condition distance + 0.5 (the 0.5 floor always wins), and a smaller distance still counts as reached |
| MotteAgent.AgentEntity.constructor | crates/motte_lib/src/navigation/agent.rs:92-96 | `setup` gives a new agent zero desired velocity, `Seek(None)` and zero target distance |
| MotteAgent.AgentEntity.SeekStep | crates/motte_lib/src/navigation/agent.rs:100-108 | a moving agent with a seek direction wants that direction times its speed; otherwise nothing changes |
| MotteAgent.AgentEntity.ApplyVelocity | crates/motte_lib/src/navigation/agent.rs:110-120 | a moving agent's non-zero desired velocity becomes its movement, and the desired velocity is reset either way |
| MotteAgent.AgentEntity.UpdateTargetReached | crates/motte_lib/src/navigation/agent.rs:122-140 | `TargetReached` is held exactly when the agent seeks a direction and the condition says the target is reached |
| MotteAgent.AgentEntity.UpdateFootprint | crates/motte_lib/src/navigation/agent.rs:142-158 | an agent holds a `Footprint` exactly when it has no goal or has reached its target |
| MotteObstacle.IsEmpty | crates/motte_lib/src/navigation/obstacle.rs:18-20 | `empty` holds exactly for `Obstacle::Empty` |
| MotteObstacle.LineSegments | crates/motte_lib/src/navigation/obstacle.rs:22-35 | `None` exactly for an empty obstacle; otherwise one segment per vertex, joining each vertex to the next and the last back to the first, so the segments form a closed loop |
| MotteObstacle.ObstacleUpdate | crates/motte_lib/src/navigation/obstacle.rs:38-102 | an obstacle out of the height band becomes empty, written only when it is not empty already; one without an outline is kept; fewer than three vertices or no hull makes it empty; otherwise it is the hull |
| MottePool.Clamp | crates/motte_lib/src/stats/pool.rs:188-194 | `f32::clamp` returns a value in `[lo, hi]`, the value itself when inside, the nearer bound otherwise |
| MottePool.PoolClamp | crates/motte_lib/src/stats/pool.rs:187-194 | `pool_clamp` is `Ok(current)` exactly when `0 <= current <= max`, and otherwise `Err` of the nearer bound; either value lies in `[0, max]` |
| MottePool.PoolClampIdempotent | crates/motte_lib/src/stats/pool.rs:187-194 | a clamped value is accepted unchanged by a second `pool_clamp` |
| MottePool.PoolPerc | crates/motte_lib/src/stats/pool.rs:196-203 | `pool_perc` is 1 when both are 0, has no finite value when only `max` is 0, is `current / max` otherwise, and lies in `[0, 1]` for a current inside `[0, max]` |
| MottePool.PoolItem.constructor | crates/motte_lib/src/stats/pool.rs:38-41 | a pool holds the given current and total |
| MottePool.PoolItem.Percentage | crates/motte_lib/src/stats/pool.rs:69-73 | the percentage of a current inside `[0, total]` lies in `[0, 1]` |
| MottePool.PoolItem.SetCurrent | crates/motte_lib/src/stats/pool.rs:75-81 | `set_current` stores the `pool_clamp` value in both branches, so current stays in `[0, total]` and an in-range value is stored as given |
| MottePool.PoolItem.AddAssign | crates/motte_lib/src/stats/pool.rs:84-89 | `+=` sets the clamped sum |
| MottePool.PoolItem.SubAssign | crates/motte_lib/src/stats/pool.rs:91-96 | `-=` sets the clamped difference |
| MottePool.PoolItem.MulAssign | crates/motte_lib/src/stats/pool.rs:98-103 | `*=` sets the clamped product |
| MottePool.PoolItem.ClampCurrent | crates/motte_lib/src/stats/pool.rs:154-162 | `clamp_current` rewrites current only when it is out of range, leaving it in `[0, total]` |
| MottePool.PoolItem.DirtyCurrent | crates/motte_lib/src/stats/pool.rs:164-172 | `dirty_current` records `pool_perc(current, total)`, in `[0, 1]` for an in-range current |
| MottePool.PoolItem.CleanupDirtyCurrent | crates/motte_lib/src/stats/pool.rs:174-185 | `cleanup_dirty_current` sets current to the recorded percentage of the total |
| MottePool.PercentagePreserved | crates/motte_lib/src/stats/pool.rs:164-185 | recording the percentage and restoring it against a new positive total keeps the percentage, and an in-range current stays in range |
| MotteObstacleField.TraversableDownwardClosed | crates/motte_lib/src/navigation/flow_field/fields/obstacle.rs:44-61 | a cost traversable for an agent is traversable for every smaller one; the default `Traversable(LARGEST)` is traversable for all and is the highest cost |
| MotteObstacleField.ExpandedTraversable | crates/motte_lib/src/navigation/flow_field/fields/obstacle.rs:88-97 | the cost splatted for an agent's expanded footprint lets through exactly the strictly smaller agents, and is `Blocked` only for `Small` |
| MotteObstacleField.SplatCells | crates/motte_lib/src/navigation/flow_field/fields/obstacle.rs:73-86 | the cells one `splat` pass writes: every cell of an expanded obstacle footprint and every bounds cell, and no other |
| MotteObstacleField.LayeredTraversable | crates/motte_lib/src/navigation/flow_field/fields/obstacle.rs:66-97 | after clearing and splatting every agent from largest to smallest, a cell is traversable for an agent exactly when no agent up to its size has it in its splat |
| MotteObstacleField.ObstacleField.constructor | crates/motte_lib/src/navigation/flow_field/fields/obstacle.rs:18-20 | `from_layout` makes a field of the layout's size holding the default cost everywhere |
| MotteObstacleField.ObstacleField.IsTraversable | crates/motte_lib/src/navigation/flow_field/fields/obstacle.rs:32-35 | `traversable` is the cost's check for the agent, and it then holds for every smaller agent too |
| MotteObstacleField.ObstacleField.Clear | crates/motte_lib/src/navigation/flow_field/fields/obstacle.rs:37-41 | `clear` resets every cell to the default cost, keeping the size |
| MotteObstacleField.ObstacleField.Splat | crates/motte_lib/src/navigation/flow_field/fields/obstacle.rs:22-30 | `splat` writes the cost into exactly the listed cells that are valid, leaving every other cell |
| MotteObstacleField.ObstacleField.SplatAgent | crates/motte_lib/src/navigation/flow_field/fields/obstacle.rs:73-86 | the per-agent `splat` system writes the agent's expanded cost into exactly the cells of the obstacles' expanded footprints and the bounds |
| MotteObstacleField.ObstacleField.Rebuild | crates/motte_lib/src/navigation/flow_field/fields/obstacle.rs:66-97 | clearing and splatting all agents leaves the layered cost in every cell, traversable for an agent exactly when no agent up to its size covers the cell |
| MotteObstacleField.SendsDirtyEvent | crates/motte_lib/src/navigation/flow_field/fields/obstacle.rs:99-107 | `changes` sends `DirtyObstacleField` exactly when some obstacle's footprint changed |
| MotteFootprint.IsEmpty | crates/motte_lib/src/navigation/flow_field/footprint.rs:26-28 | `is_empty` holds exactly for `Footprint::Empty` |
| MotteFootprint.CellsOf | crates/motte_lib/src/navigation/flow_field/footprint.rs:30-35 | `cells` is `Some` exactly for a non-empty footprint, and then its cells |
| MotteFootprint.ExpandColumn | crates/motte_lib/src/navigation/flow_field/footprint.rs:43-52 | one column of the expansion holds only cells within Chebyshev distance `radius`, and every such offset |
| MotteFootprint.ExpandSquare | crates/motte_lib/src/navigation/flow_field/footprint.rs:42-53 | the expansion around one cell holds only cells within Chebyshev distance `radius`, and every such offset |
| MotteFootprint.ExpandAll | crates/motte_lib/src/navigation/flow_field/footprint.rs:41-54 | every expanded cell lies within `radius` of some footprint cell |
| MotteFootprint.Expand | crates/motte_lib/src/navigation/flow_field/footprint.rs:37-57 | `expand` is `Some` exactly for a footprint with cells |
| MotteFootprint.ExpandIsSquare | crates/motte_lib/src/navigation/flow_field/footprint.rs:37-57 | a cell is in the expansion exactly when it lies within Chebyshev distance `radius` of a footprint cell, and the footprint is contained in its expansion |
| MotteFootprint.SquareExactly | crates/motte_lib/src/navigation/flow_field/footprint.rs:42-53 | around one cell, the expansion is exactly the Chebyshev ball of the radius |
| MotteFootprint.ExpandAllExactly | crates/motte_lib/src/navigation/flow_field/footprint.rs:41-54 | the expansion of several cells is exactly the union of their Chebyshev balls |
| MotteFootprint.NoWrapBelowHalf | crates/motte_lib/src/navigation/flow_field/footprint.rs:44-47 | for radii below 128 the `as u8` casts of the offsets never wrap for a cell inside the ball |
| MotteFootprint.WrapsFromHalf | crates/motte_lib/src/navigation/flow_field/footprint.rs:44-47 | at radius 128 the cast wraps: (0, 0) minus 128 becomes (128, 0), which passes the Chebyshev filter |
| MotteFootprint.Expansion | crates/motte_lib/src/navigation/flow_field/footprint.rs:165 | the expansion of an agent is its radius rounded down, which is its rank |
| MotteFootprint.ExpandFor | crates/motte_lib/src/navigation/flow_field/footprint.rs:159-183 | the `expand` system: empty stays empty; with expansion 0 the cells are copied; otherwise they are expanded by the agent's expansion |
| MotteFootprint.ExpandForCovers | crates/motte_lib/src/navigation/flow_field/footprint.rs:159-183 | an expanded footprint is exactly the union of Chebyshev balls of the agent's expansion around the footprint cells |
| MotteFootprint.BoxCells | crates/motte_lib/src/navigation/flow_field/footprint.rs:94-96 | the cells between two corner cells, inclusive, row by row |
| MotteFootprint.ColumnCells | crates/motte_lib/src/navigation/flow_field/footprint.rs:96 | one column of that box |
| MotteFootprint.AgentFootprint | crates/motte_lib/src/navigation/flow_field/footprint.rs:60-102 | an agent with an invalid cell index has an empty footprint; otherwise the footprint is exactly the box cells within squared distance radius² + padding² of its cell |
| MotteFootprint.FilterWithin | crates/motte_lib/src/navigation/flow_field/footprint.rs:97 | keeps exactly the cells within the squared distance bound |
| MotteFootprint.ObstacleFootprint | crates/motte_lib/src/navigation/flow_field/footprint.rs:104-128 | a non-shape obstacle has an empty footprint; a shape's footprint is exactly the box cells that are valid for the layout and inside the shape |
| MotteFootprint.FilterInside | crates/motte_lib/src/navigation/flow_field/footprint.rs:124 | keeps exactly the cells that are valid and inside the shape |
| MotteLayout.New | crates/motte_lib/src/navigation/flow_field/layout.rs:23-28 | `new` stores the size and centres the field with `centered_offset` |
| MotteLayout.IndexOf | crates/motte_lib/src/navigation/flow_field/layout.rs:54-61 | `index` is `Some` exactly for valid cells, and then the row-major index below `len` |
| MotteLayout.CellFromIndex | crates/motte_lib/src/navigation/flow_field/layout.rs:36-39 | every index below `len` yields a valid cell whose index it is |
| MotteLayout.CellIndexRoundTrip | crates/motte_lib/src/navigation/flow_field/layout.rs:36-61 | `cell_from_index(index(c))` gives back every valid cell |
| MotteLayout.PositionRoundTrip | crates/motte_lib/src/navigation/flow_field/layout.rs:41-52 | `transform_point` undoes `position`: a cell's world position maps back to its coordinates |
| MotteLayout.CenteredSymmetric | crates/motte_lib/src/navigation/flow_field/layout.rs:23-28 | a new layout puts its first and last cell symmetrically about `center()` |
| MotteLayout.Inset | crates/motte_lib/src/navigation/flow_field/layout.rs:97 | the inset of an agent's bounds is its radius rounded up, at least 1 |
| MotteLayout.TopBottom | crates/motte_lib/src/navigation/flow_field/layout.rs:98-100 | the top and bottom rows of the bounds: two cells per column, on rows `offset - 1` and `height - offset` |
| MotteLayout.LeftRight | crates/motte_lib/src/navigation/flow_field/layout.rs:101-103 | the left and right columns of the bounds: two cells per row, on columns `offset - 1` and `width - offset` |
| MotteLayout.BoundsExactly | crates/motte_lib/src/navigation/flow_field/layout.rs:93-106 | `bounds` yields exactly the cells of those two rows and two columns, all valid, `2 * width + 2 * (height - offset - 1)` of them |
| MotteLayout.FieldBounds | crates/motte_lib/src/navigation/flow_field/layout.rs:112-115 | `field_bounds` collects exactly the bounds of every agent no larger than the given one |
| MotteLayout.FieldBoundsFrom | crates/motte_lib/src/navigation/flow_field/layout.rs:113 | the same over a list of agents |
| MotteLayout.FieldBoundsMonotone | crates/motte_lib/src/navigation/flow_field/layout.rs:112-115 | a smaller agent's field bounds are contained in a larger agent's |
| MotteFlow.SatAdd | crates/motte_lib/src/navigation/flow_field/fields/flow.rs:91 | `u8::saturating_add`: the sum, or 255 when it does not fit |
| MotteFlow.SatMul | crates/motte_lib/src/navigation/flow_field/fields/flow.rs:206 | `u8::saturating_mul`: the product, or 255 when it does not fit |
| MotteFlow.CmpIsRankOrder | crates/motte_lib/src/navigation/flow_field/fields/flow.rs:264-288 | the hand-written `Ord` is a total order: `Less`/`Equal`/`Greater` exactly as the cost's rank compares, `Equal` only for equal costs |
| MotteFlow.TiersOrdered | crates/motte_lib/src/navigation/flow_field/fields/flow.rs:264-288 | `Goal` < every `Traversable` < every `Occupied` < every `Blocked` |
| MotteFlow.DefaultIsGreatest | crates/motte_lib/src/navigation/flow_field/fields/flow.rs:194-199 | the default `Blocked(GOAL_DEPTH, 255)` is the greatest cost |
| MotteFlow.CostOf | crates/motte_lib/src/navigation/flow_field/fields/flow.rs:201-219 | `cost`: 0 for a goal, the cost of a traversable cell, the plain cost for `Occupied` at goal depth, and the saturated product of depth and cost otherwise |
| MotteFlow.ValidTraversalTiers | crates/motte_lib/src/navigation/flow_field/fields/flow.rs:221-238 | `valid_traversal`: a goal is always reachable; goals and traversable cells may go anywhere; `Blocked` only to `Blocked` or a goal; `Occupied` only to `Occupied` or a goal, and at goal depth also to `Traversable` |
| MotteFlow.DepthAndCost | crates/motte_lib/src/navigation/flow_field/fields/flow.rs:240-249 | `depth_and_cost`: the pair of `Blocked`/`Occupied`, `(0, c)` for `Traversable(c)`, `(GOAL_DEPTH, 0)` for a goal |
| MotteFlow.CandidateFacts | crates/motte_lib/src/navigation/flow_field/fields/flow.rs:86-111 | a relaxation that passes the test never creates or overwrites a goal and strictly lowers the neighbour; next to a goal an occupied cell is offered `Occupied(GOAL_DEPTH, distance)`, from which a traversable cell is reachable |
| MotteFlow.NoImproveAfterDecrease | crates/motte_lib/src/navigation/flow_field/fields/flow.rs:106 | lowering a neighbour's cost cannot enable a relaxation that failed before |
| MotteFlow.DefaultRelaxesNothing | crates/motte_lib/src/navigation/flow_field/fields/flow.rs:50-53 | nothing can be relaxed from a cell still holding the default cost |
| MotteFlow.OrthogonalStepsValid | crates/motte_lib/src/navigation/flow_field/fields/flow.rs:67-83 | for a diagonal step, the two orthogonal cells the corner check looks at are the ones sharing a coordinate with each end |
| MotteFlow.CornerSafeExactly | crates/motte_lib/src/navigation/flow_field/fields/flow.rs:66-83 | `is_diagonal_move_traversable` holds exactly when both orthogonal corner cells are valid and traversable |
| MotteFlow.CornerSafeDiagonals | crates/motte_lib/src/navigation/flow_field/fields/flow.rs:118-122 | the diagonal filter keeps exactly the corner-safe diagonal cells, without repeats |
| MotteFlow.SafeDiagonals | crates/motte_lib/src/navigation/flow_field/fields/flow.rs:118-122 | the diagonals `build` relaxes are exactly the valid diagonal cells with a safe corner |
| MotteFlow.Relaxed | crates/motte_lib/src/navigation/flow_field/fields/flow.rs:114-122 | the cells relaxed from a popped cell are exactly the valid adjacent cells and the corner-safe diagonal ones, never the cell itself |
| MotteFlow.RelaxedParts | crates/motte_lib/src/navigation/flow_field/fields/flow.rs:114-122 | the relaxed cells are the field's adjacent cells followed by the safe diagonals |
| MotteFlow.RelaxedDistinct | crates/motte_lib/src/navigation/flow_field/fields/flow.rs:114-122 | no cell is relaxed twice from the same popped cell |
| MotteFlow.SumRankUpdate | crates/motte_lib/src/navigation/flow_field/fields/flow.rs:106-107 | writing one cost changes the sum of ranks by the difference of the two ranks |
| MotteFlow.NotImprovesAfterLowering | crates/motte_lib/src/navigation/flow_field/fields/flow.rs:106-107 | lowering another cell's cost keeps a non-improvable neighbour non-improvable |
| MotteFlow.SettledAfterLowering | crates/motte_lib/src/navigation/flow_field/fields/flow.rs:106-107 | lowering a neighbour's cost keeps a settled cell settled |
| MotteFlow.DefaultIsSettled | crates/motte_lib/src/navigation/flow_field/fields/flow.rs:50-53 | a cell at the default cost is settled |
| MotteFlow.SettledIsTriangleInequality | crates/motte_lib/src/navigation/flow_field/fields/flow.rs:85-123 | once a cell is settled, every relaxed neighbour's rank is at most the rank of the cost offered through that cell |
| MotteFlow.LoweredByPut | crates/motte_lib/src/navigation/flow_field/fields/flow.rs:106-107 | a relaxation only lowers costs and never creates or removes a goal |
| MotteFlow.MinCell | crates/motte_lib/src/navigation/flow_field/fields/flow.rs:128-131 | `min_by` returns a cheapest cell of the list, the first one among equals |
| MotteFlow.FlowPointsToCheapest | crates/motte_lib/src/navigation/flow_field/fields/flow.rs:125-135 | a cell with relaxable neighbours points at one of them with the least integration cost; a cell without keeps its direction |
| MotteFlow.RemoveAt | crates/motte_lib/src/navigation/flow_field/fields/flow.rs:161-165 | removing one entry keeps the others in order: a permutation of the rest |
| MotteFlow.EntryOrder | crates/motte_lib/src/navigation/flow_field/fields/flow.rs:141 | the `(cost, cell)` order of heap entries is total, transitive and antisymmetric |
| MotteFlow.Heap.constructor | crates/motte_lib/src/navigation/flow_field/fields/flow.rs:146-152 | `Heap::new`: no entries and a `contains` field of the given size, all false |
| MotteFlow.Heap.Contains | crates/motte_lib/src/navigation/flow_field/fields/flow.rs:167-170 | `contains` reads the cell's flag, and a set flag means the cell has an entry |
| MotteFlow.Heap.Push | crates/motte_lib/src/navigation/flow_field/fields/flow.rs:154-158 | `push` appends the entry and sets the cell's flag, and nothing else |
| MotteFlow.Heap.MinPosition | crates/motte_lib/src/navigation/flow_field/fields/flow.rs:161-162 | the position of a least entry of the heap |
| MotteFlow.Heap.Pop | crates/motte_lib/src/navigation/flow_field/fields/flow.rs:160-165 | `pop` returns `None` exactly on an empty heap; otherwise a least entry, removed once, with its cell's flag cleared |
| MotteFlow.Heap.Clear | crates/motte_lib/src/navigation/flow_field/fields/flow.rs:172-178 | `clear` empties the heap and clears every flag |
| MotteFlow.FlowField.constructor | crates/motte_lib/src/navigation/flow_field/fields/flow.rs:36-43 | `from_layout`: all directions `None`, all costs default, an empty heap, all of the layout's size |
| MotteFlow.FlowField.Reset | crates/motte_lib/src/navigation/flow_field/fields/flow.rs:50-53 | every cost back to the default and every direction to `None` |
| MotteFlow.FlowField.Seed | crates/motte_lib/src/navigation/flow_field/fields/flow.rs:57-64 | valid goals get cost `Goal` and direction `None` and are pushed; invalid ones are skipped; other cells keep their values |
| MotteFlow.FlowField.Process | crates/motte_lib/src/navigation/flow_field/fields/flow.rs:86-111 | one relaxation: the neighbour gets the offered cost exactly when the test passes, costs only decrease, and the neighbour can no longer be improved from the cell |
| MotteFlow.FlowField.ProcessAll | crates/motte_lib/src/navigation/flow_field/fields/flow.rs:114-122 | after relaxing a list of neighbours none of them can be improved from the cell, the sum of ranks fell or nothing changed, and every cost is still explained by a path from a goal and fits its cell's tier |
| MotteFlow.FlowField.Propagate | crates/motte_lib/src/navigation/flow_field/fields/flow.rs:85-123 | the search loop ends with an empty heap and every cell settled, every cost still explained by a path from a goal and fitting its cell's tier |
| MotteFlow.FlowField.PointFlows | crates/motte_lib/src/navigation/flow_field/fields/flow.rs:125-135 | the final pass points every cell as `FlowFor` directs: at a cheapest relaxable neighbour, or unchanged |
| MotteFlow.FlowField.Build | crates/motte_lib/src/navigation/flow_field/fields/flow.rs:45-136 | `build` leaves an empty heap, goal costs at exactly the valid goals, every cell settled, and every cell pointing at a cheapest relaxable neighbour; every cost other than the default is reached by a path from a goal at most its accumulated distance long, and fits its cell's tier (`Traversable` exactly on traversable cells, `Occupied` only on occupied ones, `Blocked` only on free ones); every path of traversable cells from a goal bounds the `Traversable` cost at its end; every reached cell other than a goal points at one of its relaxable neighbours |
| MotteFlow.MoveSymmetric | crates/motte_lib/src/navigation/flow_field/fields/flow.rs:66-122 | a cell relaxed from another relaxes that other back: adjacency and the corner check are symmetric |
| MotteFlow.AccumulatedOfCandidate | crates/motte_lib/src/navigation/flow_field/fields/flow.rs:86-111 | a cost that passes the relaxation test carries the popped cell's accumulated distance plus the step, saturated at 255 |
| MotteFlow.PathPrefix | crates/motte_lib/src/navigation/flow_field/fields/flow.rs:85-123 | every non-empty prefix of a path from a goal is a path from that goal |
| MotteFlow.PathExtend | crates/motte_lib/src/navigation/flow_field/fields/flow.rs:114-122 | a path followed by a relaxable move is a path, longer by that move's distance |
| MotteFlow.OfferAccumulates | crates/motte_lib/src/navigation/flow_field/fields/flow.rs:86-111 | a passing relaxation comes from a cell holding more than the default, and offers that cell's accumulated distance plus the step |
| MotteFlow.ReachedStep | crates/motte_lib/src/navigation/flow_field/fields/flow.rs:86-111 | a cell reached within a distance reaches each of its relaxable neighbours within that distance plus the step, saturated |
| MotteFlow.ReachedNeighbor | crates/motte_lib/src/navigation/flow_field/fields/flow.rs:106-107 | the cost written by a passing relaxation is reached by a path from a goal within its accumulated distance |
| MotteFlow.ReachedByWrite | crates/motte_lib/src/navigation/flow_field/fields/flow.rs:106-107 | a passing relaxation keeps every cost explained by a path from a goal |
| MotteFlow.TiersByWrite | crates/motte_lib/src/navigation/flow_field/fields/flow.rs:86-111 | a passing relaxation keeps every cost in its cell's tier |
| MotteFlow.ExplainedByWrite | crates/motte_lib/src/navigation/flow_field/fields/flow.rs:106-107 | a passing relaxation keeps both explanations: paths from goals and tiers |
| MotteFlow.SeededExplained | crates/motte_lib/src/navigation/flow_field/fields/flow.rs:57-64 | right after seeding, the goals are reached by themselves and every cost fits its tier |
| MotteFlow.OpenPathPrefix | crates/motte_lib/src/navigation/flow_field/fields/flow.rs:85-123 | dropping the last cell of a path of traversable cells leaves such a path, shorter by the last move |
| MotteFlow.OpenStep | crates/motte_lib/src/navigation/flow_field/fields/flow.rs:85-123 | a settled goal or `Traversable` cost within a length bounds a traversable neighbour's cost by that length plus the step |
| MotteFlow.SettledBoundsOpenPaths | crates/motte_lib/src/navigation/flow_field/fields/flow.rs:85-123 | once every cell is settled, the cost at the end of a path of traversable cells from a goal is `Goal` or a `Traversable` cost at most the path's length |
| MotteFlow.ReachedHasDirection | crates/motte_lib/src/navigation/flow_field/fields/flow.rs:125-135 | a reached cell other than a goal has relaxable neighbours, and the final pass points it at one of them |
| MotteFlow.SearchBounds | crates/motte_lib/src/navigation/flow_field/fields/flow.rs:85-135 | after the search, every path of traversable cells from a goal bounds its end's cost and every reached cell other than a goal gets a direction |
| WbNavGrid.AsIsizeExact | crates/warband_lib/src/navigation/flow_field/fields/mod.rs:66-69 | the `as isize` casts of `manhattan` and `direction` keep every coordinate below `2^63` |
| WbNavGrid.FromIndexOfIndex | crates/warband_lib/src/navigation/flow_field/fields/mod.rs:170-180 | `index_to_cell(cell_to_index(c, w), w) == c` for every cell with `x < w` |
| WbNavGrid.IndexOfFromIndex | crates/warband_lib/src/navigation/flow_field/fields/mod.rs:170-180 | `cell_to_index(index_to_cell(i, w), w) == i` for every index and non-zero width |
| WbNavGrid.IndexInRange | crates/warband_lib/src/navigation/flow_field/fields/mod.rs:61-63 | a valid cell's index lies below `width * height` |
| WbNavGrid.FromIndexInBounds | crates/warband_lib/src/navigation/flow_field/fields/mod.rs:177-180 | an index below `width * height` names a valid cell |
| WbNavGrid.IndexInjective | crates/warband_lib/src/navigation/flow_field/fields/mod.rs:61-63 | two cells with `x < width` and the same index are the same cell |
| WbNavGrid.DistancesAgree | crates/warband_lib/src/navigation/flow_field/fields/mod.rs:65-86 | `manhattan` is the sum of the absolute coordinate differences, symmetric and zero only for equal cells; `coordinate_distance` is symmetric and never exceeds it |
| WbNavGrid.CheckedAddSigned | crates/warband_lib/src/navigation/flow_field/fields/mod.rs:97-99 | `checked_add_signed` succeeds exactly when the sum stays in `0 .. 2^64`, and then returns it |
| WbNavGrid.NeighborOfNone | crates/warband_lib/src/navigation/flow_field/fields/mod.rs:145-158 | `neighbor(Direction::None)` is `None` |
| WbNavGrid.NeighborDirection | crates/warband_lib/src/navigation/flow_field/fields/mod.rs:127-161 | for every proper direction, `neighbor(d) == Some(n)` exactly when `direction(n) == d` |
| WbNavGrid.NeighborsVia | crates/warband_lib/src/navigation/flow_field/fields/mod.rs:96-100 | the filter-map over offsets yields only cells some offset reaches, and every cell an offset reaches |
| WbNavGrid.AdjacentExactly | crates/warband_lib/src/navigation/flow_field/fields/mod.rs:87-101 | `adjacent` yields exactly the cells at Manhattan distance one |
| WbNavGrid.DiagonalExactly | crates/warband_lib/src/navigation/flow_field/fields/mod.rs:102-116 | `diagonal` yields exactly the cells one step away along both axes |
| WbNavGrid.FromVecFacts | crates/warband_lib/src/navigation/flow_field/fields/mod.rs:197-225 | `from_vec` is `None` exactly for the zero vector; otherwise its offset has the vector's signs where non-zero; every unit offset maps back to its own direction |
| WbNavGrid.Put | crates/warband_lib/src/navigation/flow_field/fields/mod.rs:418-424 | writing one cell keeps the field's length |
| WbNavGrid.AtPut | crates/warband_lib/src/navigation/flow_field/fields/mod.rs:410-424 | after writing a cell, that cell holds the new value and every other valid cell its old one |
| WbNavGrid.FilterValid | crates/warband_lib/src/navigation/flow_field/fields/mod.rs:317-320 | the filter keeps exactly the listed cells that are valid, in order |
| WbNavGrid.FieldNeighborsExactly | crates/warband_lib/src/navigation/flow_field/fields/mod.rs:322-335 | `Field::adjacent` and `Field::diagonal` yield exactly the valid cells at the matching offsets |
| WbNavGrid.FieldNeighbor | crates/warband_lib/src/navigation/flow_field/fields/mod.rs:337-340 | `Field::neighbor` is the cell's neighbour, kept only if valid |
| WbNavGrid.NeighborsAt | crates/warband_lib/src/navigation/flow_field/fields/mod.rs:342-357 | `Field::neighbors_at` yields, per direction, `Field::neighbor` of that direction |
| WbNavGrid.Resized | crates/warband_lib/src/navigation/flow_field/fields/mod.rs:359-367 | `Vec::resize`: the new length, the old prefix kept, the default after it |
| WbNavGrid.Field.constructor | crates/warband_lib/src/navigation/flow_field/fields/mod.rs:268-271 | `Field::new` stores the data as given; the field is well formed exactly when the data has `width * height` values |
| WbNavGrid.Field.Len | crates/warband_lib/src/navigation/flow_field/fields/mod.rs:384-387 | `len` is the length of the data |
| WbNavGrid.Field.Empty | crates/warband_lib/src/navigation/flow_field/fields/mod.rs:389-392 | `empty` holds exactly when the width or the height is zero |
| WbNavGrid.Field.Center | crates/warband_lib/src/navigation/flow_field/fields/mod.rs:379-382 | `center` halves both sizes, rounding down, and lies inside a non-empty field |
| WbNavGrid.Field.IndexOf | crates/warband_lib/src/navigation/flow_field/fields/mod.rs:279-287 | `index` is `Some` exactly for valid cells, with the row-major index below `len()` |
| WbNavGrid.Field.CellAt | crates/warband_lib/src/navigation/flow_field/fields/mod.rs:289-296 | `cell` is `Some` exactly for indices below `len()`, and that cell's index is the given one |
| WbNavGrid.Field.Get | crates/warband_lib/src/navigation/flow_field/fields/mod.rs:304-315 | `get` is `Some` exactly for valid cells, holding the cell's value |
| WbNavGrid.Field.Set | crates/warband_lib/src/navigation/flow_field/fields/mod.rs:418-424 | `IndexMut<Cell>` writes the slot `index_no_check` names and nothing else |
| WbNavGrid.Field.Resize | crates/warband_lib/src/navigation/flow_field/fields/mod.rs:359-367 | `resize` takes the new dimensions, keeps the old prefix and fills new slots with the default |
| WbNavAgent.ToU8 | crates/warband_lib/src/navigation/agent.rs:81-89 | `radius as u8`: the odd discriminants 1, 3, 5, 7, in declaration order |
| WbNavAgent.AsF32 | crates/warband_lib/src/navigation/agent.rs:104-120 | `as_f32` and `From<AgentRadius> for f32`: the discriminant as a number between 1 and 7 |
| WbNavAgent.RadiusOrder | crates/warband_lib/src/navigation/agent.rs:81-109 | the derived order agrees with the discriminants and with `as_f32`; `largest_to_smallest` lists all four radii, strictly decreasing, from `LARGEST` to `SMALLEST` |
| WbNavAgent.New | crates/warband_lib/src/navigation/agent.rs:38-40 | `Agent::new`: the given radius and height, mass 1 |
| WbNavAgent.FromRadius | crates/warband_lib/src/navigation/agent.rs:34-36 | `from_radius`: height twice the radius, between 2 and 14, mass 1 |
| WbNavAgent.Cylinder | crates/warband_lib/src/navigation/agent.rs:14-16 | `cylinder` wraps `Agent::new` |
| WbNavAgent.Sized | crates/warband_lib/src/navigation/agent.rs:18-32 | `small`, `medium`, `large`, `huge` wrap `from_radius`: height twice the radius |
| WbNavAgent.WithRadius | crates/warband_lib/src/navigation/agent.rs:42-45 | `with_radius` changes the radius only |
| WbNavAgent.WithHeight | crates/warband_lib/src/navigation/agent.rs:47-50 | `with_height` changes the height only |
| WbNavAgent.WithMass | crates/warband_lib/src/navigation/agent.rs:52-55 | `with_mass` changes the mass only |
| WbNavAgent.Mass | crates/warband_lib/src/navigation/agent.rs:65-67 | `mass()` as written returns the height field |
| WbNavAgent.CorrectedMass | crates/warband_lib/src/navigation/agent.rs:65-67 | the intended accessor returns the mass field |
| WbNavAgent.MassReadsHeight | crates/warband_lib/src/navigation/agent.rs:52-67 | `mass()` after `with_mass(5)` on a small agent reports 2; the corrected accessor reads back every mass set and 1 for a fresh agent |
| WbNavFootprint.IsEmpty | crates/warband_lib/src/navigation/flow_field/footprint.rs:18-20 | `Footprint::empty` holds exactly for `Footprint::Empty` |
| WbNavFootprint.WrapUsizeOf | crates/warband_lib/src/navigation/flow_field/footprint.rs:28-29 | the `as usize` cast of a sum in `isize` range adds `2^64` to a negative value and keeps any other |
| WbNavFootprint.CastsRoundTrip | crates/warband_lib/src/navigation/flow_field/footprint.rs:28-29 | `usize -> isize -> usize` keeps every `usize`, and `isize -> usize -> isize` every `isize` |
| WbNavFootprint.OffsetDistance | crates/warband_lib/src/navigation/flow_field/footprint.rs:28-31 | away from the `isize` limit, the Manhattan distance to an offset cell is the size of the offset |
| WbNavFootprint.ExpandColumn | crates/warband_lib/src/navigation/flow_field/footprint.rs:27-36 | one column of the expansion yields only cells within the radius, each at one of its offsets, and every offset cell within the radius |
| WbNavFootprint.ExpandDiamond | crates/warband_lib/src/navigation/flow_field/footprint.rs:26-37 | one cell's expansion yields only cells within the radius, each at an offset in the square, and every offset cell within the radius |
| WbNavFootprint.ExpandAll | crates/warband_lib/src/navigation/flow_field/footprint.rs:25-38 | every expanded cell lies within the radius of some footprint cell |
| WbNavFootprint.Expand | crates/warband_lib/src/navigation/flow_field/footprint.rs:23-41 | `expand` is `Some` exactly for `Footprint::Cells` |
| WbNavFootprint.DiamondExactly | crates/warband_lib/src/navigation/flow_field/footprint.rs:26-37 | away from the `isize` limit, one cell's expansion is exactly the `usize` cells within Manhattan distance `radius` |
| WbNavFootprint.OffsetIsUsize | crates/warband_lib/src/navigation/flow_field/footprint.rs:28-30 | every offset cell, wrapped, has `usize` coordinates |
| WbNavFootprint.DiamondCellIsOffset | crates/warband_lib/src/navigation/flow_field/footprint.rs:26-30 | every `usize` cell within the radius is reached by some offset in the square |
| WbNavFootprint.ExpandAllExactly | crates/warband_lib/src/navigation/flow_field/footprint.rs:25-38 | the expansion of a list is exactly the `usize` cells within the radius of some listed cell |
| WbNavFootprint.ExpandIsDiamond | crates/warband_lib/src/navigation/flow_field/footprint.rs:23-41 | `expand(radius)` yields exactly the cells within Manhattan distance `radius` of the footprint; it contains the footprint, and radius 0 yields the footprint itself |
| WbNavFootprint.ManhattanZero | crates/warband_lib/src/navigation/flow_field/footprint.rs:31 | the distance test's `manhattan` is zero exactly for the cell itself |
| WbNavFootprint.ExpandEmitsWrappedCells | crates/warband_lib/src/navigation/flow_field/footprint.rs:28-31 | at `x = 0` the expansion emits the wrapped cell `(2^64 - 1, y)`, which the field later drops as invalid |
| WbNavFootprint.AgentFootprint | crates/warband_lib/src/navigation/flow_field/footprint.rs:51-84 | `agents`: an agent outside the field gets `Footprint::Empty`, one inside gets its cells; the footprint is empty exactly when the cell index is invalid |
| WbNavFootprint.ObstacleFootprint | crates/warband_lib/src/navigation/flow_field/footprint.rs:92-119 | `obstacles`: a non-shape obstacle gets `Footprint::Empty`, a shape gets its cells |
| WbNavObstacleField.TraversableDownwardClosed | crates/warband_lib/src/navigation/flow_field/fields/obstacle.rs:44-61 | `Cost::traversable`: a cell open to an agent is open to every smaller one; the default is open to every agent and is the greatest cost; traversable exactly when the cost's rank exceeds the radius' |
| WbNavObstacleField.ExpandedTraversable | crates/warband_lib/src/navigation/flow_field/fields/obstacle.rs:85-94 | `expanded_traversable(agent)` lets through exactly the agents smaller than `agent`; it is `Blocked` exactly for `Small` |
| WbNavObstacleField.ExpandedCells | crates/warband_lib/src/navigation/flow_field/fields/obstacle.rs:73-77 | the cells splatted are exactly those of the obstacles' `Cells` footprints |
| WbNavObstacleField.ObstacleField.constructor | crates/warband_lib/src/navigation/flow_field/fields/obstacle.rs:18-20 | `from_layout`: a field of the layout's size with every cell at the default cost |
| WbNavObstacleField.ObstacleField.IsTraversable | crates/warband_lib/src/navigation/flow_field/fields/obstacle.rs:32-35 | `traversable` is the cell's cost's `traversable`, so true for every smaller agent too |
| WbNavObstacleField.ObstacleField.Clear | crates/warband_lib/src/navigation/flow_field/fields/obstacle.rs:37-41 | `clear` resets every slot to the default, keeping the size |
| WbNavObstacleField.ObstacleField.Splat | crates/warband_lib/src/navigation/flow_field/fields/obstacle.rs:22-30 | `splat` sets the cost of the valid listed cells, skips invalid ones, and keeps every other cell |
| WbNavObstacleField.ObstacleField.SplatAgent | crates/warband_lib/src/navigation/flow_field/fields/obstacle.rs:68-78 | the `splat` system for one agent size writes `expanded_traversable(agent)` on the expanded obstacle cells and keeps every other cell |
| WbNavObstacleField.ClearAndSplat | crates/warband_lib/src/navigation/flow_field/fields/obstacle.rs:63-78 | `clear` then `splat`: a cell is traversable for an agent exactly when no expanded obstacle covers it or the agent is smaller than the one splatted |
| WbNavCostObstacle.ExpansionFromRadius | crates/warband_lib/src/navigation/flow_field/cost/obstacle.rs:72-75 | `expansion_from_radius` truncates `r / 2 - 0.5`: 0 for Small, 1 for Medium, 2 for Large |
| WbNavCostObstacle.BaseCells | crates/warband_lib/src/navigation/flow_field/cost/obstacle.rs:88-92 | the cells the second loop blocks are exactly those of the `Cells` footprints |
| WbNavCostObstacle.BlockDistance | crates/warband_lib/src/navigation/flow_field/cost/obstacle.rs:77-85 | the ring distance that keeps a radius out: one less than its rank |
| WbNavCostObstacle.MinCost | crates/warband_lib/src/navigation/flow_field/cost/obstacle.rs:43-48 | the derived order's minimum of two costs: one of them, no greater than either |
| WbNavCostObstacle.StrictRingsSteps | crates/warband_lib/src/navigation/flow_field/cost/obstacle.rs:77-85 | the corrected pass for one obstacle is the Large, Medium and Small ring writes in turn, each keeping the stricter cost |
| WbNavCostObstacle.SingleObstacleAgrees | crates/warband_lib/src/navigation/flow_field/cost/obstacle.rs:77-85 | with a single obstacle the written pass and the corrected one leave the same cost |
| WbNavCostObstacle.RingMembership | crates/warband_lib/src/navigation/flow_field/cost/obstacle.rs:80 | away from the `isize` limit, `expand(e)` holds exactly the cells within distance `e` of the footprint |
| WbNavCostObstacle.RingsOfByDistance | crates/warband_lib/src/navigation/flow_field/cost/obstacle.rs:77-85 | one obstacle's rings: Small-only on the obstacle, Medium within 1, Large within 2, the old cost beyond |
| WbNavCostObstacle.StrictRingsByDistance | crates/warband_lib/src/navigation/flow_field/cost/obstacle.rs:67-86 | after the corrected ring pass a radius passes a cell exactly when no obstacle lies within its blocking distance |
| WbNavCostObstacle.OneObstacleByDistance | crates/warband_lib/src/navigation/flow_field/cost/obstacle.rs:77-85 | one obstacle's rings alone keep a radius out exactly within its blocking distance |
| WbNavCostObstacle.NearOneMonotone | crates/warband_lib/src/navigation/flow_field/cost/obstacle.rs:77-85 | the rings are nested: near within 0 implies within 1 implies within 2 |
| WbNavCostObstacle.NearOfLast | crates/warband_lib/src/navigation/flow_field/cost/obstacle.rs:67 | near some obstacle of a list means near one of its prefix or near its last |
| WbNavCostObstacle.CorrectedCostByDistance | crates/warband_lib/src/navigation/flow_field/cost/obstacle.rs:62-93 | after the corrected system every obstacle cell is `Blocked`, and any other cell admits a radius exactly when no obstacle lies within its blocking distance |
| WbNavCostObstacle.LaterRingLoosens | crates/warband_lib/src/navigation/flow_field/cost/obstacle.rs:67-86 | as written, an obstacle at distance 2 listed after one at distance 1 leaves the cell `Traversable(Large)`, though the nearer obstacle should keep Large out; the corrected system gives `Traversable(Medium)` |
| WbNavCostObstacle.PairRings | crates/warband_lib/src/navigation/flow_field/cost/obstacle.rs:67-86 | the two ring passes over the pair of `LaterRingLoosens` |
| WbNavCostObstacle.PairBase | crates/warband_lib/src/navigation/flow_field/cost/obstacle.rs:88-92 | the cell of `LaterRingLoosens` is neither obstacle's own cell |
| WbNavCostObstacle.LaterRingLoosensExample | crates/warband_lib/src/navigation/flow_field/cost/obstacle.rs:67-86 | the cells (5, 5), (8, 5) and (6, 5) meet the conditions of `LaterRingLoosens` |
| WbNavCostObstacle.CostObstacleField.constructor | crates/warband_lib/src/navigation/flow_field/cost/obstacle.rs:18-20 | `from_layout`: the layout's size, every cell at the default cost |
| WbNavCostObstacle.CostObstacleField.IsTraversable | crates/warband_lib/src/navigation/flow_field/cost/obstacle.rs:32-34 | `traversable` is the cell's cost's `traversable` |
| WbNavCostObstacle.CostObstacleField.Clear | crates/warband_lib/src/navigation/flow_field/cost/obstacle.rs:36-40 | `clear` resets every valid cell to the default, keeping the size |
| WbNavCostObstacle.CostObstacleField.Update | crates/warband_lib/src/navigation/flow_field/cost/obstacle.rs:22-30 | `update` writes the cost to every valid listed cell, skips invalid ones and keeps the rest |
| WbNavCostObstacle.CostObstacleField.Restrict | crates/warband_lib/src/navigation/flow_field/cost/obstacle.rs:22-30 | the corrected writer keeps the stricter of each listed cell's cost and the new one |
| WbNavCostObstacle.CostObstacleField.WriteRings | crates/warband_lib/src/navigation/flow_field/cost/obstacle.rs:77-85 | the ring loop for one obstacle leaves each cell the cost `RingsOf` gives |
| WbNavCostObstacle.CostObstacleField.RestrictRings | crates/warband_lib/src/navigation/flow_field/cost/obstacle.rs:77-85 | the corrected ring loop leaves each cell the cost the strict rings give |
| WbNavCostObstacle.CostObstacleField.UpdateSystem | crates/warband_lib/src/navigation/flow_field/cost/obstacle.rs:62-93 | the `update` system leaves every cell the cost of the written ring pass, and every obstacle cell `Blocked` |
| WbNavCostObstacle.CostObstacleField.CorrectedUpdateSystem | crates/warband_lib/src/navigation/flow_field/cost/obstacle.rs:62-93 | the corrected system leaves every cell the cost of the corrected ring pass, obstacle cells `Blocked` |
| WbNavCostObstacle.CostObstacleField.BlockObstacles | crates/warband_lib/src/navigation/flow_field/cost/obstacle.rs:88-92 | the second loop blocks every obstacle cell and keeps every other cell |
| WbNavFlow.CostOrder | crates/warband_lib/src/navigation/flow_field/fields/flow.rs:190-226 | the hand-written `PartialEq`/`Ord` compare only `cost()`: equality is incomparability, Goal is least and Blocked greatest, and `Traversable(0)` equals Goal, `Traversable(u16::MAX)` equals Blocked |
| WbNavFlow.SatAdd | crates/warband_lib/src/navigation/flow_field/fields/flow.rs:83 | `u16::saturating_add`: never below the first operand, the exact sum when it fits, `u16::MAX` otherwise |
| WbNavFlow.CellOfSmallField | crates/warband_lib/src/navigation/flow_field/fields/flow.rs:82 | in a field of fewer than `2^63` cells, every cell and its neighbours survive the `isize` casts |
| WbNavFlow.OrthogonalStepsValid | crates/warband_lib/src/navigation/flow_field/fields/flow.rs:101-117 | for a diagonal step, the two orthogonal steps `check` takes exist and land on the cells sharing a coordinate with each end |
| WbNavFlow.CornerSafeExactly | crates/warband_lib/src/navigation/flow_field/fields/flow.rs:101-117 | `is_diagonal_neighbor_valid` holds exactly when both orthogonal corner cells are valid and traversable |
| WbNavFlow.CornerSafeDiagonals | crates/warband_lib/src/navigation/flow_field/fields/flow.rs:119-122 | the diagonal filter keeps exactly the corner-safe cells of the list |
| WbNavFlow.SafeDiagonals | crates/warband_lib/src/navigation/flow_field/fields/flow.rs:119-122 | the diagonals processed are exactly the valid diagonal cells with a safe corner |
| WbNavFlow.Relaxed | crates/warband_lib/src/navigation/flow_field/fields/flow.rs:97-124 | the cells processed from a popped cell are exactly the valid adjacent cells and the valid corner-safe diagonals, one or two steps away |
| WbNavFlow.RelaxedParts | crates/warband_lib/src/navigation/flow_field/fields/flow.rs:97-124 | the processed cells are the adjacent ones followed by the safe diagonals |
| WbNavFlow.StepBack | crates/warband_lib/src/navigation/flow_field/fields/flow.rs:90 | from a processed neighbour, `neighbor.direction(cell)` is a proper direction that steps back to the cell |
| WbNavFlow.ImprovesOnlyTraversable | crates/warband_lib/src/navigation/flow_field/fields/flow.rs:73-94 | `process` changes a neighbour exactly when it is traversable and the saturated sum of the cell's cost and the distance is below its cost: the Goal branch never fires |
| WbNavFlow.SettledIsTriangleInequality | crates/warband_lib/src/navigation/flow_field/fields/flow.rs:72-125 | once a cell is settled, every traversable cell it processes costs at most its cost plus the distance |
| WbNavFlow.SumCostUpdate | crates/warband_lib/src/navigation/flow_field/fields/flow.rs:88-89 | writing one cost changes the sum of costs by the difference |
| WbNavFlow.FlowEdgeTight | crates/warband_lib/src/navigation/flow_field/fields/flow.rs:88-90 | when every cell is settled, each traversable cell's direction leads to a neighbour through which its cost is attained exactly; any other cell has no direction |
| WbNavFlow.FlowEdgeAfterLowering | crates/warband_lib/src/navigation/flow_field/fields/flow.rs:88-90 | lowering and redirecting another cell keeps a cell's direction explaining its cost |
| WbNavFlow.RemoveAt | crates/warband_lib/src/navigation/flow_field/fields/flow.rs:172-176 | removing one entry keeps the others in order and loses exactly that element |
| WbNavFlow.EntryOrder | crates/warband_lib/src/navigation/flow_field/fields/flow.rs:156 | the order of `Reverse<(IntegrationCost, Cell)>` entries is total and transitive |
| WbNavFlow.Heap.constructor | crates/warband_lib/src/navigation/flow_field/fields/flow.rs:161-164 | `Heap::new`: no entries and a cleared bitmap of the given size |
| WbNavFlow.Heap.Contains | crates/warband_lib/src/navigation/flow_field/fields/flow.rs:177-180 | `contains` reads the cell's bit, and a set bit means the cell has an entry |
| WbNavFlow.Heap.Push | crates/warband_lib/src/navigation/flow_field/fields/flow.rs:165-169 | `push` appends the entry and sets the cell's bit, and nothing else |
| WbNavFlow.Heap.MinPosition | crates/warband_lib/src/navigation/flow_field/fields/flow.rs:173 | the position of a least entry, as `BinaryHeap::pop` of `Reverse` returns |
| WbNavFlow.Heap.Pop | crates/warband_lib/src/navigation/flow_field/fields/flow.rs:171-176 | `pop` is `None` exactly on an empty heap; otherwise it returns a least entry, removes it once and clears its cell's bit |
| WbNavFlow.Heap.Clear | crates/warband_lib/src/navigation/flow_field/fields/flow.rs:181-187 | `clear` empties the heap and clears every bit |
| WbNavFlow.FlowField.constructor | crates/warband_lib/src/navigation/flow_field/fields/flow.rs:34-41 | `from_layout`: all directions `None`, all costs `Blocked`, an empty heap, all of the layout's size |
| WbNavFlow.FlowField.Reset | crates/warband_lib/src/navigation/flow_field/fields/flow.rs:53-57 | every cost back to `Blocked` and every direction to `None` |
| WbNavFlow.FlowField.Seed | crates/warband_lib/src/navigation/flow_field/fields/flow.rs:59-68 | valid goals get cost Goal and direction `None` and are pushed; invalid ones are skipped; other cells keep their values |
| WbNavFlow.FlowField.Process | crates/warband_lib/src/navigation/flow_field/fields/flow.rs:73-95 | one `process` call: the neighbour can no longer be improved from the cell; when it was, it is lowered, redirected and in the heap, and the sum of costs drops |
| WbNavFlow.FlowField.ProcessAll | crates/warband_lib/src/navigation/flow_field/fields/flow.rs:97-124 | after processing a list of neighbours none of them can be improved from the cell, and the search's invariants hold |
| WbNavFlow.FlowField.Propagate | crates/warband_lib/src/navigation/flow_field/fields/flow.rs:72-125 | the search loop ends with an empty heap, every cell settled, every direction explaining its cost, costs only lowered |
| WbNavFlow.FlowField.PointObstacles | crates/warband_lib/src/navigation/flow_field/fields/flow.rs:127-143 | the obstacle loop points each valid non-goal footprint cell away from the last obstacle covering it and keeps every other direction |
| WbNavFlow.FlowField.PointBounds | crates/warband_lib/src/navigation/flow_field/fields/flow.rs:145-150 | the bounds loop writes, at each bound's unchecked index, the direction towards the field's centre |
| WbNavFlow.FlowField.Build | crates/warband_lib/src/navigation/flow_field/fields/flow.rs:43-151 | `build` leaves an empty heap; Goal exactly at the valid goals; every cell settled; the flow is the search's directions, each explaining its cell's cost, redrawn by the obstacle and bounds loops |
| WbNavFlow.BlockedIsSettled | crates/warband_lib/src/navigation/flow_field/fields/flow.rs:77-79 | a `Blocked` cell relaxes nothing: it is settled |
| WbNavFlow.ObstacleDirection | crates/warband_lib/src/navigation/flow_field/fields/flow.rs:134-141 | a non-goal footprint cell points along the vector from the obstacle's origin to it |
| WbNavFlow.LastCovering | crates/warband_lib/src/navigation/flow_field/fields/flow.rs:128-143 | the last obstacle whose footprint holds the cell, or -1 when none does |
| WbNavFlow.ObstacleFlowFacts | crates/warband_lib/src/navigation/flow_field/fields/flow.rs:127-143 | after the obstacle loop a cell keeps its direction when it is a goal or no footprint covers it, and otherwise points away from the last covering obstacle |
| WbNavFlow.ObstacleFlowPointsAway | crates/warband_lib/src/navigation/flow_field/fields/flow.rs:127-143 | a covered non-goal cell's new direction is `None` only at the origin itself, and otherwise has the signs of the vector away from the origin |
| WbNavFlow.ObstacleFlow | crates/warband_lib/src/navigation/flow_field/fields/flow.rs:127-143 | the whole direction grid after the obstacle loop keeps the field's length |
| WbNavFlow.ObstacleFlowIs | crates/warband_lib/src/navigation/flow_field/fields/flow.rs:127-143 | a grid agreeing with the obstacle loop at every valid cell is the obstacle loop's grid |
| WbNavFlow.BoundsFlow | crates/warband_lib/src/navigation/flow_field/fields/flow.rs:145-150 | the grid after the bounds loop keeps the field's length |
| WbNavFlow.BoundsFlowAt | crates/warband_lib/src/navigation/flow_field/fields/flow.rs:145-150 | with valid bounds, exactly the bound cells point towards the centre, `None` only at the centre itself; every other cell keeps its direction |
| WbNavFlow.BoundPastEdgeAliases | crates/warband_lib/src/navigation/flow_field/fields/flow.rs:147-149 | a bound one column past the right edge is invalid, yet its unchecked index redirects the first cell of the next row |
| WbNavFlow.PrefixCleared | crates/warband_lib/src/navigation/flow_field/fields/flow.rs:97-124 | the loop invariant of the neighbour loops: the processed prefix of neighbours stays non-improvable |
| WbNavFlow.LoweredTransitive | crates/warband_lib/src/navigation/flow_field/fields/flow.rs:88-89 | lowering twice is lowering |
| WbNavFlow.LoweredByRelax | crates/warband_lib/src/navigation/flow_field/fields/flow.rs:88-89 | a relaxation lowers one cost, keeps the goals, and creates no zero-cost non-goal |
| WbNavFlow.FlowEdgesByRelax | crates/warband_lib/src/navigation/flow_field/fields/flow.rs:88-90 | a relaxation keeps every direction explaining its cell's cost |
| WbNavFlow.FlowEdgeOfRelaxed | crates/warband_lib/src/navigation/flow_field/fields/flow.rs:88-90 | the relaxed neighbour's new direction explains its new cost |
| WbNavFlow.OfferPositive | crates/warband_lib/src/navigation/flow_field/fields/flow.rs:81-86 | the cost offered to a traversable neighbour is a positive `Traversable`, to any other Goal |
| WbNavFlow.SmallDistanceCast | crates/warband_lib/src/navigation/flow_field/fields/flow.rs:82 | the `as u16` cast keeps the distances 1 and 2 |
| WbNavFlow.SettledByRelax | crates/warband_lib/src/navigation/flow_field/fields/flow.rs:88-89 | after a relaxation the neighbour is no longer improvable and no settled move becomes improvable |
| WbNavFlow.NotImprovesAfterLowering | crates/warband_lib/src/navigation/flow_field/fields/flow.rs:88-89 | lowering another non-goal cell keeps a non-improvable move non-improvable |
| WbNavFlow.BuildGoals | crates/warband_lib/src/navigation/flow_field/fields/flow.rs:238-242 | the goals are the expanded footprint's cells when it has cells, the field's own cell when there is no footprint and the index is valid, and otherwise the field is skipped |
| WbNavFlow.ObstacleInputs | crates/warband_lib/src/navigation/flow_field/fields/flow.rs:249-257 | the obstacles passed to `build` are exactly the (cell, footprint) pairs of obstacles with cells and a valid index |
| WbNavFlow.BuildSystemOne | crates/warband_lib/src/navigation/flow_field/fields/flow.rs:237-264 | a skipped field is left unchanged; a rebuilt one has Goal exactly at its goals |
| WbNavLayout.New | crates/warband_lib/src/navigation/flow_field/layout.rs:24-28 | `FieldLayout::new`: the given size, the default cell size, and the centred offset for them |
| WbNavLayout.WithCellSize | crates/warband_lib/src/navigation/flow_field/layout.rs:30-34 | `with_cell_size`: the new cell size, the size kept, the offset recentred for the new cell size |
| WbNavLayout.CellSize | crates/warband_lib/src/navigation/flow_field/layout.rs:74-77 | `cell_size` is the stored size but never below `f32::EPSILON` |
| WbNavLayout.IndexOf | crates/warband_lib/src/navigation/flow_field/layout.rs:60-67 | `index` is `Some` exactly for valid cells, with the row-major index below `len()` |
| WbNavLayout.CellFromIndex | crates/warband_lib/src/navigation/flow_field/layout.rs:42-45 | `cell_from_index` of an index below `len()` is a valid cell with that index |
| WbNavLayout.CellIndexRoundTrip | crates/warband_lib/src/navigation/flow_field/layout.rs:42-72 | cell to index to cell and index to cell to index are identities on the field |
| WbNavLayout.PositionRoundTrip | crates/warband_lib/src/navigation/flow_field/layout.rs:36-58 | `transform_point(position(c))` divided by `cell_size()` gives back the cell's coordinates, the values `cell` rounds |
| WbNavLayout.CenteredSymmetric | crates/warband_lib/src/navigation/flow_field/layout.rs:24-34 | with the centred offset, the first and last cell of a non-empty field lie symmetrically about `center()` |
| WbNavLayout.Inset | crates/warband_lib/src/navigation/flow_field/layout.rs:108 | the offset `agent.radius().ceil() as usize`: the radius, at least 1. The warband `AgentRadius` has no `ceil`, so this line does not type-check as written; the model reads `radius().ceil()` as the radius's discriminant, a whole number |
| WbNavLayout.TopBottom | crates/warband_lib/src/navigation/flow_field/layout.rs:109-111 | the top-and-bottom part yields, per column, the cells in rows `offset - 1` and `height - offset`, two per column |
| WbNavLayout.LeftRight | crates/warband_lib/src/navigation/flow_field/layout.rs:112-114 | the left-and-right part yields, per row in `1 .. height - offset`, the cells in columns `offset - 1` and `width - offset` |
| WbNavLayout.BoundsExactly | crates/warband_lib/src/navigation/flow_field/layout.rs:104-117 | `bounds(agent)` yields exactly the cells of the two border rows and the two border columns at the agent's inset, all valid, with its exact count and order |
| WbNavLayout.TopBottomAt | crates/warband_lib/src/navigation/flow_field/layout.rs:109-111 | the cells of column `x` sit at positions `2x` and `2x + 1` |
| WbNavLayout.AllCoversRadii | crates/warband_lib/src/navigation/flow_field/layout.rs:124 | the model's `Agent::ALL`, one agent of each radius from the largest down, has an agent of every radius. The warband `Agent` declares no `ALL`, so the model supplies it |
| WbNavLayout.FieldBounds | crates/warband_lib/src/navigation/flow_field/layout.rs:123-126 | `field_bounds` holds exactly the bounds of every agent no larger than `AGENT`, over the model's own `Agent::ALL` and with the offset read as the radius's discriminant, since the warband `Agent` has neither `ALL` nor a `ceil` on its radius |
| WbNavLayout.FieldBoundsFrom | crates/warband_lib/src/navigation/flow_field/layout.rs:124 | the filter and flat-map over a list of agents, which `FieldBounds` applies to the model's own `Agent::ALL` |
| WbNavLayout.FieldBoundsByRadius | crates/warband_lib/src/navigation/flow_field/layout.rs:123-126 | the field bounds are the union of the bounds of every radius up to `AGENT`'s, so a larger agent's bounds contain a smaller one's; `ALL` and the offset are read as for `FieldBounds` |
| WbNavCache.SpawnOne | crates/warband_lib/src/navigation/flow_field/cache.rs:28-58 | one goal of `spawn` never lowers the next entity number |
| WbNavCache.SpawnFrom | crates/warband_lib/src/navigation/flow_field/cache.rs:22-60 | `spawn` over the goals in order never lowers the next entity number |
| WbNavCache.SpawnEntries | crates/warband_lib/src/navigation/flow_field/cache.rs:22-60 | after `spawn` the cache holds the old goals plus every requested goal but `None`; each requested goal has a fresh timer; cached goals keep their entity; untouched entries are unchanged; a new entity goal maps to that entity, a new cell goal to a spawned one |
| WbNavCache.SpawnCommandsForNewGoals | crates/warband_lib/src/navigation/flow_field/cache.rs:33-56 | each command of `spawn` is for a requested goal absent from the cache, which now maps to the command's entity |
| WbNavCache.SpawnCommandsDistinct | crates/warband_lib/src/navigation/flow_field/cache.rs:29-45 | no goal gets two commands, since the first inserts it into the cache |
| WbNavCache.SpawnCommandsComplete | crates/warband_lib/src/navigation/flow_field/cache.rs:33-56 | every requested goal but `None` absent from the cache gets a command |
| WbNavCache.DespawnOne | crates/warband_lib/src/navigation/flow_field/cache.rs:90-101 | `despawn` despawns a managed field entity and strips the flow-field components from an unmanaged one |
| WbNavCache.DespawnAll | crates/warband_lib/src/navigation/flow_field/cache.rs:86-102 | one command per disabled field, in order |
| WbNavCache.DespawnOnlyManaged | crates/warband_lib/src/navigation/flow_field/cache.rs:86-102 | exactly the managed fields are despawned and exactly the unmanaged ones stripped |
| WbNavCache.FlowFieldCache.constructor | crates/warband_lib/src/navigation/flow_field/cache.rs:12-13 | an empty cache |
| WbNavCache.FlowFieldCache.Spawn | crates/warband_lib/src/navigation/flow_field/cache.rs:22-60 | the `spawn` system leaves the cache, commands and entity numbering `SpawnFrom` gives |
| WbNavCache.FlowFieldCache.Insert | crates/warband_lib/src/navigation/flow_field/cache.rs:62-74 | `insert` caches each new flow field under its own entity goal with a fresh timer, keeps every other entry, and marks each unmanaged |
| WbNavCache.FlowFieldCache.Tick | crates/warband_lib/src/navigation/flow_field/cache.rs:76-84 | `tick` advances every timer, removes exactly the entries whose timer finishes, and disables exactly their field entities |
| WbNavCache.SpawnStepAdvances | crates/warband_lib/src/navigation/flow_field/cache.rs:28 | the loop of `spawn` is one goal followed by the rest |
| WbNavCache.SpawnEntriesValid | crates/warband_lib/src/navigation/flow_field/cache.rs:22-60 | `spawn` keeps every timer a running 30-second one |
| WbNavObstacle.IsEmpty | crates/warband_lib/src/navigation/obstacle.rs:17-19 | `is_empty` holds exactly for `Obstacle::Empty` |
| WbNavObstacle.LineSegments | crates/warband_lib/src/navigation/obstacle.rs:21-34 | `line_segments` is `None` exactly for `Empty`; for a shape, one segment per vertex from it to the next, wrapping round, each ending where the next begins |
| WbNavObstacle.ObstacleUpdate | crates/warband_lib/src/navigation/obstacle.rs:37-96 | the `obstacle` system: outside the agents' height band the obstacle becomes `Empty` (left alone when already empty); an unsupported collider is left alone; fewer than 3 outline vertices give `Empty`; otherwise the shape is the transformed convex hull |
| WbNavObstacle.Apply | crates/warband_lib/src/navigation/obstacle.rs:50-95 | applying an update: `Keep` leaves the component, `Set` replaces it |
| WbNavObstacle.UpdateIdempotent | crates/warband_lib/src/navigation/obstacle.rs:37-96 | running the system twice on the same collider gives the same obstacle as running it once |
| BevyTimer.FromSeconds | crates/warband_lib/src/navigation/flow_field/cache.rs:45 | `Timer::from_seconds(d, TimerMode::Once)`: duration `d`, nothing elapsed, not finished |
| BevyTimer.Reset | crates/warband_lib/src/navigation/flow_field/cache.rs:31 | `timer.reset()` restarts the timer with its duration |
| BevyTimer.Tick | crates/warband_lib/src/navigation/flow_field/cache.rs:81 | `timer.tick(delta)` keeps the duration |
| BevyTimer.TickRunning | crates/warband_lib/src/navigation/flow_field/cache.rs:81 | a running timer just finishes exactly when the elapsed time plus `delta` reaches the duration, and otherwise keeps running with `delta` more elapsed; a finished once-timer stays finished and never just finishes again |
| BevyTimer.FreshIsRunning | crates/warband_lib/src/navigation/flow_field/cache.rs:45 | a fresh timer with a positive duration is running |
| BevyTimer.TickAllSane | crates/warband_lib/src/navigation/flow_field/cache.rs:76-84 | ticking a fresh timer frame after frame keeps its duration and a consistent state |
| BevyTimer.TickAllRunning | crates/warband_lib/src/navigation/flow_field/cache.rs:76-84 | after a run of frames a fresh timer still runs exactly when they took less than its duration, and has then elapsed their total |
| BevyTimer.FinishesOnce | crates/warband_lib/src/navigation/flow_field/cache.rs:76-84 | a fresh timer just finishes on the frame whose total first reaches its duration, and on no other |
| WbFfField.CellNeighborsExactly | crates/warband_lib/src/flow_field/field.rs:67-85 | `Cell::adjacent` yields exactly the cells at Manhattan distance 1 and `Cell::diagonal` exactly those one step away on both axes |
| WbFfField.SameDirections | crates/warband_lib/src/flow_field/field.rs:87-90 | the neighbours reached through a list of directions depend only on which directions it holds, so `neighbors` is the union of `adjacent` and `diagonal` |
| WbFfField.AtDirection | crates/warband_lib/src/flow_field/field.rs:109-122 | `Cell::at_direction` moves the cell by the direction's unit offset |
| WbFfField.AtDirectionRoundTrip | crates/warband_lib/src/flow_field/field.rs:92-122 | `direction` recovers the direction `at_direction` moved along, the neighbour in that direction is that cell, and `Direction::None` stays put |
| WbFfField.DistanceFacts | crates/warband_lib/src/flow_field/field.rs:57-65 | `distance` is symmetric and zero exactly on equal cells; `distance_scaled` is symmetric, linear in the scale and equal to `distance` at scale 1 |
| WbFfField.Field.constructor | crates/warband_lib/src/flow_field/field.rs:172-174 | a field built from a size and data holds them, and is well formed exactly when the data has `size * size` entries |
| WbFfField.Field.IndexOf | crates/warband_lib/src/flow_field/field.rs:178-181 | the index of an in-bounds cell lies below `size * size` and turns back into that cell |
| WbFfField.Field.CellOf | crates/warband_lib/src/flow_field/field.rs:184-186 | every index below `size * size` names an in-bounds cell whose index it is |
| WbFfField.Field.Get | crates/warband_lib/src/flow_field/field.rs:189-200 | `get` returns a value exactly for in-bounds cells, and that value is the data at the cell's index |
| WbFfField.Field.Set | crates/warband_lib/src/flow_field/field.rs:262-268 | writing through `IndexMut` replaces exactly the entry at the cell's index and keeps size and length |
| WbFfField.Field.Adjacent | crates/warband_lib/src/flow_field/field.rs:207-210 | the field's adjacent cells are exactly the cell's adjacent cells that are in bounds |
| WbFfField.Field.Diagonal | crates/warband_lib/src/flow_field/field.rs:212-215 | the field's diagonal cells are exactly the cell's diagonal cells that are in bounds |
| WbFfField.Field.Neighbors | crates/warband_lib/src/flow_field/field.rs:217-220 | the field's neighbours are exactly the in-bounds cells adjacent or diagonal to the cell |
| WbFfField.Field.Resize | crates/warband_lib/src/flow_field/field.rs:222-228 | after `resize` the field has the new size and its data is the old data truncated or padded with the default to `size * size` |
| WbFfField.Field.Empty | crates/warband_lib/src/flow_field/field.rs:234-236 | `empty` holds exactly when the size is zero, which in a well-formed field is exactly when it holds no data |
| WbFfCost.NewCostField | crates/warband_lib/src/flow_field/cost.rs:28-31 | a new cost field of a size is well formed and every cell is `Traversable` |
| WbFfCost.Occupancy.constructor | crates/warband_lib/src/flow_field/cost.rs:63-74 | the occupant index, its reverse and the dirty set start empty and consistent |
| WbFfCost.Occupancy.Update | crates/warband_lib/src/flow_field/cost.rs:120-171 | after `obstacles` handles one changed entity it occupies exactly its new cells, the reverse map records them (or an emptied list when there are none), no other entity changes, and the index stays consistent; the cells it left or newly entered are dirty |
| WbFfCost.Occupancy.Leave | crates/warband_lib/src/flow_field/cost.rs:141-153 | leaving removes the entity from each recorded cell it no longer occupies and marks exactly those existing cells dirty |
| WbFfCost.Occupancy.Enter | crates/warband_lib/src/flow_field/cost.rs:155-169 | entering records the new cells in order, adds the entity to each (creating missing sets) and marks dirty exactly the cells it was not on before |
| WbFfCost.Occupancy.Remove | crates/warband_lib/src/flow_field/cost.rs:173-207 | when an `Obstacle` or `Occupancy` is removed the entity leaves the reverse map and every cell, nothing else changes, and every cell it had recorded is dirty |
| WbFfCost.ComputeCost | crates/warband_lib/src/flow_field/cost.rs:243-266 | the cost closure gives `Blocked` when a non-agent obstacle is on the cell, `Occupied` when only agents are, `Traversable` otherwise, whatever the set's iteration order |
| WbFfCost.CellCostMonotone | crates/warband_lib/src/flow_field/cost.rs:243-266 | one more occupant never lowers a cell's cost, one without an `Obstacle` changes nothing, and a non-agent obstacle blocks the cell |
| WbFfCost.LayoutSize | crates/warband_lib/src/flow_field/mod.rs:208-210 | `FieldLayout::size` is at least 1 and equals the stored size when that is at least 1 |
| WbFfCost.UpdateCosts | crates/warband_lib/src/flow_field/cost.rs:209-276 | `update` drains the dirty cells, rewrites the cost of every dirty in-bounds cell from its occupants and leaves every other cell and the occupant index as they were |
| WbFfCost.WriteCosts | crates/warband_lib/src/flow_field/cost.rs:243-269 | the write loop sets each target cell to its computed cost and leaves the rest of the field unchanged |
| WbFfCost.LayoutResize | crates/warband_lib/src/flow_field/cost.rs:289-300 | `layout_resize` clears the occupant index and its reverse, keeps the dirty set, and resizes the cost field to the layout's size, padding with `Traversable` |
| WbFfFlow.DiagonalGeometry | crates/warband_lib/src/flow_field/flow.rs:110-126 | the direction from a cell to a diagonal neighbour names exactly the vertical and horizontal side the neighbour lies on |
| WbFfFlow.DiagonalValidExactly | crates/warband_lib/src/flow_field/flow.rs:115-126 | the two orthogonal cells a diagonal step checks are in the field, and the step is valid exactly when both are `Traversable` |
| WbFfFlow.Kept | crates/warband_lib/src/flow_field/flow.rs:101-133 | the neighbour filter keeps exactly the neighbours for which the popped cell or the neighbour is not blocked, and for diagonals only valid steps |
| WbFfFlow.AdjacentTo | crates/warband_lib/src/flow_field/flow.rs:101-108 | the adjacent loop visits exactly the in-bounds cells at Manhattan distance 1 where the popped cell or the neighbour is not blocked |
| WbFfFlow.DiagonalTo | crates/warband_lib/src/flow_field/flow.rs:110-133 | the diagonal loop visits exactly the in-bounds diagonal cells where one of the two is not blocked and both orthogonal cells are `Traversable` |
| WbFfFlow.Considered | crates/warband_lib/src/flow_field/flow.rs:101-133 | the cells `build` updates from a popped cell are exactly the kept adjacent cells and the kept valid diagonal cells, all one or two steps away |
| WbFfFlow.ConsideredParts | crates/warband_lib/src/flow_field/flow.rs:101-133 | the considered cells are the adjacent loop's cells followed by the diagonal loop's |
| WbFfFlow.StepBack | crates/warband_lib/src/flow_field/flow.rs:93 | the direction a neighbour is given, `neighbor.direction(cell)`, is a real direction that leads back to the popped cell |
| WbFfFlow.StepBetween | crates/warband_lib/src/flow_field/field.rs:92-122 | between two distinct cells at most one step apart on each axis, `direction` gives a direction whose `at_direction` reaches the other cell |
| WbFfFlow.CandidateFacts | crates/warband_lib/src/flow_field/flow.rs:79-89 | the cost through the popped cell is its distance plus the step, or plus a hundred steps for an occupied neighbour, saturating at `u16::MAX`, and `u16::MAX` for a blocked one; it is never zero and exceeds a finite distance |
| WbFfFlow.StepSums | crates/warband_lib/src/flow_field/flow.rs:81-85 | `saturating_add` of the step, cast to `u16`, is the sum capped at `u16::MAX`, for both the plain and the scaled step |
| WbFfFlow.SettledIsTriangleInequality | crates/warband_lib/src/flow_field/flow.rs:91-98 | when no update from a cell would change anything, every unblocked neighbour it considers is no farther than the cost through it and every blocked one holds `u16::MAX` |
| WbFfFlow.SumFreeUpdate | crates/warband_lib/src/flow_field/flow.rs:91-92 | overwriting one distance changes the sum of unblocked distances by exactly the difference, which is what makes the search loop end |
| WbFfFlow.FlowDescends | crates/warband_lib/src/flow_field/flow.rs:55-135 | after a settled search, distance zero is held only by goals with no direction, and every cell at a finite positive distance points at a cell that considers it and, when that cell is not blocked, is strictly closer and gives exactly that distance |
| WbFfFlow.NotImprovesAfterWrite | crates/warband_lib/src/flow_field/flow.rs:91-93 | lowering another cell's distance, or writing `u16::MAX` into a blocked one, never makes a finished update change anything again |
| WbFfFlow.SettledByWrite | crates/warband_lib/src/flow_field/flow.rs:91-93 | the write `update` makes finishes that move, keeps finished moves finished, and keeps settled cells other than the written one settled |
| WbFfFlow.FlowEdgeAfterWrite | crates/warband_lib/src/flow_field/flow.rs:91-93 | writing another cell leaves a cell's direction explaining its distance |
| WbFfFlow.FlowEdgeOfWritten | crates/warband_lib/src/flow_field/flow.rs:91-93 | the written cell's new direction back to the popped cell explains its new distance |
| WbFfFlow.InvariantsByWrite | crates/warband_lib/src/flow_field/flow.rs:91-93 | one write of `update` keeps every direction explaining its distance and every unblocked goal at zero with no direction |
| WbFfFlow.PrefixCleared | crates/warband_lib/src/flow_field/flow.rs:102-108 | within a neighbour loop the neighbours already handled stay finished after the next one is handled |
| WbFfFlow.EntryOrder | crates/warband_lib/src/flow_field/flow.rs:146 | the heap's order on `(cost, cell)` entries is total and transitive |
| WbFfFlow.PriorityQueue.constructor | crates/warband_lib/src/flow_field/flow.rs:152-154 | a new queue is empty and its `contains` field has the size with every bit clear |
| WbFfFlow.PriorityQueue.Renew | crates/warband_lib/src/flow_field/flow.rs:139 | replacing the queue with a new one of a size empties it and clears every bit |
| WbFfFlow.PriorityQueue.Contains | crates/warband_lib/src/flow_field/flow.rs:168-170 | `contains` reads the cell's bit, and a set bit means the cell has an entry in the heap |
| WbFfFlow.PriorityQueue.Push | crates/warband_lib/src/flow_field/flow.rs:156-159 | `push` appends the entry, sets exactly the cell's bit and keeps every cell already in the heap |
| WbFfFlow.PriorityQueue.MinPosition | crates/warband_lib/src/flow_field/flow.rs:163 | the entry `BinaryHeap::pop` takes under `Reverse` is one no entry is below |
| WbFfFlow.PriorityQueue.Pop | crates/warband_lib/src/flow_field/flow.rs:162-166 | `pop` returns `None` exactly on an empty heap and otherwise removes and returns a least entry, in bounds, leaving the rest as a multiset, and clears that cell's bit |
| WbFfFlow.PriorityQueue.Clear | crates/warband_lib/src/flow_field/flow.rs:172-177 | `clear` empties the heap and clears every bit, keeping the size |
| WbFfFlow.FlowField.constructor | crates/warband_lib/src/flow_field/flow.rs:47-53 | a new flow field has every direction `None`, every distance `u16::MAX` and an empty queue, all of the size |
| WbFfFlow.FlowField.Resize | crates/warband_lib/src/flow_field/flow.rs:137-141 | `resize` resizes the directions (padding with `None`), renews the queue and refills the distances with `u16::MAX` |
| WbFfFlow.FlowField.Reset | crates/warband_lib/src/flow_field/flow.rs:60-64 | the reset loop sets every distance to `u16::MAX` and every direction to `None` |
| WbFfFlow.FlowField.Seed | crates/warband_lib/src/flow_field/flow.rs:66-74 | the goal loop gives every in-bounds goal distance zero, no direction and a queue entry, skips the rest and changes no other cell |
| WbFfFlow.FlowField.Process | crates/warband_lib/src/flow_field/flow.rs:79-99 | one `update` call on a neighbour that is blocked or improved writes exactly the cost through the popped cell and the direction back to it, and otherwise changes nothing; it finishes its move, keeps finished moves, settled cells, directions, blocked cells' directions and goals as they were promised, and either lowers the sum of distances or changes nothing |
| WbFfFlow.BlockedFlowByWrite | crates/warband_lib/src/flow_field/flow.rs:91-93 | the write of `update`, which points the neighbour back at the popped cell, keeps every blocked cell's direction `None` or stepping to a cell that processes it |
| WbFfFlow.FlowField.ProcessAll | crates/warband_lib/src/flow_field/flow.rs:102-133 | a neighbour loop leaves every listed and already-finished move finished and keeps the search invariants |
| WbFfFlow.FlowField.Propagate | crates/warband_lib/src/flow_field/flow.rs:78-134 | the pop loop ends with an empty queue and every cell of finite distance settled, keeping the search invariants |
| WbFfFlow.FlowField.Build | crates/warband_lib/src/flow_field/flow.rs:55-135 | `build` leaves the queue empty, every unblocked in-bounds goal at zero with no direction, every finite-distance cell settled, every direction explaining its distance, and every blocked cell's direction `None` or stepping to an in-bounds cell that processes it |
| WbFfLayout.New | crates/warband_lib/src/flow_field/layout.rs:21-23 | `new` takes the given size and the default cell size and position |
| WbFfLayout.WithCellSize | crates/warband_lib/src/flow_field/layout.rs:25-28 | `with_cell_size` changes only the cell size |
| WbFfLayout.CellSize | crates/warband_lib/src/flow_field/layout.rs:71-73 | `cell_size` is the stored size, or `f32::EPSILON` when that is smaller |
| WbFfLayout.IndexOf | crates/warband_lib/src/flow_field/layout.rs:57-64 | `index` is `Some` exactly for valid cells, and then the row-major index below `len()`. The flow-field `Cell` has no `index` method, so `cell.index(self.width)` does not type-check as written; the model reads it as the row-major index `y * width + x`, the inverse of `Cell::from_index` |
| WbFfLayout.CellFromIndex | crates/warband_lib/src/flow_field/layout.rs:44-47 | every index below `len()` gives a valid cell whose index it is |
| WbFfLayout.CellIndexRoundTrip | crates/warband_lib/src/flow_field/layout.rs:44-88 | cells and indices survive the round trip and the indices of valid cells are exactly `0 .. len()` |
| WbFfLayout.Center | crates/warband_lib/src/flow_field/layout.rs:103-110 | `center` is the given point for a positioned layout and the origin otherwise |
| WbFfLayout.PlacedAtCenter | crates/warband_lib/src/flow_field/layout.rs:49-110 | a centred non-empty field has its first and last cells symmetric about the centre; otherwise cell (0, 0) lies at the centre |
| WbFfLayout.CellSpacing | crates/warband_lib/src/flow_field/layout.rs:49-55 | neighbouring cells lie `cell_size()` apart along each axis |
| WbFfCache.FlowFieldCache.constructor | crates/warband_lib/src/flow_field/cache.rs:6-7 | the cache starts empty |
| WbFfCache.FlowFieldCache.Detect | crates/warband_lib/src/flow_field/cache.rs:24-60 | `detect` resets the timer of every cached goal it sees, spawns one field with a fresh timer for each new cell goal, ignores other new goals and keeps the rest of the cache |
| WbFfCache.FlowFieldCache.Insert | crates/warband_lib/src/flow_field/cache.rs:62-74 | `insert` caches each new untracked field under its own entity goal with a fresh timer, keeps the rest and tags each field as tracked |
| WbFfCache.FlowFieldCache.Lifetime | crates/warband_lib/src/flow_field/cache.rs:76-80 | `lifetime` ticks every timer, drops exactly the entries whose timer finished and deactivates exactly their fields |
| WbFfCache.DetectReset | crates/warband_lib/src/flow_field/cache.rs:31-34 | a goal already cached only has its timer reset |
| WbFfCache.DetectSpawn | crates/warband_lib/src/flow_field/cache.rs:35-56 | a new cell goal gets the next spawned field with a fresh timer |
| WbFfCache.Despawn | crates/warband_lib/src/flow_field/cache.rs:82-89 | `despawn` despawns exactly the deactivated flow fields that are not being rebuilt |
| WbFfCache.FreshEntrySurvives | crates/warband_lib/src/flow_field/cache.rs:76-80 | a fresh thirty-second timer does not finish on a frame shorter than thirty seconds |
| WbFlowfield.CellIndexRoundTrip | crates/warband_lib/src/flowfield/field.rs:78-88 | `cell_to_index` and `index_to_cell` are inverse: a cell with its column below the size survives the trip through its index, and every index the trip through its cell |
| WbFlowfield.CellNeighbors4Exactly | crates/warband_lib/src/flowfield/field.rs:110-118 | `Cell::neighbors` yields exactly the cells at Manhattan distance 1 |
| WbFlowfield.CellNeighbors8Exactly | crates/warband_lib/src/flowfield/field.rs:120-128 | `Cell::neighbors8` yields exactly the other cells at most one step away on each axis |
| WbFlowfield.Neighbors4 | crates/warband_lib/src/flowfield/field.rs:42-44 | the field's `neighbors` are at most four, exactly the cell's 4-neighbours within bounds |
| WbFlowfield.Neighbors8 | crates/warband_lib/src/flowfield/field.rs:46-48 | the field's `neighbors8` are at most eight, exactly the cell's 8-neighbours within bounds |
| WbFlowfield.NewCostField | crates/warband_lib/src/flowfield/field.rs:166-169 | a new cost field of a size is well formed and every cell is `Passable` |
| WbFlowfield.PassableOnly | crates/warband_lib/src/flowfield/field.rs:236 | the filter keeps exactly the passable neighbours |
| WbFlowfield.Considered | crates/warband_lib/src/flowfield/field.rs:236 | the cells `build` updates from a popped cell are exactly its passable in-bounds 8-neighbours, one or two steps away |
| WbFlowfield.WrapAdd | crates/warband_lib/src/flowfield/field.rs:237 | the `u16` sum of a value and a step never exceeds the exact sum and equals it when that fits |
| WbFlowfield.SettledIsTriangleInequality | crates/warband_lib/src/flowfield/field.rs:236-244 | when no update from a cell would lower anything, every passable 8-neighbour holds at most that cell's value plus the step, when that sum fits in `u16` |
| WbFlowfield.TotalUpdate | crates/warband_lib/src/flowfield/field.rs:238-239 | overwriting one value changes the sum of all values by exactly the difference, which is what makes the search loop end |
| WbFlowfield.NotImprovesAfterWrite | crates/warband_lib/src/flowfield/field.rs:238-239 | lowering another cell's value never makes a finished move from a cell lower anything again |
| WbFlowfield.SettledByWrite | crates/warband_lib/src/flowfield/field.rs:237-239 | the write of an improving move finishes that move, keeps finished moves finished and keeps settled cells other than the written one settled |
| WbFlowfield.ReachableByWrite | crates/warband_lib/src/flowfield/field.rs:236-239 | lowering a passable cell keeps finite values on goals and passable cells only and keeps every goal at zero |
| WbFlowfield.PrefixCleared | crates/warband_lib/src/flowfield/field.rs:236-244 | within the neighbour loop the neighbours already handled stay finished after the next one is handled |
| WbFlowfield.SeedUnchecked | crates/warband_lib/src/flowfield/field.rs:230-233 | the goal loop as written: it panics (`None`) exactly when some goal's index is past the data, and otherwise zeroes each goal's index and nothing else |
| WbFlowfield.UncheckedGoalAliases | crates/warband_lib/src/flowfield/field.rs:230-233 | on every field of at least 2 x 2 cells the out-of-bounds goal `(size, 0)` passes unchecked and zeroes cell (0, 1), which is no goal |
| WbFlowfield.IntegrationField.constructor | crates/warband_lib/src/flowfield/field.rs:218-221 | a new integration field holds `u16::MAX` in every cell |
| WbFlowfield.IntegrationField.Reset | crates/warband_lib/src/flowfield/field.rs:226-228 | the first loop of `build` sets every value to `u16::MAX` |
| WbFlowfield.IntegrationField.Seed | crates/warband_lib/src/flowfield/field.rs:230-233 | the goal loop, with goals outside the field skipped, sets every in-bounds goal to zero and queues it, changes no other cell, and adds only in-bounds goals to the queue |
| WbFlowfield.IntegrationField.Process | crates/warband_lib/src/flowfield/field.rs:237-243 | one neighbour update finishes its move, keeps finished moves, settled cells, goals, reachability, finite queued cells and, when the search cannot wrap, every finite non-goal's parent, and either lowers the sum of values or changes nothing |
| WbFlowfield.IntegrationField.ProcessAll | crates/warband_lib/src/flowfield/field.rs:236-244 | the neighbour loop leaves every neighbour's move finished and keeps the search invariants, parents included |
| WbFlowfield.IntegrationField.Propagate | crates/warband_lib/src/flowfield/field.rs:235-245 | the pop loop ends with every cell of finite value settled, keeping the search invariants, parents included |
| WbFlowfield.IntegrationField.Build | crates/warband_lib/src/flowfield/field.rs:223-246 | `build` leaves every in-bounds goal at zero, finite values on goals and passable cells only, every finite cell settled, and no cell above the length of any path to it from a goal that fits below `u16::MAX`; on a field where `2 * size * size` fits in `u16`, every finite value is also at least the length of some path from a goal, so it is exactly the shortest path length |
| WbFlowfield.SettledBoundsPaths | crates/warband_lib/src/flowfield/field.rs:235-245 | once every finite cell is settled and every goal is at zero, a cell's value is at most the length of any path from a goal that fits below `u16::MAX` |
| WbFlowfield.PathExtend | crates/warband_lib/src/flowfield/field.rs:236-237 | a path followed by one passable 8-neighbour move is a path, longer by that move's Manhattan distance |
| WbFlowfield.ParentsGivePath | crates/warband_lib/src/flowfield/field.rs:237-239 | when every finite non-goal has a parent of smaller value through which its value is reached, every finite cell has a path from a goal no longer than its value |
| WbFlowfield.ExactCandidate | crates/warband_lib/src/flowfield/field.rs:237-238 | on a field where `2 * size * size` fits in `u16`, an improving move from a finite cell gives exactly the cell's value plus the step, without wrapping, and never targets a goal |
| WbFlowfield.BoundedByWrite | crates/warband_lib/src/flowfield/field.rs:237-239 | the write of an improving move keeps every finite value at most twice the number of smaller values, the bound that rules out wrapping |
| WbFlowfield.ParentsByWrite | crates/warband_lib/src/flowfield/field.rs:237-239 | the write of an improving move makes the popped cell the written cell's parent and keeps every other finite non-goal's parent |
| WbFlowfield.ExplainedByWrite | crates/warband_lib/src/flowfield/field.rs:237-239 | on a field that cannot wrap, the write keeps both the bound and the parents |
| WbFlowfield.QueueFiniteByWrite | crates/warband_lib/src/flowfield/field.rs:238-242 | lowering a cell to a finite value, and queueing it with that value, keeps every queued cell in the field and finite |
| WbFlowfield.QueueFiniteAfterPop | crates/warband_lib/src/flowfield/field.rs:235 | `pop` leaves only finite queued cells, and the popped cell is in the field with a finite value |
| WbDespawn.Tick | crates/warband_lib/src/core/despawn.rs:39-54 | one frame of a countdown: `Immediate` ends at once, `Delay` loses the frame's time and ends when nothing is left, `WaitFrames(0)` ends at once and `WaitFrames(n)` loses a frame and ends when it reaches 0 |
| WbDespawn.FirstTrigger | crates/warband_lib/src/core/despawn.rs:39-60 | the frame on which a countdown ends is one of the given frames, and `Immediate` ends on the first |
| WbDespawn.ElapsedAfterFirst | crates/warband_lib/src/core/despawn.rs:43-46 | the time of the first `k` frames is the first frame's time plus that of the next `k - 1` |
| WbDespawn.DelayEndsWhenElapsed | crates/warband_lib/src/core/despawn.rs:43-46 | `Delay(s)` ends on frame `k` exactly when the first `k + 1` frames take at least `s` seconds and no shorter run does |
| WbDespawn.WaitFramesEndsAfter | crates/warband_lib/src/core/despawn.rs:47-54 | `WaitFrames(n)` ends after `max(n, 1)` frames, or not at all when fewer frames pass |
| WbDespawn.DespawnWorld.constructor | crates/warband_lib/src/core/despawn.rs:23-34 | a world with no `Despawn` and no `Despawning` component |
| WbDespawn.DespawnWorld.DespawnTimer | crates/warband_lib/src/core/despawn.rs:39-60 | `despawn_timer` advances every countdown one frame in place and queues a `Despawning` swap exactly for the entities whose countdown ends |
| WbDespawn.DespawnWorld.ApplyMarks | crates/warband_lib/src/core/despawn.rs:56-58 | the queued swaps remove `Despawn` and add `Despawning`, counted as added only where it was not held already |
| WbDespawn.DespawnWorld.Despawning | crates/warband_lib/src/core/despawn.rs:62-66 | `despawning` queues one `despawn_recursive` for each entity whose `Despawning` was just added, each once |
| WbDespawn.DespawnWorld.Frame | crates/warband_lib/src/core/despawn.rs:39-66 | in one frame exactly the entities whose countdown ends and that were not yet despawning are despawned, the others keep their advanced countdown, and no ended countdown remains |
| WbStat.Clamped | crates/warband_lib/src/stats/stat.rs:43-62 | the clamping system gives `max(value, 0)` for `AboveZero`, `max(value, m)` for `Min`, `min(value, m)` for `Max`, a value in `[lo, hi]` for `MinMax`, and the value itself for `None` |
| WbStat.ClampedIdempotent | crates/warband_lib/src/stats/stat.rs:43-62 | clamping a clamped value changes nothing |
| WbStat.MinMaxIsMinThenMax | crates/warband_lib/src/stats/stat.rs:52-54 | `MinMax(lo, hi)` is `Min(lo)` followed by `Max(hi)` |
| WbStat.AboveZeroIsMinZero | crates/warband_lib/src/stats/stat.rs:51-52 | the default policy `AboveZero` is `Min(0)` |
| WbStat.Stat.constructor | crates/warband_lib/src/stats/stat.rs:114-116 | a stat holds the value it was built with |
| WbStat.Stat.Reset | crates/warband_lib/src/stats/stat.rs:143-146 | `reset` puts the stat back to its default, zero |
| WbStat.Stat.Clamp | crates/warband_lib/src/stats/stat.rs:57 | one stat stores its clamped value |
| WbStat.ResetDirty | crates/warband_lib/src/stats/stat.rs:165-169 | `reset_dirty` resets every dirty stat to zero |
| WbStat.ClampChanged | crates/warband_lib/src/stats/stat.rs:43-62 | every changed stat stores its clamped value, and with `None` every value is kept |
| WbStat.NewBundle | crates/warband_lib/src/stats/stat.rs:96-106 | a new bundle starts the stat at zero and carries the value as its base modifier |

## Left out

- Floating point: every `f32` is an exact `real`. Rounding, NaN, infinities and `normalize_or_zero` are not modelled. Directions from vectors are modelled by the signs of the components.
- World-to-cell conversion is left out because it rounds floats. This covers `Cell::round`, `FieldLayout::cell` (warband `flow_field/layout.rs:39-42`) and `world_to_cell` (`flow_field/mod.rs:173-176`).
- Rasterising colliders into cells is left out. That is `occupancy_cells` with its point-in-polygon and convex-hull calls into the physics library. The cells arrive as parameters.
- ECS wiring is left out: plugins, schedules, system sets, run conditions and resource initialisation. Each system is modelled as a method over the components and resources it reads and writes.
- Change detection (`Changed`, `Added`, `RemovedComponents`) is modelled by explicit inputs: the changed entities, or the set of just-added markers.
- Query and hash-map iteration order is unspecified. It is an arbitrary input sequence wherever the result could depend on it. The proved results hold for every order.
- The asynchronous cost update of `flow_field/cost.rs` is modelled as if run at once. `update` spawns a task on the compute pool, and `poll_update_tasks` applies its command queue later. The model applies the task's closure directly.
- The `RwLock` poisoning branch of the cost update is left out.
- Spawned flow-field bundles are modelled as spawn commands carrying the goal. Their name, transform and other bundle components are left out.
- `despawn_recursive` is modelled as a command. Removing the children is Bevy's, not this code's.
- The caches' `Timer` models only the one-shot mode with non-negative ticks. Pausing and the repeating mode are not used.
- Debug gizmos and `Reflect` registrations are left out. So are the avoidance, density and path-following systems, which are outside the flow-field core.
- Motte `occupant` is an input predicate `occupied: Cell -> bool`. `fields/flow.rs` calls `obstacle_field.occupant(..)`, which is not defined in `fields/obstacle.rs`.
- `StatPlugin` registration, the `modifier` module, `dirty_on_added` and `cleanup_dirty` are not part of this model. The `Stat` trait is modelled as a class holding its one value.
- MotteGrid.Field.constructor takes `u8` width and height. The layout passes `usize` values, which do not type-check against `Scalar` as written.
- MotteFlow.FlowField.Build requires the obstacle field to have the same width and height. The source only `debug_assert`s equal lengths.
- MotteFlow.FlowField.Build does not promise that following the directions leads to a goal, nor that a cell's direction points at a cell of lower cost. The code as written does not have that property. By hand, on a 1×4 row: a goal G, an occupied untraversable cell r, then traversable cells c and d. Popping G gives r `Occupied(255, 1)`; popping r gives c `Traversable(2)`; popping c lowers r to `Occupied(1, 3)` and gives d `Traversable(3)`. The final pass then points c at its cheapest relaxable neighbour, d, whose `Traversable(3)` ranks above c's own `Traversable(2)`, and points d back at c, so neither reaches the goal (not executed). Goal cells also get a direction from the final pass. The model proves instead the path bounds on every cost and that every reached cell other than a goal gets a direction.
- WbNavFlow.FlowField.Build requires `width * height < 2^63`. Cells then convert to `isize` exactly, as any `Vec` length allows.
- WbFfFlow.FlowField.Build requires equal sizes, as its `debug_assert` does, and `size * size < 2^63`.
- WbFlowfield.IntegrationField.Build requires the cost field to have the integration field's size, and `size * size < 2^63`. With a smaller cost field the source's indexing panics.
- WbFlowfield.IntegrationField.Build checks goals for bounds. The code as written does not (see Findings); `WbFlowfield.SeedUnchecked` models that.
- The prototype's `u16` additions wrap, as in a release build. A debug build would panic on overflow instead.
- MotteGrid.Field.CellAt requires a non-zero width. `Cell::from_index` divides by the width, so the source panics on a zero-width field; that panic is not modelled.
- MotteGrid.Field.CellAtChecked requires a non-zero width, for the same division.
- MottePool.PoolClamp requires `max >= 0`. `f32::clamp(0.0, max)` panics when `max` is negative; that panic is not modelled.
- MottePool.PoolItem.SetCurrent, AddAssign, SubAssign, MulAssign and ClampCurrent require a non-negative total, since each calls `pool_clamp` with it.
- MotteLayout.CellFromIndex requires a non-zero width below 256. The source divides by the width, which panics at zero, and a `u8` cell cannot hold a wider row.
- MotteLayout.TopBottom requires the inset to fit in the height and the sides to be at most 256. Otherwise `offset - 1` or `height - offset` underflows `usize`, which panics in a debug build and wraps in a release build, and the `u8` cell coordinates would be cut; neither is modelled.
- MotteLayout.LeftRight requires the inset to fit in the width when there are side rows. Otherwise `width - offset` underflows, as for `TopBottom`.
- MotteLayout.BoundsExactly requires `BoundsDefined`, the conditions of `TopBottom` and `LeftRight`. The underflow panic of smaller fields is not modelled.
- MotteLayout.FieldBounds requires `BoundsDefined` for every agent up to the given one. The underflow panic of smaller fields is not modelled.
- WbNavLayout.CellFromIndex requires a non-zero width. The source divides by the width, which panics at zero.
- WbNavLayout.BoundsExactly requires `BoundsDefined`: the inset fits in the height, and in the width when there are side rows. Otherwise the source's `usize` subtractions underflow, which panics in a debug build and wraps in a release build; neither is modelled.
- WbNavLayout.FieldBounds requires `BoundsDefined` for every agent up to `AGENT`. The underflow panic of smaller fields is not modelled.
- WbNavLayout.FieldBoundsByRadius requires `BoundsDefined` for every agent up to the larger one, for the same reason.
- WbNavLayout.Inset, WbNavLayout.AllCoversRadii and WbNavLayout.FieldBounds supply what the warband `Agent` lacks. `navigation/agent.rs` declares no `Agent::ALL` and `AgentRadius` has no `ceil`, so `flow_field/layout.rs:108` and `:124` do not type-check as written. The model supplies `ALL`, one agent per radius from the largest down, and reads `radius().ceil()` as the radius's discriminant.
- WbFfLayout.CellFromIndex requires a non-zero width. The source divides by the width, which panics at zero.
- WbFfField.Field.CellOf requires a non-zero size. `index_to_cell` divides by the size, which panics at zero.
- WbNavFlow.FlowField.PointBounds requires every bound's unchecked index to be below the data length. The source's `IndexMut` panics past the end; that panic is not modelled. An index that is in range but belongs to another cell is modelled (`WbNavFlow.BoundPastEdgeAliases`).
- WbNavFlow.FlowField.Build requires the same of the bounds, for the same reason.
- WbNavCache.FlowFieldCache.Insert requires the goals it inserts to be new. `insert_unique_unchecked` demands this of its caller; a duplicate key is not modelled.
- WbFlowfield.IntegrationField.Build proves its lower bound, every finite value at least the length of a path from a goal, only when `2 * size * size` fits in `u16`. On larger fields a value can wrap past `u16::MAX` to a small number, as a release build does; the model keeps the upper bound and the other guarantees there but does not describe the wrapped values.
- MotteObstacle.LineSegments and WbNavObstacle.LineSegments require a non-empty shape. On zero vertices `shape.len() - 1` underflows and panics.
- WbFfCache.FlowFieldCache.Insert requires the goals it inserts to be new. `insert_unique_unchecked` demands this of its caller.
- WbStat.Clamped, WbStat.Stat.Clamp and WbStat.ClampChanged require a well-formed policy, `MinMax(lo, hi)` only with `lo <= hi`. With `lo > hi` the source's `f32::clamp` panics (crates/warband_lib/src/stats/stat.rs:54-57); that panic is not modelled.
- MotteFlow.Heap and WbFfFlow.PriorityQueue model the binary heap as a sequence of entries. `pop` takes a least entry; the heap's internal layout is left out.
- WbFfCost.UpdateCosts writes every drained dirty cell that is in bounds. Cells outside the layout are dropped, as the filter at `flow_field/cost.rs:219` drops them.

## Findings

| source | as written | input that shows it | evidently intended | confidence | as-written member | corrected member |
|---|---|---|---|---|---|---|
| crates/motte_lib/src/navigation/flow_field/fields/mod.rs:120-122 | `manhattan` adds the two `u8` differences in `u8`, then widens to `u32`, so the sum wraps | cells (0, 0) and (200, 200): 144 instead of 400 | the full sum, as the `u32` result type suggests | not executed | MotteGrid.ManhattanWraps | MotteGrid.ManhattanIsMetric |
| crates/motte_lib/src/navigation/flow_field/fields/mod.rs:340-349 | `cell` builds the cell with `from_index`, whose row wraps to `u8`, before the bounds check | a 1 x 255 field and index 259: `Some((0, 3))` | `None` for every index past `len()` | not executed | MotteGrid.CellAtPastEnd | MotteGrid.Field.CellAtChecked |
| crates/warband_lib/src/navigation/agent.rs:65-67 | `mass()` returns the `height` field | `Agent::from_radius(Small).with_mass(5.0).mass()` gives 2 | the `mass` field | not executed | WbNavAgent.MassReadsHeight | WbNavAgent.CorrectedMass |
| crates/warband_lib/src/navigation/flow_field/cost/obstacle.rs:67-86 | each ring is written with `update`, which overwrites, so a later obstacle's looser outer ring replaces an earlier obstacle's stricter inner ring | obstacles at (5, 5) then (8, 5): cell (6, 5) ends `Traversable(Large)` although it is one step from (5, 5) | every cell within a radius's blocking distance of some obstacle stays closed to that radius | not executed | WbNavCostObstacle.LaterRingLoosens | WbNavCostObstacle.CostObstacleField.CorrectedUpdateSystem |
| crates/warband_lib/src/flowfield/field.rs:230-233 | goals are pushed and written without a bounds check, at index `y * size + x` | a 4 x 4 field and goal (4, 0): cell (0, 1) is set to 0 | goals outside the field are skipped, as the later `flow_field/flow.rs:67-70` does | not executed | WbFlowfield.UncheckedGoalAliases | WbFlowfield.IntegrationField.Seed |

The motte flow field calls `manhattan` only between a cell and one of its eight neighbours. There the two sums agree (`MotteGrid.ManhattanAgrees`), so the search model uses the code as written.
