/**
 * The motte flow field: a uniform-cost search outward from the goal cells
 * over a tiered integration cost (`Goal < Traversable < Occupied <
 * Blocked`), followed by a pass that points every cell at its cheapest
 * neighbour.
 */
module MotteFlow {
  import opened Opt
  import opened MotteGrid
  import opened MotteAgent
  import Obst = MotteObstacleField

  // ---------------------------------------------------------------------
  // IntegrationCost
  // ---------------------------------------------------------------------

  /** `GOAL_DEPTH`: `u8::MAX`. */
  const GOAL_DEPTH: Scalar := 255

  /** `IntegrationCost`. */
  datatype IntegrationCost =
    | Blocked(depth: Scalar, cost: Scalar)
    | Occupied(depth: Scalar, cost: Scalar)
    | Traversable(cost: Scalar)
    | Goal

  /** `IntegrationCost::default`: the greatest cost. */
  const DEFAULT_COST: IntegrationCost := Blocked(GOAL_DEPTH, 255)

  /** `u8::saturating_add`. */
  function SatAdd(a: Scalar, b: nat): (r: Scalar)
    ensures r == if a + b < 256 then a + b else 255
  {
    if a + b > 255 then 255 else a + b
  }

  /** `u8::saturating_mul`. */
  function SatMul(a: Scalar, b: Scalar): (r: Scalar)
    ensures r == if a * b < 256 then a * b else 255
  {
    if a * b > 255 then 255 else a * b
  }

  /** The result of `Ord::cmp`. */
  datatype Ordering = Less | Equal | Greater

  /** `u8::cmp`. */
  function CmpScalar(a: Scalar, b: Scalar): Ordering {
    if a < b then Less else if a == b then Equal else Greater
  }

  /** `Ordering::then_with`. */
  function ThenWith(first: Ordering, second: Ordering): Ordering {
    if first == Equal then second else first
  }

  /** `Ord for IntegrationCost`, arm by arm. */
  function Cmp(a: IntegrationCost, b: IntegrationCost): Ordering {
    match (a, b)
    case (Blocked(a1, a2), Blocked(b1, b2)) => ThenWith(CmpScalar(a1, b1), CmpScalar(a2, b2))
    case (Occupied(a1, a2), Occupied(b1, b2)) => ThenWith(CmpScalar(a1, b1), CmpScalar(a2, b2))
    case (Blocked(_, _), Occupied(_, _)) => Greater
    case (Occupied(_, _), Blocked(_, _)) => Less
    case (Blocked(_, _), _) => Greater
    case (_, Blocked(_, _)) => Less
    case (Occupied(_, _), _) => Greater
    case (_, Occupied(_, _)) => Less
    case (Traversable(x), Traversable(y)) => CmpScalar(x, y)
    case (Traversable(_), _) => Greater
    case (_, Traversable(_)) => Less
    case (Goal, Goal) => Equal
  }

  /**
   * The position of a cost in the order `Cmp` defines: Goal first, then the
   * Traversable costs, then Occupied and Blocked by (depth, cost).
   */
  function Rank(c: IntegrationCost): nat {
    match c
    case Goal => 0
    case Traversable(x) => 1 + x
    case Occupied(d, x) => 257 + 256 * d + x
    case Blocked(d, x) => 65793 + 256 * d + x
  }

  /**
   * `cmp` is a total order: it is exactly the comparison of ranks, so it is
   * antisymmetric, transitive and `Equal` only on identical costs (which
   * makes the `PartialEq` derived from it structural equality).
   */
  lemma CmpIsRankOrder(a: IntegrationCost, b: IntegrationCost)
    ensures Cmp(a, b) == Less <==> Rank(a) < Rank(b)
    ensures Cmp(a, b) == Equal <==> a == b
    ensures Cmp(a, b) == Greater <==> Rank(a) > Rank(b)
    ensures Rank(a) == Rank(b) <==> a == b
  {
  }

  /** The tiers `Goal < Traversable(_) < Occupied(_, _) < Blocked(_, _)`. */
  lemma TiersOrdered(x: Scalar, d: Scalar, y: Scalar, e: Scalar, z: Scalar)
    ensures Cmp(Goal, Traversable(x)) == Less
    ensures Cmp(Traversable(x), Occupied(d, y)) == Less
    ensures Cmp(Occupied(d, y), Blocked(e, z)) == Less
  {
  }

  /** The default `Blocked(GOAL_DEPTH, 255)` is the greatest cost. */
  lemma DefaultIsGreatest(a: IntegrationCost)
    ensures Rank(a) <= Rank(DEFAULT_COST)
    ensures a == DEFAULT_COST || Cmp(a, DEFAULT_COST) == Less
  {
  }

  /**
   * `IntegrationCost::cost`: 0 for Goal, the cost for Traversable and for
   * an Occupied cell next to the goal (`depth == GOAL_DEPTH`), and the
   * saturated product of depth and cost otherwise.
   */
  function CostOf(c: IntegrationCost): (r: Scalar)
    ensures c.Goal? ==> r == 0
    ensures c.Traversable? ==> r == c.cost
    ensures c.Occupied? && c.depth == GOAL_DEPTH ==> r == c.cost
    ensures (c.Blocked? || (c.Occupied? && c.depth != GOAL_DEPTH)) ==>
              r == if c.depth * c.cost < 256 then c.depth * c.cost else 255
  {
    match c
    case Blocked(d, x) => SatMul(d, x)
    case Occupied(d, x) => if d == GOAL_DEPTH then x else SatMul(d, x)
    case Traversable(x) => x
    case Goal => 0
  }

  /**
   * `IntegrationCost::valid_traversal`: from Blocked only to Blocked or
   * Goal; from Occupied only to Occupied or Goal, and also to Traversable
   * at goal depth; from Traversable and Goal anywhere.
   */
  predicate ValidTraversal(from: IntegrationCost, to: IntegrationCost) {
    match from
    case Blocked(_, _) => to.Blocked? || to.Goal?
    case Occupied(d, _) =>
      if d == GOAL_DEPTH then to.Traversable? || to.Occupied? || to.Goal?
      else to.Occupied? || to.Goal?
    case Traversable(_) => true
    case Goal => true
  }

  /**
   * A search never leaves the Blocked tier except into the goal, and
   * leaves the Occupied tier for Traversable only at goal depth: the
   * allowed moves stay in the same tier or drop to a cheaper one only
   * through those two doors.
   */
  lemma ValidTraversalTiers(from: IntegrationCost, to: IntegrationCost)
    ensures ValidTraversal(from, Goal)
    ensures from.Goal? || from.Traversable? ==> ValidTraversal(from, to)
    ensures from.Blocked? ==> (ValidTraversal(from, to) <==> Rank(to) >= 65793 || to == Goal)
    ensures from.Occupied? && from.depth != GOAL_DEPTH ==>
              (ValidTraversal(from, to) <==> 257 <= Rank(to) < 65793 || to == Goal)
    ensures from.Occupied? && from.depth == GOAL_DEPTH ==> (ValidTraversal(from, to) <==> Rank(to) < 65793)
  {
  }

  /** `IntegrationCost::depth_and_cost`. */
  function DepthAndCost(c: IntegrationCost): (r: (Scalar, Scalar))
    ensures c.Blocked? || c.Occupied? ==> r == (c.depth, c.cost)
    ensures c.Traversable? ==> r == (0, c.cost)
    ensures c.Goal? ==> r == (GOAL_DEPTH, 0)
  {
    match c
    case Blocked(d, x) => (d, x)
    case Occupied(d, x) => (d, x)
    case Traversable(x) => (0, x)
    case Goal => (GOAL_DEPTH, 0)
  }

  /**
   * The cost `build` offers a neighbour at `distance` from the popped cell
   * whose cost is `current`: Traversable when the agent fits, Goal when the
   * neighbour already is a goal, and otherwise one level deeper, Occupied if
   * an agent stands there and Blocked if not.
   */
  function Candidate(traversable: bool, occupied: bool, current: IntegrationCost,
                     neighbor: IntegrationCost, distance: nat): IntegrationCost
  {
    if traversable then Traversable(SatAdd(CostOf(current), distance))
    else if neighbor == Goal then Goal
    else
      var (depth, cost) := DepthAndCost(current);
      if occupied then Occupied(SatAdd(depth, 1), SatAdd(cost, distance))
      else Blocked(SatAdd(depth, 1), SatAdd(cost, distance))
  }

  /** The relaxation test of `build`: a valid move to a strictly smaller cost. */
  predicate Improves(current: IntegrationCost, candidate: IntegrationCost, neighbor: IntegrationCost) {
    ValidTraversal(current, candidate) && Cmp(candidate, neighbor) == Less
  }

  /**
   * What relaxation can do to a neighbour: it never produces a new Goal and
   * never touches an existing one, it only lowers the neighbour's cost, and
   * next to the goal an agent-occupied cell gets goal depth (so the search
   * may continue through it into traversable cells).
   */
  lemma CandidateFacts(traversable: bool, occupied: bool, current: IntegrationCost,
                       neighbor: IntegrationCost, distance: nat)
    ensures var c := Candidate(traversable, occupied, current, neighbor, distance);
            Improves(current, c, neighbor) ==> c != Goal && neighbor != Goal && Rank(c) < Rank(neighbor)
    ensures !traversable && occupied && current == Goal && neighbor != Goal ==>
              Candidate(traversable, occupied, current, neighbor, distance) == Occupied(GOAL_DEPTH, SatAdd(0, distance))
    ensures ValidTraversal(Occupied(GOAL_DEPTH, 0), Candidate(true, occupied, Occupied(GOAL_DEPTH, 0), neighbor, distance))
  {
  }

  /**
   * Lowering the neighbour's cost (without making it a goal) cannot enable a
   * relaxation that was not possible before: the offered candidate is the
   * same and the bar is lower.
   */
  lemma NoImproveAfterDecrease(traversable: bool, occupied: bool, current: IntegrationCost,
                               before: IntegrationCost, after: IntegrationCost, distance: nat)
    requires Rank(after) <= Rank(before) && (after == Goal <==> before == Goal)
    requires !Improves(current, Candidate(traversable, occupied, current, before, distance), before)
    ensures !Improves(current, Candidate(traversable, occupied, current, after, distance), after)
  {
    assert Candidate(traversable, occupied, current, before, distance) ==
           Candidate(traversable, occupied, current, after, distance);
  }

  /** From the default cost nothing can be relaxed: the search starts settled everywhere but at the goals. */
  lemma DefaultRelaxesNothing(traversable: bool, occupied: bool, neighbor: IntegrationCost, distance: nat)
    ensures !Improves(DEFAULT_COST, Candidate(traversable, occupied, DEFAULT_COST, neighbor, distance), neighbor)
  {
  }

  // ---------------------------------------------------------------------
  // The search as a specification over the cells of a field
  // ---------------------------------------------------------------------

  /**
   * What `build` reads of the obstacle field: its costs, its size, the agent
   * size of the flow field, and whether an agent occupies a cell (the
   * `occupant` lookup, which is not part of this model).
   */
  datatype Terrain = Terrain(costs: seq<Obst.Cost>, width: Scalar, height: Scalar, agent: Agent,
                             occupied: Cell -> bool)

  predicate TerrainValid(t: Terrain) {
    |t.costs| == t.width * t.height
  }

  /** `is_traversable`: `ObstacleField::traversable(cell, AGENT)`. */
  predicate IsTraversable(t: Terrain, c: Cell)
    requires TerrainValid(t) && InBounds(c, t.width, t.height)
  {
    Obst.CostTraversable(At(t.costs, c, t.width, t.height), t.agent)
  }

  /** The `check` closure: a step that leaves `u8` fails, any other step is tested for traversability. */
  predicate Check(t: Terrain, step: Option<Cell>)
    requires TerrainValid(t) && (step.Some? ==> InBounds(step.value, t.width, t.height))
  {
    match step
    case None => false
    case Some(n) => IsTraversable(t, n)
  }

  /** `n` is one diagonal step from `c`. */
  predicate IsDiagonalStep(c: Cell, n: Cell) {
    AbsDiff(c.x, n.x) == 1 && AbsDiff(c.y, n.y) == 1
  }

  /** For a valid diagonal step both orthogonal steps exist and are valid. */
  lemma OrthogonalStepsValid(c: Cell, n: Cell, width: nat, height: nat)
    requires InBounds(c, width, height) && InBounds(n, width, height) && IsDiagonalStep(c, n)
    ensures var d := DirectionTo(c, n);
            (d == NorthEast || d == NorthWest ==> Neighbor(c, North) == Some(Cell(c.x, n.y))) &&
            (d == SouthEast || d == SouthWest ==> Neighbor(c, South) == Some(Cell(c.x, n.y))) &&
            (d == NorthEast || d == SouthEast ==> Neighbor(c, East) == Some(Cell(n.x, c.y))) &&
            (d == NorthWest || d == SouthWest ==> Neighbor(c, West) == Some(Cell(n.x, c.y)))
    ensures InBounds(Cell(c.x, n.y), width, height) && InBounds(Cell(n.x, c.y), width, height)
  {
  }

  /**
   * `is_diagonal_move_traversable(c, c.direction(n))`: both orthogonal
   * cells of the diagonal step must be traversable (no corner cutting).
   */
  predicate CornerSafe(t: Terrain, c: Cell, n: Cell)
    requires TerrainValid(t) && InBounds(c, t.width, t.height) && InBounds(n, t.width, t.height)
    requires IsDiagonalStep(c, n)
  {
    OrthogonalStepsValid(c, n, t.width, t.height);
    match DirectionTo(c, n)
    case NorthEast => Check(t, Neighbor(c, North)) && Check(t, Neighbor(c, East))
    case SouthEast => Check(t, Neighbor(c, South)) && Check(t, Neighbor(c, East))
    case SouthWest => Check(t, Neighbor(c, South)) && Check(t, Neighbor(c, West))
    case NorthWest => Check(t, Neighbor(c, North)) && Check(t, Neighbor(c, West))
    case _ => false
  }

  /** A corner-safe diagonal is one whose two orthogonal cells are both traversable. */
  lemma CornerSafeExactly(t: Terrain, c: Cell, n: Cell)
    requires TerrainValid(t) && InBounds(c, t.width, t.height) && InBounds(n, t.width, t.height)
    requires IsDiagonalStep(c, n)
    ensures CornerSafe(t, c, n) <==>
              InBounds(Cell(c.x, n.y), t.width, t.height) && InBounds(Cell(n.x, c.y), t.width, t.height) &&
              IsTraversable(t, Cell(c.x, n.y)) && IsTraversable(t, Cell(n.x, c.y))
  {
    OrthogonalStepsValid(c, n, t.width, t.height);
  }

  /** Keeps the diagonal cells that pass `CornerSafe`, in order. */
  function CornerSafeDiagonals(t: Terrain, c: Cell, ds: seq<Cell>): (r: seq<Cell>)
    requires TerrainValid(t) && InBounds(c, t.width, t.height)
    requires forall n :: n in ds ==> InBounds(n, t.width, t.height) && IsDiagonalStep(c, n)
    ensures forall n :: n in r <==> n in ds && CornerSafe(t, c, n)
    ensures Distinct(ds) ==> Distinct(r)
  {
    if ds == [] then []
    else
      var rest := CornerSafeDiagonals(t, c, ds[1..]);
      assert forall n :: n in ds <==> n == ds[0] || n in ds[1..];
      assert Distinct(ds) ==> Distinct(ds[1..]) && ds[0] !in ds[1..] by {
        if Distinct(ds) {
          DistinctTail(ds);
        }
      }
      if CornerSafe(t, c, ds[0]) then [ds[0]] + rest else rest
  }

  /** The valid diagonal cells of `c`, which are all diagonal steps. */
  function SafeDiagonals(t: Terrain, c: Cell): (r: seq<Cell>)
    requires TerrainValid(t) && InBounds(c, t.width, t.height)
    ensures forall n :: n in r <==> InBounds(n, t.width, t.height) && IsDiagonalStep(c, n) && CornerSafe(t, c, n)
  {
    var ds := FieldDiagonal(c, t.width, t.height);
    assert forall n :: n in ds <==> InBounds(n, t.width, t.height) && IsDiagonalStep(c, n) by {
      forall n ensures n in ds <==> InBounds(n, t.width, t.height) && IsDiagonalStep(c, n) {
        FieldNeighborsExactly(c, n, t.width, t.height);
      }
    }
    CornerSafeDiagonals(t, c, ds)
  }

  /**
   * The cells `build` relaxes from `c`, in order: the valid adjacent cells,
   * then the valid corner-safe diagonal cells. The final pass chooses among
   * the same cells.
   */
  function Relaxed(t: Terrain, c: Cell): (r: seq<Cell>)
    requires TerrainValid(t) && InBounds(c, t.width, t.height)
    ensures forall n :: n in r ==> InBounds(n, t.width, t.height) && n != c
    ensures forall n :: n in r <==>
              InBounds(n, t.width, t.height) &&
              (ManhattanDistance(c, n) == 1 || (IsDiagonalStep(c, n) && CornerSafe(t, c, n)))
  {
    var adj := FieldAdjacent(c, t.width, t.height);
    assert forall n :: n in adj <==> InBounds(n, t.width, t.height) && ManhattanDistance(c, n) == 1 by {
      forall n ensures n in adj <==> InBounds(n, t.width, t.height) && ManhattanDistance(c, n) == 1 {
        FieldNeighborsExactly(c, n, t.width, t.height);
      }
    }
    adj + SafeDiagonals(t, c)
  }

  /** `Relaxed` is the adjacent cells followed by the safe diagonal ones, none of them `c` itself. */
  lemma RelaxedParts(t: Terrain, c: Cell)
    requires TerrainValid(t) && InBounds(c, t.width, t.height)
    ensures Relaxed(t, c) == FieldAdjacent(c, t.width, t.height) + SafeDiagonals(t, c)
    ensures forall n :: n in FieldAdjacent(c, t.width, t.height) ==> InBounds(n, t.width, t.height) && n != c
    ensures forall n :: n in SafeDiagonals(t, c) ==> InBounds(n, t.width, t.height) && n != c
  {
    forall n | n in FieldAdjacent(c, t.width, t.height) ensures InBounds(n, t.width, t.height) && n != c {
      FieldNeighborsExactly(c, n, t.width, t.height);
    }
  }

  /** The cells of `Relaxed` are all distinct. */
  lemma RelaxedDistinct(t: Terrain, c: Cell)
    requires TerrainValid(t) && InBounds(c, t.width, t.height)
    ensures Distinct(Relaxed(t, c))
  {
    NeighborsDistinct(c);
    FilterValidDistinct(Adjacent(c), t.width, t.height);
    FilterValidDistinct(Diagonal(c), t.width, t.height);
    var a := FieldAdjacent(c, t.width, t.height);
    var g := SafeDiagonals(t, c);
    assert Distinct(g);
    forall i, j | 0 <= i < j < |a + g| ensures (a + g)[i] != (a + g)[j] {
      if j < |a| {
      } else if i >= |a| {
        assert (a + g)[i] == g[i - |a|] && (a + g)[j] == g[j - |a|];
      } else {
        assert (a + g)[i] in a && (a + g)[j] in g;
      }
    }
  }

  /** The cost the `process` closure offers neighbour `n` of the popped cell `c` in the integration grid `I`. */
  function Offer(t: Terrain, I: seq<IntegrationCost>, c: Cell, n: Cell): IntegrationCost
    requires TerrainValid(t) && |I| == t.width * t.height
    requires InBounds(c, t.width, t.height) && InBounds(n, t.width, t.height)
  {
    Candidate(IsTraversable(t, n), t.occupied(n), At(I, c, t.width, t.height), At(I, n, t.width, t.height), Manhattan(c, n))
  }

  /** The relaxation test of `build` for neighbour `n` of `c` in the integration grid `I`. */
  predicate ImprovesAt(t: Terrain, I: seq<IntegrationCost>, c: Cell, n: Cell)
    requires TerrainValid(t) && |I| == t.width * t.height
    requires InBounds(c, t.width, t.height) && InBounds(n, t.width, t.height)
  {
    Improves(At(I, c, t.width, t.height), Offer(t, I, c, n), At(I, n, t.width, t.height))
  }

  /** No neighbour that `build` relaxes from `c` can still be improved from it. */
  predicate Settled(t: Terrain, I: seq<IntegrationCost>, c: Cell)
    requires TerrainValid(t) && |I| == t.width * t.height && InBounds(c, t.width, t.height)
  {
    forall n :: n in Relaxed(t, c) ==> !ImprovesAt(t, I, c, n)
  }

  /** The sum of the ranks of all costs: every relaxation lowers it. */
  function SumRank(I: seq<IntegrationCost>): nat {
    if I == [] then 0 else Rank(I[0]) + SumRank(I[1..])
  }

  /** Lowering one cost lowers the sum by the same amount. */
  lemma {:induction false} SumRankUpdate(I: seq<IntegrationCost>, i: nat, v: IntegrationCost)
    requires i < |I|
    ensures SumRank(I[i := v]) + Rank(I[i]) == SumRank(I) + Rank(v)
  {
    if i > 0 {
      SumRankUpdate(I[1..], i - 1, v);
      assert I[i := v][1..] == I[1..][i - 1 := v];
    }
  }

  /** Dropping a prefix or suffix of a sequence without repeats keeps it without repeats. */
  lemma DistinctConcat<T>(a: seq<T>, b: seq<T>)
    requires Distinct(a + b)
    ensures Distinct(a) && Distinct(b) && forall x :: x in b ==> x !in a
  {
    forall i, j | 0 <= i < j < |b| ensures b[i] != b[j] {
      assert b[i] == (a + b)[|a| + i] && b[j] == (a + b)[|a| + j];
    }
    forall x | x in b ensures x !in a {
      var j :| 0 <= j < |b| && b[j] == x;
      assert x == (a + b)[|a| + j];
      forall i | 0 <= i < |a| ensures a[i] != x {
        assert a[i] == (a + b)[i];
      }
    }
    forall i, j | 0 <= i < j < |a| ensures a[i] != a[j] {
      assert a[i] == (a + b)[i] && a[j] == (a + b)[j];
    }
  }

  /**
   * Lowering the cost of a cell `n` other than `c` (without creating or
   * removing a goal) cannot make a move out of `c` improving again.
   */
  lemma NotImprovesAfterLowering(t: Terrain, I: seq<IntegrationCost>, c: Cell, m: Cell, n: Cell, v: IntegrationCost)
    requires TerrainValid(t) && |I| == t.width * t.height
    requires InBounds(c, t.width, t.height) && InBounds(m, t.width, t.height) && InBounds(n, t.width, t.height)
    requires c != n
    requires Rank(v) <= Rank(At(I, n, t.width, t.height)) && (v == Goal <==> At(I, n, t.width, t.height) == Goal)
    requires !ImprovesAt(t, I, c, m)
    ensures !ImprovesAt(t, Put(I, n, v, t.width, t.height), c, m)
  {
    AtPut(I, n, v, c, t.width, t.height);
    AtPut(I, n, v, m, t.width, t.height);
    if m == n {
      NoImproveAfterDecrease(IsTraversable(t, m), t.occupied(m), At(I, c, t.width, t.height),
                             At(I, n, t.width, t.height), v, Manhattan(c, m));
    }
  }

  /** A settled cell stays settled when the cost of another cell is lowered. */
  lemma SettledAfterLowering(t: Terrain, I: seq<IntegrationCost>, c: Cell, n: Cell, v: IntegrationCost)
    requires TerrainValid(t) && |I| == t.width * t.height
    requires InBounds(c, t.width, t.height) && InBounds(n, t.width, t.height)
    requires c != n
    requires Rank(v) <= Rank(At(I, n, t.width, t.height)) && (v == Goal <==> At(I, n, t.width, t.height) == Goal)
    requires Settled(t, I, c)
    ensures Settled(t, Put(I, n, v, t.width, t.height), c)
  {
    forall m | m in Relaxed(t, c) ensures !ImprovesAt(t, Put(I, n, v, t.width, t.height), c, m) {
      NotImprovesAfterLowering(t, I, c, m, n, v);
    }
  }

  /** A cell still at the default cost is settled: nothing can be relaxed from it. */
  lemma DefaultIsSettled(t: Terrain, I: seq<IntegrationCost>, c: Cell)
    requires TerrainValid(t) && |I| == t.width * t.height && InBounds(c, t.width, t.height)
    requires At(I, c, t.width, t.height) == DEFAULT_COST
    ensures Settled(t, I, c)
  {
    forall n | n in Relaxed(t, c) ensures !ImprovesAt(t, I, c, n) {
      DefaultRelaxesNothing(IsTraversable(t, n), t.occupied(n), At(I, n, t.width, t.height), Manhattan(c, n));
    }
  }

  /**
   * Settledness is the triangle inequality of the search: every valid move
   * from `c` to a cell it relaxes offers a cost no smaller than the one the
   * neighbour already has (or offers it Goal, which it then already is).
   */
  lemma {:induction false} SettledIsTriangleInequality(t: Terrain, I: seq<IntegrationCost>, c: Cell, n: Cell)
    requires TerrainValid(t) && |I| == t.width * t.height && InBounds(c, t.width, t.height)
    requires Settled(t, I, c) && n in Relaxed(t, c)
    requires ValidTraversal(At(I, c, t.width, t.height), Offer(t, I, c, n))
    ensures Rank(At(I, n, t.width, t.height)) <= Rank(Offer(t, I, c, n))
  {
    assert !ImprovesAt(t, I, c, n);
    CmpIsRankOrder(Offer(t, I, c, n), At(I, n, t.width, t.height));
  }

  /**
   * Costs only go down and goals stay goals: every valid cell's rank is at
   * most what it was and it is Goal exactly when it was.
   */
  ghost predicate Lowered(before: seq<IntegrationCost>, after: seq<IntegrationCost>, width: nat, height: nat)
    requires |before| == width * height && |after| == width * height
  {
    forall c :: InBounds(c, width, height) ==>
      Rank(At(after, c, width, height)) <= Rank(At(before, c, width, height)) &&
      (At(after, c, width, height) == Goal <==> At(before, c, width, height) == Goal)
  }

  /** Lowering one valid cell's cost, goal status unchanged, lowers the grid. */
  lemma LoweredByPut(I: seq<IntegrationCost>, n: Cell, v: IntegrationCost, width: nat, height: nat)
    requires |I| == width * height && InBounds(n, width, height)
    requires Rank(v) <= Rank(At(I, n, width, height)) && (v == Goal <==> At(I, n, width, height) == Goal)
    ensures Lowered(I, Put(I, n, v, width, height), width, height)
  {
    forall c | InBounds(c, width, height)
      ensures Rank(At(Put(I, n, v, width, height), c, width, height)) <= Rank(At(I, c, width, height)) &&
              (At(Put(I, n, v, width, height), c, width, height) == Goal <==> At(I, c, width, height) == Goal)
    {
      AtPut(I, n, v, c, width, height);
    }
  }

  /** Lowering twice is lowering. */
  lemma LoweredTransitive(a: seq<IntegrationCost>, b: seq<IntegrationCost>, c: seq<IntegrationCost>, width: nat, height: nat)
    requires |a| == width * height && |b| == width * height && |c| == width * height
    requires Lowered(a, b, width, height) && Lowered(b, c, width, height)
    ensures Lowered(a, c, width, height)
  {
  }

  /**
   * When a step keeps every non-improving move from `cell` non-improving
   * and leaves the move to `ns[k]` non-improving, the first `k + 1` moves
   * of `ns` are all non-improving.
   */
  lemma PrefixCleared(t: Terrain, I1: seq<IntegrationCost>, I2: seq<IntegrationCost>, cell: Cell, ns: seq<Cell>, k: nat)
    requires TerrainValid(t) && |I1| == t.width * t.height && |I2| == t.width * t.height
    requires InBounds(cell, t.width, t.height) && k < |ns|
    requires forall n :: n in ns ==> InBounds(n, t.width, t.height)
    requires forall j :: 0 <= j < k ==> !ImprovesAt(t, I1, cell, ns[j])
    requires forall m :: InBounds(m, t.width, t.height) && !ImprovesAt(t, I1, cell, m) ==> !ImprovesAt(t, I2, cell, m)
    requires !ImprovesAt(t, I2, cell, ns[k])
    ensures forall j :: 0 <= j < k + 1 ==> !ImprovesAt(t, I2, cell, ns[j])
  {
    forall j | 0 <= j < k + 1 ensures !ImprovesAt(t, I2, cell, ns[j]) {
      assert ns[j] in ns;
    }
  }

  // ---------------------------------------------------------------------
  // Paths, and what a reached cost means
  // ---------------------------------------------------------------------

  /** `c` is a move `build` makes from `p`: one of the cells it relaxes from `p`. */
  predicate Move(t: Terrain, p: Cell, c: Cell)
    requires TerrainValid(t)
  {
    InBounds(p, t.width, t.height) && InBounds(c, t.width, t.height) && c in Relaxed(t, p)
  }

  /** The moves are symmetric: the corner check of a diagonal looks at the same two cells from either end. */
  lemma MoveSymmetric(t: Terrain, p: Cell, c: Cell)
    requires TerrainValid(t) && Move(t, p, c)
    ensures Move(t, c, p)
  {
    if ManhattanDistance(p, c) != 1 {
      CornerSafeExactly(t, p, c);
      CornerSafeExactly(t, c, p);
    }
  }

  /** A walk that starts at a goal in the field and makes only moves `build` makes. */
  ghost predicate IsPath(t: Terrain, goals: seq<Cell>, path: seq<Cell>)
    requires TerrainValid(t)
  {
    |path| > 0 && path[0] in goals &&
    (forall i :: 0 <= i < |path| ==> InBounds(path[i], t.width, t.height)) &&
    (forall i :: 0 < i < |path| ==> Move(t, path[i - 1], path[i]))
  }

  /** The length of a walk: the sum of the Manhattan distances of its moves. */
  function PathLength(path: seq<Cell>): nat
    decreases |path|
  {
    if |path| <= 1 then 0
    else PathLength(path[..|path| - 1]) + ManhattanDistance(path[|path| - 2], path[|path| - 1])
  }

  /** A length as the saturating `u8` arithmetic of the search holds it. */
  function Saturate(n: nat): Scalar {
    if n < 256 then n else 255
  }

  /**
   * The distance a cost has added up: the `cost` part of `Traversable`,
   * `Occupied` and `Blocked`, and 0 for a goal.
   */
  function Accumulated(c: IntegrationCost): Scalar {
    match c
    case Goal => 0
    case Traversable(x) => x
    case Occupied(_, x) => x
    case Blocked(_, x) => x
  }

  /**
   * Every cost the relaxation test lets through adds the step to the
   * distance the popped cell's cost has added up (saturating): through
   * `cost()` for a traversable neighbour, which a valid move reaches only
   * from a goal, a traversable cell or an occupied cell at goal depth, and
   * through `depth_and_cost` for the others.
   */
  lemma AccumulatedOfCandidate(traversable: bool, occupied: bool, current: IntegrationCost,
                               neighbor: IntegrationCost, distance: nat)
    requires Improves(current, Candidate(traversable, occupied, current, neighbor, distance), neighbor)
    ensures Accumulated(Candidate(traversable, occupied, current, neighbor, distance)) ==
            SatAdd(Accumulated(current), distance)
  {
    if traversable {
      assert CostOf(current) == Accumulated(current);
    }
  }

  /** Every prefix of a path is a path. */
  lemma PathPrefix(t: Terrain, goals: seq<Cell>, path: seq<Cell>, k: nat)
    requires TerrainValid(t) && IsPath(t, goals, path) && 0 < k <= |path|
    ensures IsPath(t, goals, path[..k])
  {
    var q := path[..k];
    forall i | 0 <= i < |q| ensures InBounds(q[i], t.width, t.height) {
      assert q[i] == path[i];
    }
    forall i | 0 < i < |q| ensures Move(t, q[i - 1], q[i]) {
      assert q[i - 1] == path[i - 1] && q[i] == path[i];
    }
  }

  /** A path followed by a move is a path, longer by that move's distance. */
  lemma PathExtend(t: Terrain, goals: seq<Cell>, path: seq<Cell>, c: Cell)
    requires TerrainValid(t) && IsPath(t, goals, path)
    requires Move(t, path[|path| - 1], c)
    ensures IsPath(t, goals, path + [c])
    ensures PathLength(path + [c]) == PathLength(path) + ManhattanDistance(path[|path| - 1], c)
  {
    var q := path + [c];
    assert q[..|q| - 1] == path;
    forall i | 0 <= i < |q| ensures InBounds(q[i], t.width, t.height) {
      if i < |path| {
        assert q[i] == path[i];
      }
    }
    forall i | 0 < i < |q| ensures Move(t, q[i - 1], q[i]) {
      if i < |path| {
        assert q[i - 1] == path[i - 1] && q[i] == path[i];
      }
    }
  }

  /** Some path from a goal ends at `c` and is, saturated, no longer than `k`. */
  ghost predicate ReachedWithin(t: Terrain, goals: seq<Cell>, c: Cell, k: nat)
    requires TerrainValid(t)
  {
    exists path :: IsPath(t, goals, path) && path[|path| - 1] == c && Saturate(PathLength(path)) <= k
  }

  /**
   * Every cell the search has reached (its cost is no longer the default)
   * is the end of a path from a goal no longer, saturated, than the
   * distance its cost has added up: no cost is cheaper than some route
   * to it.
   */
  ghost predicate Reached(t: Terrain, goals: seq<Cell>, I: seq<IntegrationCost>)
    requires TerrainValid(t) && |I| == t.width * t.height
  {
    forall c :: InBounds(c, t.width, t.height) && At(I, c, t.width, t.height) != DEFAULT_COST ==>
      ReachedWithin(t, goals, c, Accumulated(At(I, c, t.width, t.height)))
  }

  /**
   * The tier of a cell's cost is the one its terrain calls for: a
   * traversable cell holds `Traversable`, an occupied untraversable one
   * `Occupied`, any other untraversable one `Blocked`; goals and the
   * default are exempt.
   */
  predicate TierFits(t: Terrain, c: Cell, v: IntegrationCost)
    requires TerrainValid(t) && InBounds(c, t.width, t.height)
  {
    v == Goal || v == DEFAULT_COST ||
    ((v.Traversable? <==> IsTraversable(t, c)) &&
     (v.Occupied? ==> t.occupied(c)) &&
     (v.Blocked? ==> !t.occupied(c)))
  }

  /** Every cell's tier fits its terrain. */
  ghost predicate Tiers(t: Terrain, I: seq<IntegrationCost>)
    requires TerrainValid(t) && |I| == t.width * t.height
  {
    forall c :: InBounds(c, t.width, t.height) ==> TierFits(t, c, At(I, c, t.width, t.height))
  }

  /** The relaxation writes a cost of the neighbour's own tier, and leaves every other cell as it was. */
  lemma TiersByWrite(t: Terrain, I: seq<IntegrationCost>, cell: Cell, n: Cell)
    requires TerrainValid(t) && |I| == t.width * t.height
    requires InBounds(cell, t.width, t.height) && InBounds(n, t.width, t.height)
    requires Tiers(t, I) && ImprovesAt(t, I, cell, n)
    ensures Tiers(t, Put(I, n, Offer(t, I, cell, n), t.width, t.height))
  {
    var v := Offer(t, I, cell, n);
    forall c | InBounds(c, t.width, t.height)
      ensures TierFits(t, c, At(Put(I, n, v, t.width, t.height), c, t.width, t.height))
    {
      AtPut(I, n, v, c, t.width, t.height);
    }
  }

  /**
   * A relaxation that passes the test starts from a reached cost, and the
   * offered cost adds the step to the distance the popped cell's cost has
   * added up.
   */
  lemma OfferAccumulates(t: Terrain, I: seq<IntegrationCost>, cell: Cell, n: Cell)
    requires TerrainValid(t) && |I| == t.width * t.height
    requires InBounds(cell, t.width, t.height) && n in Relaxed(t, cell)
    requires ImprovesAt(t, I, cell, n)
    ensures At(I, cell, t.width, t.height) != DEFAULT_COST
    ensures Accumulated(Offer(t, I, cell, n)) ==
            SatAdd(Accumulated(At(I, cell, t.width, t.height)), ManhattanDistance(cell, n))
  {
    var w, h := t.width, t.height;
    var d := Manhattan(cell, n);
    DefaultRelaxesNothing(IsTraversable(t, n), t.occupied(n), At(I, n, w, h), d);
    ManhattanAgrees(cell, n);
    AccumulatedOfCandidate(IsTraversable(t, n), t.occupied(n), At(I, cell, w, h), At(I, n, w, h), d);
  }

  /** A cell reached within `k` reaches each of its moves within `k` plus the step, saturating. */
  lemma ReachedStep(t: Terrain, goals: seq<Cell>, c: Cell, k: Scalar, n: Cell)
    requires TerrainValid(t) && ReachedWithin(t, goals, c, k) && Move(t, c, n)
    ensures ReachedWithin(t, goals, n, SatAdd(k, ManhattanDistance(c, n)))
  {
    var path :| IsPath(t, goals, path) && path[|path| - 1] == c && Saturate(PathLength(path)) <= k;
    PathExtend(t, goals, path, n);
    SaturateStep(PathLength(path), k, ManhattanDistance(c, n));
    var q := path + [n];
    assert IsPath(t, goals, q) && q[|q| - 1] == n && Saturate(PathLength(q)) <= SatAdd(k, ManhattanDistance(c, n));
  }

  /** The written neighbour is reached within the distance its new cost adds up. */
  lemma ReachedNeighbor(t: Terrain, goals: seq<Cell>, I: seq<IntegrationCost>, cell: Cell, n: Cell)
    requires TerrainValid(t) && |I| == t.width * t.height
    requires InBounds(cell, t.width, t.height) && n in Relaxed(t, cell)
    requires Reached(t, goals, I) && ImprovesAt(t, I, cell, n)
    ensures ReachedWithin(t, goals, n, Accumulated(Offer(t, I, cell, n)))
  {
    OfferAccumulates(t, I, cell, n);
    ReachedStep(t, goals, cell, Accumulated(At(I, cell, t.width, t.height)), n);
  }

  /** Saturating both sides keeps a bound when the same step is added to each. */
  lemma SaturateStep(len: nat, a: Scalar, d: nat)
    requires Saturate(len) <= a
    ensures Saturate(len + d) <= SatAdd(a, d)
  {
  }

  /** The relaxation keeps every reached cell reached, the written neighbour included. */
  lemma ReachedByWrite(t: Terrain, goals: seq<Cell>, I: seq<IntegrationCost>, cell: Cell, n: Cell)
    requires TerrainValid(t) && |I| == t.width * t.height
    requires InBounds(cell, t.width, t.height) && n in Relaxed(t, cell)
    requires Reached(t, goals, I) && ImprovesAt(t, I, cell, n)
    ensures Reached(t, goals, Put(I, n, Offer(t, I, cell, n), t.width, t.height))
  {
    var w, h := t.width, t.height;
    var v := Offer(t, I, cell, n);
    ReachedNeighbor(t, goals, I, cell, n);
    var J := Put(I, n, v, w, h);
    forall c | InBounds(c, w, h) && At(J, c, w, h) != DEFAULT_COST
      ensures ReachedWithin(t, goals, c, Accumulated(At(J, c, w, h)))
    {
      AtPut(I, n, v, c, w, h);
    }
  }

  /** A path from a goal that steps only onto traversable cells. */
  ghost predicate OpenPath(t: Terrain, goals: seq<Cell>, path: seq<Cell>)
    requires TerrainValid(t)
  {
    IsPath(t, goals, path) && forall i :: 0 < i < |path| ==> IsTraversable(t, path[i])
  }

  /** Both parts of what the search keeps true of its costs: every reached cost has a route, and every tier fits. */
  ghost predicate Explained(t: Terrain, goals: seq<Cell>, I: seq<IntegrationCost>)
    requires TerrainValid(t) && |I| == t.width * t.height
  {
    Reached(t, goals, I) && Tiers(t, I)
  }

  /** A relaxation keeps the costs explained. */
  lemma ExplainedByWrite(t: Terrain, goals: seq<Cell>, I: seq<IntegrationCost>, cell: Cell, n: Cell)
    requires TerrainValid(t) && |I| == t.width * t.height
    requires InBounds(cell, t.width, t.height) && n in Relaxed(t, cell)
    requires Explained(t, goals, I) && ImprovesAt(t, I, cell, n)
    ensures Explained(t, goals, Put(I, n, Offer(t, I, cell, n), t.width, t.height))
  {
    ReachedByWrite(t, goals, I, cell, n);
    TiersByWrite(t, I, cell, n);
  }

  /**
   * Once every cell is settled and the goals hold `Goal`, every open path
   * ends at a goal or at a `Traversable` cost no larger than the path's
   * saturated length.
   */
  lemma {:induction false} SettledBoundsOpenPaths(t: Terrain, goals: seq<Cell>, I: seq<IntegrationCost>,
                                                  path: seq<Cell>)
    requires TerrainValid(t) && |I| == t.width * t.height
    requires forall c :: InBounds(c, t.width, t.height) ==> Settled(t, I, c)
    requires forall g :: g in goals && InBounds(g, t.width, t.height) ==> At(I, g, t.width, t.height) == Goal
    requires OpenPath(t, goals, path)
    ensures var v := At(I, path[|path| - 1], t.width, t.height);
            v == Goal || (v.Traversable? && v.cost <= Saturate(PathLength(path)))
    decreases |path|
  {
    if |path| > 1 {
      var k := |path| - 1;
      OpenPathPrefix(t, goals, path);
      SettledBoundsOpenPaths(t, goals, I, path[..k]);
      OpenStep(t, I, path[k - 1], path[k], PathLength(path[..k]));
    }
  }

  /** Dropping the last cell of an open path leaves an open path, shorter by that last move. */
  lemma OpenPathPrefix(t: Terrain, goals: seq<Cell>, path: seq<Cell>)
    requires TerrainValid(t) && OpenPath(t, goals, path) && |path| > 1
    ensures var k := |path| - 1;
            OpenPath(t, goals, path[..k]) && path[..k][k - 1] == path[k - 1]
            && Move(t, path[k - 1], path[k]) && IsTraversable(t, path[k])
            && PathLength(path) == PathLength(path[..k]) + ManhattanDistance(path[k - 1], path[k])
  {
    var k := |path| - 1;
    PathPrefix(t, goals, path, k);
    forall i | 0 < i < |path[..k]| ensures IsTraversable(t, path[..k][i]) {
      assert path[..k][i] == path[i];
    }
  }

  /**
   * One step of an open path: from a settled goal or `Traversable` cost
   * within a length, a move onto a traversable cell leaves that cell at a
   * goal or within the length plus the step.
   */
  lemma OpenStep(t: Terrain, I: seq<IntegrationCost>, prev: Cell, last: Cell, len: nat)
    requires TerrainValid(t) && |I| == t.width * t.height
    requires Move(t, prev, last) && Settled(t, I, prev) && IsTraversable(t, last)
    requires var v := At(I, prev, t.width, t.height); v == Goal || (v.Traversable? && v.cost <= Saturate(len))
    ensures var v := At(I, last, t.width, t.height);
            v == Goal || (v.Traversable? && v.cost <= Saturate(len + ManhattanDistance(prev, last)))
  {
    ManhattanAgrees(prev, last);
    SettledIsTriangleInequality(t, I, prev, last);
  }

  /** Right after seeding, only the goals are reached, each by the path of itself alone, and every tier fits. */
  lemma SeededExplained(t: Terrain, goals: seq<Cell>, I: seq<IntegrationCost>)
    requires TerrainValid(t) && |I| == t.width * t.height
    requires forall c :: InBounds(c, t.width, t.height) ==>
               At(I, c, t.width, t.height) == if c in goals then Goal else DEFAULT_COST
    ensures Explained(t, goals, I)
  {
    forall c | InBounds(c, t.width, t.height) && At(I, c, t.width, t.height) != DEFAULT_COST
      ensures ReachedWithin(t, goals, c, Accumulated(At(I, c, t.width, t.height)))
    {
      assert IsPath(t, goals, [c]) && PathLength([c]) == 0;
    }
  }

  /**
   * What the finished search promises about its costs and the final pass:
   * every open path bounds the cost at its end, and every reached cell
   * other than a goal gets a proper direction into its relaxable cells.
   */
  lemma SearchBounds(t: Terrain, goals: seq<Cell>, I: seq<IntegrationCost>)
    requires TerrainValid(t) && |I| == t.width * t.height
    requires forall c :: InBounds(c, t.width, t.height) ==> Settled(t, I, c)
    requires forall c :: InBounds(c, t.width, t.height) ==> (At(I, c, t.width, t.height) == Goal <==> c in goals)
    requires Reached(t, goals, I)
    ensures forall path :: OpenPath(t, goals, path) ==>
              var v := At(I, path[|path| - 1], t.width, t.height);
              v == Goal || (v.Traversable? && v.cost <= Saturate(PathLength(path)))
    ensures forall c :: InBounds(c, t.width, t.height) && c !in goals && At(I, c, t.width, t.height) != DEFAULT_COST ==>
              var d := FlowFor(t, I, c, Direction.None);
              d != Direction.None && Neighbor(c, d).Some? && Neighbor(c, d).value in Relaxed(t, c)
  {
    forall path | OpenPath(t, goals, path)
      ensures var v := At(I, path[|path| - 1], t.width, t.height);
              v == Goal || (v.Traversable? && v.cost <= Saturate(PathLength(path)))
    {
      SettledBoundsOpenPaths(t, goals, I, path);
    }
    forall c | InBounds(c, t.width, t.height) && c !in goals && At(I, c, t.width, t.height) != DEFAULT_COST
      ensures var d := FlowFor(t, I, c, Direction.None);
              d != Direction.None && Neighbor(c, d).Some? && Neighbor(c, d).value in Relaxed(t, c)
    {
      ReachedHasDirection(t, goals, I, c, Direction.None);
    }
  }

  /**
   * A reached cell other than a goal has somewhere to go: it was reached
   * by a move from a neighbour, to which it can move back, so the final
   * pass gives it a proper direction towards one of its relaxable cells.
   */
  lemma ReachedHasDirection(t: Terrain, goals: seq<Cell>, I: seq<IntegrationCost>, c: Cell, prev: Direction)
    requires TerrainValid(t) && |I| == t.width * t.height && InBounds(c, t.width, t.height)
    requires Reached(t, goals, I) && c !in goals && At(I, c, t.width, t.height) != DEFAULT_COST
    ensures Relaxed(t, c) != []
    ensures var d := FlowFor(t, I, c, prev);
            d != Direction.None && Neighbor(c, d).Some? && Neighbor(c, d).value in Relaxed(t, c)
  {
    assert ReachedWithin(t, goals, c, Accumulated(At(I, c, t.width, t.height)));
    var path :| IsPath(t, goals, path) && path[|path| - 1] == c &&
                Saturate(PathLength(path)) <= Accumulated(At(I, c, t.width, t.height));
    var k := |path| - 1;
    assert k > 0;
    assert Move(t, path[k - 1], path[k]);
    MoveSymmetric(t, path[k - 1], c);
    FlowPointsToCheapest(t, I, c, prev);
  }

  // ---------------------------------------------------------------------
  // The final pass
  // ---------------------------------------------------------------------

  /**
   * `min_by(|a, b| integration[a].cmp(&integration[b]))`: a left fold that
   * keeps the earlier cell unless the later one is strictly cheaper, so it
   * returns the first of the cheapest cells.
   */
  function MinCell(I: seq<IntegrationCost>, width: nat, height: nat, cs: seq<Cell>): (m: Cell)
    requires |I| == width * height && cs != []
    requires forall c :: c in cs ==> InBounds(c, width, height)
    ensures m in cs
    ensures forall c :: c in cs ==> Rank(At(I, m, width, height)) <= Rank(At(I, c, width, height))
    ensures exists k :: 0 <= k < |cs| && cs[k] == m &&
              forall j :: 0 <= j < k ==> Rank(At(I, cs[j], width, height)) > Rank(At(I, m, width, height))
  {
    if |cs| == 1 then cs[0]
    else
      var init := cs[..|cs| - 1];
      var last := cs[|cs| - 1];
      assert forall c :: c in cs <==> c in init || c == last;
      var m := MinCell(I, width, height, init);
      CmpIsRankOrder(At(I, m, width, height), At(I, last, width, height));
      if Cmp(At(I, m, width, height), At(I, last, width, height)) == Greater then
        assert forall j :: 0 <= j < |cs| - 1 ==> cs[j] == init[j];
        last
      else
        assert exists k :: 0 <= k < |cs| && cs[k] == m &&
                 forall j :: 0 <= j < k ==> Rank(At(I, cs[j], width, height)) > Rank(At(I, m, width, height)) by {
          var k :| 0 <= k < |init| && init[k] == m &&
                   forall j :: 0 <= j < k ==> Rank(At(I, init[j], width, height)) > Rank(At(I, m, width, height));
          assert cs[k] == m;
          assert forall j :: 0 <= j < k ==> cs[j] == init[j];
        }
        m
  }

  /**
   * The direction the final pass gives cell `c`: towards the first cheapest
   * of the cells `build` relaxes from `c`, or `prev` (left as it was) when
   * there are none.
   */
  function FlowFor(t: Terrain, I: seq<IntegrationCost>, c: Cell, prev: Direction): Direction
    requires TerrainValid(t) && |I| == t.width * t.height && InBounds(c, t.width, t.height)
  {
    var cs := Relaxed(t, c);
    if cs == [] then prev else DirectionTo(c, MinCell(I, t.width, t.height, cs))
  }

  /**
   * Following the flow of a cell with relaxable neighbours leads to one of
   * them, and to one whose integration cost is the least among them.
   */
  lemma FlowPointsToCheapest(t: Terrain, I: seq<IntegrationCost>, c: Cell, prev: Direction)
    requires TerrainValid(t) && |I| == t.width * t.height && InBounds(c, t.width, t.height)
    ensures Relaxed(t, c) == [] ==> FlowFor(t, I, c, prev) == prev
    ensures Relaxed(t, c) != [] ==>
              var d := FlowFor(t, I, c, prev);
              d != Direction.None && Neighbor(c, d).Some? && Neighbor(c, d).value in Relaxed(t, c) &&
              forall m :: m in Relaxed(t, c) ==>
                Rank(At(I, Neighbor(c, d).value, t.width, t.height)) <= Rank(At(I, m, t.width, t.height))
  {
    var cs := Relaxed(t, c);
    if cs != [] {
      var m := MinCell(I, t.width, t.height, cs);
      DirectionNoneIffNotUnit(c, m);
      var d := DirectionTo(c, m);
      NeighborDirection(c, m, d);
    }
  }

  /**
   * One step of the final pass: with the cells before index `i` pointed and
   * the rest as they were, pointing the cell at index `i` extends the
   * pointed prefix by one.
   */
  lemma PointedPrefixGrows(t: Terrain, I: seq<IntegrationCost>, F0: seq<Direction>, F1: seq<Direction>,
                           F2: seq<Direction>, cell: Cell, i: nat)
    requires TerrainValid(t) && |I| == t.width * t.height
    requires |F0| == t.width * t.height && |F1| == t.width * t.height && |F2| == t.width * t.height
    requires InBounds(cell, t.width, t.height) && Index(cell, t.width) == i
    requires forall c :: InBounds(c, t.width, t.height) && Index(c, t.width) < i ==>
               At(F1, c, t.width, t.height) == FlowFor(t, I, c, At(F0, c, t.width, t.height))
    requires forall c :: InBounds(c, t.width, t.height) && Index(c, t.width) >= i ==>
               At(F1, c, t.width, t.height) == At(F0, c, t.width, t.height)
    requires forall c :: InBounds(c, t.width, t.height) && c != cell ==>
               At(F2, c, t.width, t.height) == At(F1, c, t.width, t.height)
    requires At(F2, cell, t.width, t.height) == FlowFor(t, I, cell, At(F0, cell, t.width, t.height))
    ensures forall c :: InBounds(c, t.width, t.height) && Index(c, t.width) < i + 1 ==>
              At(F2, c, t.width, t.height) == FlowFor(t, I, c, At(F0, c, t.width, t.height))
    ensures forall c :: InBounds(c, t.width, t.height) && Index(c, t.width) >= i + 1 ==>
              At(F2, c, t.width, t.height) == At(F0, c, t.width, t.height)
  {
    forall c | InBounds(c, t.width, t.height) && Index(c, t.width) == i ensures c == cell {
      IndexInjective(c, cell, t.width);
    }
  }

  // ---------------------------------------------------------------------
  // Heap
  // ---------------------------------------------------------------------

  /** `s` without its `i`th element: the rest keep their order, and the multiset loses exactly that element. */
  function RemoveAt<T>(s: seq<T>, i: nat): (r: seq<T>)
    requires i < |s|
    ensures |r| == |s| - 1
    ensures forall j :: 0 <= j < i ==> r[j] == s[j]
    ensures forall j :: i <= j < |r| ==> r[j] == s[j + 1]
    ensures multiset(r) + multiset{s[i]} == multiset(s)
  {
    assert s == s[..i] + [s[i]] + s[i + 1..];
    s[..i] + s[i + 1..]
  }

  /** A heap entry, `(cost, cell)`. */
  type Entry = (IntegrationCost, Cell)

  /**
   * The order of the entries of `BinaryHeap<Reverse<(IntegrationCost, Cell)>>`,
   * which pops the smallest: by cost, then by cell (`x` first).
   */
  predicate EntryLe(a: Entry, b: Entry) {
    Rank(a.0) < Rank(b.0) || (a.0 == b.0 && (a.1 == b.1 || CellLess(a.1, b.1)))
  }

  /** The entry order is total and transitive. */
  lemma EntryOrder(a: Entry, b: Entry, c: Entry)
    ensures EntryLe(a, b) || EntryLe(b, a)
    ensures EntryLe(a, b) && EntryLe(b, c) ==> EntryLe(a, c)
    ensures EntryLe(a, b) && EntryLe(b, a) ==> a == b
  {
    CmpIsRankOrder(a.0, b.0);
    CmpIsRankOrder(b.0, c.0);
    CmpIsRankOrder(a.0, c.0);
  }

  /**
   * `Heap`: the binary heap of `(cost, cell)` entries, as the sequence of its
   * entries, and the `contains` bitmap over the field.
   */
  class Heap {
    var entries: seq<Entry>
    const contains: Field<bool>

    /** Some entry of the heap is for `c`. */
    ghost predicate InHeap(c: Cell)
      reads this
    {
      exists k :: 0 <= k < |entries| && entries[k].1 == c
    }

    /** Every entry is for a valid cell, and a set bit means the cell has an entry. */
    ghost predicate Valid()
      reads this, contains
    {
      contains.Valid() &&
      (forall k :: 0 <= k < |entries| ==> InBounds(entries[k].1, contains.width, contains.height)) &&
      (forall c :: (InBounds(c, contains.width, contains.height) &&
                    At(contains.data, c, contains.width, contains.height)) ==> InHeap(c))
    }

    /** `Heap::new`: empty, with a cleared `width x height` bitmap. */
    constructor (width: Scalar, height: Scalar)
      ensures Valid() && fresh(contains)
      ensures entries == [] && contains.width == width && contains.height == height
      ensures forall i :: 0 <= i < |contains.data| ==> !contains.data[i]
    {
      entries := [];
      contains := new Field(width, height, seq(width * height, _ => false));
      new;
      forall c | InBounds(c, width, height) ensures !At(contains.data, c, width, height) {
        IndexInRange(c, width, height);
      }
    }

    /** `Heap::contains`: the bit of a valid cell; a set bit means the cell is queued. */
    function Contains(c: Cell): (b: bool)
      reads this, contains
      requires Valid() && InBounds(c, contains.width, contains.height)
      ensures b == At(contains.data, c, contains.width, contains.height)
      ensures b ==> InHeap(c)
    {
      IndexInRange(c, contains.width, contains.height);
      contains.data[Index(c, contains.width)]
    }

    /** `Heap::push`: adds the entry and sets the cell's bit. */
    method Push(cell: Cell, cost: IntegrationCost)
      requires Valid() && InBounds(cell, contains.width, contains.height)
      modifies this, contains
      ensures Valid() && contains.width == old(contains.width) && contains.height == old(contains.height)
      ensures entries == old(entries) + [(cost, cell)]
      ensures contains.data == Put(old(contains.data), cell, true, contains.width, contains.height)
      ensures InHeap(cell) && forall c :: old(InHeap(c)) ==> InHeap(c)
    {
      ghost var before := entries;
      ghost var bits := contains.data;
      entries := entries + [(cost, cell)];
      IndexInRange(cell, contains.width, contains.height);
      contains.Set(cell, true);
      assert entries[|entries| - 1].1 == cell;
      forall c | old(InHeap(c)) ensures InHeap(c) {
        var k :| 0 <= k < |before| && before[k].1 == c;
        assert entries[k] == before[k];
      }
      forall c | InBounds(c, contains.width, contains.height) && At(contains.data, c, contains.width, contains.height)
        ensures InHeap(c)
      {
        AtPut(bits, cell, true, c, contains.width, contains.height);
        if c != cell {
          var k :| 0 <= k < |before| && before[k].1 == c;
          assert entries[k] == before[k];
        }
      }
    }

    /** The position of the smallest entry: the scan `BinaryHeap::pop` stands for. */
    method MinPosition() returns (best: nat)
      requires entries != []
      ensures best < |entries|
      ensures forall j :: 0 <= j < |entries| ==> EntryLe(entries[best], entries[j])
    {
      best := 0;
      var k := 1;
      while k < |entries|
        invariant 0 <= best < k <= |entries|
        invariant forall j :: 0 <= j < k ==> EntryLe(entries[best], entries[j])
      {
        EntryOrder(entries[best], entries[k], entries[k]);
        if !EntryLe(entries[best], entries[k]) {
          forall j | 0 <= j < k ensures EntryLe(entries[k], entries[j]) {
            EntryOrder(entries[k], entries[best], entries[j]);
          }
          best := k;
        }
        k := k + 1;
      }
    }

    /**
     * `Heap::pop`: removes and returns the smallest entry (cost first, then
     * cell) and clears its cell's bit; `None` when the heap is empty.
     */
    method Pop() returns (r: Option<(Cell, IntegrationCost)>)
      requires Valid()
      modifies this, contains
      ensures Valid() && contains.width == old(contains.width) && contains.height == old(contains.height)
      ensures r.None? <==> old(entries) == []
      ensures r.None? ==> entries == old(entries) && contains.data == old(contains.data)
      ensures r.Some? ==> (r.value.1, r.value.0) in old(entries) && InBounds(r.value.0, contains.width, contains.height)
      ensures r.Some? ==> forall e :: e in old(entries) ==> EntryLe((r.value.1, r.value.0), e)
      ensures r.Some? ==> |entries| == |old(entries)| - 1 &&
                          multiset(entries) + multiset{(r.value.1, r.value.0)} == multiset(old(entries))
      ensures r.Some? ==> contains.data == Put(old(contains.data), r.value.0, false, contains.width, contains.height)
      ensures forall c :: InHeap(c) ==> old(InHeap(c))
      ensures r.Some? ==> forall c :: old(InHeap(c)) && c != r.value.0 ==> InHeap(c)
    {
      if entries == [] {
        return Option.None;
      }
      var best := MinPosition();
      ghost var before := entries;
      ghost var bits := contains.data;
      var (cost, cell) := entries[best];
      entries := RemoveAt(entries, best);
      IndexInRange(cell, contains.width, contains.height);
      contains.Set(cell, false);
      r := Some((cell, cost));
      forall e | e in before ensures EntryLe((cost, cell), e) {
        var j :| 0 <= j < |before| && before[j] == e;
      }
      forall c | InHeap(c) ensures old(InHeap(c)) {
        var j :| 0 <= j < |entries| && entries[j].1 == c;
        assert before[if j < best then j else j + 1].1 == c;
      }
      forall c | old(InHeap(c)) && c != cell ensures InHeap(c) {
        var j :| 0 <= j < |before| && before[j].1 == c;
        assert entries[if j < best then j else j - 1].1 == c;
      }
      forall c | InBounds(c, contains.width, contains.height) && At(contains.data, c, contains.width, contains.height)
        ensures InHeap(c)
      {
        AtPut(bits, cell, false, c, contains.width, contains.height);
      }
    }

    /** `Heap::clear`: no entries and every bit cleared. */
    method Clear()
      requires Valid()
      modifies this, contains
      ensures Valid() && contains.width == old(contains.width) && contains.height == old(contains.height)
      ensures entries == []
      ensures forall i :: 0 <= i < |contains.data| ==> !contains.data[i]
    {
      entries := [];
      var i := 0;
      while i < |contains.data|
        invariant entries == []
        invariant contains.Valid() && contains.width == old(contains.width) && contains.height == old(contains.height)
        invariant 0 <= i <= |contains.data|
        invariant forall j :: 0 <= j < i ==> !contains.data[j]
      {
        contains.data := contains.data[i := false];
        i := i + 1;
      }
      forall c | InBounds(c, contains.width, contains.height)
        ensures !At(contains.data, c, contains.width, contains.height)
      {
        IndexInRange(c, contains.width, contains.height);
      }
    }
  }

  // ---------------------------------------------------------------------
  // FlowField
  // ---------------------------------------------------------------------

  /**
   * `FlowField<AGENT>`: the direction of every cell, the integration costs
   * the search computes, and the search's heap. `AGENT` is the const
   * generic parameter.
   */
  class FlowField {
    const agent: Agent
    const flow: Field<Direction>
    const integration: Field<IntegrationCost>
    const heap: Heap

    /** The three grids are well formed and share one size. */
    ghost predicate Valid()
      reads this, flow, integration, heap, heap.contains
    {
      flow.Valid() && integration.Valid() && heap.Valid() &&
      flow.width == integration.width && flow.height == integration.height &&
      heap.contains.width == integration.width && heap.contains.height == integration.height
    }

    /** The terrain `t` is an obstacle field of this flow field's size, read for its agent size. */
    predicate Matches(t: Terrain)
      reads this, integration
    {
      TerrainValid(t) && t.width == integration.width && t.height == integration.height && t.agent == agent
    }

    /** `FlowField::from_layout`: no directions, default costs and an empty heap. */
    constructor (agent: Agent, width: Scalar, height: Scalar)
      ensures Valid() && this.agent == agent
      ensures integration.width == width && integration.height == height
      ensures forall i :: 0 <= i < |integration.data| ==> integration.data[i] == DEFAULT_COST
      ensures forall i :: 0 <= i < |flow.data| ==> flow.data[i] == Direction.None
      ensures heap.entries == []
      ensures fresh(flow) && fresh(integration) && fresh(heap) && fresh(heap.contains)
    {
      this.agent := agent;
      flow := new Field(width, height, seq(width * height, _ => Direction.None));
      integration := new Field(width, height, seq(width * height, _ => DEFAULT_COST));
      heap := new Heap(width, height);
    }

    /** The first step of `build`: every cost back to the default and every direction to `None`. */
    method Reset()
      requires Valid()
      modifies flow, integration
      ensures Valid() && integration.width == old(integration.width) && integration.height == old(integration.height)
      ensures forall i :: 0 <= i < |integration.data| ==> integration.data[i] == DEFAULT_COST
      ensures forall i :: 0 <= i < |flow.data| ==> flow.data[i] == Direction.None
    {
      var i := 0;
      while i < |integration.data|
        invariant Valid() && integration.width == old(integration.width) && integration.height == old(integration.height)
        invariant 0 <= i <= |integration.data|
        invariant forall j :: 0 <= j < i ==> integration.data[j] == DEFAULT_COST && flow.data[j] == Direction.None
      {
        integration.data := integration.data[i := DEFAULT_COST];
        flow.data := flow.data[i := Direction.None];
        i := i + 1;
      }
    }

    /**
     * The goal loop of `build`: every valid goal is pushed with cost Goal,
     * made Goal and given no direction; invalid goals are skipped.
     */
    method Seed(goals: seq<Cell>)
      requires Valid()
      modifies flow, integration, heap, heap.contains
      ensures Valid() && integration.width == old(integration.width) && integration.height == old(integration.height)
      ensures forall c :: InBounds(c, integration.width, integration.height) ==>
                At(integration.data, c, integration.width, integration.height) ==
                  if c in goals then Goal else old(At(integration.data, c, integration.width, integration.height))
      ensures forall c :: InBounds(c, integration.width, integration.height) ==>
                At(flow.data, c, integration.width, integration.height) ==
                  if c in goals then Direction.None else old(At(flow.data, c, integration.width, integration.height))
      ensures forall c :: InBounds(c, integration.width, integration.height) && c in goals ==> heap.InHeap(c)
      ensures forall c :: old(heap.InHeap(c)) ==> heap.InHeap(c)
    {
      var w, h := integration.width, integration.height;
      ghost var I0, F0 := integration.data, flow.data;
      var k := 0;
      while k < |goals|
        invariant Valid() && integration.width == w && integration.height == h
        invariant 0 <= k <= |goals|
        invariant forall c :: InBounds(c, w, h) ==>
                    At(integration.data, c, w, h) == if c in goals[..k] then Goal else At(I0, c, w, h)
        invariant forall c :: InBounds(c, w, h) ==>
                    At(flow.data, c, w, h) == if c in goals[..k] then Direction.None else At(F0, c, w, h)
        invariant forall c :: InBounds(c, w, h) && c in goals[..k] ==> heap.InHeap(c)
        invariant forall c :: old(heap.InHeap(c)) ==> heap.InHeap(c)
      {
        var goal := goals[k];
        assert goals[..k + 1] == goals[..k] + [goal];
        if InBounds(goal, w, h) {
          ghost var I1, F1 := integration.data, flow.data;
          IndexInRange(goal, w, h);
          heap.Push(goal, Goal);
          integration.Set(goal, Goal);
          flow.Set(goal, Direction.None);
          forall c | InBounds(c, w, h) ensures
            At(integration.data, c, w, h) == (if c in goals[..k + 1] then Goal else At(I0, c, w, h)) &&
            At(flow.data, c, w, h) == (if c in goals[..k + 1] then Direction.None else At(F0, c, w, h))
          {
            AtPut(I1, goal, Goal, c, w, h);
            AtPut(F1, goal, Direction.None, c, w, h);
          }
        }
        k := k + 1;
      }
      assert goals[..k] == goals;
    }

    /**
     * The `process` closure of `build` for the popped `cell` and one of its
     * neighbours `n`: when the move is a valid traversal to a strictly
     * smaller cost, the neighbour takes that cost and is pushed unless its
     * bit is set. Afterwards the move no longer improves `n`, and every
     * cell outside the heap that was settled still is.
     */
    method Process(t: Terrain, cell: Cell, n: Cell)
      requires Valid() && Matches(t)
      requires InBounds(cell, t.width, t.height) && InBounds(n, t.width, t.height) && n != cell
      modifies integration, heap, heap.contains
      ensures Valid() && Matches(t)
      ensures !ImprovesAt(t, integration.data, cell, n)
      ensures old(ImprovesAt(t, integration.data, cell, n)) ==>
                integration.data == Put(old(integration.data), n, old(Offer(t, integration.data, cell, n)), t.width, t.height) &&
                heap.InHeap(n) && SumRank(integration.data) < old(SumRank(integration.data))
      ensures !old(ImprovesAt(t, integration.data, cell, n)) ==>
                integration.data == old(integration.data) && heap.entries == old(heap.entries)
      ensures Lowered(old(integration.data), integration.data, t.width, t.height)
      ensures forall c :: old(heap.InHeap(c)) ==> heap.InHeap(c)
      ensures forall m :: InBounds(m, t.width, t.height) && old(!ImprovesAt(t, integration.data, cell, m)) ==>
                !ImprovesAt(t, integration.data, cell, m)
      ensures forall c :: (InBounds(c, t.width, t.height) && c != cell && !heap.InHeap(c) &&
                           old(Settled(t, integration.data, c))) ==> Settled(t, integration.data, c)
    {
      var w, h := t.width, t.height;
      ghost var I0 := integration.data;
      var current := At(integration.data, cell, w, h);
      var neighbor := At(integration.data, n, w, h);
      var cost := Candidate(IsTraversable(t, n), t.occupied(n), current, neighbor, Manhattan(cell, n));
      if ValidTraversal(current, cost) && Cmp(cost, neighbor) == Less {
        CandidateFacts(IsTraversable(t, n), t.occupied(n), current, neighbor, Manhattan(cell, n));
        IndexInRange(n, w, h);
        integration.Set(n, cost);
        if !heap.Contains(n) {
          heap.Push(n, cost);
        }
        SumRankUpdate(I0, Index(n, w), cost);
        AtPut(I0, n, cost, cell, w, h);
        AtPut(I0, n, cost, n, w, h);
        CmpIsRankOrder(cost, cost);
        LoweredByPut(I0, n, cost, w, h);
        forall m | InBounds(m, w, h) && !ImprovesAt(t, I0, cell, m) ensures !ImprovesAt(t, integration.data, cell, m) {
          NotImprovesAfterLowering(t, I0, cell, m, n, cost);
        }
        forall c | InBounds(c, w, h) && c != cell && !heap.InHeap(c) && Settled(t, I0, c)
          ensures Settled(t, integration.data, c)
        {
          SettledAfterLowering(t, I0, c, n, cost);
        }
      }
    }

    /**
     * One of the two neighbour loops of `build`: `process` for each of `ns`
     * in order. The moves to `done` and to `ns` no longer improve anything
     * afterwards, and settledness outside the heap is kept.
     */
    method ProcessAll(t: Terrain, cell: Cell, ns: seq<Cell>, ghost done: seq<Cell>, ghost goals: seq<Cell>)
      requires Valid() && Matches(t) && InBounds(cell, t.width, t.height)
      requires forall n :: n in ns ==> InBounds(n, t.width, t.height) && n != cell && n in Relaxed(t, cell)
      requires Explained(t, goals, integration.data)
      requires forall n :: n in done ==> InBounds(n, t.width, t.height) && !ImprovesAt(t, integration.data, cell, n)
      requires forall c :: InBounds(c, t.width, t.height) && c != cell && !heap.InHeap(c) ==>
                 Settled(t, integration.data, c)
      modifies integration, heap, heap.contains
      ensures Valid() && Matches(t) && Explained(t, goals, integration.data)
      ensures forall n :: n in done ==> !ImprovesAt(t, integration.data, cell, n)
      ensures forall n :: n in ns ==> !ImprovesAt(t, integration.data, cell, n)
      ensures forall c :: InBounds(c, t.width, t.height) && c != cell && !heap.InHeap(c) ==>
                Settled(t, integration.data, c)
      ensures Lowered(old(integration.data), integration.data, t.width, t.height)
      ensures SumRank(integration.data) < old(SumRank(integration.data)) ||
              (integration.data == old(integration.data) && heap.entries == old(heap.entries))
      ensures forall c :: old(heap.InHeap(c)) ==> heap.InHeap(c)
    {
      ghost var I0, E0 := integration.data, heap.entries;
      var k := 0;
      while k < |ns|
        invariant Valid() && Matches(t) && Explained(t, goals, integration.data)
        invariant 0 <= k <= |ns|
        invariant forall n :: n in done ==> !ImprovesAt(t, integration.data, cell, n)
        invariant forall j :: 0 <= j < k ==> !ImprovesAt(t, integration.data, cell, ns[j])
        invariant forall c :: InBounds(c, t.width, t.height) && c != cell && !heap.InHeap(c) ==>
                    Settled(t, integration.data, c)
        invariant Lowered(I0, integration.data, t.width, t.height)
        invariant SumRank(integration.data) < SumRank(I0) || (integration.data == I0 && heap.entries == E0)
        invariant forall c :: old(heap.InHeap(c)) ==> heap.InHeap(c)
      {
        ghost var I1 := integration.data;
        assert ns[k] in ns;
        Process(t, cell, ns[k]);
        if ImprovesAt(t, I1, cell, ns[k]) {
          ExplainedByWrite(t, goals, I1, cell, ns[k]);
        }
        PrefixCleared(t, I1, integration.data, cell, ns, k);
        LoweredTransitive(I0, I1, integration.data, t.width, t.height);
        k := k + 1;
      }
    }

    /**
     * The `while let Some((cell, _)) = heap.pop()` loop of `build`: pops the
     * cheapest entry and processes its adjacent cells, then its corner-safe
     * diagonal cells, until the heap is empty. Given that every cell outside
     * the heap is settled, every cell is settled at the end.
     */
    method Propagate(t: Terrain, ghost goals: seq<Cell>)
      requires Valid() && Matches(t) && Explained(t, goals, integration.data)
      requires forall c :: InBounds(c, t.width, t.height) && !heap.InHeap(c) ==> Settled(t, integration.data, c)
      modifies integration, heap, heap.contains
      ensures Valid() && Matches(t) && heap.entries == [] && Explained(t, goals, integration.data)
      ensures forall c :: InBounds(c, t.width, t.height) ==> Settled(t, integration.data, c)
      ensures Lowered(old(integration.data), integration.data, t.width, t.height)
    {
      ghost var I0 := integration.data;
      while true
        invariant Valid() && Matches(t) && Explained(t, goals, integration.data)
        invariant forall c :: InBounds(c, t.width, t.height) && !heap.InHeap(c) ==> Settled(t, integration.data, c)
        invariant Lowered(I0, integration.data, t.width, t.height)
        decreases SumRank(integration.data), |heap.entries|
      {
        ghost var S, E := SumRank(integration.data), |heap.entries|;
        var popped := heap.Pop();
        if popped.None? {
          break;
        }
        var cell := popped.value.0;
        var adjacent := FieldAdjacent(cell, t.width, t.height);
        var diagonal := SafeDiagonals(t, cell);
        RelaxedParts(t, cell);
        ProcessAll(t, cell, adjacent, [], goals);
        ProcessAll(t, cell, diagonal, adjacent, goals);
        assert Settled(t, integration.data, cell);
        assert SumRank(integration.data) < S || (SumRank(integration.data) == S && |heap.entries| < E);
      }
    }

    /**
     * The final pass of `build`: for each index `i` in order, the cell
     * `Cell::from_index(i, width)` turns towards the first cheapest of its
     * relaxable neighbours and keeps its direction when it has none.
     */
    method PointFlows(t: Terrain)
      requires Valid() && Matches(t)
      modifies flow
      ensures Valid()
      ensures forall c :: InBounds(c, t.width, t.height) ==>
                At(flow.data, c, t.width, t.height) ==
                  FlowFor(t, integration.data, c, old(At(flow.data, c, t.width, t.height)))
    {
      var w, h := integration.width, integration.height;
      ghost var F0 := flow.data;
      var i := 0;
      while i < |integration.data|
        invariant Valid() && flow.width == w && flow.height == h
        invariant 0 <= i <= |integration.data|
        invariant forall c :: InBounds(c, w, h) && Index(c, w) < i ==>
                    At(flow.data, c, w, h) == FlowFor(t, integration.data, c, At(F0, c, w, h))
        invariant forall c :: InBounds(c, w, h) && Index(c, w) >= i ==> At(flow.data, c, w, h) == At(F0, c, w, h)
      {
        FromIndexInBounds(i, w, h);
        var cell := FromIndex(i, w);
        var cs := Relaxed(t, cell);
        ghost var F1 := flow.data;
        if cs != [] {
          var m := MinCell(integration.data, w, h, cs);
          flow.Set(cell, DirectionTo(cell, m));
          forall c | InBounds(c, w, h) ensures At(flow.data, c, w, h) == if c == cell then DirectionTo(cell, m) else At(F1, c, w, h) {
            AtPut(F1, cell, DirectionTo(cell, m), c, w, h);
          }
        }
        PointedPrefixGrows(t, integration.data, F0, F1, flow.data, cell, i);
        i := i + 1;
      }
      forall c | InBounds(c, w, h) ensures Index(c, w) < |integration.data| {
        IndexInRange(c, w, h);
      }
    }

    /**
     * `FlowField::build` over the obstacle field `obstacle` (of the same
     * size) and the agent occupancy `occupied`. Afterwards the heap is
     * empty, the goal cells are exactly the valid cells among `goals`,
     * every cell is settled (no move `build` considers improves any cost)
     * and every cell points as the final pass directs. The costs are
     * bounded from both sides by routes from the goals: every reached cost
     * has a route no longer than it adds up, and is of its terrain's tier;
     * every route over traversable cells bounds the `Traversable` cost at
     * its end. Every reached cell other than a goal gets a proper direction.
     */
    method Build(goals: seq<Cell>, obstacle: Obst.ObstacleField, occupied: Cell -> bool)
      requires Valid() && obstacle.Valid()
      requires obstacle.field.width == integration.width && obstacle.field.height == integration.height
      modifies flow, integration, heap, heap.contains
      ensures Valid() && heap.entries == []
      ensures integration.width == old(integration.width) && integration.height == old(integration.height)
      ensures forall c :: InBounds(c, integration.width, integration.height) ==>
                (At(integration.data, c, integration.width, integration.height) == Goal <==> c in goals)
      ensures var t := Terrain(obstacle.field.data, integration.width, integration.height, agent, occupied);
              forall c :: InBounds(c, t.width, t.height) ==> Settled(t, integration.data, c)
      ensures var t := Terrain(obstacle.field.data, integration.width, integration.height, agent, occupied);
              forall c :: InBounds(c, t.width, t.height) ==>
                At(flow.data, c, t.width, t.height) == FlowFor(t, integration.data, c, Direction.None)
      ensures var t := Terrain(obstacle.field.data, integration.width, integration.height, agent, occupied);
              Reached(t, goals, integration.data) && Tiers(t, integration.data)
      ensures var t := Terrain(obstacle.field.data, integration.width, integration.height, agent, occupied);
              forall path :: OpenPath(t, goals, path) ==>
                var v := At(integration.data, path[|path| - 1], t.width, t.height);
                v == Goal || (v.Traversable? && v.cost <= Saturate(PathLength(path)))
      ensures var t := Terrain(obstacle.field.data, integration.width, integration.height, agent, occupied);
              forall c :: InBounds(c, t.width, t.height) && c !in goals &&
                          At(integration.data, c, t.width, t.height) != DEFAULT_COST ==>
                var d := At(flow.data, c, t.width, t.height);
                d != Direction.None && Neighbor(c, d).Some? && Neighbor(c, d).value in Relaxed(t, c)
    {
      var t := Terrain(obstacle.field.data, integration.width, integration.height, agent, occupied);
      var w, h := t.width, t.height;
      Reset();
      heap.Clear();
      assert forall c :: !heap.InHeap(c);
      ghost var I1 := integration.data;
      Seed(goals);
      forall c | InBounds(c, w, h) && !heap.InHeap(c) ensures Settled(t, integration.data, c) {
        IndexInRange(c, w, h);
        DefaultIsSettled(t, integration.data, c);
      }
      ghost var I2, F2 := integration.data, flow.data;
      forall c | InBounds(c, w, h)
        ensures At(I2, c, w, h) == (if c in goals then Goal else DEFAULT_COST) && At(F2, c, w, h) == Direction.None
      {
        IndexInRange(c, w, h);
      }
      SeededExplained(t, goals, I2);
      Propagate(t, goals);
      ghost var I3 := integration.data;
      PointFlows(t);
      assert integration.data == I3 && integration.width == w && integration.height == h;
      assert t == Terrain(obstacle.field.data, integration.width, integration.height, agent, occupied);
      SearchBounds(t, goals, I3);
    }
  }
}
