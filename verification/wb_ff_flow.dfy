/**
 * `FlowField` of the warband `flow_field` module: a grid of directions, the
 * `u16` distance of every cell from the nearest goal, and the priority queue
 * of `build`, a label-correcting search from the goal cells over a cost
 * field whose cells are traversable, occupied or blocked. Occupied cells
 * cost a hundred times the step; blocked cells are never entered, and are
 * marked with `u16::MAX`.
 */
module WbFfFlow {
  import opened Opt
  import opened WbNavGrid
  import opened WbFfCost
  import FF = WbFfField
  import NF = WbNavFlow

  // ---------------------------------------------------------------------
  // The terrain the search reads
  // ---------------------------------------------------------------------

  /** What `build` reads of the cost field: its costs and its size. */
  datatype Terrain = Terrain(costs: seq<Cost>, size: nat)

  /**
   * The costs fill the square field, and the field has fewer than `2^63`
   * cells, as every `Vec` of non-zero-sized values does.
   */
  predicate TerrainValid(t: Terrain) {
    |t.costs| == t.size * t.size && t.size * t.size < ISIZE_LIMIT
  }

  /** `cost_field[cell]`. */
  function CostAt(t: Terrain, c: Cell): Cost
    requires TerrainValid(t) && InBounds(c, t.size, t.size)
  {
    At(t.costs, c, t.size, t.size)
  }

  /** The `not_blocked` closure: traversable or occupied. */
  predicate NotBlocked(t: Terrain, c: Cell)
    requires TerrainValid(t) && InBounds(c, t.size, t.size)
  {
    CostAt(t, c).Traversable? || CostAt(t, c).Occupied?
  }

  // ---------------------------------------------------------------------
  // The neighbours `build` processes
  // ---------------------------------------------------------------------

  /** The direction from `c` to a diagonal neighbour `n` names the two axes it moves along. */
  lemma DiagonalGeometry(c: Cell, n: Cell, size: nat)
    requires InBounds(c, size, size) && InBounds(n, size, size) && size * size < ISIZE_LIMIT
    requires NF.IsDiagonalStep(c, n)
    ensures var d := DirectionTo(c, n);
            (d == NorthEast || d == NorthWest <==> n.y + 1 == c.y) &&
            (d == SouthEast || d == SouthWest <==> n.y == c.y + 1) &&
            (d == NorthEast || d == SouthEast <==> n.x == c.x + 1) &&
            (d == NorthWest || d == SouthWest <==> n.x + 1 == c.x)
  {
    NF.CellOfSmallField(c, size, size);
    NF.CellOfSmallField(n, size, size);
    AsIsizeExact(c.x);
    AsIsizeExact(c.y);
    AsIsizeExact(n.x);
    AsIsizeExact(n.y);
  }

  /**
   * The `check_traversable` closure: the unchecked step from `c` in
   * direction `d` lands in the field, on a traversable cell.
   */
  predicate CheckTraversable(t: Terrain, c: Cell, d: Direction)
    requires TerrainValid(t) && FF.AtDirectionDefined(c, d)
  {
    var m := FF.AtDirection(c, d);
    InBounds(m, t.size, t.size) && CostAt(t, m).Traversable?
  }

  /**
   * The `valid` test of the diagonal loop: both orthogonal steps towards
   * the diagonal neighbour `n` reach traversable cells.
   */
  predicate DiagonalValid(t: Terrain, c: Cell, n: Cell)
    requires TerrainValid(t) && InBounds(c, t.size, t.size) && InBounds(n, t.size, t.size)
    requires NF.IsDiagonalStep(c, n)
  {
    DiagonalGeometry(c, n, t.size);
    match DirectionTo(c, n)
    case NorthEast => CheckTraversable(t, c, North) && CheckTraversable(t, c, East)
    case SouthEast => CheckTraversable(t, c, South) && CheckTraversable(t, c, East)
    case SouthWest => CheckTraversable(t, c, South) && CheckTraversable(t, c, West)
    case NorthWest => CheckTraversable(t, c, North) && CheckTraversable(t, c, West)
    case _ => false
  }

  /**
   * A diagonal step is taken exactly when the two cells beside it, which
   * always lie in the field, are both traversable: an occupied cell beside
   * the step stops it just as a blocked one does.
   */
  lemma DiagonalValidExactly(t: Terrain, c: Cell, n: Cell)
    requires TerrainValid(t) && InBounds(c, t.size, t.size) && InBounds(n, t.size, t.size)
    requires NF.IsDiagonalStep(c, n)
    ensures InBounds(Cell(c.x, n.y), t.size, t.size) && InBounds(Cell(n.x, c.y), t.size, t.size)
    ensures DiagonalValid(t, c, n) <==>
              CostAt(t, Cell(c.x, n.y)) == Traversable && CostAt(t, Cell(n.x, c.y)) == Traversable
  {
    DiagonalGeometry(c, n, t.size);
  }

  /**
   * The `filter` of both neighbour loops, and for diagonal ones the `valid`
   * test: keeps, in order, the cells of `ns` of which `c` or the cell
   * itself is not blocked.
   */
  function Kept(t: Terrain, c: Cell, ns: seq<Cell>, diagonal: bool): (r: seq<Cell>)
    requires TerrainValid(t) && InBounds(c, t.size, t.size)
    requires forall n :: n in ns ==> InBounds(n, t.size, t.size) && (diagonal ==> NF.IsDiagonalStep(c, n))
    ensures forall n :: n in r <==>
              n in ns && (NotBlocked(t, c) || NotBlocked(t, n)) && (diagonal ==> DiagonalValid(t, c, n))
  {
    if ns == [] then []
    else
      var rest := Kept(t, c, ns[1..], diagonal);
      assert forall n :: n in ns <==> n == ns[0] || n in ns[1..];
      var n := ns[0];
      if (NotBlocked(t, c) || NotBlocked(t, n)) && (diagonal ==> DiagonalValid(t, c, n)) then [n] + rest
      else rest
  }

  /** The first loop's cells: the adjacent cells in the field that pass the filter. */
  function AdjacentTo(t: Terrain, c: Cell): (r: seq<Cell>)
    requires TerrainValid(t) && InBounds(c, t.size, t.size)
    ensures forall n :: n in r <==>
              InBounds(n, t.size, t.size) && Manhattan(c, n) == 1 && (NotBlocked(t, c) || NotBlocked(t, n))
  {
    var adjacent := FilterValid(FF.CellAdjacent(c), t.size, t.size);
    NF.CellOfSmallField(c, t.size, t.size);
    assert forall n :: n in adjacent <==> InBounds(n, t.size, t.size) && Manhattan(c, n) == 1 by {
      forall n ensures n in adjacent <==> InBounds(n, t.size, t.size) && Manhattan(c, n) == 1 {
        if InBounds(n, t.size, t.size) {
          NF.CellOfSmallField(n, t.size, t.size);
          FF.CellNeighborsExactly(c, n);
        }
      }
    }
    Kept(t, c, adjacent, false)
  }

  /** The second loop's cells: the diagonal cells in the field that pass the filter and are valid. */
  function DiagonalTo(t: Terrain, c: Cell): (r: seq<Cell>)
    requires TerrainValid(t) && InBounds(c, t.size, t.size)
    ensures forall n :: n in r ==> InBounds(n, t.size, t.size) && NF.IsDiagonalStep(c, n)
    ensures forall n :: n in r <==>
              InBounds(n, t.size, t.size) && NF.IsDiagonalStep(c, n) &&
              (NotBlocked(t, c) || NotBlocked(t, n)) && DiagonalValid(t, c, n)
  {
    var diagonal := FilterValid(FF.CellDiagonal(c), t.size, t.size);
    NF.CellOfSmallField(c, t.size, t.size);
    assert forall n :: n in diagonal <==> InBounds(n, t.size, t.size) && NF.IsDiagonalStep(c, n) by {
      forall n ensures n in diagonal <==> InBounds(n, t.size, t.size) && NF.IsDiagonalStep(c, n) {
        if InBounds(n, t.size, t.size) {
          NF.CellOfSmallField(n, t.size, t.size);
          FF.CellNeighborsExactly(c, n);
        }
      }
    }
    Kept(t, c, diagonal, true)
  }

  /**
   * The cells `build` processes from a popped cell `c`, in order: the
   * adjacent ones, then the valid diagonal ones, each time only where `c`
   * or the neighbour is not blocked. Each is one or two steps away.
   */
  function Considered(t: Terrain, c: Cell): (r: seq<Cell>)
    requires TerrainValid(t) && InBounds(c, t.size, t.size)
    ensures forall n :: n in r ==> InBounds(n, t.size, t.size) && 1 <= Manhattan(c, n) <= 2
    ensures forall n :: n in r <==>
              InBounds(n, t.size, t.size) && (NotBlocked(t, c) || NotBlocked(t, n)) &&
              (Manhattan(c, n) == 1 || (NF.IsDiagonalStep(c, n) && DiagonalValid(t, c, n)))
  {
    var diagonal := DiagonalTo(t, c);
    NF.CellOfSmallField(c, t.size, t.size);
    assert forall n :: n in diagonal ==> Manhattan(c, n) == 2 by {
      forall n | n in diagonal ensures Manhattan(c, n) == 2 {
        NF.CellOfSmallField(n, t.size, t.size);
        DistancesAgree(c, n);
      }
    }
    assert forall n :: NF.IsDiagonalStep(c, n) && IsizeSafe(n) ==> Manhattan(c, n) != 1 by {
      forall n | NF.IsDiagonalStep(c, n) && IsizeSafe(n) ensures Manhattan(c, n) != 1 {
        DistancesAgree(c, n);
      }
    }
    AdjacentTo(t, c) + diagonal
  }

  /** `Considered` is the adjacent cells followed by the diagonal ones, each in the field. */
  lemma ConsideredParts(t: Terrain, c: Cell)
    requires TerrainValid(t) && InBounds(c, t.size, t.size)
    ensures Considered(t, c) == AdjacentTo(t, c) + DiagonalTo(t, c)
    ensures forall n :: n in AdjacentTo(t, c) ==> InBounds(n, t.size, t.size) && n in Considered(t, c)
    ensures forall n :: n in DiagonalTo(t, c) ==> InBounds(n, t.size, t.size) && n in Considered(t, c)
  {
  }

  /** From a processed neighbour, `direction(cell)` and the unchecked step lead back to the cell. */
  lemma StepBack(t: Terrain, c: Cell, n: Cell)
    requires TerrainValid(t) && InBounds(c, t.size, t.size) && n in Considered(t, c)
    ensures var d := DirectionTo(n, c);
            d != Direction.None && FF.AtDirectionDefined(n, d) && FF.AtDirection(n, d) == c
  {
    NF.CellOfSmallField(c, t.size, t.size);
    NF.CellOfSmallField(n, t.size, t.size);
    DistancesAgree(c, n);
    StepBetween(n, c);
  }

  /**
   * Between distinct cells at most one step apart on each axis,
   * `direction` names the step and `at_direction` takes it.
   */
  lemma StepBetween(n: Cell, c: Cell)
    requires IsizeSafe(n) && IsizeSafe(c) && n != c && AbsDiff(n.x, c.x) <= 1 && AbsDiff(n.y, c.y) <= 1
    ensures var d := DirectionTo(n, c);
            d != Direction.None && FF.AtDirectionDefined(n, d) && FF.AtDirection(n, d) == c
  {
    AsIsizeExact(c.x);
    AsIsizeExact(c.y);
    AsIsizeExact(n.x);
    AsIsizeExact(n.y);
    var d := DirectionTo(n, c);
    if c.y < n.y {
      if c.x < n.x {
        assert d == NorthWest;
      } else if c.x == n.x {
        assert d == North;
      } else {
        assert d == NorthEast;
      }
    } else if c.y == n.y {
      if c.x < n.x {
        assert d == West;
      } else {
        assert d == East;
      }
    } else {
      if c.x < n.x {
        assert d == SouthWest;
      } else if c.x == n.x {
        assert d == South;
      } else {
        assert d == SouthEast;
      }
    }
  }

  // ---------------------------------------------------------------------
  // The `update` closure
  // ---------------------------------------------------------------------

  /** `OCCUPIED_MODIFIER`. */
  const OCCUPIED_MODIFIER: nat := 100

  /** `distance_scaled(n, OCCUPIED_MODIFIER) as u16`: the float-to-integer cast saturates. */
  function ScaledStep(m: nat): NF.U16 {
    if m * OCCUPIED_MODIFIER > NF.U16_MAX then NF.U16_MAX else m * OCCUPIED_MODIFIER
  }

  /**
   * The `cost` the `update` closure computes for neighbour `n` of the
   * popped cell `c` from the distances `D`.
   */
  function Candidate(t: Terrain, D: seq<NF.U16>, c: Cell, n: Cell): NF.U16
    requires TerrainValid(t) && |D| == t.size * t.size
    requires InBounds(c, t.size, t.size) && InBounds(n, t.size, t.size)
  {
    match CostAt(t, n)
    case Traversable => NF.SatAdd(At(D, c, t.size, t.size), Manhattan(c, n) % 65536)
    case Occupied => NF.SatAdd(At(D, c, t.size, t.size), ScaledStep(Manhattan(c, n)))
    case Blocked => NF.U16_MAX
  }

  /**
   * For a processed neighbour the cost is the cell's distance plus the
   * step (one or two), or plus a hundred times the step for an occupied
   * neighbour, saturating at `u16::MAX`; a blocked neighbour gets
   * `u16::MAX`. It is never zero, and it is above the cell's distance
   * unless that is `u16::MAX` already.
   */
  lemma CandidateFacts(t: Terrain, D: seq<NF.U16>, c: Cell, n: Cell)
    requires TerrainValid(t) && |D| == t.size * t.size && InBounds(c, t.size, t.size)
    requires n in Considered(t, c)
    ensures var d, m := At(D, c, t.size, t.size), Manhattan(c, n);
            (CostAt(t, n) == Traversable ==>
               Candidate(t, D, c, n) == if d + m <= NF.U16_MAX then d + m else NF.U16_MAX) &&
            (CostAt(t, n) == Occupied ==>
               Candidate(t, D, c, n) == if d + 100 * m <= NF.U16_MAX then d + 100 * m else NF.U16_MAX) &&
            (CostAt(t, n) == Blocked ==> Candidate(t, D, c, n) == NF.U16_MAX) &&
            Candidate(t, D, c, n) >= 1 &&
            (d < NF.U16_MAX ==> d < Candidate(t, D, c, n))
  {
    var m := Manhattan(c, n);
    assert 1 <= m <= 2;
    StepSums(At(D, c, t.size, t.size), m);
  }

  /** The saturating sums of a distance and a step of one or two, plain or scaled. */
  lemma StepSums(d: NF.U16, m: nat)
    requires 1 <= m <= 2
    ensures NF.SatAdd(d, m % 65536) == if d + m <= NF.U16_MAX then d + m else NF.U16_MAX
    ensures NF.SatAdd(d, ScaledStep(m)) == if d + 100 * m <= NF.U16_MAX then d + 100 * m else NF.U16_MAX
  {
    if m == 1 {
      assert m % 65536 == 1 && ScaledStep(m) == 100;
    } else {
      assert m % 65536 == 2 && ScaledStep(m) == 200;
    }
  }

  /**
   * `update(n, not_blocked)` would change `n`'s distance: the cost is
   * strictly below it for a cell that is not blocked, and a blocked cell's
   * distance is overwritten with `u16::MAX`.
   */
  predicate Improves(t: Terrain, D: seq<NF.U16>, c: Cell, n: Cell)
    requires TerrainValid(t) && |D| == t.size * t.size
    requires InBounds(c, t.size, t.size) && InBounds(n, t.size, t.size)
  {
    if NotBlocked(t, n) then Candidate(t, D, c, n) < At(D, n, t.size, t.size)
    else At(D, n, t.size, t.size) != NF.U16_MAX
  }

  /** No neighbour `build` processes from `c` would change. */
  ghost predicate Settled(t: Terrain, D: seq<NF.U16>, c: Cell)
    requires TerrainValid(t) && |D| == t.size * t.size && InBounds(c, t.size, t.size)
  {
    forall n :: n in Considered(t, c) ==> !Improves(t, D, c, n)
  }

  /**
   * Settledness is the triangle inequality of the search: a processed
   * neighbour that is not blocked is no farther than the cost through `c`,
   * and a blocked one carries `u16::MAX`.
   */
  lemma SettledIsTriangleInequality(t: Terrain, D: seq<NF.U16>, c: Cell, n: Cell)
    requires TerrainValid(t) && |D| == t.size * t.size && InBounds(c, t.size, t.size)
    requires Settled(t, D, c) && n in Considered(t, c)
    ensures NotBlocked(t, n) ==> At(D, n, t.size, t.size) <= Candidate(t, D, c, n)
    ensures !NotBlocked(t, n) ==> At(D, n, t.size, t.size) == NF.U16_MAX
  {
    assert !Improves(t, D, c, n);
  }

  /** The sum of the distances of the cells that are not blocked: every lowering decreases it. */
  function SumFree(costs: seq<Cost>, D: seq<NF.U16>): nat
    requires |costs| == |D|
  {
    if D == [] then 0 else (if costs[0] == Blocked then 0 else D[0]) + SumFree(costs[1..], D[1..])
  }

  /** Rewriting one distance changes the sum by the difference, unless the cell is blocked. */
  lemma {:induction false} SumFreeUpdate(costs: seq<Cost>, D: seq<NF.U16>, i: nat, v: NF.U16)
    requires |costs| == |D| && i < |D|
    ensures SumFree(costs, D[i := v]) + (if costs[i] == Blocked then 0 else D[i]) ==
            SumFree(costs, D) + (if costs[i] == Blocked then 0 else v)
  {
    if i > 0 {
      SumFreeUpdate(costs[1..], D[1..], i - 1, v);
      assert D[i := v][1..] == D[1..][i - 1 := v];
    } else {
      assert D[i := v][1..] == D[1..];
    }
  }

  // ---------------------------------------------------------------------
  // What the directions record
  // ---------------------------------------------------------------------

  /**
   * The direction of a cell `n` of finite distance explains that
   * distance: either `n` is a goal at distance zero with no direction, or
   * it is not blocked, at a positive distance, and its direction steps to
   * a cell `p` that processes `n` and through which that distance is
   * reached (unless `p` is a blocked goal, whose own distance has since
   * been overwritten).
   */
  ghost predicate FlowEdge(t: Terrain, goals: seq<Cell>, D: seq<NF.U16>, F: seq<Direction>, n: Cell)
    requires TerrainValid(t) && |D| == t.size * t.size && |F| == t.size * t.size
    requires InBounds(n, t.size, t.size)
  {
    var d := At(F, n, t.size, t.size);
    At(D, n, t.size, t.size) < NF.U16_MAX ==>
      (n in goals && At(D, n, t.size, t.size) == 0 && d == Direction.None) ||
      (At(D, n, t.size, t.size) > 0 && NotBlocked(t, n) && d != Direction.None && FF.AtDirectionDefined(n, d) &&
       var p := FF.AtDirection(n, d);
       InBounds(p, t.size, t.size) && n in Considered(t, p) &&
       (CostAt(t, p) == Blocked || At(D, n, t.size, t.size) >= Candidate(t, D, p, n)))
  }

  /** Every cell's direction explains its distance. */
  ghost predicate FlowEdges(t: Terrain, goals: seq<Cell>, D: seq<NF.U16>, F: seq<Direction>)
    requires TerrainValid(t) && |D| == t.size * t.size && |F| == t.size * t.size
  {
    forall c {:trigger FlowEdge(t, goals, D, F, c)} :: InBounds(c, t.size, t.size) ==> FlowEdge(t, goals, D, F, c)
  }

  /** Every goal in the field that is not blocked is at distance zero with no direction. */
  ghost predicate GoalsHeld(t: Terrain, goals: seq<Cell>, D: seq<NF.U16>, F: seq<Direction>)
    requires TerrainValid(t) && |D| == t.size * t.size && |F| == t.size * t.size
  {
    forall g :: g in goals && InBounds(g, t.size, t.size) && NotBlocked(t, g) ==>
      At(D, g, t.size, t.size) == 0 && At(F, g, t.size, t.size) == Direction.None
  }

  /**
   * Once every cell of finite distance is settled, each direction of a
   * cell at a finite positive distance points at a cell that processes it;
   * when that cell is not blocked, the distance is exactly the cost
   * through it, and it is strictly closer to a goal. Distance zero is held
   * by goals alone.
   */
  lemma FlowDescends(t: Terrain, goals: seq<Cell>, D: seq<NF.U16>, F: seq<Direction>, n: Cell)
    requires TerrainValid(t) && |D| == t.size * t.size && |F| == t.size * t.size
    requires InBounds(n, t.size, t.size) && At(D, n, t.size, t.size) < NF.U16_MAX
    requires FlowEdges(t, goals, D, F)
    requires forall c :: InBounds(c, t.size, t.size) && At(D, c, t.size, t.size) < NF.U16_MAX ==> Settled(t, D, c)
    ensures At(D, n, t.size, t.size) == 0 ==> n in goals && At(F, n, t.size, t.size) == Direction.None
    ensures At(D, n, t.size, t.size) > 0 ==>
              var d := At(F, n, t.size, t.size);
              NotBlocked(t, n) && d != Direction.None && FF.AtDirectionDefined(n, d) &&
              var p := FF.AtDirection(n, d);
              InBounds(p, t.size, t.size) && n in Considered(t, p) &&
              (NotBlocked(t, p) ==>
                 At(D, n, t.size, t.size) == Candidate(t, D, p, n) &&
                 At(D, p, t.size, t.size) < At(D, n, t.size, t.size))
  {
    assert FlowEdge(t, goals, D, F, n);
    if At(D, n, t.size, t.size) > 0 {
      var p := FF.AtDirection(n, At(F, n, t.size, t.size));
      if NotBlocked(t, p) {
        CandidateFacts(t, D, p, n);
        SettledIsTriangleInequality(t, D, p, n);
      }
    }
  }

  // ---------------------------------------------------------------------
  // One write of the `update` closure
  // ---------------------------------------------------------------------

  /**
   * Rewriting the distance of a cell `n` other than `c`, lowering it when
   * `n` is not blocked and setting `u16::MAX` when it is, cannot make a
   * move out of `c` change anything again.
   */
  lemma NotImprovesAfterWrite(t: Terrain, D: seq<NF.U16>, c: Cell, m: Cell, n: Cell, v: NF.U16)
    requires TerrainValid(t) && |D| == t.size * t.size
    requires InBounds(c, t.size, t.size) && InBounds(m, t.size, t.size) && InBounds(n, t.size, t.size)
    requires c != n
    requires NotBlocked(t, n) ==> v <= At(D, n, t.size, t.size)
    requires !NotBlocked(t, n) ==> v == NF.U16_MAX
    requires !Improves(t, D, c, m)
    ensures !Improves(t, Put(D, n, v, t.size, t.size), c, m)
  {
    AtPut(D, n, v, c, t.size, t.size);
    AtPut(D, n, v, m, t.size, t.size);
  }

  /**
   * After the write to `n` from `cell`, that move changes nothing more, no
   * move out of `cell` that changed nothing starts to, and every other
   * settled cell stays settled.
   */
  lemma SettledByWrite(t: Terrain, D: seq<NF.U16>, cell: Cell, n: Cell, v: NF.U16)
    requires TerrainValid(t) && |D| == t.size * t.size
    requires InBounds(cell, t.size, t.size) && n in Considered(t, cell)
    requires v == Candidate(t, D, cell, n)
    requires NotBlocked(t, n) ==> v < At(D, n, t.size, t.size)
    ensures !Improves(t, Put(D, n, v, t.size, t.size), cell, n)
    ensures forall m :: InBounds(m, t.size, t.size) && !Improves(t, D, cell, m) ==>
              !Improves(t, Put(D, n, v, t.size, t.size), cell, m)
    ensures forall c :: InBounds(c, t.size, t.size) && c != n && Settled(t, D, c) ==>
              Settled(t, Put(D, n, v, t.size, t.size), c)
  {
    var s := t.size;
    var D1 := Put(D, n, v, s, s);
    assert cell != n;
    AtPut(D, n, v, cell, s, s);
    AtPut(D, n, v, n, s, s);
    forall m | InBounds(m, s, s) && !Improves(t, D, cell, m) ensures !Improves(t, D1, cell, m) {
      NotImprovesAfterWrite(t, D, cell, m, n, v);
    }
    forall c | InBounds(c, s, s) && c != n && Settled(t, D, c) ensures Settled(t, D1, c) {
      forall m | m in Considered(t, c) ensures !Improves(t, D1, c, m) {
        NotImprovesAfterWrite(t, D, c, m, n, v);
      }
    }
  }

  /** Rewriting a cell other than `m` in the way `update` does keeps `m`'s direction explaining its distance. */
  lemma FlowEdgeAfterWrite(t: Terrain, goals: seq<Cell>, D: seq<NF.U16>, F: seq<Direction>, m: Cell, n: Cell,
                           v: NF.U16, d: Direction)
    requires TerrainValid(t) && |D| == t.size * t.size && |F| == t.size * t.size
    requires InBounds(m, t.size, t.size) && InBounds(n, t.size, t.size) && m != n
    requires NotBlocked(t, n) ==> v <= At(D, n, t.size, t.size)
    requires FlowEdge(t, goals, D, F, m)
    ensures FlowEdge(t, goals, Put(D, n, v, t.size, t.size), Put(F, n, d, t.size, t.size), m)
  {
    var s := t.size;
    var D1 := Put(D, n, v, s, s);
    AtPut(D, n, v, m, s, s);
    AtPut(F, n, d, m, s, s);
    var e := At(F, m, s, s);
    if At(D, m, s, s) < NF.U16_MAX && !(m in goals && At(D, m, s, s) == 0 && e == Direction.None) {
      assert At(D, m, s, s) > 0 && NotBlocked(t, m) && e != Direction.None && FF.AtDirectionDefined(m, e);
      var p := FF.AtDirection(m, e);
      assert InBounds(p, s, s) && m in Considered(t, p);
      if NotBlocked(t, p) {
        AtPut(D, n, v, p, s, s);
        CandidateMonotone(t, D, D1, p, m);
      }
    }
  }

  /** A lower distance at the popped cell never raises the cost it offers. */
  lemma CandidateMonotone(t: Terrain, D: seq<NF.U16>, D1: seq<NF.U16>, c: Cell, n: Cell)
    requires TerrainValid(t) && |D| == t.size * t.size && |D1| == t.size * t.size
    requires InBounds(c, t.size, t.size) && InBounds(n, t.size, t.size)
    requires At(D1, c, t.size, t.size) <= At(D, c, t.size, t.size)
    ensures Candidate(t, D1, c, n) <= Candidate(t, D, c, n)
  {
  }

  /** The written cell's new direction explains its new distance. */
  lemma FlowEdgeOfWritten(t: Terrain, goals: seq<Cell>, D: seq<NF.U16>, F: seq<Direction>, cell: Cell, n: Cell,
                          v: NF.U16)
    requires TerrainValid(t) && |D| == t.size * t.size && |F| == t.size * t.size
    requires InBounds(cell, t.size, t.size) && n in Considered(t, cell)
    requires v == Candidate(t, D, cell, n)
    ensures FlowEdge(t, goals, Put(D, n, v, t.size, t.size), Put(F, n, DirectionTo(n, cell), t.size, t.size), n)
  {
    var s := t.size;
    var back := DirectionTo(n, cell);
    CandidateFacts(t, D, cell, n);
    StepBack(t, cell, n);
    assert cell != n;
    AtPut(D, n, v, cell, s, s);
    AtPut(D, n, v, n, s, s);
    AtPut(F, n, back, n, s, s);
  }

  /**
   * A write of the `update` closure keeps every direction explaining its
   * distance and every goal that is not blocked at zero.
   */
  lemma InvariantsByWrite(t: Terrain, goals: seq<Cell>, D: seq<NF.U16>, F: seq<Direction>, cell: Cell, n: Cell,
                          v: NF.U16)
    requires TerrainValid(t) && |D| == t.size * t.size && |F| == t.size * t.size
    requires InBounds(cell, t.size, t.size) && n in Considered(t, cell)
    requires v == Candidate(t, D, cell, n)
    requires NotBlocked(t, n) ==> v < At(D, n, t.size, t.size)
    requires FlowEdges(t, goals, D, F) && GoalsHeld(t, goals, D, F)
    ensures FlowEdges(t, goals, Put(D, n, v, t.size, t.size), Put(F, n, DirectionTo(n, cell), t.size, t.size))
    ensures GoalsHeld(t, goals, Put(D, n, v, t.size, t.size), Put(F, n, DirectionTo(n, cell), t.size, t.size))
  {
    var s := t.size;
    var back := DirectionTo(n, cell);
    var D1, F1 := Put(D, n, v, s, s), Put(F, n, back, s, s);
    forall c | InBounds(c, s, s) ensures FlowEdge(t, goals, D1, F1, c) {
      if c != n {
        FlowEdgeAfterWrite(t, goals, D, F, c, n, v, back);
      } else {
        FlowEdgeOfWritten(t, goals, D, F, cell, n, v);
      }
    }
    forall g | g in goals && InBounds(g, s, s) && NotBlocked(t, g)
      ensures At(D1, g, s, s) == 0 && At(F1, g, s, s) == Direction.None
    {
      AtPut(D, n, v, g, s, s);
      AtPut(F, n, back, g, s, s);
    }
  }

  /**
   * The direction of a blocked cell `n` is `None`, or steps to a cell of
   * the field that processes `n`: the popped cell whose `update` wrote it.
   */
  ghost predicate BlockedEdge(t: Terrain, F: seq<Direction>, n: Cell)
    requires TerrainValid(t) && |F| == t.size * t.size && InBounds(n, t.size, t.size)
  {
    var d := At(F, n, t.size, t.size);
    d == Direction.None ||
    (FF.AtDirectionDefined(n, d) &&
     var p := FF.AtDirection(n, d);
     InBounds(p, t.size, t.size) && n in Considered(t, p))
  }

  /** Every blocked cell of the field has a `BlockedEdge` direction. */
  ghost predicate BlockedFlow(t: Terrain, F: seq<Direction>)
    requires TerrainValid(t) && |F| == t.size * t.size
  {
    forall n {:trigger BlockedEdge(t, F, n)} :: InBounds(n, t.size, t.size) && !NotBlocked(t, n) ==>
      BlockedEdge(t, F, n)
  }

  /**
   * The write of `update` from the popped `cell`, which points `n` back at
   * `cell`, keeps every blocked cell's direction `None` or stepping to a
   * cell that processes it.
   */
  lemma BlockedFlowByWrite(t: Terrain, F: seq<Direction>, cell: Cell, n: Cell)
    requires TerrainValid(t) && |F| == t.size * t.size
    requires InBounds(cell, t.size, t.size) && n in Considered(t, cell)
    requires BlockedFlow(t, F)
    ensures BlockedFlow(t, Put(F, n, DirectionTo(n, cell), t.size, t.size))
  {
    var s := t.size;
    var back := DirectionTo(n, cell);
    var F1 := Put(F, n, back, s, s);
    forall m | InBounds(m, s, s) && !NotBlocked(t, m) ensures BlockedEdge(t, F1, m) {
      AtPut(F, n, back, m, s, s);
      if m == n {
        StepBack(t, cell, n);
      } else {
        assert BlockedEdge(t, F, m);
      }
    }
  }

  /**
   * When a step keeps every move from `cell` that changed nothing that
   * way and leaves the move to `ns[k]` changing nothing, the first `k + 1`
   * moves of `ns` change nothing.
   */
  lemma PrefixCleared(t: Terrain, D1: seq<NF.U16>, D2: seq<NF.U16>, cell: Cell, ns: seq<Cell>, k: nat)
    requires TerrainValid(t) && |D1| == t.size * t.size && |D2| == t.size * t.size
    requires InBounds(cell, t.size, t.size) && k < |ns|
    requires forall n :: n in ns ==> InBounds(n, t.size, t.size)
    requires forall j :: 0 <= j < k ==> !Improves(t, D1, cell, ns[j])
    requires forall m :: InBounds(m, t.size, t.size) && !Improves(t, D1, cell, m) ==> !Improves(t, D2, cell, m)
    requires !Improves(t, D2, cell, ns[k])
    ensures forall j :: 0 <= j < k + 1 ==> !Improves(t, D2, cell, ns[j])
  {
    forall j | 0 <= j < k + 1 ensures !Improves(t, D2, cell, ns[j]) {
      assert ns[j] in ns;
    }
  }

  // ---------------------------------------------------------------------
  // PriorityQueue
  // ---------------------------------------------------------------------

  /** A queue entry, `(cost, cell)`. */
  type Entry = (NF.U16, Cell)

  /**
   * The order `BinaryHeap<Reverse<(u16, Cell)>>` pops by, the smallest
   * first: by cost, then by cell.
   */
  predicate EntryLe(a: Entry, b: Entry) {
    a.0 < b.0 || (a.0 == b.0 && NF.CellLe(a.1, b.1))
  }

  /** The entry order is a total preorder. */
  lemma EntryOrder(a: Entry, b: Entry, c: Entry)
    ensures EntryLe(a, b) || EntryLe(b, a)
    ensures EntryLe(a, b) && EntryLe(b, c) ==> EntryLe(a, c)
  {
  }

  /**
   * `PriorityQueue`: the binary heap, as the sequence of its entries, and
   * the `contains` field over the flow field's cells.
   */
  class PriorityQueue {
    var entries: seq<Entry>
    const contains: FF.Field<bool>

    /** Some entry of the queue is for `c`. */
    ghost predicate InHeap(c: Cell)
      reads this
    {
      exists k :: 0 <= k < |entries| && entries[k].1 == c
    }

    /** Every entry is for a cell of the field, and a set bit means the cell has an entry. */
    ghost predicate Valid()
      reads this, contains
    {
      contains.Valid() &&
      (forall k :: 0 <= k < |entries| ==> InBounds(entries[k].1, contains.size, contains.size)) &&
      (forall c :: (InBounds(c, contains.size, contains.size) &&
                    At(contains.data, c, contains.size, contains.size)) ==> InHeap(c))
    }

    /** `PriorityQueue::new`: no entries, and a cleared `size x size` field. */
    constructor (size: nat)
      ensures Valid() && fresh(contains)
      ensures entries == [] && contains.size == size && contains.data == seq(size * size, _ => false)
    {
      entries := [];
      contains := new FF.Field(size, seq(size * size, _ => false));
      new;
      forall c | InBounds(c, size, size) ensures !At(contains.data, c, size, size) {
        IndexInRange(c, size, size);
      }
    }

    /** `PriorityQueue::new` in place, as `resize` replaces the queue. */
    method Renew(size: nat)
      modifies this, contains
      ensures Valid()
      ensures entries == [] && contains.size == size && contains.data == seq(size * size, _ => false)
    {
      entries := [];
      contains.size := size;
      contains.data := seq(size * size, _ => false);
      forall c | InBounds(c, size, size) ensures !At(contains.data, c, size, size) {
        IndexInRange(c, size, size);
      }
    }

    /** `PriorityQueue::contains`: the bit of a cell of the field; a set bit means the cell is queued. */
    function Contains(c: Cell): (b: bool)
      reads this, contains
      requires Valid() && InBounds(c, contains.size, contains.size)
      ensures b == At(contains.data, c, contains.size, contains.size)
      ensures b ==> InHeap(c)
    {
      IndexInRange(c, contains.size, contains.size);
      contains.data[Index(c, contains.size)]
    }

    /** `PriorityQueue::push`: adds the entry and sets the cell's bit. */
    method Push(cell: Cell, cost: NF.U16)
      requires Valid() && InBounds(cell, contains.size, contains.size)
      modifies this, contains
      ensures Valid() && contains.size == old(contains.size)
      ensures entries == old(entries) + [(cost, cell)]
      ensures contains.data == Put(old(contains.data), cell, true, contains.size, contains.size)
      ensures InHeap(cell) && forall c :: old(InHeap(c)) ==> InHeap(c)
    {
      ghost var before := entries;
      ghost var bits := contains.data;
      var s := contains.size;
      entries := entries + [(cost, cell)];
      IndexInRange(cell, s, s);
      contains.Set(cell, true);
      assert entries[|entries| - 1].1 == cell;
      forall c | old(InHeap(c)) ensures InHeap(c) {
        var k :| 0 <= k < |before| && before[k].1 == c;
        assert entries[k] == before[k];
      }
      forall c | InBounds(c, s, s) && At(contains.data, c, s, s) ensures InHeap(c) {
        AtPut(bits, cell, true, c, s, s);
        if c != cell {
          var k :| 0 <= k < |before| && before[k].1 == c;
          assert entries[k] == before[k];
        }
      }
    }

    /** The position of a smallest entry: the choice `BinaryHeap::pop` makes. */
    method MinPosition() returns (best: nat)
      requires entries != []
      ensures best < |entries|
      ensures forall j :: 0 <= j < |entries| ==> EntryLe(entries[best], entries[j])
    {
      best := 0;
      var k := 1;
      while k < |entries|
        invariant 0 <= best < k <= |entries|
        invariant forall j :: 0 <= j < k ==> EntryLe(entries[best], entries[j])
      {
        if !EntryLe(entries[best], entries[k]) {
          forall j | 0 <= j < k ensures EntryLe(entries[k], entries[j]) {
            EntryOrder(entries[k], entries[best], entries[j]);
          }
          best := k;
        }
        k := k + 1;
      }
    }

    /**
     * `PriorityQueue::pop`: removes and returns a smallest entry and clears
     * its cell's bit; `None` when the queue is empty.
     */
    method Pop() returns (r: Option<(Cell, NF.U16)>)
      requires Valid()
      modifies this, contains
      ensures Valid() && contains.size == old(contains.size)
      ensures r.None? <==> old(entries) == []
      ensures r.None? ==> entries == old(entries) && contains.data == old(contains.data)
      ensures r.Some? ==> (r.value.1, r.value.0) in old(entries) && InBounds(r.value.0, contains.size, contains.size)
      ensures r.Some? ==> forall e :: e in old(entries) ==> EntryLe((r.value.1, r.value.0), e)
      ensures r.Some? ==> |entries| == |old(entries)| - 1 &&
                          multiset(entries) + multiset{(r.value.1, r.value.0)} == multiset(old(entries))
      ensures r.Some? ==> contains.data == Put(old(contains.data), r.value.0, false, contains.size, contains.size)
      ensures forall c :: InHeap(c) ==> old(InHeap(c))
      ensures r.Some? ==> forall c :: old(InHeap(c)) && c != r.value.0 ==> InHeap(c)
    {
      if entries == [] {
        return Option.None;
      }
      var best := MinPosition();
      ghost var before := entries;
      ghost var bits := contains.data;
      var s := contains.size;
      var (cost, cell) := entries[best];
      entries := NF.RemoveAt(entries, best);
      IndexInRange(cell, s, s);
      contains.Set(cell, false);
      r := Some((cell, cost));
      forall e | e in before ensures EntryLe((cost, cell), e) {
        var j :| 0 <= j < |before| && before[j] == e;
      }
      forall c | InHeap(c) ensures old(InHeap(c)) {
        var j :| 0 <= j < |entries| && entries[j].1 == c;
        assert before[if j < best then j else j + 1].1 == c;
      }
      forall c | old(InHeap(c)) && c != cell ensures InHeap(c) {
        var j :| 0 <= j < |before| && before[j].1 == c;
        assert entries[if j < best then j else j - 1].1 == c;
      }
      forall c | InBounds(c, s, s) && At(contains.data, c, s, s) ensures InHeap(c) {
        AtPut(bits, cell, false, c, s, s);
      }
    }

    /** `PriorityQueue::clear`: no entries and every bit cleared. */
    method Clear()
      requires Valid()
      modifies this, contains
      ensures Valid() && contains.size == old(contains.size)
      ensures entries == []
      ensures forall i :: 0 <= i < |contains.data| ==> !contains.data[i]
    {
      entries := [];
      var i := 0;
      while i < |contains.data|
        invariant entries == []
        invariant contains.Valid() && contains.size == old(contains.size)
        invariant 0 <= i <= |contains.data|
        invariant forall j :: 0 <= j < i ==> !contains.data[j]
      {
        contains.data := contains.data[i := false];
        i := i + 1;
      }
      forall c | InBounds(c, contains.size, contains.size)
        ensures !At(contains.data, c, contains.size, contains.size)
      {
        IndexInRange(c, contains.size, contains.size);
      }
    }
  }

  // ---------------------------------------------------------------------
  // FlowField
  // ---------------------------------------------------------------------

  /** `FlowField`: the directions, the priority queue and the distances. */
  class FlowField {
    const field: FF.Field<Direction>
    const pq: PriorityQueue
    const distance: FF.Field<NF.U16>

    /** The three grids are well formed and share one size. */
    ghost predicate Valid()
      reads this, field, distance, pq, pq.contains
    {
      field.Valid() && distance.Valid() && pq.Valid() &&
      field.size == distance.size && pq.contains.size == distance.size
    }

    /** The terrain `t` is a cost field of this flow field's size. */
    predicate Matches(t: Terrain)
      reads this, distance
    {
      TerrainValid(t) && t.size == distance.size
    }

    /** `FlowField::new`: no directions, every distance `u16::MAX`, an empty queue. */
    constructor (size: nat)
      ensures Valid() && distance.size == size
      ensures field.data == seq(size * size, _ => Direction.None)
      ensures distance.data == seq(size * size, _ => NF.U16_MAX)
      ensures pq.entries == []
      ensures fresh(field) && fresh(distance) && fresh(pq) && fresh(pq.contains)
    {
      field := new FF.Field(size, seq(size * size, _ => Direction.None));
      pq := new PriorityQueue(size);
      distance := new FF.Field(size, seq(size * size, _ => NF.U16_MAX));
    }

    /**
     * `FlowField::resize`: the directions are resized in place (the old
     * values keep their slots, new slots get `None`); the queue and the
     * distances start afresh at the new size.
     */
    method Resize(size: nat)
      requires Valid()
      modifies field, pq, pq.contains, distance
      ensures Valid() && distance.size == size
      ensures field.data == Resized(old(field.data), size * size, Direction.None)
      ensures distance.data == seq(size * size, _ => NF.U16_MAX)
      ensures pq.entries == [] && pq.contains.data == seq(size * size, _ => false)
    {
      field.Resize(size, Direction.None);
      pq.Renew(size);
      distance.size := size;
      distance.data := seq(size * size, _ => NF.U16_MAX);
    }

    /** The first loop of `build`: every distance back to `u16::MAX` and every direction to `None`. */
    method Reset()
      requires Valid()
      modifies field, distance
      ensures Valid() && distance.size == old(distance.size)
      ensures forall i :: 0 <= i < |distance.data| ==> distance.data[i] == NF.U16_MAX
      ensures forall i :: 0 <= i < |field.data| ==> field.data[i] == Direction.None
    {
      var i := 0;
      while i < |distance.data|
        invariant Valid() && distance.size == old(distance.size)
        invariant 0 <= i <= |distance.data|
        invariant forall j :: 0 <= j < i ==> distance.data[j] == NF.U16_MAX && field.data[j] == Direction.None
      {
        distance.data := distance.data[i := NF.U16_MAX];
        field.data := field.data[i := Direction.None];
        i := i + 1;
      }
    }

    /**
     * The goal loop of `build`: every goal in the field is pushed with cost
     * zero, gets distance zero and no direction; goals outside the field
     * are skipped.
     */
    method Seed(goals: seq<Cell>)
      requires Valid()
      modifies field, distance, pq, pq.contains
      ensures Valid() && distance.size == old(distance.size)
      ensures forall c :: InBounds(c, distance.size, distance.size) ==>
                At(distance.data, c, distance.size, distance.size) ==
                  if c in goals then 0 else old(At(distance.data, c, distance.size, distance.size))
      ensures forall c :: InBounds(c, distance.size, distance.size) ==>
                At(field.data, c, distance.size, distance.size) ==
                  if c in goals then Direction.None else old(At(field.data, c, distance.size, distance.size))
      ensures forall c :: InBounds(c, distance.size, distance.size) && c in goals ==> pq.InHeap(c)
      ensures forall c :: old(pq.InHeap(c)) ==> pq.InHeap(c)
    {
      var s := distance.size;
      ghost var D0, F0 := distance.data, field.data;
      var k := 0;
      while k < |goals|
        invariant Valid() && distance.size == s
        invariant 0 <= k <= |goals|
        invariant forall c :: InBounds(c, s, s) ==>
                    At(distance.data, c, s, s) == if c in goals[..k] then 0 else At(D0, c, s, s)
        invariant forall c :: InBounds(c, s, s) ==>
                    At(field.data, c, s, s) == if c in goals[..k] then Direction.None else At(F0, c, s, s)
        invariant forall c :: InBounds(c, s, s) && c in goals[..k] ==> pq.InHeap(c)
        invariant forall c :: old(pq.InHeap(c)) ==> pq.InHeap(c)
      {
        var goal := goals[k];
        assert goals[..k + 1] == goals[..k] + [goal];
        if InBounds(goal, s, s) {
          ghost var D1, F1 := distance.data, field.data;
          IndexInRange(goal, s, s);
          pq.Push(goal, 0);
          distance.Set(goal, 0);
          field.Set(goal, Direction.None);
          forall c | InBounds(c, s, s) ensures
            At(distance.data, c, s, s) == (if c in goals[..k + 1] then 0 else At(D0, c, s, s)) &&
            At(field.data, c, s, s) == (if c in goals[..k + 1] then Direction.None else At(F0, c, s, s))
          {
            AtPut(D1, goal, 0, c, s, s);
            AtPut(F1, goal, Direction.None, c, s, s);
          }
        }
        k := k + 1;
      }
      assert goals[..k] == goals;
    }

    /**
     * The `update` closure for the popped `cell` and one neighbour `n` it
     * processes: a blocked `n`, or one whose cost through `cell` is
     * strictly below its distance, takes that cost and points back at
     * `cell`; a cell that is not blocked is then pushed unless its bit is
     * set. Afterwards the move changes nothing more; every cell of finite
     * distance outside the queue stays settled, and the directions and
     * goals keep their invariants.
     */
    method Process(t: Terrain, ghost goals: seq<Cell>, cell: Cell, n: Cell)
      requires Valid() && Matches(t)
      requires InBounds(cell, t.size, t.size) && n in Considered(t, cell)
      requires FlowEdges(t, goals, distance.data, field.data) && GoalsHeld(t, goals, distance.data, field.data)
      requires BlockedFlow(t, field.data)
      requires forall c :: (InBounds(c, t.size, t.size) && c != cell && !pq.InHeap(c) &&
                  At(distance.data, c, t.size, t.size) < NF.U16_MAX) ==> Settled(t, distance.data, c)
      modifies field, distance, pq, pq.contains
      ensures Valid() && Matches(t)
      ensures FlowEdges(t, goals, distance.data, field.data) && GoalsHeld(t, goals, distance.data, field.data)
      ensures BlockedFlow(t, field.data)
      ensures forall c :: (InBounds(c, t.size, t.size) && c != cell && !pq.InHeap(c) &&
                 At(distance.data, c, t.size, t.size) < NF.U16_MAX) ==> Settled(t, distance.data, c)
      ensures var writes := old(!NotBlocked(t, n) || Improves(t, distance.data, cell, n));
              && distance.data == (if writes then old(Put(distance.data, n, Candidate(t, distance.data, cell, n), t.size, t.size))
                                   else old(distance.data))
              && field.data == (if writes then old(Put(field.data, n, DirectionTo(n, cell), t.size, t.size))
                                else old(field.data))
      ensures !Improves(t, distance.data, cell, n)
      ensures forall m :: InBounds(m, t.size, t.size) && old(!Improves(t, distance.data, cell, m)) ==>
                !Improves(t, distance.data, cell, m)
      ensures SumFree(t.costs, distance.data) < old(SumFree(t.costs, distance.data)) ||
              (SumFree(t.costs, distance.data) == old(SumFree(t.costs, distance.data)) &&
               pq.entries == old(pq.entries))
      ensures forall c :: old(pq.InHeap(c)) ==> pq.InHeap(c)
    {
      var s := t.size;
      ghost var D0, F0 := distance.data, field.data;
      var notBlocked := NotBlocked(t, n);
      var cost := Candidate(t, distance.data, cell, n);
      if !notBlocked || cost < At(distance.data, n, s, s) {
        var back := DirectionTo(n, cell);
        CandidateFacts(t, D0, cell, n);
        IndexInRange(n, s, s);
        distance.Set(n, cost);
        field.Set(n, back);
        if notBlocked && !pq.Contains(n) {
          pq.Push(n, cost);
        }
        assert distance.data == Put(D0, n, cost, s, s);
        assert field.data == Put(F0, n, back, s, s);
        assert notBlocked ==> pq.InHeap(n);
        SumFreeUpdate(t.costs, D0, Index(n, s), cost);
        InvariantsByWrite(t, goals, D0, F0, cell, n, cost);
        BlockedFlowByWrite(t, F0, cell, n);
        SettledByWrite(t, D0, cell, n, cost);
        AtPut(D0, n, cost, n, s, s);
        forall c | InBounds(c, s, s) && c != cell && !pq.InHeap(c) && At(distance.data, c, s, s) < NF.U16_MAX
          ensures Settled(t, distance.data, c)
        {
          assert c != n;
          AtPut(D0, n, cost, c, s, s);
        }
      }
    }

    /**
     * One of the two neighbour loops of `build`: `update` for each of `ns`
     * in order. Afterwards no move from `cell` to `done` or to `ns` changes
     * anything, and the search invariants are kept.
     */
    method ProcessAll(t: Terrain, ghost goals: seq<Cell>, cell: Cell, ns: seq<Cell>, ghost done: seq<Cell>)
      requires Valid() && Matches(t) && InBounds(cell, t.size, t.size)
      requires forall n :: n in ns ==> InBounds(n, t.size, t.size) && n in Considered(t, cell)
      requires forall n :: n in done ==> InBounds(n, t.size, t.size) && !Improves(t, distance.data, cell, n)
      requires FlowEdges(t, goals, distance.data, field.data) && GoalsHeld(t, goals, distance.data, field.data)
      requires BlockedFlow(t, field.data)
      requires forall c :: (InBounds(c, t.size, t.size) && c != cell && !pq.InHeap(c) &&
                  At(distance.data, c, t.size, t.size) < NF.U16_MAX) ==> Settled(t, distance.data, c)
      modifies field, distance, pq, pq.contains
      ensures Valid() && Matches(t)
      ensures FlowEdges(t, goals, distance.data, field.data) && GoalsHeld(t, goals, distance.data, field.data)
      ensures BlockedFlow(t, field.data)
      ensures forall c :: (InBounds(c, t.size, t.size) && c != cell && !pq.InHeap(c) &&
                 At(distance.data, c, t.size, t.size) < NF.U16_MAX) ==> Settled(t, distance.data, c)
      ensures forall n :: n in done ==> !Improves(t, distance.data, cell, n)
      ensures forall n :: n in ns ==> !Improves(t, distance.data, cell, n)
      ensures SumFree(t.costs, distance.data) < old(SumFree(t.costs, distance.data)) ||
              (SumFree(t.costs, distance.data) == old(SumFree(t.costs, distance.data)) &&
               pq.entries == old(pq.entries))
      ensures forall c :: old(pq.InHeap(c)) ==> pq.InHeap(c)
    {
      ghost var S0, E0 := SumFree(t.costs, distance.data), pq.entries;
      var k := 0;
      while k < |ns|
        invariant Valid() && Matches(t)
        invariant 0 <= k <= |ns|
        invariant FlowEdges(t, goals, distance.data, field.data) && GoalsHeld(t, goals, distance.data, field.data)
        invariant BlockedFlow(t, field.data)
        invariant forall c :: (InBounds(c, t.size, t.size) && c != cell && !pq.InHeap(c) &&
                     At(distance.data, c, t.size, t.size) < NF.U16_MAX) ==> Settled(t, distance.data, c)
        invariant forall n :: n in done ==> !Improves(t, distance.data, cell, n)
        invariant forall j :: 0 <= j < k ==> !Improves(t, distance.data, cell, ns[j])
        invariant SumFree(t.costs, distance.data) < S0 ||
                  (SumFree(t.costs, distance.data) == S0 && pq.entries == E0)
        invariant forall c :: old(pq.InHeap(c)) ==> pq.InHeap(c)
      {
        ghost var D1 := distance.data;
        assert ns[k] in ns;
        Process(t, goals, cell, ns[k]);
        PrefixCleared(t, D1, distance.data, cell, ns, k);
        k := k + 1;
      }
      forall n | n in ns ensures !Improves(t, distance.data, cell, n) {
        var j :| 0 <= j < |ns| && ns[j] == n;
      }
    }

    /**
     * The `while let Some((cell, _)) = self.pq.pop()` loop of `build`: pops
     * the cheapest entry and processes its adjacent cells, then its valid
     * diagonal cells, until the queue is empty. Given that every cell of
     * finite distance outside the queue is settled, every cell of finite
     * distance is settled at the end.
     */
    method Propagate(t: Terrain, ghost goals: seq<Cell>)
      requires Valid() && Matches(t)
      requires FlowEdges(t, goals, distance.data, field.data) && GoalsHeld(t, goals, distance.data, field.data)
      requires BlockedFlow(t, field.data)
      requires forall c :: (InBounds(c, t.size, t.size) && !pq.InHeap(c) &&
                  At(distance.data, c, t.size, t.size) < NF.U16_MAX) ==> Settled(t, distance.data, c)
      modifies field, distance, pq, pq.contains
      ensures Valid() && Matches(t) && pq.entries == []
      ensures FlowEdges(t, goals, distance.data, field.data) && GoalsHeld(t, goals, distance.data, field.data)
      ensures BlockedFlow(t, field.data)
      ensures forall c :: InBounds(c, t.size, t.size) && At(distance.data, c, t.size, t.size) < NF.U16_MAX ==>
                Settled(t, distance.data, c)
    {
      while true
        invariant Valid() && Matches(t)
        invariant FlowEdges(t, goals, distance.data, field.data) && GoalsHeld(t, goals, distance.data, field.data)
        invariant BlockedFlow(t, field.data)
        invariant forall c :: (InBounds(c, t.size, t.size) && !pq.InHeap(c) &&
                     At(distance.data, c, t.size, t.size) < NF.U16_MAX) ==> Settled(t, distance.data, c)
        decreases SumFree(t.costs, distance.data), |pq.entries|
      {
        ghost var S, E := SumFree(t.costs, distance.data), |pq.entries|;
        var popped := pq.Pop();
        if popped.None? {
          assert forall c :: !pq.InHeap(c);
          break;
        }
        var cell := popped.value.0;
        var adjacent := AdjacentTo(t, cell);
        var diagonal := DiagonalTo(t, cell);
        ConsideredParts(t, cell);
        ProcessAll(t, goals, cell, adjacent, []);
        ProcessAll(t, goals, cell, diagonal, adjacent);
        assert Settled(t, distance.data, cell);
        assert SumFree(t.costs, distance.data) < S || (SumFree(t.costs, distance.data) == S && |pq.entries| < E);
      }
    }

    /**
     * `FlowField::build` from `goals` over the cost field `cost` of the same
     * size. Afterwards the queue is empty; every goal in the field that is
     * not blocked is at distance zero with no direction; every cell of
     * finite distance is settled (the triangle inequality over the moves
     * the search considers); and every direction explains its cell's
     * distance.
     */
    method Build(goals: seq<Cell>, cost: FF.Field<Cost>)
      requires Valid() && cost.Valid() && cost.size == distance.size
      requires distance.size * distance.size < ISIZE_LIMIT
      modifies field, distance, pq, pq.contains
      ensures Valid() && pq.entries == [] && distance.size == old(distance.size)
      ensures var t := Terrain(cost.data, distance.size);
              TerrainValid(t) &&
              GoalsHeld(t, goals, distance.data, field.data) &&
              FlowEdges(t, goals, distance.data, field.data) &&
              BlockedFlow(t, field.data) &&
              forall c :: InBounds(c, t.size, t.size) && At(distance.data, c, t.size, t.size) < NF.U16_MAX ==>
                Settled(t, distance.data, c)
    {
      var t := Terrain(cost.data, distance.size);
      var s := t.size;
      pq.Clear();
      assert forall c :: !pq.InHeap(c);
      Reset();
      Seed(goals);
      ghost var D2, F2 := distance.data, field.data;
      forall c | InBounds(c, s, s)
        ensures At(D2, c, s, s) == (if c in goals then 0 else NF.U16_MAX)
        ensures At(F2, c, s, s) == Direction.None
      {
        IndexInRange(c, s, s);
      }
      assert FlowEdges(t, goals, D2, F2);
      assert BlockedFlow(t, F2);
      Propagate(t, goals);
    }
  }
}
