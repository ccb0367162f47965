/**
 * The warband flow field: a uniform-cost search outward from the goal
 * cells over an integration cost that compares by its numeric cost only,
 * recording at each relaxation the direction back to the cell it was
 * reached from; then obstacle cells are pointed away from their obstacle
 * and boundary cells towards the centre.
 */
module WbNavFlow {
  import opened Opt
  import opened WbNavGrid
  import opened WbNavAgent
  import opened WbNavFootprint
  import MotteGrid
  import Obst = WbNavObstacleField

  // ---------------------------------------------------------------------
  // IntegrationCost
  // ---------------------------------------------------------------------

  /** `u16::MAX`. */
  const U16_MAX: nat := 65535

  /** A `u16` value. */
  type U16 = v: nat | v <= U16_MAX

  /** `IntegrationCost`; the default is `Blocked`. */
  datatype IntegrationCost = Blocked | Traversable(value: U16) | Goal

  /** `IntegrationCost::cost`: `u16::MAX` for Blocked, 0 for Goal. */
  function CostOf(c: IntegrationCost): U16 {
    match c
    case Blocked => U16_MAX
    case Traversable(v) => v
    case Goal => 0
  }

  /** `PartialEq`: two costs are equal when their numbers are. */
  predicate CostEq(a: IntegrationCost, b: IntegrationCost) {
    CostOf(a) == CostOf(b)
  }

  /** `Ord`: `a < b` compares the numbers only. */
  predicate CostLt(a: IntegrationCost, b: IntegrationCost) {
    CostOf(a) < CostOf(b)
  }

  /**
   * The order is total on the numbers, with Goal least and Blocked
   * greatest; it cannot tell `Traversable(0)` from Goal nor
   * `Traversable(u16::MAX)` from Blocked.
   */
  lemma CostOrder(a: IntegrationCost, b: IntegrationCost)
    ensures CostEq(a, b) <==> !CostLt(a, b) && !CostLt(b, a)
    ensures !CostLt(a, Goal) && !CostLt(Blocked, a)
    ensures CostEq(a, Goal) <==> a == Goal || a == Traversable(0)
    ensures CostEq(a, Blocked) <==> a == Blocked || a == Traversable(U16_MAX)
  {
  }

  /** `u16::saturating_add`. */
  function SatAdd(a: U16, b: nat): (r: U16)
    ensures a <= r && (r == a + b || r == U16_MAX)
    ensures a + b <= U16_MAX ==> r == a + b
  {
    if a + b > U16_MAX then U16_MAX else a + b
  }

  // ---------------------------------------------------------------------
  // The terrain the search reads
  // ---------------------------------------------------------------------

  /**
   * What `build` reads of the obstacle field: its costs, its size and the
   * agent radius `AGENT` of the flow field.
   */
  datatype Terrain = Terrain(costs: seq<Obst.Cost>, width: nat, height: nat, agent: AgentRadius)

  /**
   * The costs fill the field, and the field has fewer than `2^63` cells,
   * as every `Vec` of non-zero-sized values does.
   */
  predicate TerrainValid(t: Terrain) {
    |t.costs| == t.width * t.height && t.width * t.height < ISIZE_LIMIT
  }

  /** The cells of a field with fewer than `2^63` cells, and their neighbours, survive the `isize` casts. */
  lemma CellOfSmallField(c: Cell, width: nat, height: nat)
    requires InBounds(c, width, height) && width * height < ISIZE_LIMIT
    ensures StepSafe(c) && IsizeSafe(c)
  {
    MotteGrid.MulMonotone(1, height, width);
    MotteGrid.MulMonotone(1, width, height);
  }

  /** `is_traversable`: `ObstacleField::traversable(cell, AGENT)`. */
  predicate IsTraversable(t: Terrain, c: Cell)
    requires TerrainValid(t) && InBounds(c, t.width, t.height)
  {
    Obst.CostTraversable(At(t.costs, c, t.width, t.height), t.agent)
  }

  /** The `check` closure: a missing step fails, an existing one is tested for traversability. */
  predicate Check(t: Terrain, step: Option<Cell>)
    requires TerrainValid(t) && (step.Some? ==> InBounds(step.value, t.width, t.height))
  {
    match step
    case None => false
    case Some(n) => IsTraversable(t, n)
  }

  /** `n` is one diagonal step from `c`. */
  predicate IsDiagonalStep(c: Cell, n: Cell) {
    AbsDiff(c.x, n.x) == 1 && AbsDiff(c.y, n.y) == 1
  }

  /** For a valid diagonal step both orthogonal steps exist and are valid. */
  lemma OrthogonalStepsValid(c: Cell, n: Cell, width: nat, height: nat)
    requires InBounds(c, width, height) && InBounds(n, width, height) && IsDiagonalStep(c, n)
    requires width * height < ISIZE_LIMIT
    ensures var d := DirectionTo(c, n);
            (d == NorthEast || d == NorthWest ==> Neighbor(c, North) == Some(Cell(c.x, n.y))) &&
            (d == SouthEast || d == SouthWest ==> Neighbor(c, South) == Some(Cell(c.x, n.y))) &&
            (d == NorthEast || d == SouthEast ==> Neighbor(c, East) == Some(Cell(n.x, c.y))) &&
            (d == NorthWest || d == SouthWest ==> Neighbor(c, West) == Some(Cell(n.x, c.y)))
    ensures DirectionTo(c, n) in DiagonalDirections
    ensures InBounds(Cell(c.x, n.y), width, height) && InBounds(Cell(n.x, c.y), width, height)
  {
    CellOfSmallField(c, width, height);
    CellOfSmallField(n, width, height);
    AsIsizeExact(c.x);
    AsIsizeExact(c.y);
    AsIsizeExact(n.x);
    AsIsizeExact(n.y);
  }

  /**
   * `is_diagonal_neighbor_valid(c, c.direction(n))`: both orthogonal cells
   * of the diagonal step must be traversable (no corner cutting).
   */
  predicate CornerSafe(t: Terrain, c: Cell, n: Cell)
    requires TerrainValid(t) && InBounds(c, t.width, t.height) && InBounds(n, t.width, t.height)
    requires IsDiagonalStep(c, n)
  {
    OrthogonalStepsValid(c, n, t.width, t.height);
    match DirectionTo(c, n)
    case NorthEast => Check(t, Neighbor(c, North)) && Check(t, Neighbor(c, East))
    case SouthEast => Check(t, Neighbor(c, South)) && Check(t, Neighbor(c, East))
    case SouthWest => Check(t, Neighbor(c, South)) && Check(t, Neighbor(c, West))
    case NorthWest => Check(t, Neighbor(c, North)) && Check(t, Neighbor(c, West))
    case _ => false
  }

  /** A corner-safe diagonal is one whose two orthogonal cells are both traversable. */
  lemma CornerSafeExactly(t: Terrain, c: Cell, n: Cell)
    requires TerrainValid(t) && InBounds(c, t.width, t.height) && InBounds(n, t.width, t.height)
    requires IsDiagonalStep(c, n)
    ensures CornerSafe(t, c, n) <==>
              InBounds(Cell(c.x, n.y), t.width, t.height) && InBounds(Cell(n.x, c.y), t.width, t.height) &&
              IsTraversable(t, Cell(c.x, n.y)) && IsTraversable(t, Cell(n.x, c.y))
  {
    OrthogonalStepsValid(c, n, t.width, t.height);
  }

  /** Keeps the diagonal cells that pass `CornerSafe`, in order. */
  function CornerSafeDiagonals(t: Terrain, c: Cell, ds: seq<Cell>): (r: seq<Cell>)
    requires TerrainValid(t) && InBounds(c, t.width, t.height)
    requires forall n :: n in ds ==> InBounds(n, t.width, t.height) && IsDiagonalStep(c, n)
    ensures forall n :: n in r <==> n in ds && CornerSafe(t, c, n)
  {
    if ds == [] then []
    else
      var rest := CornerSafeDiagonals(t, c, ds[1..]);
      assert forall n :: n in ds <==> n == ds[0] || n in ds[1..];
      if CornerSafe(t, c, ds[0]) then [ds[0]] + rest else rest
  }

  /** The diagonal cells `build` processes from `c`: valid, and corner-safe. */
  function SafeDiagonals(t: Terrain, c: Cell): (r: seq<Cell>)
    requires TerrainValid(t) && InBounds(c, t.width, t.height)
    ensures forall n :: n in r <==> InBounds(n, t.width, t.height) && IsDiagonalStep(c, n) && CornerSafe(t, c, n)
  {
    var ds := FieldDiagonal(c, t.width, t.height);
    CellOfSmallField(c, t.width, t.height);
    assert forall n :: n in ds <==> InBounds(n, t.width, t.height) && IsDiagonalStep(c, n) by {
      forall n ensures n in ds <==> InBounds(n, t.width, t.height) && IsDiagonalStep(c, n) {
        if InBounds(n, t.width, t.height) {
          CellOfSmallField(n, t.width, t.height);
          FieldNeighborsExactly(c, n, t.width, t.height);
        } else {
          assert !(n in ds);
        }
      }
    }
    CornerSafeDiagonals(t, c, ds)
  }

  /**
   * The cells `build` processes from `c`, in order: the valid adjacent
   * cells, then the valid corner-safe diagonal cells. Each is one or two
   * steps away.
   */
  function Relaxed(t: Terrain, c: Cell): (r: seq<Cell>)
    requires TerrainValid(t) && InBounds(c, t.width, t.height)
    ensures forall n :: n in r ==> InBounds(n, t.width, t.height) && 1 <= Manhattan(c, n) <= 2
    ensures forall n :: n in r <==>
              InBounds(n, t.width, t.height) &&
              (Manhattan(c, n) == 1 || (IsDiagonalStep(c, n) && CornerSafe(t, c, n)))
  {
    var adj := FieldAdjacent(c, t.width, t.height);
    CellOfSmallField(c, t.width, t.height);
    assert forall n :: n in adj <==> InBounds(n, t.width, t.height) && Manhattan(c, n) == 1 by {
      forall n ensures n in adj <==> InBounds(n, t.width, t.height) && Manhattan(c, n) == 1 {
        if InBounds(n, t.width, t.height) {
          CellOfSmallField(n, t.width, t.height);
          FieldNeighborsExactly(c, n, t.width, t.height);
        } else {
          assert !(n in adj);
        }
      }
    }
    var diag := SafeDiagonals(t, c);
    assert forall n :: n in diag ==> Manhattan(c, n) == 2 by {
      forall n | n in diag ensures Manhattan(c, n) == 2 {
        CellOfSmallField(n, t.width, t.height);
        DistancesAgree(c, n);
      }
    }
    adj + diag
  }

  /** `Relaxed` is the adjacent cells followed by the safe diagonal ones. */
  lemma RelaxedParts(t: Terrain, c: Cell)
    requires TerrainValid(t) && InBounds(c, t.width, t.height)
    ensures Relaxed(t, c) == FieldAdjacent(c, t.width, t.height) + SafeDiagonals(t, c)
  {
  }

  /** From a processed neighbour, the step in direction `direction(cell)` leads back to the cell. */
  lemma StepBack(t: Terrain, c: Cell, n: Cell)
    requires TerrainValid(t) && InBounds(c, t.width, t.height) && n in Relaxed(t, c)
    ensures DirectionTo(n, c) != Direction.None && Neighbor(n, DirectionTo(n, c)) == Some(c)
  {
    CellOfSmallField(c, t.width, t.height);
    CellOfSmallField(n, t.width, t.height);
    DistancesAgree(c, n);
    AsIsizeExact(c.x);
    AsIsizeExact(c.y);
    AsIsizeExact(n.x);
    AsIsizeExact(n.y);
    NeighborDirection(n, c, DirectionTo(n, c));
  }

  // ---------------------------------------------------------------------
  // Relaxation
  // ---------------------------------------------------------------------

  /**
   * The cost the `process` closure offers neighbour `n` of the popped cell
   * `c`: the cell's cost plus the distance (cast to `u16`, saturating) if
   * `n` is traversable, Goal otherwise.
   */
  function Offer(t: Terrain, I: seq<IntegrationCost>, c: Cell, n: Cell): IntegrationCost
    requires TerrainValid(t) && |I| == t.width * t.height
    requires InBounds(c, t.width, t.height) && InBounds(n, t.width, t.height)
  {
    if IsTraversable(t, n) then Traversable(SatAdd(CostOf(At(I, c, t.width, t.height)), Manhattan(c, n) % 65536))
    else Goal
  }

  /**
   * The test of `process`: `n` is traversable or already Goal (by cost),
   * and the offer is strictly below its cost.
   */
  predicate ImprovesAt(t: Terrain, I: seq<IntegrationCost>, c: Cell, n: Cell)
    requires TerrainValid(t) && |I| == t.width * t.height
    requires InBounds(c, t.width, t.height) && InBounds(n, t.width, t.height)
  {
    (IsTraversable(t, n) || CostEq(At(I, n, t.width, t.height), Goal)) &&
    CostLt(Offer(t, I, c, n), At(I, n, t.width, t.height))
  }

  /**
   * Only traversable neighbours are ever relaxed: the Goal offered to a
   * blocked Goal cell is never below its cost, so that branch of `process`
   * changes nothing.
   */
  lemma ImprovesOnlyTraversable(t: Terrain, I: seq<IntegrationCost>, c: Cell, n: Cell)
    requires TerrainValid(t) && |I| == t.width * t.height
    requires InBounds(c, t.width, t.height) && InBounds(n, t.width, t.height)
    ensures ImprovesAt(t, I, c, n) <==>
              IsTraversable(t, n) &&
              SatAdd(CostOf(At(I, c, t.width, t.height)), Manhattan(c, n) % 65536) < CostOf(At(I, n, t.width, t.height))
  {
  }

  /** No neighbour that `build` processes from `c` can still be improved from it. */
  ghost predicate Settled(t: Terrain, I: seq<IntegrationCost>, c: Cell)
    requires TerrainValid(t) && |I| == t.width * t.height && InBounds(c, t.width, t.height)
  {
    forall n :: n in Relaxed(t, c) ==> !ImprovesAt(t, I, c, n)
  }

  /**
   * Settledness is the triangle inequality of the search: a traversable
   * cell that `c` processes costs at most `c`'s cost plus the distance.
   */
  lemma SettledIsTriangleInequality(t: Terrain, I: seq<IntegrationCost>, c: Cell, n: Cell)
    requires TerrainValid(t) && |I| == t.width * t.height && InBounds(c, t.width, t.height)
    requires Settled(t, I, c) && n in Relaxed(t, c) && IsTraversable(t, n)
    ensures CostOf(At(I, n, t.width, t.height)) <= SatAdd(CostOf(At(I, c, t.width, t.height)), Manhattan(c, n))
  {
    assert !ImprovesAt(t, I, c, n);
    ImprovesOnlyTraversable(t, I, c, n);
    var m := Manhattan(c, n);
    assert m <= 2;
    SmallDistanceCast(m);
  }

  /** The sum of all costs: every relaxation lowers it. */
  function SumCost(I: seq<IntegrationCost>): nat {
    if I == [] then 0 else CostOf(I[0]) + SumCost(I[1..])
  }

  /** Replacing one cost changes the sum by the difference. */
  lemma {:induction false} SumCostUpdate(I: seq<IntegrationCost>, i: nat, v: IntegrationCost)
    requires i < |I|
    ensures SumCost(I[i := v]) + CostOf(I[i]) == SumCost(I) + CostOf(v)
  {
    if i > 0 {
      SumCostUpdate(I[1..], i - 1, v);
      assert I[i := v][1..] == I[1..][i - 1 := v];
    }
  }

  /** Costs only go down and the Goal cells stay exactly the same. */
  ghost predicate Lowered(before: seq<IntegrationCost>, after: seq<IntegrationCost>, width: nat, height: nat)
    requires |before| == width * height && |after| == width * height
  {
    forall c :: InBounds(c, width, height) ==>
      CostOf(At(after, c, width, height)) <= CostOf(At(before, c, width, height)) &&
      (At(after, c, width, height) == Goal <==> At(before, c, width, height) == Goal)
  }

  /** No `Traversable(0)`: only Goal cells cost nothing. */
  ghost predicate OnlyGoalsFree(I: seq<IntegrationCost>, width: nat, height: nat)
    requires |I| == width * height
  {
    forall c :: InBounds(c, width, height) ==> At(I, c, width, height) != Traversable(0)
  }

  /**
   * The direction recorded for `n` in `F` explains its cost in `I`: a
   * Traversable cell is traversable and its direction leads to a valid
   * cell `p` that processes it, through which its cost is at least
   * reached; any other cell has no direction.
   */
  ghost predicate FlowEdge(t: Terrain, I: seq<IntegrationCost>, F: seq<Direction>, n: Cell)
    requires TerrainValid(t) && |I| == t.width * t.height && |F| == t.width * t.height
    requires InBounds(n, t.width, t.height)
  {
    var d := At(F, n, t.width, t.height);
    if At(I, n, t.width, t.height).Traversable? then
      IsTraversable(t, n) && Neighbor(n, d).Some? &&
      var p := Neighbor(n, d).value;
      InBounds(p, t.width, t.height) && n in Relaxed(t, p) &&
      CostOf(At(I, n, t.width, t.height)) >= SatAdd(CostOf(At(I, p, t.width, t.height)), Manhattan(p, n))
    else
      d == Direction.None
  }

  /** Every valid cell's direction explains its cost. */
  ghost predicate FlowEdges(t: Terrain, I: seq<IntegrationCost>, F: seq<Direction>)
    requires TerrainValid(t) && |I| == t.width * t.height && |F| == t.width * t.height
  {
    forall c {:trigger FlowEdge(t, I, F, c)} :: InBounds(c, t.width, t.height) ==> FlowEdge(t, I, F, c)
  }

  /**
   * Once the search has settled every cell, each Traversable cell's
   * direction points at a neighbour through which its cost is attained
   * exactly: following the flow descends along shortest edges.
   */
  lemma FlowEdgeTight(t: Terrain, I: seq<IntegrationCost>, F: seq<Direction>, n: Cell)
    requires TerrainValid(t) && |I| == t.width * t.height && |F| == t.width * t.height
    requires InBounds(n, t.width, t.height) && FlowEdge(t, I, F, n)
    requires forall c :: InBounds(c, t.width, t.height) ==> Settled(t, I, c)
    ensures At(I, n, t.width, t.height).Traversable? ==>
              var p := Neighbor(n, At(F, n, t.width, t.height)).value;
              CostOf(At(I, n, t.width, t.height)) == SatAdd(CostOf(At(I, p, t.width, t.height)), Manhattan(p, n))
    ensures !At(I, n, t.width, t.height).Traversable? ==> At(F, n, t.width, t.height) == Direction.None
  {
    if At(I, n, t.width, t.height).Traversable? {
      var p := Neighbor(n, At(F, n, t.width, t.height)).value;
      SettledIsTriangleInequality(t, I, p, n);
    }
  }

  /**
   * Lowering the cost of a cell `n` other than `m`, and redirecting `n`,
   * keeps `m`'s direction explaining its cost.
   */
  lemma FlowEdgeAfterLowering(t: Terrain, I: seq<IntegrationCost>, F: seq<Direction>, m: Cell, n: Cell,
                              v: IntegrationCost, d: Direction)
    requires TerrainValid(t) && |I| == t.width * t.height && |F| == t.width * t.height
    requires InBounds(m, t.width, t.height) && InBounds(n, t.width, t.height) && m != n
    requires CostOf(v) <= CostOf(At(I, n, t.width, t.height))
    requires FlowEdge(t, I, F, m)
    ensures FlowEdge(t, Put(I, n, v, t.width, t.height), Put(F, n, d, t.width, t.height), m)
  {
    var w, h := t.width, t.height;
    AtPut(I, n, v, m, w, h);
    AtPut(F, n, d, m, w, h);
    if At(I, m, w, h).Traversable? {
      var p := Neighbor(m, At(F, m, w, h)).value;
      AtPut(I, n, v, p, w, h);
    }
  }

  // ---------------------------------------------------------------------
  // Heap
  // ---------------------------------------------------------------------

  /** `s` without its `i`th element: the rest keep their order, and the multiset loses exactly that element. */
  function RemoveAt<T>(s: seq<T>, i: nat): (r: seq<T>)
    requires i < |s|
    ensures |r| == |s| - 1
    ensures forall j :: 0 <= j < i ==> r[j] == s[j]
    ensures forall j :: i <= j < |r| ==> r[j] == s[j + 1]
    ensures multiset(r) + multiset{s[i]} == multiset(s)
  {
    assert s == s[..i] + [s[i]] + s[i + 1..];
    s[..i] + s[i + 1..]
  }

  /** A heap entry, `(cost, cell)`. */
  type Entry = (IntegrationCost, Cell)

  /** The derived order of `Cell((usize, usize))`: `x` first, then `y`. */
  predicate CellLe(a: Cell, b: Cell) {
    a.x < b.x || (a.x == b.x && a.y <= b.y)
  }

  /**
   * The order `BinaryHeap<Reverse<(IntegrationCost, Cell)>>` pops by, the
   * smallest first: by the cost's number, then by cell.
   */
  predicate EntryLe(a: Entry, b: Entry) {
    CostLt(a.0, b.0) || (CostEq(a.0, b.0) && CellLe(a.1, b.1))
  }

  /** The entry order is a total preorder. */
  lemma EntryOrder(a: Entry, b: Entry, c: Entry)
    ensures EntryLe(a, b) || EntryLe(b, a)
    ensures EntryLe(a, b) && EntryLe(b, c) ==> EntryLe(a, c)
  {
  }

  /**
   * `Heap`: the binary heap of `(cost, cell)` entries, as the sequence of
   * its entries, and the `contains` bitmap over the field.
   */
  class Heap {
    var entries: seq<Entry>
    const contains: Field<bool>

    /** Some entry of the heap is for `c`. */
    ghost predicate InHeap(c: Cell)
      reads this
    {
      exists k :: 0 <= k < |entries| && entries[k].1 == c
    }

    /** Every entry is for a valid cell, and a set bit means the cell has an entry. */
    ghost predicate Valid()
      reads this, contains
    {
      contains.Valid() &&
      (forall k :: 0 <= k < |entries| ==> InBounds(entries[k].1, contains.width, contains.height)) &&
      (forall c :: (InBounds(c, contains.width, contains.height) &&
                    At(contains.data, c, contains.width, contains.height)) ==> InHeap(c))
    }

    /** `Heap::new`: empty, with a cleared `width x height` bitmap. */
    constructor (width: nat, height: nat)
      ensures Valid() && fresh(contains)
      ensures entries == [] && contains.width == width && contains.height == height
      ensures forall i :: 0 <= i < |contains.data| ==> !contains.data[i]
    {
      entries := [];
      contains := new Field(width, height, seq(width * height, _ => false));
      new;
      forall c | InBounds(c, width, height) ensures !At(contains.data, c, width, height) {
        IndexInRange(c, width, height);
      }
    }

    /** `Heap::contains`: the bit of a valid cell; a set bit means the cell is queued. */
    function Contains(c: Cell): (b: bool)
      reads this, contains
      requires Valid() && InBounds(c, contains.width, contains.height)
      ensures b == At(contains.data, c, contains.width, contains.height)
      ensures b ==> InHeap(c)
    {
      IndexInRange(c, contains.width, contains.height);
      contains.data[Index(c, contains.width)]
    }

    /** `Heap::push`: adds the entry and sets the cell's bit. */
    method Push(cell: Cell, cost: IntegrationCost)
      requires Valid() && InBounds(cell, contains.width, contains.height)
      modifies this, contains
      ensures Valid() && contains.width == old(contains.width) && contains.height == old(contains.height)
      ensures entries == old(entries) + [(cost, cell)]
      ensures contains.data == Put(old(contains.data), cell, true, contains.width, contains.height)
      ensures InHeap(cell) && forall c :: old(InHeap(c)) ==> InHeap(c)
    {
      ghost var before := entries;
      ghost var bits := contains.data;
      entries := entries + [(cost, cell)];
      IndexInRange(cell, contains.width, contains.height);
      contains.Set(cell, true);
      assert entries[|entries| - 1].1 == cell;
      forall c | old(InHeap(c)) ensures InHeap(c) {
        var k :| 0 <= k < |before| && before[k].1 == c;
        assert entries[k] == before[k];
      }
      forall c | InBounds(c, contains.width, contains.height) && At(contains.data, c, contains.width, contains.height)
        ensures InHeap(c)
      {
        AtPut(bits, cell, true, c, contains.width, contains.height);
        if c != cell {
          var k :| 0 <= k < |before| && before[k].1 == c;
          assert entries[k] == before[k];
        }
      }
    }

    /** The position of a smallest entry: the choice `BinaryHeap::pop` makes. */
    method MinPosition() returns (best: nat)
      requires entries != []
      ensures best < |entries|
      ensures forall j :: 0 <= j < |entries| ==> EntryLe(entries[best], entries[j])
    {
      best := 0;
      var k := 1;
      while k < |entries|
        invariant 0 <= best < k <= |entries|
        invariant forall j :: 0 <= j < k ==> EntryLe(entries[best], entries[j])
      {
        if !EntryLe(entries[best], entries[k]) {
          forall j | 0 <= j < k ensures EntryLe(entries[k], entries[j]) {
            EntryOrder(entries[k], entries[best], entries[j]);
          }
          best := k;
        }
        k := k + 1;
      }
    }

    /**
     * `Heap::pop`: removes and returns a smallest entry and clears its
     * cell's bit; `None` when the heap is empty.
     */
    method Pop() returns (r: Option<(Cell, IntegrationCost)>)
      requires Valid()
      modifies this, contains
      ensures Valid() && contains.width == old(contains.width) && contains.height == old(contains.height)
      ensures r.None? <==> old(entries) == []
      ensures r.None? ==> entries == old(entries) && contains.data == old(contains.data)
      ensures r.Some? ==> (r.value.1, r.value.0) in old(entries) && InBounds(r.value.0, contains.width, contains.height)
      ensures r.Some? ==> forall e :: e in old(entries) ==> EntryLe((r.value.1, r.value.0), e)
      ensures r.Some? ==> |entries| == |old(entries)| - 1 &&
                          multiset(entries) + multiset{(r.value.1, r.value.0)} == multiset(old(entries))
      ensures r.Some? ==> contains.data == Put(old(contains.data), r.value.0, false, contains.width, contains.height)
      ensures forall c :: InHeap(c) ==> old(InHeap(c))
      ensures r.Some? ==> forall c :: old(InHeap(c)) && c != r.value.0 ==> InHeap(c)
    {
      if entries == [] {
        return Option.None;
      }
      var best := MinPosition();
      ghost var before := entries;
      ghost var bits := contains.data;
      var (cost, cell) := entries[best];
      entries := RemoveAt(entries, best);
      IndexInRange(cell, contains.width, contains.height);
      contains.Set(cell, false);
      r := Some((cell, cost));
      forall e | e in before ensures EntryLe((cost, cell), e) {
        var j :| 0 <= j < |before| && before[j] == e;
      }
      forall c | InHeap(c) ensures old(InHeap(c)) {
        var j :| 0 <= j < |entries| && entries[j].1 == c;
        assert before[if j < best then j else j + 1].1 == c;
      }
      forall c | old(InHeap(c)) && c != cell ensures InHeap(c) {
        var j :| 0 <= j < |before| && before[j].1 == c;
        assert entries[if j < best then j else j - 1].1 == c;
      }
      forall c | InBounds(c, contains.width, contains.height) && At(contains.data, c, contains.width, contains.height)
        ensures InHeap(c)
      {
        AtPut(bits, cell, false, c, contains.width, contains.height);
      }
    }

    /** `Heap::clear`: no entries and every bit cleared. */
    method Clear()
      requires Valid()
      modifies this, contains
      ensures Valid() && contains.width == old(contains.width) && contains.height == old(contains.height)
      ensures entries == []
      ensures forall i :: 0 <= i < |contains.data| ==> !contains.data[i]
    {
      entries := [];
      var i := 0;
      while i < |contains.data|
        invariant entries == []
        invariant contains.Valid() && contains.width == old(contains.width) && contains.height == old(contains.height)
        invariant 0 <= i <= |contains.data|
        invariant forall j :: 0 <= j < i ==> !contains.data[j]
      {
        contains.data := contains.data[i := false];
        i := i + 1;
      }
      forall c | InBounds(c, contains.width, contains.height)
        ensures !At(contains.data, c, contains.width, contains.height)
      {
        IndexInRange(c, contains.width, contains.height);
      }
    }
  }

  // ---------------------------------------------------------------------
  // FlowField
  // ---------------------------------------------------------------------

  /**
   * `FlowField<AGENT>`: the direction of every cell, the integration costs
   * the search computes, and the search's heap. `AGENT` is the const
   * generic parameter, an agent radius.
   */
  class FlowField {
    const agent: AgentRadius
    const flow: Field<Direction>
    const integration: Field<IntegrationCost>
    const heap: Heap

    /** The three grids are well formed and share one size. */
    ghost predicate Valid()
      reads this, flow, integration, heap, heap.contains
    {
      flow.Valid() && integration.Valid() && heap.Valid() &&
      flow.width == integration.width && flow.height == integration.height &&
      heap.contains.width == integration.width && heap.contains.height == integration.height
    }

    /** The terrain `t` is an obstacle field of this flow field's size, read for its agent radius. */
    predicate Matches(t: Terrain)
      reads this, integration
    {
      TerrainValid(t) && t.width == integration.width && t.height == integration.height && t.agent == agent
    }

    /** `FlowField::from_layout`: no directions, Blocked costs and an empty heap. */
    constructor (agent: AgentRadius, width: nat, height: nat)
      ensures Valid() && this.agent == agent
      ensures integration.width == width && integration.height == height
      ensures forall i :: 0 <= i < |integration.data| ==> integration.data[i] == Blocked
      ensures forall i :: 0 <= i < |flow.data| ==> flow.data[i] == Direction.None
      ensures heap.entries == []
      ensures fresh(flow) && fresh(integration) && fresh(heap) && fresh(heap.contains)
    {
      this.agent := agent;
      flow := new Field(width, height, seq(width * height, _ => Direction.None));
      integration := new Field(width, height, seq(width * height, _ => Blocked));
      heap := new Heap(width, height);
    }

    /** The first loop of `build`: every cost back to Blocked and every direction to `None`. */
    method Reset()
      requires Valid()
      modifies flow, integration
      ensures Valid() && integration.width == old(integration.width) && integration.height == old(integration.height)
      ensures forall i :: 0 <= i < |integration.data| ==> integration.data[i] == Blocked
      ensures forall i :: 0 <= i < |flow.data| ==> flow.data[i] == Direction.None
    {
      var i := 0;
      while i < |integration.data|
        invariant Valid() && integration.width == old(integration.width) && integration.height == old(integration.height)
        invariant 0 <= i <= |integration.data|
        invariant forall j :: 0 <= j < i ==> integration.data[j] == Blocked && flow.data[j] == Direction.None
      {
        integration.data := integration.data[i := Blocked];
        flow.data := flow.data[i := Direction.None];
        i := i + 1;
      }
    }

    /**
     * The goal loop of `build`: every valid goal is pushed with cost Goal,
     * made Goal and given no direction; invalid goals are skipped.
     */
    method Seed(goals: seq<Cell>)
      requires Valid()
      modifies flow, integration, heap, heap.contains
      ensures Valid() && integration.width == old(integration.width) && integration.height == old(integration.height)
      ensures forall c :: InBounds(c, integration.width, integration.height) ==>
                At(integration.data, c, integration.width, integration.height) ==
                  if c in goals then Goal else old(At(integration.data, c, integration.width, integration.height))
      ensures forall c :: InBounds(c, integration.width, integration.height) ==>
                At(flow.data, c, integration.width, integration.height) ==
                  if c in goals then Direction.None else old(At(flow.data, c, integration.width, integration.height))
      ensures forall c :: InBounds(c, integration.width, integration.height) && c in goals ==> heap.InHeap(c)
      ensures forall c :: old(heap.InHeap(c)) ==> heap.InHeap(c)
    {
      var w, h := integration.width, integration.height;
      ghost var I0, F0 := integration.data, flow.data;
      var k := 0;
      while k < |goals|
        invariant Valid() && integration.width == w && integration.height == h
        invariant 0 <= k <= |goals|
        invariant forall c :: InBounds(c, w, h) ==>
                    At(integration.data, c, w, h) == if c in goals[..k] then Goal else At(I0, c, w, h)
        invariant forall c :: InBounds(c, w, h) ==>
                    At(flow.data, c, w, h) == if c in goals[..k] then Direction.None else At(F0, c, w, h)
        invariant forall c :: InBounds(c, w, h) && c in goals[..k] ==> heap.InHeap(c)
        invariant forall c :: old(heap.InHeap(c)) ==> heap.InHeap(c)
      {
        var goal := goals[k];
        assert goals[..k + 1] == goals[..k] + [goal];
        if InBounds(goal, w, h) {
          ghost var I1, F1 := integration.data, flow.data;
          IndexInRange(goal, w, h);
          heap.Push(goal, Goal);
          integration.Set(goal, Goal);
          flow.Set(goal, Direction.None);
          forall c | InBounds(c, w, h) ensures
            At(integration.data, c, w, h) == (if c in goals[..k + 1] then Goal else At(I0, c, w, h)) &&
            At(flow.data, c, w, h) == (if c in goals[..k + 1] then Direction.None else At(F0, c, w, h))
          {
            AtPut(I1, goal, Goal, c, w, h);
            AtPut(F1, goal, Direction.None, c, w, h);
          }
        }
        k := k + 1;
      }
      assert goals[..k] == goals;
    }

    /**
     * The `process` closure of `build` for the popped `cell` and one of the
     * cells `n` it processes: when `n` is traversable (or Goal) and the
     * offer is strictly below its cost, `n` takes the offer, points back at
     * `cell`, and is pushed unless its bit is set. Afterwards the move no
     * longer improves `n`; settledness outside the heap, the directions'
     * explanations and the absence of `Traversable(0)` are kept.
     */
    method Process(t: Terrain, cell: Cell, n: Cell)
      requires Valid() && Matches(t)
      requires InBounds(cell, t.width, t.height) && n in Relaxed(t, cell)
      requires FlowEdges(t, integration.data, flow.data) && OnlyGoalsFree(integration.data, t.width, t.height)
      modifies flow, integration, heap, heap.contains
      ensures Valid() && Matches(t)
      ensures FlowEdges(t, integration.data, flow.data) && OnlyGoalsFree(integration.data, t.width, t.height)
      ensures !ImprovesAt(t, integration.data, cell, n)
      ensures old(ImprovesAt(t, integration.data, cell, n)) ==>
                heap.InHeap(n) && SumCost(integration.data) < old(SumCost(integration.data))
      ensures !old(ImprovesAt(t, integration.data, cell, n)) ==>
                integration.data == old(integration.data) && heap.entries == old(heap.entries)
      ensures Lowered(old(integration.data), integration.data, t.width, t.height)
      ensures forall c :: old(heap.InHeap(c)) ==> heap.InHeap(c)
      ensures forall m :: InBounds(m, t.width, t.height) && old(!ImprovesAt(t, integration.data, cell, m)) ==>
                !ImprovesAt(t, integration.data, cell, m)
      ensures forall c :: (InBounds(c, t.width, t.height) && c != cell && !heap.InHeap(c) &&
                           old(Settled(t, integration.data, c))) ==> Settled(t, integration.data, c)
    {
      var w, h := t.width, t.height;
      ghost var I0, F0 := integration.data, flow.data;
      var traversable := IsTraversable(t, n);
      var isGoal := CostEq(At(integration.data, n, w, h), Goal);
      if !traversable && !isGoal {
        return;
      }
      var cost := Offer(t, integration.data, cell, n);
      if CostLt(cost, At(integration.data, n, w, h)) {
        OfferPositive(t, I0, cell, n);
        var back := DirectionTo(n, cell);
        StepBack(t, cell, n);
        IndexInRange(n, w, h);
        integration.Set(n, cost);
        flow.Set(n, back);
        if !heap.Contains(n) {
          heap.Push(n, cost);
        }
        assert integration.data == Put(I0, n, cost, w, h);
        assert flow.data == Put(F0, n, back, w, h);
        SumCostUpdate(I0, Index(n, w), cost);
        LoweredByRelax(I0, n, cost, w, h);
        FlowEdgesByRelax(t, I0, F0, cell, n, cost, back);
        SettledByRelax(t, I0, cell, n, cost);
      }
    }

    /**
     * One of the two neighbour loops of `build`: `process` for each of `ns`
     * in order. Afterwards no move from `cell` to `done` or to `ns`
     * improves, and the search invariants are kept.
     */
    method ProcessAll(t: Terrain, cell: Cell, ns: seq<Cell>, ghost done: seq<Cell>)
      requires Valid() && Matches(t) && InBounds(cell, t.width, t.height)
      requires forall n :: n in ns ==> InBounds(n, t.width, t.height) && n in Relaxed(t, cell)
      requires forall n :: n in done ==> InBounds(n, t.width, t.height) && !ImprovesAt(t, integration.data, cell, n)
      requires forall c :: InBounds(c, t.width, t.height) && c != cell && !heap.InHeap(c) ==>
                 Settled(t, integration.data, c)
      requires FlowEdges(t, integration.data, flow.data) && OnlyGoalsFree(integration.data, t.width, t.height)
      modifies flow, integration, heap, heap.contains
      ensures Valid() && Matches(t)
      ensures FlowEdges(t, integration.data, flow.data) && OnlyGoalsFree(integration.data, t.width, t.height)
      ensures forall n :: n in done ==> !ImprovesAt(t, integration.data, cell, n)
      ensures forall n :: n in ns ==> !ImprovesAt(t, integration.data, cell, n)
      ensures forall c :: InBounds(c, t.width, t.height) && c != cell && !heap.InHeap(c) ==>
                Settled(t, integration.data, c)
      ensures Lowered(old(integration.data), integration.data, t.width, t.height)
      ensures SumCost(integration.data) < old(SumCost(integration.data)) ||
              (integration.data == old(integration.data) && heap.entries == old(heap.entries))
      ensures forall c :: old(heap.InHeap(c)) ==> heap.InHeap(c)
    {
      ghost var I0, E0 := integration.data, heap.entries;
      var k := 0;
      while k < |ns|
        invariant Valid() && Matches(t)
        invariant 0 <= k <= |ns|
        invariant FlowEdges(t, integration.data, flow.data) && OnlyGoalsFree(integration.data, t.width, t.height)
        invariant forall n :: n in done ==> !ImprovesAt(t, integration.data, cell, n)
        invariant forall j :: 0 <= j < k ==> !ImprovesAt(t, integration.data, cell, ns[j])
        invariant forall c :: InBounds(c, t.width, t.height) && c != cell && !heap.InHeap(c) ==>
                    Settled(t, integration.data, c)
        invariant Lowered(I0, integration.data, t.width, t.height)
        invariant SumCost(integration.data) < SumCost(I0) || (integration.data == I0 && heap.entries == E0)
        invariant forall c :: old(heap.InHeap(c)) ==> heap.InHeap(c)
      {
        ghost var I1 := integration.data;
        assert ns[k] in ns;
        Process(t, cell, ns[k]);
        PrefixCleared(t, I1, integration.data, cell, ns, k);
        LoweredTransitive(I0, I1, integration.data, t.width, t.height);
        k := k + 1;
      }
    }

    /**
     * The `while let Some((cell, _)) = heap.pop()` loop of `build`: pops the
     * cheapest entry and processes its adjacent cells, then its corner-safe
     * diagonal cells, until the heap is empty. Given that every cell outside
     * the heap is settled, every cell is settled at the end, and every
     * direction still explains its cell's cost.
     */
    method Propagate(t: Terrain)
      requires Valid() && Matches(t)
      requires forall c :: InBounds(c, t.width, t.height) && !heap.InHeap(c) ==> Settled(t, integration.data, c)
      requires FlowEdges(t, integration.data, flow.data) && OnlyGoalsFree(integration.data, t.width, t.height)
      modifies flow, integration, heap, heap.contains
      ensures Valid() && Matches(t) && heap.entries == []
      ensures forall c :: InBounds(c, t.width, t.height) ==> Settled(t, integration.data, c)
      ensures FlowEdges(t, integration.data, flow.data) && OnlyGoalsFree(integration.data, t.width, t.height)
      ensures Lowered(old(integration.data), integration.data, t.width, t.height)
    {
      ghost var I0 := integration.data;
      while true
        invariant Valid() && Matches(t)
        invariant forall c :: InBounds(c, t.width, t.height) && !heap.InHeap(c) ==> Settled(t, integration.data, c)
        invariant FlowEdges(t, integration.data, flow.data) && OnlyGoalsFree(integration.data, t.width, t.height)
        invariant Lowered(I0, integration.data, t.width, t.height)
        decreases SumCost(integration.data), |heap.entries|
      {
        ghost var S, E := SumCost(integration.data), |heap.entries|;
        var popped := heap.Pop();
        if popped.None? {
          break;
        }
        var cell := popped.value.0;
        var adjacent := FieldAdjacent(cell, t.width, t.height);
        var diagonal := SafeDiagonals(t, cell);
        RelaxedParts(t, cell);
        ProcessAll(t, cell, adjacent, []);
        ProcessAll(t, cell, diagonal, adjacent);
        assert Settled(t, integration.data, cell);
        assert SumCost(integration.data) < S || (SumCost(integration.data) == S && |heap.entries| < E);
      }
    }

    /**
     * The obstacle loop of `build`: each footprint cell that is valid and
     * not a goal turns away from its obstacle's origin; the last obstacle
     * covering a cell decides.
     */
    method PointObstacles(t: Terrain, obstacles: seq<(Cell, seq<Cell>)>)
      requires Valid() && Matches(t)
      modifies flow
      ensures Valid() && Matches(t)
      ensures forall c :: InBounds(c, t.width, t.height) ==>
                At(flow.data, c, t.width, t.height) ==
                  ObstacleFlowAt(integration.data, obstacles, c, old(At(flow.data, c, t.width, t.height)), t.width, t.height)
    {
      var w, h := t.width, t.height;
      ghost var F0 := flow.data;
      var k := 0;
      while k < |obstacles|
        invariant Valid() && Matches(t)
        invariant 0 <= k <= |obstacles|
        invariant forall c :: InBounds(c, w, h) ==>
                    At(flow.data, c, w, h) == ObstacleFlowAt(integration.data, obstacles[..k], c, At(F0, c, w, h), w, h)
      {
        var (origin, footprint) := obstacles[k];
        ghost var F1 := flow.data;
        var j := 0;
        while j < |footprint|
          invariant Valid() && Matches(t)
          invariant 0 <= j <= |footprint|
          invariant forall c :: InBounds(c, w, h) ==>
                      At(flow.data, c, w, h) ==
                        if c in footprint[..j] && !CostEq(At(integration.data, c, w, h), Goal)
                        then ObstacleDirection(integration.data, c, origin, w, h)
                        else At(F1, c, w, h)
        {
          var cell := footprint[j];
          assert footprint[..j + 1] == footprint[..j] + [cell];
          if InBounds(cell, w, h) && !CostEq(At(integration.data, cell, w, h), Goal) {
            ghost var F2 := flow.data;
            IndexInRange(cell, w, h);
            var direction := ObstacleDirection(integration.data, cell, origin, w, h);
            flow.Set(cell, direction);
            forall c | InBounds(c, w, h)
              ensures At(flow.data, c, w, h) == if c == cell then direction else At(F2, c, w, h)
            {
              AtPut(F2, cell, direction, c, w, h);
            }
          }
          j := j + 1;
        }
        assert footprint[..j] == footprint;
        assert obstacles[..k + 1][..k] == obstacles[..k];
        k := k + 1;
      }
      assert obstacles[..k] == obstacles;
    }

    /**
     * The bounds loop of `build`: each bound cell turns towards the centre
     * of the field. The write goes through the unchecked index, so every
     * bound's index must lie within the field.
     */
    method PointBounds(bounds: seq<Cell>)
      requires Valid()
      requires forall b :: b in bounds ==> Index(b, flow.width) < |flow.data|
      modifies flow
      ensures Valid() && flow.width == old(flow.width) && flow.height == old(flow.height)
      ensures flow.data == BoundsFlow(old(flow.data), bounds, flow.Center(), flow.width)
    {
      var center := flow.Center();
      var k := 0;
      while k < |bounds|
        invariant Valid() && flow.width == old(flow.width) && flow.height == old(flow.height)
        invariant 0 <= k <= |bounds|
        invariant flow.data == BoundsFlow(old(flow.data), bounds[..k], center, flow.width)
      {
        var cell := bounds[k];
        assert bounds[..k + 1][..k] == bounds[..k];
        flow.Set(cell, FromVec(center.x - cell.x, center.y - cell.y));
        k := k + 1;
      }
      assert bounds[..k] == bounds;
    }

    /**
     * `FlowField::build` over the obstacle field `obstacle` (of the same
     * size), the obstacles with their origin and footprint, and the border
     * cells `bounds`. Afterwards the heap is empty; the Goal cells are
     * exactly the valid cells among `goals`; every cell is settled (no move
     * the search considers improves any cost); and the flow is the search's
     * directions `searched`, which each explain their cell's cost, redrawn
     * by the obstacle pass and then by the bounds pass.
     */
    method Build(goals: seq<Cell>, obstacle: Obst.ObstacleField, obstacles: seq<(Cell, seq<Cell>)>, bounds: seq<Cell>)
      returns (ghost searched: seq<Direction>)
      requires Valid() && obstacle.Valid()
      requires obstacle.field.width == integration.width && obstacle.field.height == integration.height
      requires integration.width * integration.height < ISIZE_LIMIT
      requires forall b :: b in bounds ==> Index(b, integration.width) < integration.width * integration.height
      modifies flow, integration, heap, heap.contains
      ensures Valid() && heap.entries == []
      ensures integration.width == old(integration.width) && integration.height == old(integration.height)
      ensures var t := Terrain(obstacle.field.data, integration.width, integration.height, agent);
              TerrainValid(t) &&
              (forall c :: InBounds(c, t.width, t.height) ==>
                 (At(integration.data, c, t.width, t.height) == Goal <==> c in goals) &&
                 (CostEq(At(integration.data, c, t.width, t.height), Goal) <==> c in goals) &&
                 Settled(t, integration.data, c)) &&
              |searched| == |flow.data| &&
              FlowEdges(t, integration.data, searched) &&
              flow.data == BoundsFlow(ObstacleFlow(integration.data, obstacles, searched, t.width, t.height),
                                      bounds, flow.Center(), t.width)
    {
      var t := Terrain(obstacle.field.data, integration.width, integration.height, agent);
      var w, h := t.width, t.height;
      Reset();
      heap.Clear();
      assert forall c :: !heap.InHeap(c);
      Seed(goals);
      ghost var I2, F2 := integration.data, flow.data;
      forall c | InBounds(c, w, h)
        ensures (At(I2, c, w, h) == Goal <==> c in goals) && At(I2, c, w, h) != Traversable(0)
        ensures (At(I2, c, w, h) == Goal || At(I2, c, w, h) == Blocked) && At(F2, c, w, h) == Direction.None
      {
        IndexInRange(c, w, h);
      }
      forall c | InBounds(c, w, h) && !heap.InHeap(c) ensures Settled(t, I2, c) {
        BlockedIsSettled(t, I2, c);
      }
      Propagate(t);
      ghost var I3 := integration.data;
      searched := flow.data;
      forall c | InBounds(c, w, h)
        ensures (At(I3, c, w, h) == Goal <==> c in goals) && (CostEq(At(I3, c, w, h), Goal) <==> c in goals)
      {
      }
      PointObstacles(t, obstacles);
      ObstacleFlowIs(integration.data, obstacles, searched, flow.data, w, h);
      ghost var F4 := flow.data;
      PointBounds(bounds);
      assert integration.data == I3 && integration.width == w && integration.height == h;
    }
  }

  /** A Blocked cell offers nothing below any cost: it is settled. */
  lemma BlockedIsSettled(t: Terrain, I: seq<IntegrationCost>, c: Cell)
    requires TerrainValid(t) && |I| == t.width * t.height && InBounds(c, t.width, t.height)
    requires At(I, c, t.width, t.height) == Blocked
    ensures Settled(t, I, c)
  {
  }

  // ---------------------------------------------------------------------
  // The obstacle and bounds passes
  // ---------------------------------------------------------------------

  /**
   * The direction the obstacle loop gives a footprint cell: towards the
   * origin when the cell is Goal (a branch the loop's own guard rules
   * out), away from it otherwise, through `normalize_or_zero` and
   * `Direction::from_vec`.
   */
  function ObstacleDirection(I: seq<IntegrationCost>, c: Cell, origin: Cell, width: nat, height: nat): (d: Direction)
    requires |I| == width * height && InBounds(c, width, height)
    ensures !CostEq(At(I, c, width, height), Goal) ==> d == FromVec(c.x - origin.x, c.y - origin.y)
  {
    if CostEq(At(I, c, width, height), Goal) then FromVec(origin.x - c.x, origin.y - c.y)
    else FromVec(c.x - origin.x, c.y - origin.y)
  }

  /**
   * The direction of the valid cell `c` after the obstacle loop over
   * `obstacles` (origin and footprint), starting from `prev`: the last
   * obstacle whose footprint holds `c` decides, unless `c` is a goal.
   */
  function ObstacleFlowAt(I: seq<IntegrationCost>, obstacles: seq<(Cell, seq<Cell>)>, c: Cell, prev: Direction,
                          width: nat, height: nat): Direction
    requires |I| == width * height && InBounds(c, width, height)
    decreases |obstacles|
  {
    if obstacles == [] then prev
    else
      var last := obstacles[|obstacles| - 1];
      if c in last.1 && !CostEq(At(I, c, width, height), Goal) then ObstacleDirection(I, c, last.0, width, height)
      else ObstacleFlowAt(I, obstacles[..|obstacles| - 1], c, prev, width, height)
  }

  /** The position of the last obstacle whose footprint holds `c`, or -1 when none does. */
  function LastCovering(obstacles: seq<(Cell, seq<Cell>)>, c: Cell): (k: int)
    ensures -1 <= k < |obstacles|
    ensures k >= 0 ==> c in obstacles[k].1
    ensures forall j :: k < j < |obstacles| ==> c !in obstacles[j].1
    decreases |obstacles|
  {
    if obstacles == [] then -1
    else if c in obstacles[|obstacles| - 1].1 then |obstacles| - 1
    else LastCovering(obstacles[..|obstacles| - 1], c)
  }

  /**
   * The obstacle loop leaves goal cells and cells of no footprint as they
   * were, and turns any other cell away from the origin of the last
   * obstacle covering it.
   */
  lemma {:induction false} ObstacleFlowFacts(I: seq<IntegrationCost>, obstacles: seq<(Cell, seq<Cell>)>, c: Cell,
                                             prev: Direction, width: nat, height: nat)
    requires |I| == width * height && InBounds(c, width, height)
    ensures var k := LastCovering(obstacles, c);
            ObstacleFlowAt(I, obstacles, c, prev, width, height) ==
              if CostEq(At(I, c, width, height), Goal) || k < 0 then prev
              else FromVec(c.x - obstacles[k].0.x, c.y - obstacles[k].0.y)
    decreases |obstacles|
  {
    if obstacles != [] {
      var n := |obstacles| - 1;
      ObstacleFlowFacts(I, obstacles[..n], c, prev, width, height);
    }
  }

  /**
   * A cell the obstacle loop redirects points away from that obstacle's
   * origin: no direction only at the origin itself, and otherwise each
   * non-zero component of the direction has the sign of the cell's offset
   * from the origin.
   */
  lemma ObstacleFlowPointsAway(I: seq<IntegrationCost>, obstacles: seq<(Cell, seq<Cell>)>, c: Cell,
                               prev: Direction, width: nat, height: nat)
    requires |I| == width * height && InBounds(c, width, height)
    requires !CostEq(At(I, c, width, height), Goal) && LastCovering(obstacles, c) >= 0
    ensures var o := obstacles[LastCovering(obstacles, c)].0;
            var d := ObstacleFlowAt(I, obstacles, c, prev, width, height);
            (d == Direction.None <==> c == o) &&
            (AsI32x2(d).0 != 0 ==> AsI32x2(d).0 == Sign(c.x - o.x)) &&
            (AsI32x2(d).1 != 0 ==> AsI32x2(d).1 == Sign(c.y - o.y))
  {
    ObstacleFlowFacts(I, obstacles, c, prev, width, height);
    var o := obstacles[LastCovering(obstacles, c)].0;
    var dx, dy := c.x - o.x, c.y - o.y;
    assert ObstacleFlowAt(I, obstacles, c, prev, width, height) == FromVec(dx, dy);
    FromVecFacts(dx, dy);
    assert dx == 0 && dy == 0 <==> c == o;
  }

  /** The obstacle loop's result for the slot `i`, the cell `Cell::from_index(i, width)`. */
  function ObstacleSlot(I: seq<IntegrationCost>, obstacles: seq<(Cell, seq<Cell>)>, F: seq<Direction>, i: nat,
                        width: nat, height: nat): Direction
    requires |I| == width * height && |F| == width * height && i < width * height
  {
    FromIndexInBounds(i, width, height);
    ObstacleFlowAt(I, obstacles, FromIndex(i, width), F[i], width, height)
  }

  /** The whole direction grid after the obstacle loop, from the grid `F` before it. */
  function ObstacleFlow(I: seq<IntegrationCost>, obstacles: seq<(Cell, seq<Cell>)>, F: seq<Direction>,
                        width: nat, height: nat): (r: seq<Direction>)
    requires |I| == width * height && |F| == width * height
    ensures |r| == width * height
  {
    seq(width * height, i requires 0 <= i < width * height => ObstacleSlot(I, obstacles, F, i, width, height))
  }

  /** A grid that agrees with `ObstacleFlowAt` on every valid cell is `ObstacleFlow`. */
  lemma ObstacleFlowIs(I: seq<IntegrationCost>, obstacles: seq<(Cell, seq<Cell>)>, F: seq<Direction>, G: seq<Direction>,
                       width: nat, height: nat)
    requires |I| == width * height && |F| == width * height && |G| == width * height
    requires forall c :: InBounds(c, width, height) ==>
               At(G, c, width, height) == ObstacleFlowAt(I, obstacles, c, At(F, c, width, height), width, height)
    ensures G == ObstacleFlow(I, obstacles, F, width, height)
  {
    var r := ObstacleFlow(I, obstacles, F, width, height);
    forall i | 0 <= i < width * height ensures G[i] == r[i] {
      FromIndexInBounds(i, width, height);
      IndexOfFromIndex(i, width);
      var c := FromIndex(i, width);
      assert At(G, c, width, height) == G[i] && At(F, c, width, height) == F[i];
    }
  }

  /**
   * The direction grid after the bounds loop: each bound cell in turn
   * writes, at its row-major index, the direction from it towards
   * `center`.
   */
  function BoundsFlow(F: seq<Direction>, bounds: seq<Cell>, center: Cell, width: nat): (r: seq<Direction>)
    requires forall b :: b in bounds ==> Index(b, width) < |F|
    ensures |r| == |F|
    decreases |bounds|
  {
    if bounds == [] then F
    else
      var b := bounds[|bounds| - 1];
      assert forall x :: x in bounds[..|bounds| - 1] ==> x in bounds;
      BoundsFlow(F, bounds[..|bounds| - 1], center, width)[Index(b, width) := FromVec(center.x - b.x, center.y - b.y)]
  }

  /**
   * When every bound is a valid cell, the bounds loop points exactly the
   * bound cells towards the centre (never `None` except at the centre
   * itself) and leaves every other cell as it was.
   */
  lemma {:induction false} BoundsFlowAt(F: seq<Direction>, bounds: seq<Cell>, center: Cell, width: nat, height: nat,
                                        c: Cell)
    requires |F| == width * height && InBounds(c, width, height)
    requires forall b :: b in bounds ==> InBounds(b, width, height)
    ensures forall b :: b in bounds ==> Index(b, width) < |F|
    ensures At(BoundsFlow(F, bounds, center, width), c, width, height) ==
              if c in bounds then FromVec(center.x - c.x, center.y - c.y) else At(F, c, width, height)
    ensures c in bounds ==>
              (At(BoundsFlow(F, bounds, center, width), c, width, height) == Direction.None <==> c == center)
    decreases |bounds|
  {
    forall b | b in bounds ensures Index(b, width) < |F| {
      IndexInRange(b, width, height);
    }
    if bounds != [] {
      var n := |bounds| - 1;
      var b := bounds[n];
      assert b in bounds;
      assert forall x :: x in bounds <==> x in bounds[..n] || x == b;
      BoundsFlowAt(F, bounds[..n], center, width, height, c);
      IndexInRange(b, width, height);
      IndexInRange(c, width, height);
      if c != b && Index(c, width) == Index(b, width) {
        IndexInjective(c, b, width);
      }
    }
    FromVecFacts(center.x - c.x, center.y - c.y);
  }

  /**
   * A bound one column past the right edge is not a valid cell, yet its
   * unchecked index is that of the first cell of the next row, which the
   * bounds loop then redirects.
   */
  lemma BoundPastEdgeAliases(F: seq<Direction>, center: Cell, width: nat, height: nat, y: nat)
    requires |F| == width * height && width > 0 && y + 1 < height
    ensures !InBounds(Cell(width, y), width, height) && InBounds(Cell(0, y + 1), width, height)
    ensures Index(Cell(width, y), width) < |F|
    ensures At(BoundsFlow(F, [Cell(width, y)], center, width), Cell(0, y + 1), width, height) ==
              FromVec(center.x - width, center.y - y)
  {
    IndexInRange(Cell(0, y + 1), width, height);
    assert [Cell(width, y)][..0] == [];
  }

  /**
   * When a step keeps every non-improving move from `cell` non-improving
   * and leaves the move to `ns[k]` non-improving, the first `k + 1` moves
   * of `ns` are all non-improving.
   */
  lemma PrefixCleared(t: Terrain, I1: seq<IntegrationCost>, I2: seq<IntegrationCost>, cell: Cell, ns: seq<Cell>, k: nat)
    requires TerrainValid(t) && |I1| == t.width * t.height && |I2| == t.width * t.height
    requires InBounds(cell, t.width, t.height) && k < |ns|
    requires forall n :: n in ns ==> InBounds(n, t.width, t.height)
    requires forall j :: 0 <= j < k ==> !ImprovesAt(t, I1, cell, ns[j])
    requires forall m :: InBounds(m, t.width, t.height) && !ImprovesAt(t, I1, cell, m) ==> !ImprovesAt(t, I2, cell, m)
    requires !ImprovesAt(t, I2, cell, ns[k])
    ensures forall j :: 0 <= j < k + 1 ==> !ImprovesAt(t, I2, cell, ns[j])
  {
    forall j | 0 <= j < k + 1 ensures !ImprovesAt(t, I2, cell, ns[j]) {
      assert ns[j] in ns;
    }
  }

  /** Lowering twice is lowering. */
  lemma LoweredTransitive(a: seq<IntegrationCost>, b: seq<IntegrationCost>, c: seq<IntegrationCost>, width: nat, height: nat)
    requires |a| == width * height && |b| == width * height && |c| == width * height
    requires Lowered(a, b, width, height) && Lowered(b, c, width, height)
    ensures Lowered(a, c, width, height)
  {
  }

  /** Lowering one cell to a non-zero Traversable cost lowers the grid and creates no free cell. */
  lemma LoweredByRelax(I: seq<IntegrationCost>, n: Cell, v: IntegrationCost, width: nat, height: nat)
    requires |I| == width * height && InBounds(n, width, height)
    requires v.Traversable? && v.value >= 1 && CostOf(v) < CostOf(At(I, n, width, height))
    requires OnlyGoalsFree(I, width, height)
    ensures Lowered(I, Put(I, n, v, width, height), width, height)
    ensures OnlyGoalsFree(Put(I, n, v, width, height), width, height)
  {
    forall c | InBounds(c, width, height)
      ensures CostOf(At(Put(I, n, v, width, height), c, width, height)) <= CostOf(At(I, c, width, height))
      ensures At(Put(I, n, v, width, height), c, width, height) == Goal <==> At(I, c, width, height) == Goal
      ensures At(Put(I, n, v, width, height), c, width, height) != Traversable(0)
    {
      AtPut(I, n, v, c, width, height);
    }
  }

  /** After relaxing `n` from `cell`, every direction still explains its cost. */
  lemma FlowEdgesByRelax(t: Terrain, I: seq<IntegrationCost>, F: seq<Direction>, cell: Cell, n: Cell,
                         v: IntegrationCost, back: Direction)
    requires TerrainValid(t) && |I| == t.width * t.height && |F| == t.width * t.height
    requires InBounds(cell, t.width, t.height) && n in Relaxed(t, cell)
    requires v == Offer(t, I, cell, n) && v.Traversable? && IsTraversable(t, n)
    requires CostLt(v, At(I, n, t.width, t.height))
    requires Neighbor(n, back) == Some(cell)
    requires FlowEdges(t, I, F)
    ensures FlowEdges(t, Put(I, n, v, t.width, t.height), Put(F, n, back, t.width, t.height))
  {
    var w, h := t.width, t.height;
    forall c | InBounds(c, w, h) ensures FlowEdge(t, Put(I, n, v, w, h), Put(F, n, back, w, h), c) {
      if c != n {
        FlowEdgeAfterLowering(t, I, F, c, n, v, back);
      } else {
        FlowEdgeOfRelaxed(t, I, F, cell, n, v, back);
      }
    }
  }

  /** The relaxed cell's own direction explains its new cost. */
  lemma FlowEdgeOfRelaxed(t: Terrain, I: seq<IntegrationCost>, F: seq<Direction>, cell: Cell, n: Cell,
                          v: IntegrationCost, back: Direction)
    requires TerrainValid(t) && |I| == t.width * t.height && |F| == t.width * t.height
    requires InBounds(cell, t.width, t.height) && n in Relaxed(t, cell)
    requires v == Offer(t, I, cell, n) && v.Traversable? && IsTraversable(t, n)
    requires Neighbor(n, back) == Some(cell)
    ensures FlowEdge(t, Put(I, n, v, t.width, t.height), Put(F, n, back, t.width, t.height), n)
  {
    var w, h := t.width, t.height;
    var I1, F1 := Put(I, n, v, w, h), Put(F, n, back, w, h);
    var m := Manhattan(cell, n);
    assert 1 <= m <= 2;
    assert cell != n;
    AtPut(I, n, v, cell, w, h);
    AtPut(I, n, v, n, w, h);
    AtPut(F, n, back, n, w, h);
    assert At(F1, n, w, h) == back;
    assert At(I1, cell, w, h) == At(I, cell, w, h);
    assert v.value == SatAdd(CostOf(At(I, cell, w, h)), m % 65536);
    SmallDistanceCast(m);
  }

  /** What a relaxed neighbour can be offered: Goal if it is not traversable, a non-zero cost if it is. */
  lemma OfferPositive(t: Terrain, I: seq<IntegrationCost>, cell: Cell, n: Cell)
    requires TerrainValid(t) && |I| == t.width * t.height
    requires InBounds(cell, t.width, t.height) && n in Relaxed(t, cell)
    ensures !IsTraversable(t, n) ==> Offer(t, I, cell, n) == Goal
    ensures IsTraversable(t, n) ==> Offer(t, I, cell, n).Traversable? && Offer(t, I, cell, n).value >= 1
  {
    var m := Manhattan(cell, n);
    assert 1 <= m <= 2;
    SmallDistanceCast(m);
  }

  /** A distance of one or two steps survives `as u16`. */
  lemma SmallDistanceCast(m: nat)
    requires m <= 2
    ensures m % 65536 == m
  {
  }

  /**
   * After relaxing `n` from `cell`, that move no longer improves, no move
   * out of `cell` that did not improve does, and every other settled cell
   * stays settled.
   */
  lemma SettledByRelax(t: Terrain, I: seq<IntegrationCost>, cell: Cell, n: Cell, v: IntegrationCost)
    requires TerrainValid(t) && |I| == t.width * t.height
    requires InBounds(cell, t.width, t.height) && n in Relaxed(t, cell)
    requires v == Offer(t, I, cell, n) && CostLt(v, At(I, n, t.width, t.height))
    requires v.Traversable? && v.value >= 1
    ensures !ImprovesAt(t, Put(I, n, v, t.width, t.height), cell, n)
    ensures forall m :: InBounds(m, t.width, t.height) && !ImprovesAt(t, I, cell, m) ==>
              !ImprovesAt(t, Put(I, n, v, t.width, t.height), cell, m)
    ensures forall c :: InBounds(c, t.width, t.height) && c != n && Settled(t, I, c) ==>
              Settled(t, Put(I, n, v, t.width, t.height), c)
  {
    var w, h := t.width, t.height;
    var I1 := Put(I, n, v, w, h);
    assert cell != n;
    AtPut(I, n, v, cell, w, h);
    AtPut(I, n, v, n, w, h);
    forall m | InBounds(m, w, h) && !ImprovesAt(t, I, cell, m) ensures !ImprovesAt(t, I1, cell, m) {
      AtPut(I, n, v, m, w, h);
    }
    forall c | InBounds(c, w, h) && c != n && Settled(t, I, c) ensures Settled(t, I1, c) {
      forall m | m in Relaxed(t, c) ensures !ImprovesAt(t, I1, c, m) {
        NotImprovesAfterLowering(t, I, c, m, n, v);
      }
    }
  }

  /** Lowering the cost of a cell other than `c` cannot make a move out of `c` improving again. */
  lemma NotImprovesAfterLowering(t: Terrain, I: seq<IntegrationCost>, c: Cell, m: Cell, n: Cell, v: IntegrationCost)
    requires TerrainValid(t) && |I| == t.width * t.height
    requires InBounds(c, t.width, t.height) && InBounds(m, t.width, t.height) && InBounds(n, t.width, t.height)
    requires c != n && CostOf(v) <= CostOf(At(I, n, t.width, t.height)) && v != Goal
    requires !ImprovesAt(t, I, c, m)
    ensures !ImprovesAt(t, Put(I, n, v, t.width, t.height), c, m)
  {
    AtPut(I, n, v, c, t.width, t.height);
    AtPut(I, n, v, m, t.width, t.height);
  }

  // ---------------------------------------------------------------------
  // The build system
  // ---------------------------------------------------------------------

  /**
   * The goals of one flow field: the cells of its expanded footprint when
   * it has one with cells, its own cell when it has no footprint and a
   * valid cell index; in every other case the field is skipped (`None`).
   */
  function BuildGoals(footprint: Option<ExpandedFootprint>, index: CellIndex): (r: Option<seq<Cell>>)
    ensures footprint.Some? ==> (r.Some? <==> footprint.value.CellsExpanded?)
    ensures footprint.Some? && r.Some? ==> r.value == footprint.value.cells
    ensures footprint.None? ==> (r.Some? <==> index.Valid?)
    ensures footprint.None? && r.Some? ==> r.value == [index.cell]
  {
    match footprint
    case Some(CellsExpanded(cells)) => Some(cells)
    case None => if index.Valid? then Some([index.cell]) else Option.None
    case _ => Option.None
  }

  /**
   * The obstacles handed to `build`: in order, the origin cell and
   * footprint of each obstacle whose footprint has cells and whose cell
   * index is valid; the others are dropped.
   */
  function ObstacleInputs(obstacles: seq<(ExpandedFootprint, CellIndex)>): (r: seq<(Cell, seq<Cell>)>)
    ensures |r| <= |obstacles|
    ensures forall o :: o in r <==>
              exists k :: 0 <= k < |obstacles| && obstacles[k].0.CellsExpanded? && obstacles[k].1.Valid? &&
                o == (obstacles[k].1.cell, obstacles[k].0.cells)
  {
    if obstacles == [] then []
    else
      var rest := ObstacleInputs(obstacles[1..]);
      var (footprint, index) := obstacles[0];
      var head := if footprint.CellsExpanded? && index.Valid? then [(index.cell, footprint.cells)] else [];
      assert forall o :: o in rest <==>
               exists k :: 1 <= k < |obstacles| && obstacles[k].0.CellsExpanded? && obstacles[k].1.Valid? &&
                 o == (obstacles[k].1.cell, obstacles[k].0.cells) by {
        forall o ensures o in rest ==> exists k :: 1 <= k < |obstacles| && obstacles[k].0.CellsExpanded? &&
                                        obstacles[k].1.Valid? && o == (obstacles[k].1.cell, obstacles[k].0.cells) {
          if o in rest {
            var k :| 0 <= k < |obstacles[1..]| && obstacles[1..][k].0.CellsExpanded? && obstacles[1..][k].1.Valid? &&
                     o == (obstacles[1..][k].1.cell, obstacles[1..][k].0.cells);
            assert obstacles[k + 1] == obstacles[1..][k];
          }
        }
        forall o, k | 1 <= k < |obstacles| && obstacles[k].0.CellsExpanded? && obstacles[k].1.Valid? &&
                      o == (obstacles[k].1.cell, obstacles[k].0.cells)
          ensures o in rest
        {
          assert obstacles[1..][k - 1] == obstacles[k];
        }
      }
      head + rest
  }

  /**
   * The `build` system for one flow field: computes its goals and, unless
   * it is skipped, rebuilds it over the obstacle field, the filtered
   * obstacles and the field bounds.
   */
  method BuildSystemOne(field: FlowField, footprint: Option<ExpandedFootprint>, index: CellIndex,
                        obstacle: Obst.ObstacleField, obstacles: seq<(ExpandedFootprint, CellIndex)>, bounds: seq<Cell>)
    requires field.Valid() && obstacle.Valid()
    requires obstacle.field.width == field.integration.width && obstacle.field.height == field.integration.height
    requires field.integration.width * field.integration.height < ISIZE_LIMIT
    requires forall b :: b in bounds ==> Index(b, field.integration.width) < field.integration.width * field.integration.height
    modifies field.flow, field.integration, field.heap, field.heap.contains
    ensures field.Valid()
    ensures BuildGoals(footprint, index).None? ==>
              field.flow.data == old(field.flow.data) && field.integration.data == old(field.integration.data)
    ensures BuildGoals(footprint, index).Some? ==>
              forall c :: InBounds(c, field.integration.width, field.integration.height) ==>
                (At(field.integration.data, c, field.integration.width, field.integration.height) == Goal <==>
                   c in BuildGoals(footprint, index).value)
  {
    var goals := BuildGoals(footprint, index);
    if goals.None? {
      return;
    }
    var _ := field.Build(goals.value, obstacle, ObstacleInputs(obstacles), bounds);
  }
}
