/**
 * The obstacle field of the warband flow-field navigation: one `Cost` per
 * cell telling which agent radii fit there, cleared and then "splatted"
 * with each obstacle's expanded footprint for one agent radius.
 */
module WbNavObstacleField {
  import opened WbNavGrid
  import opened WbNavAgent
  import opened WbNavFootprint

  /** `Cost`, with the derived order `Blocked < Traversable(Small) < ... < Traversable(Huge)`. */
  datatype Cost = Blocked | Traversable(radius: AgentRadius)

  /** Position of a cost in the derived order. */
  function CostRank(c: Cost): nat {
    match c
    case Blocked => 0
    case Traversable(r) => 1 + Rank(r)
  }

  /** `Cost::default`: traversable by the largest radius. */
  const DEFAULT_COST: Cost := Traversable(LARGEST)

  /** `Cost::traversable`: the cost lets radii up to its own through. */
  predicate CostTraversable(c: Cost, r: AgentRadius) {
    c.Traversable? && RadiusLe(r, c.radius)
  }

  /**
   * Traversability is downward closed in the radius, every radius fits
   * through the default cost, which is the greatest cost, and a cost lets a
   * radius through exactly when it ranks above it.
   */
  lemma TraversableDownwardClosed(c: Cost, a: AgentRadius, b: AgentRadius)
    ensures CostTraversable(c, a) && RadiusLe(b, a) ==> CostTraversable(c, b)
    ensures CostTraversable(DEFAULT_COST, a)
    ensures CostRank(c) <= CostRank(DEFAULT_COST)
    ensures CostTraversable(c, a) <==> CostRank(c) > Rank(a)
  {
  }

  /**
   * `expanded_traversable`: the cost written to an agent radius's expanded
   * obstacle footprints. Exactly the strictly smaller radii fit through it,
   * so the smallest radius's cells are blocked.
   */
  function ExpandedTraversable(a: AgentRadius): (c: Cost)
    ensures forall b :: CostTraversable(c, b) <==> Rank(b) < Rank(a)
    ensures c == Blocked <==> a == Small
  {
    match a
    case Small => Blocked
    case Medium => Traversable(Small)
    case Large => Traversable(Medium)
    case Huge => Traversable(Large)
  }

  /** The cells of every `Cells` expanded footprint, in order. */
  function ExpandedCells(obstacles: seq<ExpandedFootprint>): (r: seq<Cell>)
    ensures forall c :: c in r <==> exists i :: 0 <= i < |obstacles| && obstacles[i].CellsExpanded? && c in obstacles[i].cells
  {
    if obstacles == [] then []
    else
      var rest := ExpandedCells(obstacles[1..]);
      assert forall i :: 1 <= i < |obstacles| ==> obstacles[i] == obstacles[1..][i - 1];
      assert forall i :: 0 <= i < |obstacles| - 1 ==> obstacles[1..][i] == obstacles[i + 1];
      match obstacles[0]
      case CellsExpanded(cells) => cells + rest
      case EmptyExpanded => rest
  }

  /** `ObstacleField`: a `Field<Cost>` resource. */
  class ObstacleField {
    const field: Field<Cost>

    ghost predicate Valid()
      reads this, field
    {
      field.Valid()
    }

    /** The cost stored for a valid cell. */
    ghost function CostAt(c: Cell): Cost
      reads this, field
      requires Valid() && InBounds(c, field.width, field.height)
    {
      At(field.data, c, field.width, field.height)
    }

    /** `ObstacleField::from_layout`: a `width x height` field of default costs. */
    constructor (width: nat, height: nat)
      ensures Valid() && fresh(field) && field.width == width && field.height == height
      ensures forall i :: 0 <= i < |field.data| ==> field.data[i] == DEFAULT_COST
    {
      field := new Field(width, height, seq(width * height, _ => DEFAULT_COST));
    }

    /** `ObstacleField::traversable`: whether a radius fits through the cell, read through the unchecked index. */
    function IsTraversable(c: Cell, r: AgentRadius): (b: bool)
      reads this, field
      requires Valid() && InBounds(c, field.width, field.height)
      ensures b <==> CostTraversable(CostAt(c), r)
      ensures b ==> forall smaller :: RadiusLe(smaller, r) ==> CostTraversable(CostAt(c), smaller)
    {
      IndexInRange(c, field.width, field.height);
      var cost := field.data[Index(c, field.width)];
      cost.Traversable? && RadiusLe(r, cost.radius)
    }

    /** `ObstacleField::clear`: every cell back to the default cost. */
    method Clear()
      requires Valid()
      modifies field
      ensures Valid() && field.width == old(field.width) && field.height == old(field.height)
      ensures forall i :: 0 <= i < |field.data| ==> field.data[i] == DEFAULT_COST
    {
      var i := 0;
      while i < field.width * field.height
        invariant Valid() && field.width == old(field.width) && field.height == old(field.height)
        invariant 0 <= i <= |field.data|
        invariant forall j :: 0 <= j < i ==> field.data[j] == DEFAULT_COST
      {
        field.data := field.data[i := DEFAULT_COST];
        i := i + 1;
      }
    }

    /**
     * `ObstacleField::splat`: writes `cost` to every valid listed cell and
     * skips the invalid ones; cells not listed keep their cost.
     */
    method Splat(cells: seq<Cell>, cost: Cost)
      requires Valid()
      modifies field
      ensures Valid() && field.width == old(field.width) && field.height == old(field.height)
      ensures forall c :: InBounds(c, field.width, field.height) ==>
                CostAt(c) == if c in cells then cost else old(CostAt(c))
    {
      var k := 0;
      while k < |cells|
        invariant Valid() && field.width == old(field.width) && field.height == old(field.height)
        invariant k <= |cells|
        invariant forall c :: InBounds(c, field.width, field.height) ==>
                    CostAt(c) == if c in cells[..k] then cost else old(CostAt(c))
      {
        var cell := cells[k];
        if InBounds(cell, field.width, field.height) {
          ghost var before := field.data;
          IndexInRange(cell, field.width, field.height);
          field.data := field.data[Index(cell, field.width) := cost];
          forall c | InBounds(c, field.width, field.height)
            ensures CostAt(c) == if c in cells[..k + 1] then cost else old(CostAt(c))
          {
            AtPut(before, cell, cost, c, field.width, field.height);
            assert field.data == Put(before, cell, cost, field.width, field.height);
            assert c in cells[..k + 1] <==> c in cells[..k] || c == cell;
          }
        } else {
          assert forall c :: InBounds(c, field.width, field.height) ==>
                   (c in cells[..k + 1] <==> c in cells[..k]);
        }
        k := k + 1;
      }
      assert cells[..k] == cells;
    }

    /**
     * The `splat<AGENT>` system: the cells of every obstacle's expanded
     * footprint get `expanded_traversable(AGENT)`; all other cells keep
     * their cost.
     */
    method SplatAgent(agent: AgentRadius, obstacles: seq<ExpandedFootprint>)
      requires Valid()
      modifies field
      ensures Valid() && field.width == old(field.width) && field.height == old(field.height)
      ensures forall c :: InBounds(c, field.width, field.height) ==>
                CostAt(c) == if c in ExpandedCells(obstacles) then ExpandedTraversable(agent) else old(CostAt(c))
    {
      var i := 0;
      while i < |obstacles|
        invariant Valid() && field.width == old(field.width) && field.height == old(field.height)
        invariant i <= |obstacles|
        invariant forall c :: InBounds(c, field.width, field.height) ==>
                    CostAt(c) == if c in ExpandedCells(obstacles[..i]) then ExpandedTraversable(agent) else old(CostAt(c))
      {
        match obstacles[i] {
          case CellsExpanded(cells) =>
            Splat(cells, ExpandedTraversable(agent));
          case EmptyExpanded =>
        }
        assert forall c :: c in ExpandedCells(obstacles[..i + 1]) <==>
                 c in ExpandedCells(obstacles[..i]) || (obstacles[i].CellsExpanded? && c in obstacles[i].cells) by {
          assert forall j :: 0 <= j < i ==> obstacles[..i + 1][j] == obstacles[..i][j];
        }
        i := i + 1;
      }
      assert obstacles[..i] == obstacles;
    }
  }

  /**
   * `clear` followed by `splat<AGENT>`: a valid cell blocks exactly the
   * radii of at least `AGENT`'s size when some obstacle's expanded
   * footprint covers it, and blocks nothing otherwise.
   */
  method ClearAndSplat(of: ObstacleField, agent: AgentRadius, obstacles: seq<ExpandedFootprint>)
    requires of.Valid()
    modifies of.field
    ensures of.Valid() && of.field.width == old(of.field.width) && of.field.height == old(of.field.height)
    ensures forall c, r :: InBounds(c, of.field.width, of.field.height) ==>
              (of.IsTraversable(c, r) <==> c !in ExpandedCells(obstacles) || Rank(r) < Rank(agent))
  {
    of.Clear();
    forall c | InBounds(c, of.field.width, of.field.height) ensures of.CostAt(c) == DEFAULT_COST {
      IndexInRange(c, of.field.width, of.field.height);
    }
    of.SplatAgent(agent, obstacles);
  }
}
