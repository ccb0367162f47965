/**
 * The motte obstacle field: one `Cost` per cell telling which agents fit
 * there, cleared and then "splatted" with each agent size's expanded
 * obstacle footprints and field bounds, from the largest size down to the
 * smallest.
 */
module MotteObstacleField {
  import opened MotteGrid
  import opened MotteAgent
  import opened MotteFootprint

  /** `Cost`, with the derived order `Blocked < Traversable(Small) < ... < Traversable(Huge)`. */
  datatype Cost = Blocked | Traversable(agent: Agent)

  /** Position of a cost in the derived order. */
  function CostRank(c: Cost): nat {
    match c
    case Blocked => 0
    case Traversable(a) => 1 + Rank(a)
  }

  /** `Cost::default`: traversable by the largest agent. */
  const DEFAULT_COST: Cost := Traversable(LARGEST)

  /** `Cost::traversable`: the cost lets agents up to a size through. */
  predicate CostTraversable(c: Cost, a: Agent) {
    c.Traversable? && AgentLe(a, c.agent)
  }

  /**
   * Traversability is downward closed in agent size, every agent fits
   * through the default cost, and the default is the greatest cost.
   */
  lemma TraversableDownwardClosed(c: Cost, a: Agent, b: Agent)
    ensures CostTraversable(c, a) && AgentLe(b, a) ==> CostTraversable(c, b)
    ensures CostTraversable(DEFAULT_COST, a)
    ensures CostRank(c) <= CostRank(DEFAULT_COST)
    ensures CostTraversable(c, a) <==> CostRank(c) > Rank(a)
  {
  }

  /**
   * `expanded_traversable`: the cost written to the cells that an agent's
   * expanded footprints and bounds cover. Exactly the strictly smaller
   * agents fit through it, so the smallest agent's cells are blocked.
   */
  function ExpandedTraversable(a: Agent): (c: Cost)
    ensures forall b :: CostTraversable(c, b) <==> Rank(b) < Rank(a)
    ensures c == Blocked <==> a == Small
  {
    match a
    case Small => Blocked
    case Medium => Traversable(Small)
    case Large => Traversable(Medium)
    case Huge => Traversable(Large)
  }

  /** The cells an agent size marks: its obstacles' expanded footprints, then its bounds. */
  function SplatCells(obstacles: seq<ExpandedFootprint>, bounds: seq<Cell>): (r: seq<Cell>)
    ensures forall c :: c in r <==>
              c in bounds || exists i :: 0 <= i < |obstacles| && obstacles[i].CellsExpanded? && c in obstacles[i].cells
  {
    if obstacles == [] then bounds
    else
      var rest := SplatCells(obstacles[1..], bounds);
      assert forall i :: 1 <= i < |obstacles| ==> obstacles[i] == obstacles[1..][i - 1];
      assert forall i :: 0 <= i < |obstacles| - 1 ==> obstacles[1..][i] == obstacles[i + 1];
      match obstacles[0]
      case CellsExpanded(cells) => cells + rest
      case EmptyExpanded => rest
  }

  /**
   * The cost a cell ends up with when the field is cleared and then
   * splatted for each size in `sizes` in turn (`covered(a)` being the cells
   * splatted for size `a`): the last size that covers it wins.
   */
  function LayeredCost(sizes: seq<Agent>, covered: Agent -> seq<Cell>, c: Cell): Cost {
    if sizes == [] then DEFAULT_COST
    else if c in covered(sizes[|sizes| - 1]) then ExpandedTraversable(sizes[|sizes| - 1])
    else LayeredCost(sizes[..|sizes| - 1], covered, c)
  }

  /**
   * With the splat order wired in the plugin (Huge, Large, Medium, Small),
   * an agent can pass a cell exactly when no agent of its size or smaller
   * has the cell in its expanded footprints or bounds.
   */
  lemma {:induction false} LayeredTraversable(covered: Agent -> seq<Cell>, c: Cell, a: Agent)
    ensures CostTraversable(LayeredCost(ALL, covered, c), a) <==>
              forall b :: AgentLe(b, a) ==> c !in covered(b)
  {
    var s3 := ALL[..3];
    var s2 := s3[..2];
    var s1 := s2[..1];
    assert s3 == [Huge, Large, Medium] && s2 == [Huge, Large] && s1 == [Huge];
    assert ALL[..|ALL| - 1] == s3 && s3[..|s3| - 1] == s2 && s2[..|s2| - 1] == s1 && s1[..0] == [];
    assert LayeredCost([], covered, c) == Traversable(Huge);
    var l1 := LayeredCost(s1, covered, c);
    assert l1 == if c in covered(Huge) then Traversable(Large) else Traversable(Huge);
    var l2 := LayeredCost(s2, covered, c);
    assert l2 == if c in covered(Large) then Traversable(Medium) else l1;
    var l3 := LayeredCost(s3, covered, c);
    assert l3 == if c in covered(Medium) then Traversable(Small) else l2;
    assert LayeredCost(ALL, covered, c) == if c in covered(Small) then Blocked else l3;
    if forall b :: AgentLe(b, a) ==> c !in covered(b) {
      assert c !in covered(Small);
    } else {
      var b :| AgentLe(b, a) && c in covered(b);
    }
  }

  /** `ObstacleField`: a `Field<Cost>` resource. */
  class ObstacleField {
    const field: Field<Cost>

    ghost predicate Valid()
      reads this, field
    {
      field.Valid()
    }

    /** The cost stored for a valid cell. */
    ghost function CostAt(c: Cell): Cost
      reads this, field
      requires Valid() && InBounds(c, field.width, field.height)
    {
      At(field.data, c, field.width, field.height)
    }

    /** `ObstacleField::from_layout`: a `width x height` field of default costs. */
    constructor (width: Scalar, height: Scalar)
      ensures Valid() && fresh(field) && field.width == width && field.height == height
      ensures forall i :: 0 <= i < |field.data| ==> field.data[i] == DEFAULT_COST
    {
      field := new Field(width, height, seq(width * height, _ => DEFAULT_COST));
    }

    /**
     * `ObstacleField::traversable`: whether `agent` fits through the cell,
     * read through the unchecked index.
     */
    function IsTraversable(c: Cell, agent: Agent): (b: bool)
      reads this, field
      requires Valid() && InBounds(c, field.width, field.height)
      ensures b <==> CostTraversable(CostAt(c), agent)
      ensures b ==> forall smaller :: AgentLe(smaller, agent) ==> CostTraversable(CostAt(c), smaller)
    {
      IndexInRange(c, field.width, field.height);
      var cost := field.data[Index(c, field.width)];
      cost.Traversable? && AgentLe(agent, cost.agent)
    }

    /** `ObstacleField::clear`: every cell back to the default cost. */
    method Clear()
      requires Valid()
      modifies field
      ensures Valid() && field.width == old(field.width) && field.height == old(field.height)
      ensures forall i :: 0 <= i < |field.data| ==> field.data[i] == DEFAULT_COST
    {
      var i := 0;
      while i < field.width * field.height
        invariant Valid() && field.width == old(field.width) && field.height == old(field.height)
        invariant 0 <= i <= |field.data|
        invariant forall j :: 0 <= j < i ==> field.data[j] == DEFAULT_COST
      {
        field.data := field.data[i := DEFAULT_COST];
        i := i + 1;
      }
    }

    /**
     * `ObstacleField::splat`: writes `cost` to every valid listed cell and
     * skips the invalid ones; cells not listed keep their cost.
     */
    method Splat(cells: seq<Cell>, cost: Cost)
      requires Valid()
      modifies field
      ensures Valid() && field.width == old(field.width) && field.height == old(field.height)
      ensures forall c :: InBounds(c, field.width, field.height) ==>
                CostAt(c) == if c in cells then cost else old(CostAt(c))
    {
      var k := 0;
      while k < |cells|
        invariant Valid() && field.width == old(field.width) && field.height == old(field.height)
        invariant k <= |cells|
        invariant forall c :: InBounds(c, field.width, field.height) ==>
                    CostAt(c) == if c in cells[..k] then cost else old(CostAt(c))
      {
        var cell := cells[k];
        if InBounds(cell, field.width, field.height) {
          ghost var before := field.data;
          IndexInRange(cell, field.width, field.height);
          field.data := field.data[Index(cell, field.width) := cost];
          forall c | InBounds(c, field.width, field.height)
            ensures CostAt(c) == if c in cells[..k + 1] then cost else old(CostAt(c))
          {
            AtPut(before, cell, cost, c, field.width, field.height);
            assert field.data == Put(before, cell, cost, field.width, field.height);
            assert c in cells[..k + 1] <==> c in cells[..k] || c == cell;
          }
        } else {
          assert forall c :: InBounds(c, field.width, field.height) ==>
                   (c in cells[..k + 1] <==> c in cells[..k]);
        }
        k := k + 1;
      }
      assert cells[..k] == cells;
    }

    /**
     * The `splat<AGENT>` system: the cells of every obstacle's expanded
     * footprint, and then the field bounds, get `expanded_traversable(AGENT)`.
     */
    method SplatAgent(agent: Agent, obstacles: seq<ExpandedFootprint>, bounds: seq<Cell>)
      requires Valid()
      modifies field
      ensures Valid() && field.width == old(field.width) && field.height == old(field.height)
      ensures forall c :: InBounds(c, field.width, field.height) ==>
                CostAt(c) == if c in SplatCells(obstacles, bounds) then ExpandedTraversable(agent) else old(CostAt(c))
    {
      var i := 0;
      while i < |obstacles|
        invariant Valid() && field.width == old(field.width) && field.height == old(field.height)
        invariant i <= |obstacles|
        invariant forall c :: InBounds(c, field.width, field.height) ==>
                    CostAt(c) == if c in SplatCells(obstacles[..i], []) then ExpandedTraversable(agent) else old(CostAt(c))
      {
        match obstacles[i] {
          case CellsExpanded(cells) =>
            Splat(cells, ExpandedTraversable(agent));
          case EmptyExpanded =>
        }
        assert forall c :: c in SplatCells(obstacles[..i + 1], []) <==>
                 c in SplatCells(obstacles[..i], []) || (obstacles[i].CellsExpanded? && c in obstacles[i].cells) by {
          assert forall j :: 0 <= j < i ==> obstacles[..i + 1][j] == obstacles[..i][j];
        }
        i := i + 1;
      }
      Splat(bounds, ExpandedTraversable(agent));
      assert obstacles[..i] == obstacles;
    }

    /**
     * The splat chain of the plugin: `clear`, then `splat<AGENT>` for Huge,
     * Large, Medium and Small. Every valid cell ends with the cost of the
     * last size that covers it, so an agent passes a cell exactly when no
     * agent of its size or smaller covers it.
     */
    method Rebuild(obstacles: Agent -> seq<ExpandedFootprint>, bounds: Agent -> seq<Cell>)
      requires Valid()
      modifies field
      ensures Valid() && field.width == old(field.width) && field.height == old(field.height)
      ensures forall c :: InBounds(c, field.width, field.height) ==>
                CostAt(c) == LayeredCost(ALL, a => SplatCells(obstacles(a), bounds(a)), c)
      ensures forall c, a :: InBounds(c, field.width, field.height) ==>
                (CostTraversable(CostAt(c), a) <==>
                   forall b :: AgentLe(b, a) ==> c !in SplatCells(obstacles(b), bounds(b)))
    {
      ghost var covered: Agent -> seq<Cell> := a => SplatCells(obstacles(a), bounds(a));
      Clear();
      assert forall c :: InBounds(c, field.width, field.height) ==> CostAt(c) == LayeredCost([], covered, c) by {
        forall c | InBounds(c, field.width, field.height) ensures CostAt(c) == DEFAULT_COST {
          IndexInRange(c, field.width, field.height);
        }
      }
      SplatAgent(Huge, obstacles(Huge), bounds(Huge));
      assert ALL[..1][..0] == [];
      assert forall c :: InBounds(c, field.width, field.height) ==> CostAt(c) == LayeredCost(ALL[..1], covered, c);
      SplatAgent(Large, obstacles(Large), bounds(Large));
      assert ALL[..2][..1] == ALL[..1];
      assert forall c :: InBounds(c, field.width, field.height) ==> CostAt(c) == LayeredCost(ALL[..2], covered, c);
      SplatAgent(Medium, obstacles(Medium), bounds(Medium));
      assert ALL[..3][..2] == ALL[..2];
      assert forall c :: InBounds(c, field.width, field.height) ==> CostAt(c) == LayeredCost(ALL[..3], covered, c);
      SplatAgent(Small, obstacles(Small), bounds(Small));
      assert ALL[..3] == ALL[..|ALL| - 1];
      forall c, a | InBounds(c, field.width, field.height)
        ensures CostTraversable(CostAt(c), a) <==> forall b :: AgentLe(b, a) ==> c !in SplatCells(obstacles(b), bounds(b))
      {
        LayeredTraversable(covered, c, a);
      }
    }
  }

  /**
   * The `changes` system: `DirtyObstacleField` is sent exactly when at least
   * one obstacle's footprint changed (`changed[i]` for obstacle `i`).
   */
  function SendsDirtyEvent(changed: seq<bool>): (send: bool)
    ensures send <==> exists i :: 0 <= i < |changed| && changed[i]
  {
    if changed == [] then false
    else if changed[0] then true
    else
      var rest := SendsDirtyEvent(changed[1..]);
      assert forall i :: 1 <= i < |changed| ==> changed[i] == changed[1..][i - 1];
      rest
  }
}
