/**
 * The obstacle cost field of the warband navigation: cleared every tick,
 * then each obstacle is ringed by its Manhattan dilations, with the
 * inner rings admitting smaller agent radii, and finally every obstacle
 * cell is blocked.
 */
module WbNavCostObstacle {
  import opened WbNavGrid
  import opened WbNavAgent
  import opened WbNavFootprint
  import opened WbNavObstacleField

  /** `expansion_from_radius`: `(r as f32 / 2 - 0.5) as usize`, i.e. `(r - 1) / 2`. */
  function ExpansionFromRadius(r: AgentRadius): (e: nat)
    ensures e as real == (AsF32(r) / 2.0 - 0.5).Floor as real
    ensures e == Rank(r)
  {
    (ToU8(r) - 1) / 2
  }

  /** The cells of `expand(e)` of a non-empty footprint. */
  function Ring(f: Footprint, e: nat): seq<Cell>
    requires f.Cells?
  {
    Expand(f, e).value
  }

  /**
   * The cost one obstacle leaves on cell `c`, which had `prev`: the rings
   * for Large (`expand(2)`), Medium (`expand(1)`) and Small (`expand(0)`)
   * are written in that order, so the innermost ring holding `c` wins.
   */
  function RingsOf(f: Footprint, c: Cell, prev: Cost): Cost {
    if f.Empty? then prev
    else if c in Ring(f, ExpansionFromRadius(Small)) then Traversable(Small)
    else if c in Ring(f, ExpansionFromRadius(Medium)) then Traversable(Medium)
    else if c in Ring(f, ExpansionFromRadius(Large)) then Traversable(Large)
    else prev
  }

  /** The cost of `c` after the ring pass over `fs`: the last obstacle whose rings hold `c` decides. */
  function AfterRings(fs: seq<Footprint>, c: Cell): Cost {
    if fs == [] then DEFAULT_COST
    else RingsOf(fs[|fs| - 1], c, AfterRings(fs[..|fs| - 1], c))
  }

  /** The base cells of every `Cells` footprint, in order. */
  function BaseCells(fs: seq<Footprint>): (r: seq<Cell>)
    ensures forall c :: c in r <==> exists i :: 0 <= i < |fs| && fs[i].Cells? && c in fs[i].cells
  {
    if fs == [] then []
    else
      var rest := BaseCells(fs[..|fs| - 1]);
      assert forall i :: 0 <= i < |fs| - 1 ==> fs[..|fs| - 1][i] == fs[i];
      match fs[|fs| - 1]
      case Cells(cells) => rest + cells
      case Empty => rest
  }

  /** The cost the `update` system leaves on `c`: blocked on a base cell, else the ring pass's cost. */
  function UpdatedCost(fs: seq<Footprint>, c: Cell): Cost {
    if c in BaseCells(fs) then Blocked else AfterRings(fs, c)
  }

  /**
   * The Manhattan distance within which the rings keep a radius out of an
   * obstacle: Huge within 2, Large within 1, Medium on the obstacle
   * itself, Small nowhere (-1).
   */
  function BlockDistance(a: AgentRadius): (d: int)
    ensures d == Rank(a) as int - 1
  {
    match a
    case Huge => 2
    case Large => 1
    case Medium => 0
    case Small => -1
  }

  /** The more restrictive of two costs. */
  function MinCost(a: Cost, b: Cost): (m: Cost)
    ensures m == a || m == b
    ensures CostRank(m) <= CostRank(a) && CostRank(m) <= CostRank(b)
  {
    if CostRank(a) <= CostRank(b) then a else b
  }

  /**
   * The ring pass as evidently intended: each obstacle's rings only ever
   * tighten a cell's cost, so the closest obstacle decides.
   */
  function StrictRings(f: Footprint, c: Cell, prev: Cost): Cost {
    MinCost(prev, RingsOf(f, c, DEFAULT_COST))
  }

  /** `cost` tightened to `ringCost` when the cell lies in the ring. */
  function Tighten(cost: Cost, inRing: bool, ringCost: Cost): Cost {
    if inRing then MinCost(cost, ringCost) else cost
  }

  /**
   * The corrected pass for one obstacle is the three ring writes, Large,
   * Medium and Small, each keeping the more restrictive cost.
   */
  lemma StrictRingsSteps(f: Footprint, c: Cell, prev: Cost)
    requires f.Cells?
    ensures StrictRings(f, c, prev) ==
              Tighten(Tighten(Tighten(prev, c in Ring(f, ExpansionFromRadius(Large)), Traversable(Large)),
                              c in Ring(f, ExpansionFromRadius(Medium)), Traversable(Medium)),
                      c in Ring(f, ExpansionFromRadius(Small)), Traversable(Small))
  {
  }

  /**
   * With a single obstacle the two passes agree: the overwrite order
   * within one obstacle already leaves its innermost ring's cost.
   */
  lemma SingleObstacleAgrees(f: Footprint, c: Cell)
    ensures AfterRings([f], c) == AfterStrictRings([f], c)
  {
    assert [f][..0] == [];
  }

  /** The cost of `c` after the corrected ring pass over `fs`. */
  function AfterStrictRings(fs: seq<Footprint>, c: Cell): Cost {
    if fs == [] then DEFAULT_COST
    else StrictRings(fs[|fs| - 1], c, AfterStrictRings(fs[..|fs| - 1], c))
  }

  /** The cost the corrected system leaves on `c`. */
  function CorrectedCost(fs: seq<Footprint>, c: Cell): Cost {
    if c in BaseCells(fs) then Blocked else AfterStrictRings(fs, c)
  }

  /** Every base cell of every obstacle can be dilated by 2 without reaching the `isize` limit. */
  ghost predicate Dilatable2(fs: seq<Footprint>) {
    forall i, b :: 0 <= i < |fs| && fs[i].Cells? && b in fs[i].cells ==> Dilatable(b, 2)
  }

  /** Whether some obstacle of `fs` has a base cell within Manhattan distance `d` of `c`. */
  ghost predicate Near(fs: seq<Footprint>, c: Cell, d: int) {
    exists i, b :: 0 <= i < |fs| && fs[i].Cells? && b in fs[i].cells && Manhattan(b, c) <= d
  }

  /** Whether footprint `f` has a base cell within Manhattan distance `d` of `c`. */
  ghost predicate NearOne(f: Footprint, c: Cell, d: int) {
    f.Cells? && exists b :: b in f.cells && Manhattan(b, c) <= d
  }

  /** A ring of a footprint far from the `isize` limit holds the `usize` cells within its distance. */
  lemma RingMembership(f: Footprint, e: nat, c: Cell)
    requires f.Cells? && e <= 2 && forall b :: b in f.cells ==> Dilatable(b, 2)
    requires c.x < USIZE_LIMIT && c.y < USIZE_LIMIT
    ensures c in Ring(f, e) <==> NearOne(f, c, e)
  {
    ExpandIsDiamond(f.cells, e, c);
  }

  /** One obstacle's rings, in terms of the distance from its cells. */
  lemma RingsOfByDistance(f: Footprint, c: Cell, prev: Cost)
    requires f.Cells? ==> forall b :: b in f.cells ==> Dilatable(b, 2)
    requires c.x < USIZE_LIMIT && c.y < USIZE_LIMIT
    ensures RingsOf(f, c, prev) ==
              if NearOne(f, c, 0) then Traversable(Small)
              else if NearOne(f, c, 1) then Traversable(Medium)
              else if NearOne(f, c, 2) then Traversable(Large)
              else prev
  {
    if f.Cells? {
      RingMembership(f, ExpansionFromRadius(Small), c);
      RingMembership(f, ExpansionFromRadius(Medium), c);
      RingMembership(f, ExpansionFromRadius(Large), c);
    }
  }

  /**
   * With the corrected pass, a radius passes a cell that is not an
   * obstacle cell exactly when no obstacle lies within its blocking
   * distance: the nearest obstacle decides.
   */
  lemma {:induction false} StrictRingsByDistance(fs: seq<Footprint>, c: Cell, a: AgentRadius)
    requires Dilatable2(fs) && c.x < USIZE_LIMIT && c.y < USIZE_LIMIT
    ensures CostTraversable(AfterStrictRings(fs, c), a) <==> !Near(fs, c, BlockDistance(a))
  {
    if fs != [] {
      var init := fs[..|fs| - 1];
      var f := fs[|fs| - 1];
      var d := BlockDistance(a);
      assert Dilatable2(init) by {
        forall i, b | 0 <= i < |init| && init[i].Cells? && b in init[i].cells ensures Dilatable(b, 2) {
          assert init[i] == fs[i];
        }
      }
      StrictRingsByDistance(init, c, a);
      OneObstacleByDistance(f, c, a);
      NearOfLast(fs, c, d);
    }
  }

  /** One obstacle's rings on their own keep a radius out exactly within its blocking distance. */
  lemma OneObstacleByDistance(f: Footprint, c: Cell, a: AgentRadius)
    requires f.Cells? ==> forall b :: b in f.cells ==> Dilatable(b, 2)
    requires c.x < USIZE_LIMIT && c.y < USIZE_LIMIT
    ensures CostTraversable(RingsOf(f, c, DEFAULT_COST), a) <==> !NearOne(f, c, BlockDistance(a))
  {
    RingsOfByDistance(f, c, DEFAULT_COST);
    NearOneMonotone(f, c);
    var cost := RingsOf(f, c, DEFAULT_COST);
    if NearOne(f, c, 0) {
      assert cost == Traversable(Small);
    } else if NearOne(f, c, 1) {
      assert cost == Traversable(Medium);
    } else if NearOne(f, c, 2) {
      assert cost == Traversable(Large);
    } else {
      assert cost == DEFAULT_COST;
    }
  }

  /** A cell near within distance `d` is near within any larger distance. */
  lemma NearOneMonotone(f: Footprint, c: Cell)
    ensures !NearOne(f, c, -1)
    ensures NearOne(f, c, 0) ==> NearOne(f, c, 1)
    ensures NearOne(f, c, 1) ==> NearOne(f, c, 2)
  {
  }

  /** Near some obstacle of `fs` means near one of its prefix or near its last obstacle. */
  lemma NearOfLast(fs: seq<Footprint>, c: Cell, d: int)
    requires fs != []
    ensures Near(fs, c, d) <==> Near(fs[..|fs| - 1], c, d) || NearOne(fs[|fs| - 1], c, d)
  {
    var init := fs[..|fs| - 1];
    if Near(fs, c, d) {
      var i, b :| 0 <= i < |fs| && fs[i].Cells? && b in fs[i].cells && Manhattan(b, c) <= d;
      if i < |init| {
        assert init[i] == fs[i];
      }
    }
    if Near(init, c, d) {
      var i, b :| 0 <= i < |init| && init[i].Cells? && b in init[i].cells && Manhattan(b, c) <= d;
      assert fs[i] == init[i];
    }
    if NearOne(fs[|fs| - 1], c, d) {
      var b :| b in fs[|fs| - 1].cells && Manhattan(b, c) <= d;
      assert Near(fs, c, d);
    }
  }

  /**
   * After the corrected system every obstacle cell is blocked for every
   * radius, and any other cell admits a radius exactly when no obstacle
   * lies within that radius's blocking distance.
   */
  lemma CorrectedCostByDistance(fs: seq<Footprint>, c: Cell, a: AgentRadius)
    requires Dilatable2(fs) && c.x < USIZE_LIMIT && c.y < USIZE_LIMIT
    ensures c in BaseCells(fs) ==> CorrectedCost(fs, c) == Blocked
    ensures c !in BaseCells(fs) ==> (CostTraversable(CorrectedCost(fs, c), a) <==> !Near(fs, c, BlockDistance(a)))
  {
    StrictRingsByDistance(fs, c, a);
  }

  /**
   * As written, a later obstacle's outer ring loosens an earlier
   * obstacle's inner ring: with obstacle `a` at distance 1 from `c` and a
   * later obstacle `b` at distance 2, `c` ends up traversable for Large,
   * although it lies within Large's blocking distance of `a`; the
   * corrected pass keeps it at Medium.
   */
  lemma LaterRingLoosens(a: Cell, b: Cell, c: Cell)
    requires Dilatable(a, 2) && Dilatable(b, 2) && IsizeSafe(c)
    requires Manhattan(a, c) == 1 && Manhattan(b, c) == 2
    ensures UpdatedCost([Cells([a]), Cells([b])], c) == Traversable(Large)
    ensures CostTraversable(UpdatedCost([Cells([a]), Cells([b])], c), Large)
    ensures Near([Cells([a]), Cells([b])], c, BlockDistance(Large))
    ensures CorrectedCost([Cells([a]), Cells([b])], c) == Traversable(Medium)
  {
    var fs := [Cells([a]), Cells([b])];
    PairRings(a, b, c);
    PairBase(a, b, c);
    assert fs[0].Cells? && a in fs[0].cells;
  }

  /** The ring passes over the two obstacles of `LaterRingLoosens`. */
  lemma PairRings(a: Cell, b: Cell, c: Cell)
    requires Dilatable(a, 2) && Dilatable(b, 2) && IsizeSafe(c)
    requires Manhattan(a, c) == 1 && Manhattan(b, c) == 2
    ensures AfterRings([Cells([a]), Cells([b])], c) == Traversable(Large)
    ensures AfterStrictRings([Cells([a]), Cells([b])], c) == Traversable(Medium)
  {
    var fa, fb := Cells([a]), Cells([b]);
    var fs := [fa, fb];
    assert fs[..1] == [fa] && [fa][..0] == [];
    assert !NearOne(fa, c, 0) && NearOne(fa, c, 1);
    assert !NearOne(fb, c, 1) && NearOne(fb, c, 2);
    RingsOfByDistance(fa, c, DEFAULT_COST);
    RingsOfByDistance(fb, c, Traversable(Medium));
    RingsOfByDistance(fb, c, DEFAULT_COST);
    assert AfterRings([fa], c) == Traversable(Medium);
    assert AfterStrictRings([fa], c) == Traversable(Medium);
  }

  /** The cell of `LaterRingLoosens` is neither obstacle's own cell. */
  lemma PairBase(a: Cell, b: Cell, c: Cell)
    requires Manhattan(a, c) == 1 && Manhattan(b, c) == 2
    ensures c !in BaseCells([Cells([a]), Cells([b])])
  {
    var fs := [Cells([a]), Cells([b])];
    assert c != a && c != b;
    assert forall i :: 0 <= i < |fs| ==> fs[i].cells == [a] || fs[i].cells == [b];
  }

  /** Three concrete cells meet the conditions above: (5, 5), (8, 5) and (6, 5). */
  lemma LaterRingLoosensExample()
    ensures Dilatable(Cell(5, 5), 2) && Dilatable(Cell(8, 5), 2) && IsizeSafe(Cell(6, 5))
    ensures Manhattan(Cell(5, 5), Cell(6, 5)) == 1 && Manhattan(Cell(8, 5), Cell(6, 5)) == 2
  {
    AsIsizeExact(5);
    AsIsizeExact(6);
    AsIsizeExact(8);
  }

  /** The obstacle cost field, with its own `update` writer. */
  class CostObstacleField {
    const field: Field<Cost>

    ghost predicate Valid()
      reads this, field
    {
      field.Valid()
    }

    /** The cost stored for a valid cell. */
    ghost function CostAt(c: Cell): Cost
      reads this, field
      requires Valid() && InBounds(c, field.width, field.height)
    {
      At(field.data, c, field.width, field.height)
    }

    /** `ObstacleField::from_layout`: a `width x height` field of default costs. */
    constructor (width: nat, height: nat)
      ensures Valid() && fresh(field) && field.width == width && field.height == height
      ensures forall i :: 0 <= i < |field.data| ==> field.data[i] == DEFAULT_COST
    {
      field := new Field(width, height, seq(width * height, _ => DEFAULT_COST));
    }

    /** `ObstacleField::traversable`: whether a radius fits through the cell. */
    function IsTraversable(c: Cell, r: AgentRadius): (b: bool)
      reads this, field
      requires Valid() && InBounds(c, field.width, field.height)
      ensures b <==> CostTraversable(CostAt(c), r)
    {
      IndexInRange(c, field.width, field.height);
      var cost := field.data[Index(c, field.width)];
      cost.Traversable? && RadiusLe(r, cost.radius)
    }

    /** `ObstacleField::clear`: every valid cell back to the default cost. */
    method Clear()
      requires Valid()
      modifies field
      ensures Valid() && field.width == old(field.width) && field.height == old(field.height)
      ensures forall c :: InBounds(c, field.width, field.height) ==> CostAt(c) == DEFAULT_COST
    {
      var i := 0;
      while i < field.width * field.height
        invariant Valid() && field.width == old(field.width) && field.height == old(field.height)
        invariant 0 <= i <= |field.data|
        invariant forall j :: 0 <= j < i ==> field.data[j] == DEFAULT_COST
      {
        field.data := field.data[i := DEFAULT_COST];
        i := i + 1;
      }
      forall c | InBounds(c, field.width, field.height) ensures CostAt(c) == DEFAULT_COST {
        IndexInRange(c, field.width, field.height);
      }
    }

    /**
     * `ObstacleField::update`: writes `cost` to every valid listed cell and
     * skips the invalid ones; cells not listed keep their cost.
     */
    method Update(cells: seq<Cell>, cost: Cost)
      requires Valid()
      modifies field
      ensures Valid() && field.width == old(field.width) && field.height == old(field.height)
      ensures forall c :: InBounds(c, field.width, field.height) ==>
                CostAt(c) == if c in cells then cost else old(CostAt(c))
    {
      var k := 0;
      while k < |cells|
        invariant Valid() && field.width == old(field.width) && field.height == old(field.height)
        invariant k <= |cells|
        invariant forall c :: InBounds(c, field.width, field.height) ==>
                    CostAt(c) == if c in cells[..k] then cost else old(CostAt(c))
      {
        var cell := cells[k];
        if InBounds(cell, field.width, field.height) {
          ghost var before := field.data;
          IndexInRange(cell, field.width, field.height);
          field.data := field.data[Index(cell, field.width) := cost];
          forall c | InBounds(c, field.width, field.height)
            ensures CostAt(c) == if c in cells[..k + 1] then cost else old(CostAt(c))
          {
            AtPut(before, cell, cost, c, field.width, field.height);
            assert field.data == Put(before, cell, cost, field.width, field.height);
            assert c in cells[..k + 1] <==> c in cells[..k] || c == cell;
          }
        } else {
          assert forall c :: InBounds(c, field.width, field.height) ==>
                   (c in cells[..k + 1] <==> c in cells[..k]);
        }
        k := k + 1;
      }
      assert cells[..k] == cells;
    }

    /**
     * The corrected writer: every valid listed cell keeps the more
     * restrictive of its cost and `cost`.
     */
    method Restrict(cells: seq<Cell>, cost: Cost)
      requires Valid()
      modifies field
      ensures Valid() && field.width == old(field.width) && field.height == old(field.height)
      ensures forall c :: InBounds(c, field.width, field.height) ==>
                CostAt(c) == if c in cells then MinCost(old(CostAt(c)), cost) else old(CostAt(c))
    {
      var k := 0;
      while k < |cells|
        invariant Valid() && field.width == old(field.width) && field.height == old(field.height)
        invariant k <= |cells|
        invariant forall c :: InBounds(c, field.width, field.height) ==>
                    CostAt(c) == if c in cells[..k] then MinCost(old(CostAt(c)), cost) else old(CostAt(c))
      {
        var cell := cells[k];
        if InBounds(cell, field.width, field.height) {
          ghost var before := field.data;
          IndexInRange(cell, field.width, field.height);
          var i := Index(cell, field.width);
          field.data := field.data[i := MinCost(field.data[i], cost)];
          forall c | InBounds(c, field.width, field.height)
            ensures CostAt(c) == if c in cells[..k + 1] then MinCost(old(CostAt(c)), cost) else old(CostAt(c))
          {
            AtPut(before, cell, MinCost(before[i], cost), c, field.width, field.height);
            assert field.data == Put(before, cell, MinCost(before[i], cost), field.width, field.height);
            assert c in cells[..k + 1] <==> c in cells[..k] || c == cell;
          }
        } else {
          assert forall c :: InBounds(c, field.width, field.height) ==>
                   (c in cells[..k + 1] <==> c in cells[..k]);
        }
        k := k + 1;
      }
      assert cells[..k] == cells;
    }

    /** The body of the ring loop for one obstacle: Large, Medium and Small rings written in turn. */
    method WriteRings(f: Footprint)
      requires Valid()
      modifies field
      ensures Valid() && field.width == old(field.width) && field.height == old(field.height)
      ensures forall c :: InBounds(c, field.width, field.height) ==> CostAt(c) == RingsOf(f, c, old(CostAt(c)))
    {
      if !IsEmpty(f) {
        Update(Expand(f, ExpansionFromRadius(Large)).value, Traversable(Large));
        Update(Expand(f, ExpansionFromRadius(Medium)).value, Traversable(Medium));
        Update(Expand(f, ExpansionFromRadius(Small)).value, Traversable(Small));
      }
    }

    /** The corrected ring loop body: each ring only tightens the costs it covers. */
    method RestrictRings(f: Footprint)
      requires Valid()
      modifies field
      ensures Valid() && field.width == old(field.width) && field.height == old(field.height)
      ensures forall c :: InBounds(c, field.width, field.height) ==> CostAt(c) == StrictRings(f, c, old(CostAt(c)))
    {
      if !IsEmpty(f) {
        ghost var before := field.data;
        Restrict(Expand(f, ExpansionFromRadius(Large)).value, Traversable(Large));
        Restrict(Expand(f, ExpansionFromRadius(Medium)).value, Traversable(Medium));
        Restrict(Expand(f, ExpansionFromRadius(Small)).value, Traversable(Small));
        forall c | InBounds(c, field.width, field.height)
          ensures CostAt(c) == StrictRings(f, c, At(before, c, field.width, field.height))
        {
          StrictRingsSteps(f, c, At(before, c, field.width, field.height));
        }
      }
    }

    /**
     * The `update` system: clear the field; for each non-empty obstacle
     * footprint write `Traversable(r)` on `expand(expansion_from_radius(r))`
     * for r = Large, Medium, Small in turn; then block every obstacle's
     * own cells.
     */
    method UpdateSystem(footprints: seq<Footprint>)
      requires Valid()
      modifies field
      ensures Valid() && field.width == old(field.width) && field.height == old(field.height)
      ensures forall c :: InBounds(c, field.width, field.height) ==> CostAt(c) == UpdatedCost(footprints, c)
      ensures forall c :: InBounds(c, field.width, field.height) && c in BaseCells(footprints) ==> CostAt(c) == Blocked
    {
      Clear();
      var i := 0;
      while i < |footprints|
        invariant Valid() && field.width == old(field.width) && field.height == old(field.height)
        invariant i <= |footprints|
        invariant forall c :: InBounds(c, field.width, field.height) ==> CostAt(c) == AfterRings(footprints[..i], c)
      {
        WriteRings(footprints[i]);
        assert footprints[..i + 1][..i] == footprints[..i];
        i := i + 1;
      }
      assert footprints[..i] == footprints;
      BlockObstacles(footprints, false);
    }

    /** The `update` system with the corrected ring writer. */
    method CorrectedUpdateSystem(footprints: seq<Footprint>)
      requires Valid()
      modifies field
      ensures Valid() && field.width == old(field.width) && field.height == old(field.height)
      ensures forall c :: InBounds(c, field.width, field.height) ==> CostAt(c) == CorrectedCost(footprints, c)
    {
      Clear();
      var i := 0;
      while i < |footprints|
        invariant Valid() && field.width == old(field.width) && field.height == old(field.height)
        invariant i <= |footprints|
        invariant forall c :: InBounds(c, field.width, field.height) ==> CostAt(c) == AfterStrictRings(footprints[..i], c)
      {
        RestrictRings(footprints[i]);
        assert footprints[..i + 1][..i] == footprints[..i];
        i := i + 1;
      }
      assert footprints[..i] == footprints;
      BlockObstacles(footprints, true);
    }

    /** The second loop of the `update` system: every obstacle's own cells become `Blocked`. */
    method BlockObstacles(footprints: seq<Footprint>, ghost strict: bool)
      requires Valid()
      requires forall c :: InBounds(c, field.width, field.height) ==>
                 CostAt(c) == if strict then AfterStrictRings(footprints, c) else AfterRings(footprints, c)
      modifies field
      ensures Valid() && field.width == old(field.width) && field.height == old(field.height)
      ensures forall c :: InBounds(c, field.width, field.height) ==>
                CostAt(c) == if strict then CorrectedCost(footprints, c) else UpdatedCost(footprints, c)
    {
      var j := 0;
      while j < |footprints|
        invariant Valid() && field.width == old(field.width) && field.height == old(field.height)
        invariant j <= |footprints|
        invariant forall c :: InBounds(c, field.width, field.height) ==>
                    CostAt(c) == if c in BaseCells(footprints[..j]) then Blocked else old(CostAt(c))
      {
        match footprints[j] {
          case Cells(cells) => Update(cells, Blocked);
          case Empty =>
        }
        assert footprints[..j + 1][..j] == footprints[..j];
        j := j + 1;
      }
      assert footprints[..j] == footprints;
    }
  }
}
