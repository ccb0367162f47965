/**
 * `FieldLayout` of the warband navigation: the size of the field in cells,
 * the world size of a cell and the world offset of cell (0, 0), with the
 * conversions between cells, indices and world positions, and the boundary
 * rings that keep agents of each radius off the edge. `f32` values are
 * modelled as `real`.
 */
module WbNavLayout {
  import opened Opt
  import opened Glam
  import opened WbNavGrid
  import opened WbNavAgent

  /** `f32::EPSILON`, `2^-23`. */
  const EPSILON: real := 1.0 / 8388608.0

  /** The default cell size. */
  const DEFAULT_CELL_SIZE: real := 1.0

  /** `FieldLayout`. */
  datatype FieldLayout = FieldLayout(width: nat, height: nat, cellSize: real, offset: Vec2)

  /** `centered_offset(cell_size, width, height)`. */
  function CenteredOffset(cellSize: real, width: nat, height: nat): Vec2 {
    Vec2(-(width as real / 2.0) * cellSize + cellSize / 2.0,
         -(height as real / 2.0) * cellSize + cellSize / 2.0)
  }

  /** `FieldLayout::default`: 64 x 64 cells of size 1, centred. */
  const DEFAULT_LAYOUT: FieldLayout :=
    FieldLayout(64, 64, DEFAULT_CELL_SIZE, CenteredOffset(DEFAULT_CELL_SIZE, 64, 64))

  /** `FieldLayout::new`: the given size, the default cell size, a centred offset. */
  function New(width: nat, height: nat): (l: FieldLayout)
    ensures l.width == width && l.height == height && l.cellSize == DEFAULT_CELL_SIZE
    ensures l.offset == CenteredOffset(l.cellSize, width, height)
  {
    var l := DEFAULT_LAYOUT.(width := width, height := height);
    l.(offset := CenteredOffset(l.cellSize, l.width, l.height))
  }

  /** `FieldLayout::with_cell_size`: a new cell size, the offset re-centred for it. */
  function WithCellSize(l: FieldLayout, cellSize: real): (r: FieldLayout)
    ensures r.width == l.width && r.height == l.height && r.cellSize == cellSize
    ensures r.offset == CenteredOffset(cellSize, l.width, l.height)
  {
    var r := l.(cellSize := cellSize);
    r.(offset := CenteredOffset(r.cellSize, r.width, r.height))
  }

  /** `FieldLayout::cell_size`: the stored size, but never below `f32::EPSILON`. */
  function CellSize(l: FieldLayout): (s: real)
    ensures s >= EPSILON && s >= l.cellSize
    ensures s == l.cellSize || s == EPSILON
  {
    if l.cellSize >= EPSILON then l.cellSize else EPSILON
  }

  /** `FieldLayout::valid`. */
  predicate ValidCell(l: FieldLayout, c: Cell) {
    c.x < l.width && c.y < l.height
  }

  /** `FieldLayout::len`. */
  function Len(l: FieldLayout): nat {
    l.width * l.height
  }

  /** `FieldLayout::index`: the row-major index of a valid cell, `None` otherwise. */
  function IndexOf(l: FieldLayout, c: Cell): (r: Option<nat>)
    ensures r.Some? <==> ValidCell(l, c)
    ensures r.Some? ==> r.value == c.y * l.width + c.x && r.value < Len(l)
  {
    if ValidCell(l, c) then IndexInRange(c, l.width, l.height); Some(Index(c, l.width)) else Option.None
  }

  /** `FieldLayout::cell_from_index`: `Cell::from_index` with the layout's width, which must not be zero. */
  function CellFromIndex(l: FieldLayout, index: nat): (c: Cell)
    requires l.width > 0
    ensures index < Len(l) ==> ValidCell(l, c) && IndexOf(l, c) == Some(index)
  {
    var c := FromIndex(index, l.width);
    assert index < Len(l) ==> ValidCell(l, c) by {
      if index < Len(l) {
        FromIndexInBounds(index, l.width, l.height);
      }
    }
    c
  }

  /** A valid cell survives the trip through its index, and an index through its cell. */
  lemma CellIndexRoundTrip(l: FieldLayout, c: Cell, i: nat)
    requires l.width > 0
    ensures ValidCell(l, c) ==> CellFromIndex(l, IndexOf(l, c).value) == c
    ensures i < Len(l) ==> IndexOf(l, CellFromIndex(l, i)).value == i
  {
    if ValidCell(l, c) {
      FromIndexOfIndex(c, l.width);
    }
  }

  /** `FieldLayout::position`: the world position of a cell's centre. */
  function Position(l: FieldLayout, c: Cell): Vec2 {
    Vec2(c.x as real * CellSize(l) + l.offset.x, c.y as real * CellSize(l) + l.offset.y)
  }

  /** `FieldLayout::transform_point`: a world position relative to the field's offset. */
  function TransformPoint(l: FieldLayout, p: Vec2): Vec2 {
    Sub(p, l.offset)
  }

  /** `FieldLayout::center`: the world origin. */
  const CENTER: Vec2 := ZERO

  /**
   * In exact arithmetic `transform_point` undoes `position` up to the cell
   * size: dividing by `cell_size()` gives the cell's coordinates back.
   */
  lemma PositionRoundTrip(l: FieldLayout, c: Cell)
    ensures TransformPoint(l, Position(l, c)).x / CellSize(l) == c.x as real
    ensures TransformPoint(l, Position(l, c)).y / CellSize(l) == c.y as real
  {
    var s := CellSize(l);
    assert TransformPoint(l, Position(l, c)).x == c.x as real * s;
    assert TransformPoint(l, Position(l, c)).y == c.y as real * s;
  }

  /**
   * With a centred offset (from `new` or `with_cell_size`) and a cell size
   * of at least `f32::EPSILON`, the first and last cell of a non-empty
   * field sit symmetrically about the world origin, the field's centre.
   * (`position` uses the clamped `cell_size()` but the offset the stored
   * one, so below `EPSILON` the two disagree.)
   */
  lemma CenteredSymmetric(l: FieldLayout, cellSize: real)
    requires l.width > 0 && l.height > 0 && cellSize >= EPSILON
    ensures Add(Position(WithCellSize(l, cellSize), Cell(0, 0)),
                Position(WithCellSize(l, cellSize), Cell(l.width - 1, l.height - 1))) == CENTER
    ensures Add(Position(New(l.width, l.height), Cell(0, 0)),
                Position(New(l.width, l.height), Cell(l.width - 1, l.height - 1))) == CENTER
  {
  }

  /**
   * `agent.radius().ceil() as usize`: the radius as a float is its
   * discriminant, a whole number, so its ceiling is the discriminant.
   */
  function Inset(a: Agent): (o: nat)
    ensures o >= 1 && o as real == AsF32(a.radius)
  {
    ToU8(a.radius)
  }

  /** The `usize` subtractions in `bounds` do not underflow. */
  predicate BoundsDefined(l: FieldLayout, a: Agent) {
    l.height >= Inset(a) && (l.height - Inset(a) > 1 ==> l.width >= Inset(a))
  }

  /** The top and bottom rows of `bounds`: `(x, o-1)` and `(x, height-o)` for `x` from `x0`. */
  function TopBottom(l: FieldLayout, o: nat, x0: nat): (r: seq<Cell>)
    requires 1 <= o <= l.height
    ensures |r| == 2 * (if x0 < l.width then l.width - x0 else 0)
    ensures forall n :: n in r <==> x0 <= n.x < l.width && (n.y == o - 1 || n.y == l.height - o)
    decreases l.width - x0
  {
    if x0 >= l.width then [] else [Cell(x0, o - 1), Cell(x0, l.height - o)] + TopBottom(l, o, x0 + 1)
  }

  /** The left and right columns of `bounds`: `(o-1, y)` and `(width-o, y)` for `y` from `y0` below `height-o`. */
  function LeftRight(l: FieldLayout, o: nat, y0: nat): (r: seq<Cell>)
    requires 1 <= o <= l.height
    requires l.height - o > y0 ==> o <= l.width
    ensures |r| == 2 * (if y0 < l.height - o then l.height - o - y0 else 0)
    ensures forall n :: n in r <==> y0 <= n.y < l.height - o && (n.x == o - 1 || n.x == l.width - o)
    decreases l.height - y0
  {
    if y0 >= l.height - o then [] else [Cell(o - 1, y0), Cell(l.width - o, y0)] + LeftRight(l, o, y0 + 1)
  }

  /**
   * `FieldLayout::bounds(agent)`: with `o` the agent's inset, the rows
   * `o-1` and `height-o` across the whole width, then the columns `o-1`
   * and `width-o` for rows 1 up to (not including) `height-o`.
   */
  function Bounds(l: FieldLayout, a: Agent): (r: seq<Cell>)
    requires BoundsDefined(l, a)
  {
    TopBottom(l, Inset(a), 0) + LeftRight(l, Inset(a), 1)
  }

  /**
   * The cells of `bounds` are exactly the two rows and the two columns at
   * inset `o - 1`, all of them on the field; there are
   * `2*width + 2*(height-o-1)` of them (duplicates where rows and columns
   * cross), and the top and bottom rows come first, column by column.
   */
  lemma BoundsExactly(l: FieldLayout, a: Agent, n: Cell)
    requires BoundsDefined(l, a)
    ensures n in Bounds(l, a) <==>
              (n.x < l.width && (n.y == Inset(a) - 1 || n.y == l.height - Inset(a))) ||
              (1 <= n.y < l.height - Inset(a) && (n.x == Inset(a) - 1 || n.x == l.width - Inset(a)))
    ensures n in Bounds(l, a) ==> ValidCell(l, n)
    ensures |Bounds(l, a)| == 2 * l.width + 2 * (if l.height - Inset(a) > 1 then l.height - Inset(a) - 1 else 0)
    ensures forall x :: 0 <= x < l.width ==>
              Bounds(l, a)[2 * x] == Cell(x, Inset(a) - 1) && Bounds(l, a)[2 * x + 1] == Cell(x, l.height - Inset(a))
  {
    var o := Inset(a);
    var tb, lr := TopBottom(l, o, 0), LeftRight(l, o, 1);
    assert Bounds(l, a) == tb + lr;
    assert n in tb + lr <==> n in tb || n in lr;
    RowsComeFirst(l, o, lr);
  }

  /** The top and bottom rows lead any sequence they are put in front of, pair by pair. */
  lemma RowsComeFirst(l: FieldLayout, o: nat, rest: seq<Cell>)
    requires 1 <= o <= l.height
    ensures forall x :: 0 <= x < l.width ==>
              (TopBottom(l, o, 0) + rest)[2 * x] == Cell(x, o - 1) &&
              (TopBottom(l, o, 0) + rest)[2 * x + 1] == Cell(x, l.height - o)
  {
    var tb := TopBottom(l, o, 0);
    forall x | 0 <= x < l.width
      ensures (tb + rest)[2 * x] == Cell(x, o - 1) && (tb + rest)[2 * x + 1] == Cell(x, l.height - o)
    {
      TopBottomAt(l, o, 0, x);
      assert 2 * x + 1 < |tb|;
    }
  }

  /** The `x`-th pair of the top and bottom rows. */
  lemma {:induction false} TopBottomAt(l: FieldLayout, o: nat, x0: nat, x: nat)
    requires 1 <= o <= l.height && x0 <= x < l.width
    ensures TopBottom(l, o, x0)[2 * (x - x0)] == Cell(x, o - 1)
    ensures TopBottom(l, o, x0)[2 * (x - x0) + 1] == Cell(x, l.height - o)
    decreases x - x0
  {
    if x > x0 {
      TopBottomAt(l, o, x0 + 1, x);
    }
  }

  /** `Agent::ALL`: one agent of each radius, from the largest to the smallest. */
  const ALL: seq<Agent> := [FromRadius(Huge), FromRadius(Large), FromRadius(Medium), FromRadius(Small)]

  /** Every radius has its agent in `ALL`. */
  lemma AllCoversRadii(r: AgentRadius)
    ensures exists a :: a in ALL && a.radius == r
  {
    assert FromRadius(r) in ALL;
  }

  /** `field_bounds<AGENT>`: `bounds(a)` for every `a` of `ALL` whose radius is at most AGENT's. */
  function FieldBounds(l: FieldLayout, agent: Agent): (r: seq<Cell>)
    requires forall a: Agent :: RadiusLe(a.radius, agent.radius) ==> BoundsDefined(l, a)
    ensures forall n :: n in r <==> exists a :: a in ALL && RadiusLe(a.radius, agent.radius) && n in Bounds(l, a)
  {
    FieldBoundsFrom(l, agent, ALL)
  }

  /** `field_bounds` over the agents of `agents`, in order. */
  function FieldBoundsFrom(l: FieldLayout, agent: Agent, agents: seq<Agent>): (r: seq<Cell>)
    requires forall a: Agent :: RadiusLe(a.radius, agent.radius) ==> BoundsDefined(l, a)
    ensures forall n :: n in r <==> exists a :: a in agents && RadiusLe(a.radius, agent.radius) && n in Bounds(l, a)
  {
    if agents == [] then []
    else
      var rest := FieldBoundsFrom(l, agent, agents[1..]);
      assert forall a :: a in agents <==> a == agents[0] || a in agents[1..];
      (if RadiusLe(agents[0].radius, agent.radius) then Bounds(l, agents[0]) else []) + rest
  }

  /**
   * A cell is in the boundary of agent AGENT exactly when it is in the
   * ring of some radius up to AGENT's, and larger agents keep a superset of
   * the smaller agents' boundary cells.
   */
  lemma FieldBoundsByRadius(l: FieldLayout, small: Agent, large: Agent, n: Cell)
    requires RadiusLe(small.radius, large.radius)
    requires forall a: Agent :: RadiusLe(a.radius, large.radius) ==> BoundsDefined(l, a)
    ensures n in FieldBounds(l, large) <==> exists r :: RadiusLe(r, large.radius) && n in Bounds(l, FromRadius(r))
    ensures n in FieldBounds(l, small) ==> n in FieldBounds(l, large)
  {
    if exists r :: RadiusLe(r, large.radius) && n in Bounds(l, FromRadius(r)) {
      var r :| RadiusLe(r, large.radius) && n in Bounds(l, FromRadius(r));
      assert FromRadius(r) in ALL;
    }
  }
}
