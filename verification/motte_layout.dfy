/**
 * `FieldLayout` of the motte crate: the size of the field in cells and the
 * world offset of cell (0, 0), with the conversions between cells, indices
 * and world positions, and the boundary rings that keep agents of each size
 * off the edge.
 */
module MotteLayout {
  import opened Opt
  import opened Glam
  import opened MotteGrid
  import opened MotteAgent

  /** `CELL_SIZE_F32` and `HALF_CELL_SIZE`. */
  const CELL_SIZE_REAL: real := 1.0
  const HALF_CELL_SIZE: real := 0.5

  /**
   * `FieldLayout`. The source stores `usize` dimensions but builds `u8`
   * cells from them, so cells of a layout fit in `u8` only up to 256 wide
   * and high.
   */
  datatype FieldLayout = FieldLayout(width: nat, height: nat, offset: Vec2)

  /** `centered_offset`: puts the centre of the field at the world origin. */
  function CenteredOffset(width: nat, height: nat): Vec2 {
    Vec2(-(width as real / 2.0) * CELL_SIZE_REAL + HALF_CELL_SIZE,
         -(height as real / 2.0) * CELL_SIZE_REAL + HALF_CELL_SIZE)
  }

  /** `FieldLayout::new`: the given size with a centred offset. */
  function New(width: nat, height: nat): (l: FieldLayout)
    ensures l.width == width && l.height == height
    ensures l.offset == CenteredOffset(width, height)
  {
    FieldLayout(width, height, CenteredOffset(width, height))
  }

  /** `FieldLayout::default`: a centred 64 x 64 field. */
  const DEFAULT_LAYOUT: FieldLayout := New(64, 64)

  /** `FieldLayout::valid`. */
  predicate ValidCell(l: FieldLayout, c: Cell) {
    c.x < l.width && c.y < l.height
  }

  /** `FieldLayout::index`: the row-major index of a valid cell, `None` otherwise. */
  function IndexOf(l: FieldLayout, c: Cell): (r: Option<nat>)
    ensures r.Some? <==> ValidCell(l, c)
    ensures r.Some? ==> r.value == c.y * l.width + c.x && r.value < Len(l)
  {
    if ValidCell(l, c) then IndexInRange(c, l.width, l.height); Some(Index(c, l.width)) else Option.None
  }

  /** `FieldLayout::len`. */
  function Len(l: FieldLayout): nat {
    l.width * l.height
  }

  /**
   * `FieldLayout::cell_from_index`: `Cell::from_index` with the layout's
   * width as the row size (which must be a non-zero `u8`).
   */
  function CellFromIndex(l: FieldLayout, index: nat): (c: Cell)
    requires 0 < l.width < 256
    ensures index < Len(l) && l.height <= 256 ==> ValidCell(l, c) && IndexOf(l, c) == Some(index)
  {
    var c := FromIndex(index, l.width);
    assert index < Len(l) && l.height <= 256 ==> Index(c, l.width) == index && c.y < l.height by {
      if index < Len(l) && l.height <= 256 {
        MulMonotone(l.height, 256, l.width);
        IndexOfFromIndex(index, l.width);
        if c.y >= l.height {
          MulMonotone(l.height, c.y, l.width);
          assert false;
        }
      }
    }
    c
  }

  /** A valid cell survives the trip through its index. */
  lemma CellIndexRoundTrip(l: FieldLayout, c: Cell)
    requires 0 < l.width < 256 && ValidCell(l, c)
    ensures CellFromIndex(l, IndexOf(l, c).value) == c
  {
    FromIndexOfIndex(c, l.width);
  }

  /** `FieldLayout::position`: the world position of a cell's centre. */
  function Position(l: FieldLayout, c: Cell): Vec2 {
    Vec2(c.x as real * CELL_SIZE_REAL + l.offset.x, c.y as real * CELL_SIZE_REAL + l.offset.y)
  }

  /** `FieldLayout::transform_point`: a world position relative to the field. */
  function TransformPoint(l: FieldLayout, p: Vec2): Vec2 {
    Sub(p, l.offset)
  }

  /** `FieldLayout::center`: the world origin. */
  const CENTER: Vec2 := ZERO

  /** In exact arithmetic `transform_point` undoes `position`. */
  lemma PositionRoundTrip(l: FieldLayout, c: Cell)
    ensures TransformPoint(l, Position(l, c)) == Vec2(c.x as real, c.y as real)
  {
  }

  /**
   * With the centred offset the first and the last cell of a non-empty
   * field sit symmetrically about the world origin, the field's centre.
   */
  lemma CenteredSymmetric(width: nat, height: nat)
    requires 0 < width <= 256 && 0 < height <= 256
    ensures Add(Position(New(width, height), Cell(0, 0)),
                Position(New(width, height), Cell(width - 1, height - 1))) == CENTER
  {
  }

  /** `agent.radius().ceil()`: 1, 2, 3, 4. */
  function Inset(a: Agent): (o: nat)
    ensures o >= 1
    ensures (o - 1) as real < Radius(a) <= o as real
  {
    (Size(a) + 1) / 2
  }

  /** The `usize` subtractions in `bounds` stay non-negative. */
  predicate BoundsDefined(l: FieldLayout, a: Agent) {
    l.width <= 256 && l.height <= 256 && l.height >= Inset(a) &&
    (l.height - Inset(a) > 1 ==> l.width >= Inset(a))
  }

  /** The top and bottom rows of `bounds`: `(x, o-1)` and `(x, height-o)` for `x` from `x0`. */
  function TopBottom(l: FieldLayout, o: nat, x0: nat): (r: seq<Cell>)
    requires 1 <= o <= l.height <= 256 && l.width <= 256
    ensures |r| == 2 * (if x0 < l.width then l.width - x0 else 0)
    ensures forall n :: n in r <==> x0 <= n.x < l.width && (n.y == o - 1 || n.y == l.height - o)
    decreases l.width - x0
  {
    if x0 >= l.width then [] else [Cell(x0, o - 1), Cell(x0, l.height - o)] + TopBottom(l, o, x0 + 1)
  }

  /** The left and right columns of `bounds`: `(o-1, y)` and `(width-o, y)` for `y` from `y0` below `height-o`. */
  function LeftRight(l: FieldLayout, o: nat, y0: nat): (r: seq<Cell>)
    requires 1 <= o <= l.height <= 256 && l.width <= 256
    requires l.height - o > y0 ==> o <= l.width
    ensures |r| == 2 * (if y0 < l.height - o then l.height - o - y0 else 0)
    ensures forall n :: n in r <==> y0 <= n.y < l.height - o && (n.x == o - 1 || n.x == l.width - o)
    decreases l.height - y0
  {
    if y0 >= l.height - o then [] else [Cell(o - 1, y0), Cell(l.width - o, y0)] + LeftRight(l, o, y0 + 1)
  }

  /**
   * `FieldLayout::bounds(agent)`: with `o = ceil(radius)`, the rows `o-1`
   * and `height-o` across the whole width, then the columns `o-1` and
   * `width-o` for rows 1 up to (not including) `height-o`.
   */
  function Bounds(l: FieldLayout, a: Agent): (r: seq<Cell>)
    requires BoundsDefined(l, a)
  {
    TopBottom(l, Inset(a), 0) + LeftRight(l, Inset(a), 1)
  }

  /**
   * The cells of `bounds` are exactly the two rows and the two columns at
   * inset `o - 1`, all of them on the field; there are
   * `2*width + 2*(height-o-1)` of them (duplicates where the rows and
   * columns cross).
   */
  lemma BoundsExactly(l: FieldLayout, a: Agent, n: Cell)
    requires BoundsDefined(l, a)
    ensures n in Bounds(l, a) <==>
              (n.x < l.width && (n.y == Inset(a) - 1 || n.y == l.height - Inset(a))) ||
              (1 <= n.y < l.height - Inset(a) && (n.x == Inset(a) - 1 || n.x == l.width - Inset(a)))
    ensures n in Bounds(l, a) ==> ValidCell(l, n)
    ensures |Bounds(l, a)| == 2 * l.width + 2 * (if l.height - Inset(a) > 1 then l.height - Inset(a) - 1 else 0)
  {
  }

  /** `field_bounds<AGENT>`: `bounds(a)` for every `a` in `ALL` order with radius up to AGENT's. */
  function FieldBounds(l: FieldLayout, agent: Agent): (r: seq<Cell>)
    requires forall a :: AgentLe(a, agent) ==> BoundsDefined(l, a)
    ensures forall n :: n in r <==> exists a :: AgentLe(a, agent) && n in Bounds(l, a)
  {
    FieldBoundsFrom(l, agent, ALL)
  }

  /** `field_bounds` over the agents of `agents`, in order. */
  function FieldBoundsFrom(l: FieldLayout, agent: Agent, agents: seq<Agent>): (r: seq<Cell>)
    requires forall a :: AgentLe(a, agent) ==> BoundsDefined(l, a)
    ensures forall n :: n in r <==> exists a :: a in agents && AgentLe(a, agent) && n in Bounds(l, a)
  {
    if agents == [] then []
    else
      var rest := FieldBoundsFrom(l, agent, agents[1..]);
      assert forall a :: a in agents <==> a == agents[0] || a in agents[1..];
      (if Radius(agents[0]) <= Radius(agent) then
         OrderAgreesWithSize(agents[0], agent);
         Bounds(l, agents[0])
       else
         OrderAgreesWithSize(agents[0], agent);
         []) + rest
  }

  /** Larger agents keep a superset of the smaller agents' boundary cells. */
  lemma FieldBoundsMonotone(l: FieldLayout, small: Agent, large: Agent, n: Cell)
    requires AgentLe(small, large)
    requires forall a :: AgentLe(a, large) ==> BoundsDefined(l, a)
    requires forall a :: AgentLe(a, small) ==> BoundsDefined(l, a)
    ensures n in FieldBounds(l, small) ==> n in FieldBounds(l, large)
  {
  }
}
