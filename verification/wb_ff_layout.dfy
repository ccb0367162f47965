/**
 * `FieldLayout` of the warband `flow_field` module: the size of the field
 * in cells, the world size of a cell and where the field sits in the world
 * (centred on the origin, with cell (0, 0) at the origin, or with cell
 * (0, 0) at a given point), with the conversions between cells, indices and
 * world positions. `f32` values are modelled as `real`.
 */
module WbFfLayout {
  import opened Opt
  import opened Glam
  import opened WbNavGrid

  /** `f32::EPSILON`, `2^-23`. */
  const EPSILON: real := 1.0 / 8388608.0

  /** `FieldPosition`; the default is `Centered`. */
  datatype FieldPosition = Centered | Origin | Position(v: Vec2)

  /** `FieldLayout`. */
  datatype FieldLayout = FieldLayout(width: nat, height: nat, cellSize: real, position: FieldPosition)

  /** `FieldLayout::default`: 64 x 64 cells of size 1, centred. */
  const DEFAULT_LAYOUT: FieldLayout := FieldLayout(64, 64, 1.0, Centered)

  /** `FieldLayout::new`: the given size and the rest of the default. */
  function New(width: nat, height: nat): (l: FieldLayout)
    ensures l.width == width && l.height == height
    ensures l.cellSize == DEFAULT_LAYOUT.cellSize && l.position == Centered
  {
    DEFAULT_LAYOUT.(width := width, height := height)
  }

  /** `FieldLayout::with_cell_size`: only the cell size changes. */
  function WithCellSize(l: FieldLayout, cellSize: real): (r: FieldLayout)
    ensures r.width == l.width && r.height == l.height && r.position == l.position
    ensures r.cellSize == cellSize
  {
    l.(cellSize := cellSize)
  }

  /** `FieldLayout::cell_size`: the stored size, but never below `f32::EPSILON`. */
  function CellSize(l: FieldLayout): (s: real)
    ensures s >= EPSILON && s >= l.cellSize
    ensures s == l.cellSize || s == EPSILON
    ensures l.cellSize >= EPSILON ==> s == l.cellSize
  {
    if l.cellSize >= EPSILON then l.cellSize else EPSILON
  }

  /** `FieldLayout::valid`. */
  predicate ValidCell(l: FieldLayout, c: Cell) {
    c.x < l.width && c.y < l.height
  }

  /** `FieldLayout::len`. */
  function Len(l: FieldLayout): nat {
    l.width * l.height
  }

  /** `FieldLayout::index`: the row-major index of a valid cell, `None` otherwise. */
  function IndexOf(l: FieldLayout, c: Cell): (r: Option<nat>)
    ensures r.Some? <==> ValidCell(l, c)
    ensures r.Some? ==> r.value == c.y * l.width + c.x && r.value < Len(l)
  {
    if ValidCell(l, c) then IndexInRange(c, l.width, l.height); Some(Index(c, l.width)) else Option.None
  }

  /** `FieldLayout::cell_from_index`: `Cell::from_index` with the layout's width, which must not be zero. */
  function CellFromIndex(l: FieldLayout, index: nat): (c: Cell)
    requires l.width > 0
    ensures index < Len(l) ==> ValidCell(l, c) && IndexOf(l, c) == Some(index)
  {
    var c := FromIndex(index, l.width);
    assert index < Len(l) ==> ValidCell(l, c) by {
      if index < Len(l) {
        FromIndexInBounds(index, l.width, l.height);
      }
    }
    c
  }

  /**
   * Every valid cell survives the trip through its index, and every index
   * below `len()` through its cell; the indices of the valid cells are
   * exactly `0 .. len()`.
   */
  lemma CellIndexRoundTrip(l: FieldLayout, c: Cell, i: nat)
    requires l.width > 0
    ensures ValidCell(l, c) ==> CellFromIndex(l, IndexOf(l, c).value) == c
    ensures i < Len(l) ==> IndexOf(l, CellFromIndex(l, i)).value == i
    ensures i < Len(l) <==> exists v :: ValidCell(l, v) && IndexOf(l, v) == Some(i)
  {
    if ValidCell(l, c) {
      FromIndexOfIndex(c, l.width);
    }
    if i < Len(l) {
      var v := CellFromIndex(l, i);
      assert ValidCell(l, v) && IndexOf(l, v) == Some(i);
    }
  }

  /**
   * `FieldLayout::offset`: the world position of cell (0, 0). Centred, it
   * is half the field back from the origin plus half a cell; at the origin
   * it is zero; at a given point it is that point.
   */
  function Offset(l: FieldLayout): Vec2 {
    var half := CellSize(l) / 2.0;
    match l.position
    case Centered =>
      Vec2(-(l.width as real / 2.0) * CellSize(l) + half, -(l.height as real / 2.0) * CellSize(l) + half)
    case Origin => ZERO
    case Position(v) => v
  }

  /** `FieldLayout::center`: the origin unless a point is given. */
  function Center(l: FieldLayout): (p: Vec2)
    ensures l.position.Position? ==> p == l.position.v
    ensures !l.position.Position? ==> p == ZERO
  {
    match l.position
    case Centered => ZERO
    case Origin => ZERO
    case Position(v) => v
  }

  /** `FieldLayout::position`: the world position of a cell. */
  function CellPosition(l: FieldLayout, c: Cell): Vec2 {
    Vec2(c.x as real * CellSize(l) + Offset(l).x, c.y as real * CellSize(l) + Offset(l).y)
  }

  /**
   * Where the field sits: centred, the first and last cell of a non-empty
   * field lie symmetrically about `center()`; otherwise cell (0, 0) lies at
   * `center()`.
   */
  lemma PlacedAtCenter(l: FieldLayout)
    ensures l.position == Centered && l.width > 0 && l.height > 0 ==>
              Add(CellPosition(l, Cell(0, 0)), CellPosition(l, Cell(l.width - 1, l.height - 1))) == Scale(Center(l), 2.0)
    ensures l.position != Centered ==> CellPosition(l, Cell(0, 0)) == Center(l)
  {
  }

  /** Neighbouring cells lie `cell_size()` apart along each axis. */
  lemma CellSpacing(l: FieldLayout, c: Cell)
    ensures CellPosition(l, Cell(c.x + 1, c.y)) == Add(CellPosition(l, c), Vec2(CellSize(l), 0.0))
    ensures CellPosition(l, Cell(c.x, c.y + 1)) == Add(CellPosition(l, c), Vec2(0.0, CellSize(l)))
  {
  }
}
