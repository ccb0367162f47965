/**
 * Grid primitives of the warband navigation flow field: `Cell` with
 * `usize` coordinates, the compass `Direction`s, and `Field<T>`, a
 * row-major `width x height` grid. Unlike the motte grid, coordinates do
 * not wrap and a step in direction `None` yields no cell.
 */
module WbNavGrid {
  import opened Opt
  import MotteGrid

  /** A `usize` coordinate pair; coordinates are unbounded here. */
  datatype Cell = Cell(x: nat, y: nat)

  datatype Direction =
    North | NorthEast | East | SouthEast | South | SouthWest | West | NorthWest | None

  function AbsDiff(a: int, b: int): nat {
    if a < b then b - a else a - b
  }

  /** `2^64`, one past `usize::MAX`. */
  const USIZE_LIMIT: nat := 0x1_0000_0000_0000_0000

  /** `2^63`, one past `isize::MAX`. */
  const ISIZE_LIMIT: nat := 0x8000_0000_0000_0000

  /** `v as isize` for a `usize` value: values from `2^63` on wrap to negatives. */
  function AsIsize(v: nat): int {
    if v < ISIZE_LIMIT then v else v - USIZE_LIMIT
  }

  /** `v as usize` for an `isize` value: a negative `v` wraps to `2^64 + v`. */
  function WrapUsize(v: int): nat {
    v % USIZE_LIMIT
  }

  /** Casting a value below `2^63` to `isize` keeps it. */
  lemma AsIsizeExact(v: nat)
    requires v < ISIZE_LIMIT
    ensures AsIsize(v) == v
  {
  }

  /** A cell whose coordinates keep their value when cast to `isize`. */
  predicate IsizeSafe(c: Cell) {
    c.x < ISIZE_LIMIT && c.y < ISIZE_LIMIT
  }

  /** A cell whose neighbours all stay `IsizeSafe`. */
  predicate StepSafe(c: Cell) {
    c.x < ISIZE_LIMIT - 1 && c.y < ISIZE_LIMIT - 1
  }

  // ---------------------------------------------------------------------
  // Index arithmetic
  // ---------------------------------------------------------------------

  /** `cell_to_index`: `y * width + x`. */
  function Index(c: Cell, width: nat): nat {
    c.y * width + c.x
  }

  /** `index_to_cell`: `(index % width, index / width)`; a zero width divides by zero. */
  function FromIndex(index: nat, width: nat): Cell
    requires width > 0
  {
    Cell(index % width, index / width)
  }

  /** `index_to_cell(cell_to_index(c, w), w) == c` for every cell with `x < w`. */
  lemma FromIndexOfIndex(c: Cell, width: nat)
    requires c.x < width
    ensures FromIndex(Index(c, width), width) == c
  {
    MotteGrid.DivModOfRowMajor(c.y, c.x, width);
  }

  /** And the other way round, for every index. */
  lemma IndexOfFromIndex(i: nat, width: nat)
    requires width > 0
    ensures Index(FromIndex(i, width), width) == i
  {
  }

  /** A valid cell's index is below `width * height`. */
  lemma IndexInRange(c: Cell, width: nat, height: nat)
    requires c.x < width && c.y < height
    ensures Index(c, width) < width * height
  {
    MotteGrid.MulMonotone(c.y + 1, height, width);
  }

  /** An index below `width * height` is the index of a valid cell. */
  lemma FromIndexInBounds(i: nat, width: nat, height: nat)
    requires i < width * height
    ensures width > 0 && InBounds(FromIndex(i, width), width, height)
  {
    var c := FromIndex(i, width);
    if c.y >= height {
      MotteGrid.MulMonotone(height, c.y, width);
    }
  }

  // ---------------------------------------------------------------------
  // Distances
  // ---------------------------------------------------------------------

  /** `Cell::manhattan`: the sum of the coordinate differences, taken through `isize`. */
  function Manhattan(a: Cell, b: Cell): nat {
    AbsDiff(AsIsize(a.x), AsIsize(b.x)) + AbsDiff(AsIsize(a.y), AsIsize(b.y))
  }

  /** `Cell::coordinate_distance`: the larger coordinate difference (Chebyshev). */
  function CoordinateDistance(a: Cell, b: Cell): nat {
    if AbsDiff(a.x, b.x) < AbsDiff(a.y, b.y) then AbsDiff(a.y, b.y) else AbsDiff(a.x, b.x)
  }

  /**
   * On cells below `2^63` the `isize` casts are exact: both distances are
   * symmetric, zero exactly on equal cells, Manhattan is `|dx| + |dy|`, and
   * Chebyshev lies between half of Manhattan and Manhattan.
   */
  lemma DistancesAgree(a: Cell, b: Cell)
    requires IsizeSafe(a) && IsizeSafe(b)
    ensures Manhattan(a, b) == AbsDiff(a.x, b.x) + AbsDiff(a.y, b.y)
    ensures Manhattan(a, b) == Manhattan(b, a) && CoordinateDistance(a, b) == CoordinateDistance(b, a)
    ensures Manhattan(a, b) == 0 <==> a == b
    ensures CoordinateDistance(a, b) <= Manhattan(a, b) <= 2 * CoordinateDistance(a, b)
  {
    AsIsizeExact(a.x);
    AsIsizeExact(a.y);
    AsIsizeExact(b.x);
    AsIsizeExact(b.y);
  }

  // ---------------------------------------------------------------------
  // Directions
  // ---------------------------------------------------------------------

  /** `Direction::as_i32x2`: the unit offset, `(0, 0)` for `None`. */
  function AsI32x2(d: Direction): (int, int) {
    match d
    case North => (0, -1)
    case NorthEast => (1, -1)
    case East => (1, 0)
    case SouthEast => (1, 1)
    case South => (0, 1)
    case SouthWest => (-1, 1)
    case West => (-1, 0)
    case NorthWest => (-1, -1)
    case None => (0, 0)
  }

  /** `Cell::direction`: the unit offset from `a` to `b` as a direction, `None` otherwise. */
  function DirectionTo(a: Cell, b: Cell): Direction {
    var dx := AsIsize(b.x) - AsIsize(a.x);
    var dy := AsIsize(b.y) - AsIsize(a.y);
    if (dx, dy) == (0, -1) then North
    else if (dx, dy) == (1, -1) then NorthEast
    else if (dx, dy) == (1, 0) then East
    else if (dx, dy) == (1, 1) then SouthEast
    else if (dx, dy) == (0, 1) then South
    else if (dx, dy) == (-1, 1) then SouthWest
    else if (dx, dy) == (-1, 0) then West
    else if (dx, dy) == (-1, -1) then NorthWest
    else Direction.None
  }

  /** `usize::checked_add_signed`: `None` when the sum leaves `0 .. 2^64`. */
  function CheckedAddSigned(v: nat, d: int): (r: Option<nat>)
    ensures r.Some? <==> 0 <= v + d < USIZE_LIMIT
    ensures r.Some? ==> r.value == v + d
  {
    if 0 <= v + d < USIZE_LIMIT then Some(v + d) else Option.None
  }

  /** The step by `(dx, dy)` shared by `adjacent`, `diagonal` and `neighbor`. */
  function Step(c: Cell, dx: int, dy: int): Option<Cell> {
    match (CheckedAddSigned(c.x, dx), CheckedAddSigned(c.y, dy))
    case (Some(x), Some(y)) => Some(Cell(x, y))
    case _ => Option.None
  }

  /** `Cell::neighbor`: `None` for `Direction::None`, otherwise the step unless a coordinate goes negative. */
  function Neighbor(c: Cell, d: Direction): Option<Cell> {
    if d == Direction.None then Option.None
    else
      var (dx, dy) := AsI32x2(d);
      Step(c, dx, dy)
  }

  /** Unlike the motte grid, the `None` direction has no neighbour. */
  lemma NeighborOfNone(c: Cell)
    ensures Neighbor(c, Direction.None) == Option.None
  {
  }

  /** `direction` inverts `neighbor` for every proper direction, away from the `isize` limit. */
  lemma NeighborDirection(c: Cell, n: Cell, d: Direction)
    requires d != Direction.None && StepSafe(c) && IsizeSafe(n)
    ensures Neighbor(c, d) == Some(n) <==> DirectionTo(c, n) == d
  {
  }

  /** The filter-map behind `adjacent` and `diagonal`. */
  function NeighborsVia(c: Cell, ds: seq<Direction>): (r: seq<Cell>)
    ensures |r| <= |ds|
    ensures forall n :: n in r ==> exists d :: d in ds && Neighbor(c, d) == Some(n)
    ensures forall d :: d in ds && Neighbor(c, d).Some? ==> Neighbor(c, d).value in r
  {
    if ds == [] then []
    else
      var rest := NeighborsVia(c, ds[1..]);
      assert forall d :: d in ds[1..] ==> d in ds;
      match Neighbor(c, ds[0])
      case Some(n) => [n] + rest
      case None => rest
  }

  const AdjacentDirections: seq<Direction> := [North, East, South, West]
  const DiagonalDirections: seq<Direction> := [NorthEast, SouthEast, SouthWest, NorthWest]

  /** `Cell::adjacent`: N, E, S, W, skipping negative coordinates. */
  function Adjacent(c: Cell): seq<Cell> {
    NeighborsVia(c, AdjacentDirections)
  }

  /** `Cell::diagonal`: NE, SE, SW, NW, skipping negative coordinates. */
  function Diagonal(c: Cell): seq<Cell> {
    NeighborsVia(c, DiagonalDirections)
  }

  /** `Cell::neighbors`: adjacent, then diagonal. */
  function Neighbors(c: Cell): seq<Cell> {
    Adjacent(c) + Diagonal(c)
  }

  /** `adjacent` yields exactly the cells at Manhattan distance one. */
  lemma AdjacentExactly(c: Cell, n: Cell)
    requires StepSafe(c) && IsizeSafe(n)
    ensures n in Adjacent(c) <==> Manhattan(c, n) == 1
  {
    DistancesAgree(c, n);
    if Manhattan(c, n) == 1 {
      var d := DirectionTo(c, n);
      NeighborDirection(c, n, d);
      assert d in AdjacentDirections;
    }
    if n in Adjacent(c) {
      var d :| d in AdjacentDirections && Neighbor(c, d) == Some(n);
    }
  }

  /** `diagonal` yields exactly the cells one step away on both axes. */
  lemma DiagonalExactly(c: Cell, n: Cell)
    requires StepSafe(c) && IsizeSafe(n)
    ensures n in Diagonal(c) <==> AbsDiff(c.x, n.x) == 1 && AbsDiff(c.y, n.y) == 1
  {
    DistancesAgree(c, n);
    if AbsDiff(c.x, n.x) == 1 && AbsDiff(c.y, n.y) == 1 {
      var d := DirectionTo(c, n);
      NeighborDirection(c, n, d);
      assert d in DiagonalDirections;
    }
    if n in Diagonal(c) {
      var d :| d in DiagonalDirections && Neighbor(c, d) == Some(n);
    }
  }

  /** The sign of an integer: -1, 0 or 1. */
  function Sign(v: int): int {
    if v > 0 then 1 else if v < 0 then -1 else 0
  }

  /**
   * One component of `vec.normalize_or_zero()` rounded: `v / |vec|` rounds
   * to the sign of `v` exactly when `|v| / |vec| >= 1/2`, that is when
   * `4v^2 >= v^2 + w^2`, i.e. `3v^2 >= w^2`.
   */
  function RoundedUnit(v: int, w: int): int {
    if 3 * v * v >= w * w then Sign(v) else 0
  }

  /**
   * `Direction::from_vec` on an integer vector, in exact arithmetic: `None`
   * for the zero vector, otherwise the direction whose offset is the
   * rounded normalised vector.
   */
  function FromVec(dx: int, dy: int): Direction {
    if dx == 0 && dy == 0 then Direction.None
    else
      var x, y := RoundedUnit(dx, dy), RoundedUnit(dy, dx);
      if (x, y) == (0, -1) then North
      else if (x, y) == (1, -1) then NorthEast
      else if (x, y) == (1, 0) then East
      else if (x, y) == (1, 1) then SouthEast
      else if (x, y) == (0, 1) then South
      else if (x, y) == (-1, 1) then SouthWest
      else if (x, y) == (-1, 0) then West
      else if (x, y) == (-1, -1) then NorthWest
      else Direction.None
  }

  /**
   * `from_vec` of a non-zero integer vector is always a proper direction,
   * and that direction's offset has the signs of the vector where its
   * component is non-zero; a unit offset maps back to its own direction.
   */
  lemma FromVecFacts(dx: int, dy: int)
    ensures FromVec(dx, dy) == Direction.None <==> dx == 0 && dy == 0
    ensures FromVec(dx, dy) != Direction.None ==>
              (AsI32x2(FromVec(dx, dy)).0 != 0 ==> AsI32x2(FromVec(dx, dy)).0 == Sign(dx)) &&
              (AsI32x2(FromVec(dx, dy)).1 != 0 ==> AsI32x2(FromVec(dx, dy)).1 == Sign(dy))
    ensures forall d :: d != Direction.None ==> FromVec(AsI32x2(d).0, AsI32x2(d).1) == d
  {
    if !(dx == 0 && dy == 0) {
      if 3 * dx * dx < dy * dy && 3 * dy * dy < dx * dx {
        assert false;
      }
    }
  }

  // ---------------------------------------------------------------------
  // Field<T>
  // ---------------------------------------------------------------------

  /** `Field::valid`. */
  predicate InBounds(c: Cell, width: nat, height: nat) {
    c.x < width && c.y < height
  }

  lemma IndexInjective(a: Cell, b: Cell, width: nat)
    requires a.x < width && b.x < width && Index(a, width) == Index(b, width)
    ensures a == b
  {
    MotteGrid.DivModOfRowMajor(a.y, a.x, width);
    MotteGrid.DivModOfRowMajor(b.y, b.x, width);
  }

  /** `Index<Cell>` on a valid cell. */
  function At<T>(data: seq<T>, c: Cell, width: nat, height: nat): T
    requires |data| == width * height && InBounds(c, width, height)
  {
    IndexInRange(c, width, height);
    data[Index(c, width)]
  }

  /** `IndexMut<Cell>` on a valid cell. */
  function Put<T>(data: seq<T>, c: Cell, v: T, width: nat, height: nat): (r: seq<T>)
    requires |data| == width * height && InBounds(c, width, height)
    ensures |r| == |data|
  {
    IndexInRange(c, width, height);
    data[Index(c, width) := v]
  }

  /** Writing one cell's slot changes what that cell holds and nothing else. */
  lemma AtPut<T>(data: seq<T>, c: Cell, v: T, d: Cell, width: nat, height: nat)
    requires |data| == width * height && InBounds(c, width, height) && InBounds(d, width, height)
    ensures At(Put(data, c, v, width, height), d, width, height) ==
              if d == c then v else At(data, d, width, height)
  {
    IndexInRange(c, width, height);
    IndexInRange(d, width, height);
    if d != c && Index(d, width) == Index(c, width) {
      IndexInjective(c, d, width);
    }
  }

  /** Keeps the cells valid for a `width x height` field, in order. */
  function FilterValid(cells: seq<Cell>, width: nat, height: nat): (r: seq<Cell>)
    ensures |r| <= |cells|
    ensures forall n :: n in r <==> n in cells && InBounds(n, width, height)
  {
    if cells == [] then []
    else
      var rest := FilterValid(cells[1..], width, height);
      assert forall n :: n in cells <==> n == cells[0] || n in cells[1..];
      if InBounds(cells[0], width, height) then [cells[0]] + rest else rest
  }

  /** `Field::adjacent`. */
  function FieldAdjacent(c: Cell, width: nat, height: nat): seq<Cell> {
    FilterValid(Adjacent(c), width, height)
  }

  /** `Field::diagonal`. */
  function FieldDiagonal(c: Cell, width: nat, height: nat): seq<Cell> {
    FilterValid(Diagonal(c), width, height)
  }

  /** `Field::neighbors`. */
  function FieldNeighbors(c: Cell, width: nat, height: nat): seq<Cell> {
    FilterValid(Neighbors(c), width, height)
  }

  /** The field-level iterators yield exactly the valid cells at the right offsets. */
  lemma FieldNeighborsExactly(c: Cell, n: Cell, width: nat, height: nat)
    requires StepSafe(c) && IsizeSafe(n)
    ensures n in FieldAdjacent(c, width, height) <==> InBounds(n, width, height) && Manhattan(c, n) == 1
    ensures n in FieldDiagonal(c, width, height) <==>
              InBounds(n, width, height) && AbsDiff(c.x, n.x) == 1 && AbsDiff(c.y, n.y) == 1
    ensures n in FieldNeighbors(c, width, height) <==>
              n in FieldAdjacent(c, width, height) || n in FieldDiagonal(c, width, height)
  {
    AdjacentExactly(c, n);
    DiagonalExactly(c, n);
  }

  /** `Field::neighbor`: the step, kept only if valid. */
  function FieldNeighbor(c: Cell, d: Direction, width: nat, height: nat): (r: Option<Cell>)
    ensures r.Some? <==> Neighbor(c, d).Some? && InBounds(Neighbor(c, d).value, width, height)
    ensures r.Some? ==> r == Neighbor(c, d)
  {
    match Neighbor(c, d)
    case Some(n) => if InBounds(n, width, height) then Some(n) else Option.None
    case None => Option.None
  }

  /** `Field::neighbors_at`: `neighbor` for each direction, kept only if valid. */
  function NeighborsAt(c: Cell, ds: seq<Direction>, width: nat, height: nat): (r: seq<Option<Cell>>)
    ensures |r| == |ds|
    ensures forall i :: 0 <= i < |ds| ==> r[i] == FieldNeighbor(c, ds[i], width, height)
  {
    seq(|ds|, i requires 0 <= i < |ds| => FieldNeighbor(c, ds[i], width, height))
  }

  /** `Vec::resize(n, fill)`. */
  function Resized<T>(s: seq<T>, n: nat, fill: T): (r: seq<T>)
    ensures |r| == n
    ensures forall i :: 0 <= i < n ==> r[i] == if i < |s| then s[i] else fill
  {
    if n <= |s| then s[..n] else s + seq(n - |s|, _ => fill)
  }

  /** `Field<T>`: `width * height` values in row-major order. */
  class Field<T> {
    var width: nat
    var height: nat
    var data: seq<T>

    ghost predicate Valid()
      reads this
    {
      |data| == width * height
    }

    /** `Field::new`: takes the data as given; it is `Valid` only when the length fits. */
    constructor (width: nat, height: nat, data: seq<T>)
      ensures Valid() <==> |data| == width * height
      ensures this.width == width && this.height == height && this.data == data
    {
      this.width, this.height, this.data := width, height, data;
    }

    /** `Field::len`. */
    function Len(): (n: nat)
      reads this
      requires Valid()
      ensures n == |data|
    {
      width * height
    }

    /** `Field::empty`: no cells, i.e. zero width or height. */
    function Empty(): (b: bool)
      reads this
      ensures b <==> width == 0 || height == 0
    {
      width * height == 0
    }

    /** `Field::center`. */
    function Center(): (c: Cell)
      reads this
      ensures 2 * c.x <= width <= 2 * c.x + 1 && 2 * c.y <= height <= 2 * c.y + 1
      ensures width > 0 && height > 0 ==> InBounds(c, width, height)
    {
      Cell(width / 2, height / 2)
    }

    /** `Field::index`: the index of a valid cell, `None` for any other. */
    function IndexOf(c: Cell): (r: Option<nat>)
      reads this
      ensures r.Some? <==> InBounds(c, width, height)
      ensures r.Some? ==> r.value == Index(c, width) && r.value < width * height
    {
      if InBounds(c, width, height) then IndexInRange(c, width, height); Some(Index(c, width)) else Option.None
    }

    /**
     * `Field::cell`: `None` past the end, otherwise `index_to_cell`, which is
     * the valid cell whose index it is.
     */
    function CellAt(index: nat): (r: Option<Cell>)
      reads this
      ensures r.Some? <==> index < width * height
      ensures r.Some? ==> r.value == FromIndex(index, width) && IndexOf(r.value) == Some(index)
    {
      if index >= width * height then Option.None
      else
        FromIndexInBounds(index, width, height);
        Some(FromIndex(index, width))
    }

    /** `Field::get`. */
    function Get(c: Cell): (r: Option<T>)
      reads this
      requires Valid()
      ensures r.Some? <==> InBounds(c, width, height)
      ensures r.Some? ==> r.value == At(data, c, width, height)
    {
      if InBounds(c, width, height) then Some(At(data, c, width, height)) else Option.None
    }

    /** `IndexMut<Cell>`: writes through `index_no_check`; the index has to be in range. */
    method Set(c: Cell, v: T)
      requires Valid() && Index(c, width) < |data|
      modifies this
      ensures Valid() && width == old(width) && height == old(height)
      ensures data == old(data)[Index(c, width) := v]
    {
      data := data[Index(c, width) := v];
    }

    /** `Field::resize`: new dimensions, the prefix kept and new slots set to the default. */
    method Resize(width: nat, height: nat, default: T)
      modifies this
      ensures Valid() && this.width == width && this.height == height
      ensures forall i :: 0 <= i < |data| ==> data[i] == if i < |old(data)| then old(data)[i] else default
    {
      this.width, this.height := width, height;
      data := Resized(data, width * height, default);
    }
  }
}
