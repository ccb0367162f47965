/**
 * Grid primitives of the motte flow field: `Cell` with `u8` coordinates,
 * the eight compass `Direction`s plus `None`, and `Field<T>`, a row-major
 * grid of `width * height` values with bounds-checked access and
 * 4-, diagonal- and 8-neighbour enumeration.
 */
module MotteGrid {
  import opened Opt

  /** `Scalar = u8`: every coordinate and every field dimension. */
  type Scalar = n: int | 0 <= n < 256

  datatype Cell = Cell(x: Scalar, y: Scalar)

  datatype Direction =
    North | NorthEast | East | SouthEast | South | SouthWest | West | NorthWest | None

  /** The derived `Ord` of `Cell`: lexicographic on `(x, y)`. */
  predicate CellLess(a: Cell, b: Cell) {
    a.x < b.x || (a.x == b.x && a.y < b.y)
  }

  function AbsDiff(a: int, b: int): nat {
    if a < b then b - a else a - b
  }

  // ---------------------------------------------------------------------
  // Index arithmetic
  // ---------------------------------------------------------------------

  /** `Cell::index(size)`: row-major index `y * size + x`, as a `usize`. */
  function Index(c: Cell, size: nat): nat {
    c.y * size + c.x
  }

  /**
   * `Cell::from_index(index, size)`: `(index % size, index / size)`, each cast
   * to `u8` (the row wraps modulo 256). `size == 0` divides by zero.
   */
  function FromIndex(index: nat, size: Scalar): Cell
    requires size > 0
  {
    Cell(index % size, (index / size) % 256)
  }

  lemma MulMonotone(a: nat, b: nat, n: nat)
    requires a <= b
    ensures a * n <= b * n
  {
  }

  lemma DivModOfRowMajor(q: nat, r: nat, n: nat)
    requires r < n
    ensures (q * n + r) / n == q && (q * n + r) % n == r
  {
    var a := q * n + r;
    var d, m := a / n, a % n;
    assert a == d * n + m;
    if d > q {
      MulMonotone(q + 1, d, n);
      assert false;
    } else if d < q {
      MulMonotone(d + 1, q, n);
      assert false;
    }
  }

  /** The row-major index of a valid cell lies within the `width * height` cells. */
  lemma IndexInRange(c: Cell, width: nat, height: nat)
    requires c.x < width && c.y < height
    ensures Index(c, width) < width * height
  {
    MulMonotone(c.y + 1, height, width);
    assert (c.y + 1) * width == c.y * width + width;
  }

  /** Converting a cell of a `size`-wide grid to its index and back is the identity. */
  lemma FromIndexOfIndex(c: Cell, size: Scalar)
    requires c.x < size
    ensures FromIndex(Index(c, size), size) == c
  {
    DivModOfRowMajor(c.y, c.x, size);
  }

  /** Below `size * 256` the index of a converted index is the index itself. */
  lemma IndexOfFromIndex(i: nat, size: Scalar)
    requires size > 0 && i < size * 256
    ensures Index(FromIndex(i, size), size) == i
  {
    var q := i / size;
    assert i == q * size + i % size;
    if q >= 256 {
      MulMonotone(256, q, size);
      assert false;
    }
  }

  /** An index of a `width x height` grid names a cell of the grid, and the index is that cell's. */
  lemma FromIndexInBounds(i: nat, width: Scalar, height: nat)
    requires i < width * height && height <= 256
    ensures width > 0 && InBounds(FromIndex(i, width), width, height) && Index(FromIndex(i, width), width) == i
  {
    MulMonotone(height, 256, width);
    IndexOfFromIndex(i, width);
    var c := FromIndex(i, width);
    if c.y >= height {
      MulMonotone(height, c.y, width);
    }
  }

  // ---------------------------------------------------------------------
  // Distances
  // ---------------------------------------------------------------------

  /**
   * `Cell::manhattan` as written: the two `u8` differences are added in `u8`
   * (wrapping in a release build) before the widening cast to `u32`.
   */
  function Manhattan(a: Cell, b: Cell): nat {
    (AbsDiff(a.x, b.x) + AbsDiff(a.y, b.y)) % 256
  }

  /** The Manhattan distance the `u32` result type evidently intends. */
  function ManhattanDistance(a: Cell, b: Cell): nat {
    AbsDiff(a.x, b.x) + AbsDiff(a.y, b.y)
  }

  /** `Cell::chebyshev`: the larger of the two coordinate differences. */
  function Chebyshev(a: Cell, b: Cell): nat {
    if AbsDiff(a.x, b.x) < AbsDiff(a.y, b.y) then AbsDiff(a.y, b.y) else AbsDiff(a.x, b.x)
  }

  /** The `u8` sum agrees with the true distance exactly when the latter fits in a `u8`. */
  lemma ManhattanAgrees(a: Cell, b: Cell)
    ensures ManhattanDistance(a, b) < 256 <==> Manhattan(a, b) == ManhattanDistance(a, b)
  {
  }

  /** Two far-apart cells on which the `u8` sum wraps: 200 + 200 becomes 144. */
  lemma ManhattanWraps()
    ensures ManhattanDistance(Cell(0, 0), Cell(200, 200)) == 400
    ensures Manhattan(Cell(0, 0), Cell(200, 200)) == 144
  {
  }

  /** The corrected distance is a metric on cells. */
  lemma ManhattanIsMetric(a: Cell, b: Cell, c: Cell)
    ensures ManhattanDistance(a, b) == ManhattanDistance(b, a)
    ensures ManhattanDistance(a, b) == 0 <==> a == b
    ensures ManhattanDistance(a, c) <= ManhattanDistance(a, b) + ManhattanDistance(b, c)
  {
  }

  /** Chebyshev is symmetric and bounded by the corrected Manhattan distance. */
  lemma ChebyshevBounds(a: Cell, b: Cell)
    ensures Chebyshev(a, b) == Chebyshev(b, a)
    ensures Chebyshev(a, b) <= ManhattanDistance(a, b) <= 2 * Chebyshev(a, b)
  {
  }

  // ---------------------------------------------------------------------
  // Directions
  // ---------------------------------------------------------------------

  /** `Direction::as_scalar`: the `(dx, dy)` unit offset, with y growing southwards. */
  function AsScalar(d: Direction): (int, int) {
    match d
    case North => (0, -1)
    case NorthEast => (1, -1)
    case East => (1, 0)
    case SouthEast => (1, 1)
    case South => (0, 1)
    case SouthWest => (-1, 1)
    case West => (-1, 0)
    case NorthWest => (-1, -1)
    case None => (0, 0)
  }

  /** `Cell::direction(self, other)`: the unit offset from `a` to `b`, or `None`. */
  function DirectionTo(a: Cell, b: Cell): Direction {
    var dx := b.x - a.x;
    var dy := b.y - a.y;
    if (dx, dy) == (0, -1) then North
    else if (dx, dy) == (1, -1) then NorthEast
    else if (dx, dy) == (1, 0) then East
    else if (dx, dy) == (1, 1) then SouthEast
    else if (dx, dy) == (0, 1) then South
    else if (dx, dy) == (-1, 1) then SouthWest
    else if (dx, dy) == (-1, 0) then West
    else if (dx, dy) == (-1, -1) then NorthWest
    else Direction.None
  }

  /** `u8::checked_add_signed`. */
  function CheckedAddSigned(v: Scalar, d: int): (r: Option<Scalar>)
    ensures r.Some? <==> 0 <= v + d < 256
    ensures r.Some? ==> r.value == v + d
  {
    if 0 <= v + d < 256 then Some(v + d) else Option.None
  }

  /** `Cell::neighbor`: the cell one step in direction `d`, unless a coordinate leaves `u8`. */
  function Neighbor(c: Cell, d: Direction): Option<Cell> {
    var (dx, dy) := AsScalar(d);
    match (CheckedAddSigned(c.x, dx), CheckedAddSigned(c.y, dy))
    case (Some(x), Some(y)) => Some(Cell(x, y))
    case _ => Option.None
  }

  /** Stepping in `None` stays put, because its offset is `(0, 0)`. */
  lemma NeighborOfNone(c: Cell)
    ensures Neighbor(c, Direction.None) == Some(c)
  {
  }

  /**
   * `direction` inverts `neighbor`: a step in a proper direction `d` lands on
   * the cell whose direction from `c` is `d`, and every cell in direction `d`
   * is reached by that step.
   */
  lemma NeighborDirection(c: Cell, n: Cell, d: Direction)
    requires d != Direction.None
    ensures Neighbor(c, d) == Some(n) <==> DirectionTo(c, n) == d
  {
  }

  /** `direction` yields `None` exactly for cells that are not at Chebyshev distance one. */
  lemma DirectionNoneIffNotUnit(a: Cell, b: Cell)
    ensures DirectionTo(a, b) == Direction.None <==> Chebyshev(a, b) != 1
  {
  }

  /** The filter-map shared by `adjacent`, `diagonal` and `neighbors_at`. */
  function NeighborsVia(c: Cell, ds: seq<Direction>): (r: seq<Cell>)
    ensures |r| <= |ds|
    ensures forall n :: n in r ==> exists d :: d in ds && Neighbor(c, d) == Some(n)
    ensures forall d :: d in ds && Neighbor(c, d).Some? ==> Neighbor(c, d).value in r
  {
    if ds == [] then []
    else
      var rest := NeighborsVia(c, ds[1..]);
      assert forall d :: d in ds[1..] ==> d in ds;
      match Neighbor(c, ds[0])
      case Some(n) => [n] + rest
      case None => rest
  }

  const AdjacentDirections: seq<Direction> := [North, East, South, West]
  const DiagonalDirections: seq<Direction> := [NorthEast, SouthEast, SouthWest, NorthWest]

  /** `Cell::adjacent`: N, E, S, W, skipping steps that leave `u8`. */
  function Adjacent(c: Cell): seq<Cell> {
    NeighborsVia(c, AdjacentDirections)
  }

  /** `Cell::diagonal`: NE, SE, SW, NW, skipping steps that leave `u8`. */
  function Diagonal(c: Cell): seq<Cell> {
    NeighborsVia(c, DiagonalDirections)
  }

  /** `Cell::neighbors`: the adjacent cells followed by the diagonal ones. */
  function Neighbors(c: Cell): seq<Cell> {
    Adjacent(c) + Diagonal(c)
  }

  /** The cells that `adjacent` yields are exactly those at Manhattan distance one. */
  lemma AdjacentExactly(c: Cell, n: Cell)
    ensures n in Adjacent(c) <==> ManhattanDistance(c, n) == 1
  {
    if ManhattanDistance(c, n) == 1 {
      var d := DirectionTo(c, n);
      NeighborDirection(c, n, d);
      assert d in AdjacentDirections;
    }
    if n in Adjacent(c) {
      var d :| d in AdjacentDirections && Neighbor(c, d) == Some(n);
    }
  }

  /** The cells that `diagonal` yields are exactly those one step away on both axes. */
  lemma DiagonalExactly(c: Cell, n: Cell)
    ensures n in Diagonal(c) <==> AbsDiff(c.x, n.x) == 1 && AbsDiff(c.y, n.y) == 1
  {
    if AbsDiff(c.x, n.x) == 1 && AbsDiff(c.y, n.y) == 1 {
      var d := DirectionTo(c, n);
      NeighborDirection(c, n, d);
      assert d in DiagonalDirections;
    }
    if n in Diagonal(c) {
      var d :| d in DiagonalDirections && Neighbor(c, d) == Some(n);
    }
  }

  predicate Distinct<T(==)>(s: seq<T>) {
    forall i, j :: 0 <= i < j < |s| ==> s[i] != s[j]
  }

  /** Dropping the head of a sequence without repeats leaves one without repeats and without the head. */
  lemma DistinctTail<T>(s: seq<T>)
    requires |s| > 0 && Distinct(s)
    ensures Distinct(s[1..]) && s[0] !in s[1..]
  {
    forall k | 0 <= k < |s| - 1
      ensures s[1..][k] == s[k + 1] && s[k + 1] != s[0]
    {
    }
  }

  lemma {:induction false} NeighborsViaDistinct(c: Cell, ds: seq<Direction>)
    requires Distinct(ds) && Direction.None !in ds
    ensures Distinct(NeighborsVia(c, ds)) && c !in NeighborsVia(c, ds)
  {
    if ds != [] {
      DistinctTail(ds);
      assert forall d :: d in ds[1..] ==> d in ds;
      NeighborsViaDistinct(c, ds[1..]);
      var rest := NeighborsVia(c, ds[1..]);
      match Neighbor(c, ds[0])
      case Some(n) =>
        NeighborDirection(c, n, ds[0]);
        NeighborDirection(c, c, ds[0]);
        forall d | d in ds[1..]
          ensures Neighbor(c, d) != Some(n)
        {
          NeighborDirection(c, n, d);
        }
        assert n !in rest;
        assert NeighborsVia(c, ds) == [n] + rest;
      case None =>
    }
  }

  /**
   * `neighbors` lists eight or fewer cells, none twice and never the cell
   * itself, the adjacent ones (distance one) before the diagonal ones.
   */
  lemma NeighborsDistinct(c: Cell)
    ensures |Neighbors(c)| <= 8 && Distinct(Neighbors(c)) && c !in Neighbors(c)
    ensures Distinct(Adjacent(c)) && Distinct(Diagonal(c))
    ensures forall n :: n in Adjacent(c) ==> ManhattanDistance(c, n) == 1
    ensures forall n :: n in Diagonal(c) ==> ManhattanDistance(c, n) == 2
  {
    NeighborsViaDistinct(c, AdjacentDirections);
    NeighborsViaDistinct(c, DiagonalDirections);
    forall n | n in Adjacent(c) ensures ManhattanDistance(c, n) == 1 {
      AdjacentExactly(c, n);
    }
    forall n | n in Diagonal(c) ensures ManhattanDistance(c, n) == 2 {
      DiagonalExactly(c, n);
    }
    var a, g := Adjacent(c), Diagonal(c);
    forall i, j | 0 <= i < j < |a + g| ensures (a + g)[i] != (a + g)[j] {
      if j < |a| {
      } else if i >= |a| {
        assert (a + g)[i] == g[i - |a|] && (a + g)[j] == g[j - |a|];
      } else {
        assert (a + g)[i] in a && (a + g)[j] in g;
      }
    }
  }

  // ---------------------------------------------------------------------
  // Field<T>
  // ---------------------------------------------------------------------

  /** `Field::valid`: the cell lies inside a `width x height` field. */
  predicate InBounds(c: Cell, width: nat, height: nat) {
    c.x < width && c.y < height
  }

  /** Distinct valid cells of a `width`-wide grid have distinct row-major indices. */
  lemma IndexInjective(a: Cell, b: Cell, width: nat)
    requires a.x < width && b.x < width && Index(a, width) == Index(b, width)
    ensures a == b
  {
    DivModOfRowMajor(a.y, a.x, width);
    DivModOfRowMajor(b.y, b.x, width);
  }

  /** The value a row-major grid holds for a valid cell (`Index<Cell>`). */
  function At<T>(data: seq<T>, c: Cell, width: nat, height: nat): T
    requires |data| == width * height && InBounds(c, width, height)
  {
    IndexInRange(c, width, height);
    data[Index(c, width)]
  }

  /** `IndexMut<Cell>` on a valid cell: the grid with that cell's slot overwritten. */
  function Put<T>(data: seq<T>, c: Cell, v: T, width: nat, height: nat): (r: seq<T>)
    requires |data| == width * height && InBounds(c, width, height)
    ensures |r| == |data|
  {
    IndexInRange(c, width, height);
    data[Index(c, width) := v]
  }

  /** Writing one cell's slot changes what that cell holds and nothing else. */
  lemma AtPut<T>(data: seq<T>, c: Cell, v: T, d: Cell, width: nat, height: nat)
    requires |data| == width * height && InBounds(c, width, height) && InBounds(d, width, height)
    ensures At(Put(data, c, v, width, height), d, width, height) ==
              if d == c then v else At(data, d, width, height)
  {
    IndexInRange(c, width, height);
    IndexInRange(d, width, height);
    if d != c && Index(d, width) == Index(c, width) {
      IndexInjective(c, d, width);
    }
  }

  /** Keeps the cells that are valid for a `width x height` field, in order. */
  function FilterValid(cells: seq<Cell>, width: nat, height: nat): (r: seq<Cell>)
    ensures |r| <= |cells|
    ensures forall n :: n in r <==> n in cells && InBounds(n, width, height)
  {
    if cells == [] then []
    else
      var rest := FilterValid(cells[1..], width, height);
      assert forall n :: n in cells <==> n == cells[0] || n in cells[1..];
      if InBounds(cells[0], width, height) then [cells[0]] + rest else rest
  }

  lemma {:induction false} FilterValidDistinct(cells: seq<Cell>, width: nat, height: nat)
    requires Distinct(cells)
    ensures Distinct(FilterValid(cells, width, height))
  {
    if cells != [] {
      DistinctTail(cells);
      FilterValidDistinct(cells[1..], width, height);
    }
  }

  /** `Field::adjacent`: the adjacent cells that are valid for the field. */
  function FieldAdjacent(c: Cell, width: nat, height: nat): seq<Cell> {
    FilterValid(Adjacent(c), width, height)
  }

  /** `Field::diagonal`: the diagonal cells that are valid for the field. */
  function FieldDiagonal(c: Cell, width: nat, height: nat): seq<Cell> {
    FilterValid(Diagonal(c), width, height)
  }

  /**
   * The field-level iterators yield exactly the valid cells at the right
   * distance: Manhattan one for `adjacent`, one step on both axes for
   * `diagonal`; `neighbors` is the two together.
   */
  lemma FieldNeighborsExactly(c: Cell, n: Cell, width: nat, height: nat)
    ensures n in FieldAdjacent(c, width, height) <==>
              InBounds(n, width, height) && ManhattanDistance(c, n) == 1
    ensures n in FieldDiagonal(c, width, height) <==>
              InBounds(n, width, height) && AbsDiff(c.x, n.x) == 1 && AbsDiff(c.y, n.y) == 1
    ensures n in FilterValid(Neighbors(c), width, height) <==>
              n in FieldAdjacent(c, width, height) || n in FieldDiagonal(c, width, height)
  {
    AdjacentExactly(c, n);
    DiagonalExactly(c, n);
  }

  /** `Field::neighbor`: the step in direction `d`, kept only if valid. */
  function FieldNeighbor(c: Cell, d: Direction, width: nat, height: nat): (r: Option<Cell>)
    ensures r.Some? ==> InBounds(r.value, width, height) && Neighbor(c, d) == r
    ensures Neighbor(c, d).Some? && InBounds(Neighbor(c, d).value, width, height) ==> r.Some?
  {
    match Neighbor(c, d)
    case Some(n) => if InBounds(n, width, height) then Some(n) else Option.None
    case None => Option.None
  }

  /**
   * `Vec::resize(n, fill)`: keeps the first `n` values of `s` and pads with
   * `fill` up to length `n`.
   */
  function Resized<T>(s: seq<T>, n: nat, fill: T): (r: seq<T>)
    ensures |r| == n
    ensures forall i :: 0 <= i < n ==> r[i] == if i < |s| then s[i] else fill
  {
    if n <= |s| then s[..n] else s + seq(n - |s|, _ => fill)
  }

  /** `Field<T>`: `width * height` values in row-major order. */
  class Field<T> {
    var width: Scalar
    var height: Scalar
    var data: seq<T>

    /** The data vector holds one value per cell. */
    ghost predicate Valid()
      reads this
    {
      |data| == width * height
    }

    /** `Field::new`, given data of the right length. */
    constructor (width: Scalar, height: Scalar, data: seq<T>)
      requires |data| == width * height
      ensures Valid()
      ensures this.width == width && this.height == height && this.data == data
    {
      this.width, this.height, this.data := width, height, data;
    }

    /** `Field::len`: the number of cells, which is the length of the data. */
    function Len(): (n: nat)
      reads this
      requires Valid()
      ensures n == |data|
    {
      width * height
    }

    /** `Field::is_empty`: a field without cells, i.e. one of zero width or height. */
    function IsEmpty(): (b: bool)
      reads this
      ensures b <==> width == 0 || height == 0
    {
      width * height == 0
    }

    /** `Field::center`: the cell at half width and half height (rounded down). */
    function Center(): (c: Cell)
      reads this
      ensures 2 * c.x <= width <= 2 * c.x + 1 && 2 * c.y <= height <= 2 * c.y + 1
      ensures width > 0 && height > 0 ==> InBounds(c, width, height)
    {
      Cell(width / 2, height / 2)
    }

    /** `Field::index`: the row-major index of a valid cell, `None` for any other. */
    function IndexOf(c: Cell): (r: Option<nat>)
      reads this
      ensures r.Some? <==> InBounds(c, width, height)
      ensures r.Some? ==> r.value == Index(c, width) && r.value < width * height
    {
      if InBounds(c, width, height) then IndexInRange(c, width, height); Some(Index(c, width)) else Option.None
    }

    /**
     * `Field::cell` as written: `from_index` followed by the validity check.
     * The row wraps modulo 256, so an index past the end can still map to a
     * valid cell (see `CellAtPastEnd`).
     */
    function CellAt(index: nat): (r: Option<Cell>)
      reads this
      requires width > 0
      ensures r.Some? ==> InBounds(r.value, width, height)
      ensures index < width * height ==> r == Some(FromIndex(index, width))
      ensures index < width * height ==> IndexOf(r.value) == Some(index)
    {
      var c := FromIndex(index, width);
      assert index < width * height ==> InBounds(c, width, height) && Index(c, width) == index by {
        if index < width * height {
          FromIndexInBounds(index, width, height);
        }
      }
      if InBounds(c, width, height) then Some(c) else Option.None
    }

    /** `Field::cell` as the bounds check evidently intends: `None` past the end. */
    function CellAtChecked(index: nat): (r: Option<Cell>)
      reads this
      requires width > 0
      ensures r.Some? <==> index < width * height
      ensures r.Some? ==> InBounds(r.value, width, height) && IndexOf(r.value) == Some(index)
    {
      if index < width * height then
        IndexOfFromIndex(index, width);
        Some(FromIndex(index, width))
      else Option.None
    }

    /** `Field::get`: the stored value of a valid cell, `None` for any other cell. */
    function Get(c: Cell): (r: Option<T>)
      reads this
      requires Valid()
      ensures r.Some? <==> InBounds(c, width, height)
      ensures r.Some? ==> r.value == data[IndexOf(c).value]
    {
      match IndexOf(c)
      case Some(i) => Some(data[i])
      case None => Option.None
    }

    /**
     * `IndexMut<Cell>`: writes through `index_no_check`, so only the index has
     * to be in range; every other slot keeps its value.
     */
    method Set(c: Cell, v: T)
      requires Valid() && Index(c, width) < |data|
      modifies this
      ensures Valid() && width == old(width) && height == old(height)
      ensures data == old(data)[Index(c, width) := v]
    {
      data := data[Index(c, width) := v];
    }

    /**
     * `Field::resize`: new dimensions, data of length `width * height`, the
     * existing prefix kept and new slots set to `T::default()`.
     */
    method Resize(width: Scalar, height: Scalar, default: T)
      modifies this
      ensures Valid() && this.width == width && this.height == height
      ensures |data| == width * height
      ensures forall i :: 0 <= i < |data| ==>
                data[i] == if i < |old(data)| then old(data)[i] else default
    {
      this.width, this.height := width, height;
      data := Resized(data, width * height, default);
    }
  }

  /** A 1 x 255 field maps index 259, which is past its end, to the valid cell (0, 3). */
  lemma CellAtPastEnd(f: Field<bool>)
    requires f.width == 1 && f.height == 255
    ensures 259 >= f.width * f.height
    ensures f.CellAt(259) == Some(Cell(0, 3))
    ensures f.CellAtChecked(259) == Option.None
  {
  }
}
