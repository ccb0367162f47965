/**
 * Footprints of the motte crate: the cells an agent or obstacle occupies,
 * and their square (Chebyshev) dilation by an agent size.
 */
module MotteFootprint {
  import opened Opt
  import opened MotteGrid
  import opened MotteAgent

  /** `Footprint`; the default is `Empty`. */
  datatype Footprint = Empty | Cells(cells: seq<Cell>)

  /** `ExpandedFootprint<AGENT>`: a footprint dilated for one agent size. */
  datatype ExpandedFootprint = EmptyExpanded | CellsExpanded(cells: seq<Cell>)

  /** `CellIndex`: the cell an entity stands on, if it is on the field. */
  datatype CellIndex = Invalid | Valid(cell: Cell, index: nat)

  /** `Footprint::is_empty`. */
  function IsEmpty(f: Footprint): (b: bool)
    ensures b <==> f == Empty
  {
    f.Empty?
  }

  /** `Footprint::cells`: the cells of a `Cells` footprint, `None` for `Empty`. */
  function CellsOf(f: Footprint): (r: Option<seq<Cell>>)
    ensures r.Some? <==> !IsEmpty(f)
    ensures r.Some? ==> f == Cells(r.value)
  {
    match f
    case Cells(cells) => Some(cells)
    case Empty => Option.None
  }

  /** The coordinate `v + d` cast back to `u8`, wrapping around like `as u8`. */
  function Wrap(v: int): Scalar {
    v % 256
  }

  /** The cell at offset `(dx, dy)` from `c`, each coordinate wrapped to `u8`. */
  function Offset(c: Cell, dx: int, dy: int): Cell {
    Cell(Wrap(c.x + dx), Wrap(c.y + dy))
  }

  /**
   * The inner loop of `expand`: offsets `(dx, dy)` for `dy` from `dy0` up to
   * `r`, keeping those whose wrapped cell is within Chebyshev distance `r`.
   */
  function ExpandColumn(c: Cell, r: nat, dx: int, dy0: int): (out: seq<Cell>)
    ensures forall n :: n in out ==> Chebyshev(c, n) <= r
    ensures forall dy :: dy0 <= dy <= r && Chebyshev(c, Offset(c, dx, dy)) <= r ==> Offset(c, dx, dy) in out
    decreases r - dy0 + 1
  {
    if dy0 > r then []
    else
      var n := Offset(c, dx, dy0);
      (if Chebyshev(c, n) <= r then [n] else []) + ExpandColumn(c, r, dx, dy0 + 1)
  }

  /** The middle loop of `expand`: every `dx` from `dx0` up to `r`. */
  function ExpandSquare(c: Cell, r: nat, dx0: int): (out: seq<Cell>)
    ensures forall n :: n in out ==> Chebyshev(c, n) <= r
    ensures forall dx, dy :: dx0 <= dx <= r && -(r as int) <= dy <= r && Chebyshev(c, Offset(c, dx, dy)) <= r ==>
              Offset(c, dx, dy) in out
    decreases r - dx0 + 1
  {
    if dx0 > r then [] else ExpandColumn(c, r, dx0, -(r as int)) + ExpandSquare(c, r, dx0 + 1)
  }

  /** The outer loop of `expand`: each base cell in turn, duplicates kept. */
  function ExpandAll(cells: seq<Cell>, r: nat): (out: seq<Cell>)
    ensures forall n :: n in out ==> exists c :: c in cells && Chebyshev(c, n) <= r
  {
    if cells == [] then []
    else
      var rest := ExpandAll(cells[1..], r);
      assert forall c :: c in cells[1..] ==> c in cells;
      ExpandSquare(cells[0], r, -(r as int)) + rest
  }

  /**
   * `Footprint::expand(radius)`: `None` for an empty footprint; otherwise
   * each base cell dilated by every offset in `[-r, r]^2` that stays within
   * Chebyshev distance `r` after wrapping.
   */
  function Expand(f: Footprint, radius: nat): (r: Option<seq<Cell>>)
    requires radius > 0
    ensures r.Some? <==> f.Cells?
  {
    match f
    case Cells(cells) => Some(ExpandAll(cells, radius))
    case Empty => Option.None
  }

  /**
   * The dilation is exactly the square of Chebyshev radius `r` around the
   * base cells (clipped to the `u8` plane): the wrap-around never adds a
   * cell outside the square, and every cell inside it is produced. In
   * particular every base cell is kept.
   */
  lemma {:induction false} ExpandIsSquare(cells: seq<Cell>, r: nat, n: Cell)
    requires r > 0
    ensures n in Expand(Cells(cells), r).value <==> exists c :: c in cells && Chebyshev(c, n) <= r
    ensures forall c :: c in cells ==> c in Expand(Cells(cells), r).value
  {
    ExpandAllExactly(cells, r, n);
    forall b | b in cells ensures b in ExpandAll(cells, r) {
      ExpandAllExactly(cells, r, b);
      assert Chebyshev(b, b) == 0;
    }
  }

  /** One base cell dilates to exactly its Chebyshev square. */
  lemma SquareExactly(c: Cell, r: nat, n: Cell)
    ensures n in ExpandSquare(c, r, -(r as int)) <==> Chebyshev(c, n) <= r
  {
    if Chebyshev(c, n) <= r {
      assert Offset(c, n.x - c.x, n.y - c.y) == n;
    }
  }

  /** `ExpandAll` emits exactly the union of the base cells' squares. */
  lemma {:induction false} ExpandAllExactly(cells: seq<Cell>, r: nat, n: Cell)
    ensures n in ExpandAll(cells, r) <==> exists c :: c in cells && Chebyshev(c, n) <= r
  {
    if cells != [] {
      ExpandAllExactly(cells[1..], r, n);
      SquareExactly(cells[0], r, n);
      assert forall c :: c in cells <==> c == cells[0] || c in cells[1..];
    }
  }

  /**
   * For `r < 128` no wrapped coordinate survives the filter: a cell that
   * `expand` emits for offset `(dx, dy)` is the plain sum, never wrapped.
   */
  lemma NoWrapBelowHalf(c: Cell, r: nat, dx: int, dy: int)
    requires r < 128 && -(r as int) <= dx <= r && -(r as int) <= dy <= r
    requires Chebyshev(c, Offset(c, dx, dy)) <= r
    ensures 0 <= c.x + dx < 256 && 0 <= c.y + dy < 256
    ensures Offset(c, dx, dy) == Cell(c.x + dx, c.y + dy)
  {
  }

  /** With `r = 128` a wrapped cell does get through: (0, 0) yields (128, 0) for `dx = -128`. */
  lemma WrapsFromHalf()
    ensures Offset(Cell(0, 0), -128, 0) == Cell(128, 0)
    ensures Chebyshev(Cell(0, 0), Cell(128, 0)) <= 128
  {
  }

  /** `floor(AGENT.radius())` as the `expand<AGENT>` system computes it: 0, 1, 2, 3. */
  function Expansion(a: Agent): (e: nat)
    ensures e as real <= Radius(a) < e as real + 1.0
    ensures e == Rank(a)
  {
    Size(a) / 2
  }

  /**
   * The `expand<AGENT>` system rule: an empty footprint expands to an empty
   * one, expansion 0 (the smallest agent) copies the cells, and a larger
   * expansion dilates them.
   */
  function ExpandFor(a: Agent, f: Footprint): (e: ExpandedFootprint)
    ensures f.Empty? <==> e.EmptyExpanded?
    ensures f.Cells? && a == Small ==> e == CellsExpanded(f.cells)
    ensures f.Cells? && a != Small ==> e == CellsExpanded(Expand(f, Expansion(a)).value)
  {
    if Expansion(a) == 0 then
      match f
      case Cells(cells) => CellsExpanded(cells)
      case Empty => EmptyExpanded
    else
      match Expand(f, Expansion(a))
      case Some(cells) => CellsExpanded(cells)
      case None => EmptyExpanded
  }

  /**
   * What `ExpandFor` covers: the cells within Chebyshev distance
   * `floor(radius)` of the footprint, and nothing for an empty footprint.
   */
  lemma ExpandForCovers(a: Agent, f: Footprint, n: Cell)
    ensures f.Empty? ==> ExpandFor(a, f) == EmptyExpanded
    ensures f.Cells? ==> (n in ExpandFor(a, f).cells <==> exists c :: c in f.cells && Chebyshev(c, n) <= Expansion(a))
  {
    if f.Cells? {
      if a == Small {
        if n in f.cells {
          assert Chebyshev(n, n) == 0;
        }
        if exists c :: c in f.cells && Chebyshev(c, n) <= 0 {
          var c :| c in f.cells && Chebyshev(c, n) <= 0;
          assert c == n;
        }
      } else {
        ExpandIsSquare(f.cells, Expansion(a), n);
      }
    }
  }

  /** The cells `(x, y)` with `min.x <= x <= max.x` and `min.y <= y <= max.y`, column by column. */
  function BoxCells(min: Cell, max: Cell): (r: seq<Cell>)
    ensures forall n :: n in r <==> min.x <= n.x <= max.x && min.y <= n.y <= max.y
    decreases 256 - min.x
  {
    if min.x > max.x then []
    else
      var col := ColumnCells(min.x, min.y, max.y);
      if min.x == 255 then col else col + BoxCells(Cell(min.x + 1, min.y), max)
  }

  /** The cells `(x, y)` for `y` from `y0` to `y1`. */
  function ColumnCells(x: Scalar, y0: Scalar, y1: Scalar): (r: seq<Cell>)
    ensures forall n :: n in r <==> n.x == x && y0 <= n.y <= y1
    decreases 256 - y0
  {
    if y0 > y1 then []
    else if y0 == 255 then [Cell(x, y0)]
    else [Cell(x, y0)] + ColumnCells(x, y0 + 1, y1)
  }

  /** `Cell::euclidean_sqrt`: the squared Euclidean distance. */
  function EuclideanSquared(a: Cell, b: Cell): nat {
    (a.x - b.x) * (a.x - b.x) + (a.y - b.y) * (a.y - b.y)
  }

  /** `HALF_CELL_SIZE * 0.5`, squared. */
  const AGENT_BORDER_PADDING_SQUARED: real := 0.0625

  /**
   * The `agents` system: an agent off the field gets an empty footprint; an
   * agent on the field gets the cells of its bounding box (`min`/`max`, the
   * rounded corners of its padded extent) within its padded radius of its
   * centre cell.
   */
  function AgentFootprint(index: CellIndex, a: Agent, min: Cell, max: Cell): (f: Footprint)
    ensures index.Invalid? <==> f == Empty
    ensures index.Valid? ==> forall n :: n in f.cells <==>
              n in BoxCells(min, max) &&
              EuclideanSquared(index.cell, n) as real <= Radius(a) * Radius(a) + AGENT_BORDER_PADDING_SQUARED
  {
    match index
    case Invalid => Empty
    case Valid(center, _) =>
      Cells(FilterWithin(BoxCells(min, max), center, Radius(a) * Radius(a) + AGENT_BORDER_PADDING_SQUARED))
  }

  /** Keeps the cells whose squared distance to `center` is at most `bound`. */
  function FilterWithin(cells: seq<Cell>, center: Cell, bound: real): (r: seq<Cell>)
    ensures forall n :: n in r <==> n in cells && EuclideanSquared(center, n) as real <= bound
  {
    if cells == [] then []
    else
      var rest := FilterWithin(cells[1..], center, bound);
      assert forall n :: n in cells <==> n == cells[0] || n in cells[1..];
      if EuclideanSquared(center, cells[0]) as real <= bound then [cells[0]] + rest else rest
  }

  /**
   * The `obstacles` system: a non-shape obstacle gets an empty footprint; a
   * shape gets the cells of its padded bounding box that are on the field
   * and whose centre lies in the outline (`inside`, the point-in-polygon
   * test, is a parameter).
   */
  function ObstacleFootprint(isShape: bool, min: Cell, max: Cell, width: nat, height: nat,
                             inside: Cell -> bool): (f: Footprint)
    ensures !isShape <==> f == Empty
    ensures isShape ==> forall n :: n in f.cells <==>
              n in BoxCells(min, max) && InBounds(n, width, height) && inside(n)
  {
    if !isShape then Empty
    else Cells(FilterInside(BoxCells(min, max), width, height, inside))
  }

  /** Keeps the valid cells that `inside` accepts. */
  function FilterInside(cells: seq<Cell>, width: nat, height: nat, inside: Cell -> bool): (r: seq<Cell>)
    ensures forall n :: n in r <==> n in cells && InBounds(n, width, height) && inside(n)
  {
    if cells == [] then []
    else
      var rest := FilterInside(cells[1..], width, height, inside);
      assert forall n :: n in cells <==> n == cells[0] || n in cells[1..];
      if InBounds(cells[0], width, height) && inside(cells[0]) then [cells[0]] + rest else rest
  }
}
