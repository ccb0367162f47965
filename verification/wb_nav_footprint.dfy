/**
 * Footprints of the warband navigation: the cells an agent or obstacle
 * occupies, and their diamond (Manhattan) dilation. Coordinates are
 * `usize`; an offset that goes below zero wraps to a huge coordinate and
 * is judged by the `isize`-based Manhattan distance.
 */
module WbNavFootprint {
  import opened Opt
  import opened WbNavGrid

  /** `Footprint`; the default is `Empty`. */
  datatype Footprint = Empty | Cells(cells: seq<Cell>)

  /** `ExpandedFootprint<AGENT>`: a footprint dilated for one agent size. */
  datatype ExpandedFootprint = EmptyExpanded | CellsExpanded(cells: seq<Cell>)

  /** `CellIndex`: the cell an entity stands on, if it is on the field. */
  datatype CellIndex = Invalid | Valid(cell: Cell, index: nat)

  /** `Footprint::empty`. */
  function IsEmpty(f: Footprint): (b: bool)
    ensures b <==> f == Empty
  {
    f.Empty?
  }

  /** The cell at offset `(dx, dy)`: `(c.x as isize + dx) as usize`, and likewise for `y`. */
  function Offset(c: Cell, dx: int, dy: int): Cell {
    Cell(WrapUsize(AsIsize(c.x) + dx), WrapUsize(AsIsize(c.y) + dy))
  }

  /** `as usize` on an `isize` value, without the modulus. */
  lemma WrapUsizeOf(w: int)
    requires -(USIZE_LIMIT as int) <= w < USIZE_LIMIT
    ensures WrapUsize(w) == if w < 0 then w + USIZE_LIMIT else w
  {
    if w < 0 {
      assert w == -1 * USIZE_LIMIT + (w + USIZE_LIMIT);
    }
  }

  /** Casting back and forth between `usize` and `isize` loses nothing. */
  lemma CastsRoundTrip(v: nat, w: int)
    ensures v < USIZE_LIMIT ==> WrapUsize(AsIsize(v)) == v
    ensures -(ISIZE_LIMIT as int) <= w < ISIZE_LIMIT ==> AsIsize(WrapUsize(w)) == w
  {
    if v < USIZE_LIMIT {
      WrapUsizeOf(AsIsize(v));
    }
    if -(ISIZE_LIMIT as int) <= w < ISIZE_LIMIT {
      WrapUsizeOf(w);
    }
  }

  /**
   * Away from the `isize` limit, the offset cell lies at Manhattan distance
   * `|dx| + |dy|` from `c`, even when a coordinate wrapped below zero.
   */
  lemma OffsetDistance(c: Cell, r: nat, dx: int, dy: int)
    requires c.x + r < ISIZE_LIMIT && c.y + r < ISIZE_LIMIT
    requires -(r as int) <= dx <= r && -(r as int) <= dy <= r
    ensures Manhattan(c, Offset(c, dx, dy)) == AbsDiff(dx, 0) + AbsDiff(dy, 0)
  {
    AsIsizeExact(c.x);
    AsIsizeExact(c.y);
    CastsRoundTrip(0, c.x + dx);
    CastsRoundTrip(0, c.y + dy);
  }

  /** The inner loop of `expand`: `dy` from `dy0` up to `r`, keeping cells within Manhattan distance `r`. */
  function ExpandColumn(c: Cell, r: nat, dx: int, dy0: int): (out: seq<Cell>)
    ensures forall n :: n in out ==> Manhattan(c, n) <= r
    ensures forall n :: n in out ==> exists dy :: dy0 <= dy <= r && n == Offset(c, dx, dy)
    ensures forall dy :: dy0 <= dy <= r && Manhattan(c, Offset(c, dx, dy)) <= r ==> Offset(c, dx, dy) in out
    decreases r - dy0 + 1
  {
    if dy0 > r then []
    else
      var n := Offset(c, dx, dy0);
      (if Manhattan(c, n) <= r then [n] else []) + ExpandColumn(c, r, dx, dy0 + 1)
  }

  /** The middle loop of `expand`: every `dx` from `dx0` up to `r`. */
  function ExpandDiamond(c: Cell, r: nat, dx0: int): (out: seq<Cell>)
    ensures forall n :: n in out ==> Manhattan(c, n) <= r
    ensures forall n :: n in out ==> exists dx, dy :: dx0 <= dx <= r && -(r as int) <= dy <= r && n == Offset(c, dx, dy)
    ensures forall dx, dy :: dx0 <= dx <= r && -(r as int) <= dy <= r && Manhattan(c, Offset(c, dx, dy)) <= r ==>
              Offset(c, dx, dy) in out
    decreases r - dx0 + 1
  {
    if dx0 > r then [] else ExpandColumn(c, r, dx0, -(r as int)) + ExpandDiamond(c, r, dx0 + 1)
  }

  /** The outer loop of `expand`: each base cell in turn, duplicates kept. */
  function ExpandAll(cells: seq<Cell>, r: nat): (out: seq<Cell>)
    ensures forall n :: n in out ==> exists c :: c in cells && Manhattan(c, n) <= r
  {
    if cells == [] then []
    else
      var rest := ExpandAll(cells[1..], r);
      assert forall c :: c in cells[1..] ==> c in cells;
      ExpandDiamond(cells[0], r, -(r as int)) + rest
  }

  /**
   * `Footprint::expand(radius)`: `None` for an empty footprint; otherwise
   * each base cell followed by every offset in `[-r, r]^2` whose cell lies
   * within Manhattan distance `r`.
   */
  function Expand(f: Footprint, radius: nat): (r: Option<seq<Cell>>)
    ensures r.Some? <==> f.Cells?
  {
    match f
    case Cells(cells) => Some(ExpandAll(cells, radius))
    case Empty => Option.None
  }

  /** A `usize` cell far enough below the `isize` limit for a dilation by `r`. */
  predicate Dilatable(c: Cell, r: nat) {
    c.x + r < ISIZE_LIMIT && c.y + r < ISIZE_LIMIT
  }

  /**
   * One base cell dilates to exactly the `usize` cells within Manhattan
   * distance `r` of it, as measured through `isize`.
   */
  lemma DiamondExactly(c: Cell, r: nat, n: Cell)
    requires Dilatable(c, r)
    ensures n in ExpandDiamond(c, r, -(r as int)) <==>
              n.x < USIZE_LIMIT && n.y < USIZE_LIMIT && Manhattan(c, n) <= r
  {
    if n in ExpandDiamond(c, r, -(r as int)) {
      var dx, dy :| -(r as int) <= dx <= r && -(r as int) <= dy <= r && n == Offset(c, dx, dy);
      OffsetIsUsize(c, dx, dy);
    }
    if n.x < USIZE_LIMIT && n.y < USIZE_LIMIT && Manhattan(c, n) <= r {
      DiamondCellIsOffset(c, r, n);
    }
  }

  /** An offset cell has `usize` coordinates. */
  lemma OffsetIsUsize(c: Cell, dx: int, dy: int)
    ensures Offset(c, dx, dy).x < USIZE_LIMIT && Offset(c, dx, dy).y < USIZE_LIMIT
  {
  }

  /** A `usize` cell within the diamond is the offset by its `isize` differences. */
  lemma DiamondCellIsOffset(c: Cell, r: nat, n: Cell)
    requires Dilatable(c, r) && n.x < USIZE_LIMIT && n.y < USIZE_LIMIT && Manhattan(c, n) <= r
    ensures exists dx, dy :: -(r as int) <= dx <= r && -(r as int) <= dy <= r && n == Offset(c, dx, dy)
  {
    AsIsizeExact(c.x);
    AsIsizeExact(c.y);
    var dx, dy := AsIsize(n.x) - c.x, AsIsize(n.y) - c.y;
    CastsRoundTrip(n.x, 0);
    CastsRoundTrip(n.y, 0);
    assert Offset(c, dx, dy) == n;
  }

  /** `ExpandAll` emits exactly the union of the base cells' diamonds. */
  lemma {:induction false} ExpandAllExactly(cells: seq<Cell>, r: nat, n: Cell)
    requires forall c :: c in cells ==> Dilatable(c, r)
    ensures n in ExpandAll(cells, r) <==>
              n.x < USIZE_LIMIT && n.y < USIZE_LIMIT && exists c :: c in cells && Manhattan(c, n) <= r
  {
    if cells != [] {
      assert forall c :: c in cells <==> c == cells[0] || c in cells[1..];
      ExpandAllExactly(cells[1..], r, n);
      DiamondExactly(cells[0], r, n);
    }
  }

  /**
   * The dilation is the diamond of Manhattan radius `r` around the base
   * cells, every base cell included, and with radius 0 it holds exactly the
   * base cells.
   */
  lemma ExpandIsDiamond(cells: seq<Cell>, r: nat, n: Cell)
    requires forall c :: c in cells ==> Dilatable(c, r)
    ensures n in Expand(Cells(cells), r).value <==>
              n.x < USIZE_LIMIT && n.y < USIZE_LIMIT && exists c :: c in cells && Manhattan(c, n) <= r
    ensures forall c :: c in cells ==> c in Expand(Cells(cells), r).value
    ensures r == 0 ==> (n in Expand(Cells(cells), r).value <==> n in cells)
  {
    assert Expand(Cells(cells), r).value == ExpandAll(cells, r);
    ExpandAllExactly(cells, r, n);
    BaseCellsKept(cells, r);
    if r == 0 {
      RadiusZeroKeepsBase(cells, n);
    }
  }

  /** Every base cell is among the cells `ExpandAll` emits. */
  lemma BaseCellsKept(cells: seq<Cell>, r: nat)
    requires forall c :: c in cells ==> Dilatable(c, r)
    ensures forall b :: b in cells ==> b in ExpandAll(cells, r)
  {
    forall b | b in cells ensures b in ExpandAll(cells, r) {
      ExpandAllExactly(cells, r, b);
      DistancesAgree(b, b);
    }
  }

  /** With radius 0, `ExpandAll` emits exactly the base cells. */
  lemma RadiusZeroKeepsBase(cells: seq<Cell>, n: Cell)
    requires forall c :: c in cells ==> Dilatable(c, 0)
    ensures n in ExpandAll(cells, 0) <==> n in cells
  {
    ExpandAllExactly(cells, 0, n);
    BaseCellsKept(cells, 0);
    if n in ExpandAll(cells, 0) {
      var c :| c in cells && Manhattan(c, n) <= 0;
      ManhattanZero(c, n);
    }
  }

  /** Within Manhattan distance 0 of a cell below `2^63` lies only the cell itself. */
  lemma ManhattanZero(c: Cell, n: Cell)
    requires IsizeSafe(c) && n.x < USIZE_LIMIT && n.y < USIZE_LIMIT
    ensures Manhattan(c, n) == 0 <==> n == c
  {
    AsIsizeExact(c.x);
    AsIsizeExact(c.y);
  }

  /**
   * Wrapped cells do come out: a cell in column 0 dilated by any `r >= 1`
   * yields the cell in column `usize::MAX` of the same row, far outside any
   * field, which consumers have to filter.
   */
  lemma ExpandEmitsWrappedCells(c: Cell, r: nat)
    requires c.x == 0 && r >= 1 && Dilatable(c, r)
    ensures Cell(USIZE_LIMIT - 1, c.y) in Expand(Cells([c]), r).value
  {
    var n := Cell(USIZE_LIMIT - 1, c.y);
    AsIsizeExact(c.x);
    AsIsizeExact(c.y);
    assert Manhattan(c, n) == 1;
    ExpandAllExactly([c], r, n);
  }

  /**
   * The `agents` system: an agent whose `CellIndex` is invalid gets an
   * empty footprint; one on the field gets its rasterised cells (`cells`,
   * computed from its position in world space).
   */
  function AgentFootprint(index: CellIndex, current: Footprint, cells: seq<Cell>): (f: Footprint)
    ensures index.Invalid? ==> f == Empty
    ensures index.Valid? ==> f == Cells(cells)
    ensures f.Empty? <==> index.Invalid?
  {
    match index
    case Invalid => if !IsEmpty(current) then Empty else current
    case Valid(_, _) => Cells(cells)
  }

  /**
   * The `obstacles` system: an obstacle that is not a shape gets an empty
   * footprint; a shape gets its rasterised cells.
   */
  function ObstacleFootprint(isShape: bool, current: Footprint, cells: seq<Cell>): (f: Footprint)
    ensures !isShape ==> f == Empty
    ensures isShape ==> f == Cells(cells)
  {
    if !isShape then (if !IsEmpty(current) then Empty else current) else Cells(cells)
  }
}
