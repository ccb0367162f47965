/**
 * Grid primitives of the warband `flow_field` module: the square
 * `Field<T>` of `size x size` cells in row-major order, the neighbour
 * iterators of `Cell` in this module's order, the unchecked step
 * `at_direction`, and the Manhattan `distance`. `Cell`, `Direction`,
 * `direction` and `manhattan_dist` are the same as in the navigation grid
 * and are shared with it.
 */
module WbFfField {
  import opened Opt
  import opened WbNavGrid

  /** The offsets of `Cell::adjacent`, in order: N, W, E, S. */
  const ADJACENT: seq<Direction> := [North, West, East, South]

  /** The offsets of `Cell::diagonal`, in order: NE, SW, SE, NW. */
  const DIAGONAL: seq<Direction> := [NorthEast, SouthWest, SouthEast, NorthWest]

  /** `Cell::adjacent`: the four orthogonal neighbours, skipping negative coordinates. */
  function CellAdjacent(c: Cell): seq<Cell> {
    NeighborsVia(c, ADJACENT)
  }

  /** `Cell::diagonal`: the four diagonal neighbours, skipping negative coordinates. */
  function CellDiagonal(c: Cell): seq<Cell> {
    NeighborsVia(c, DIAGONAL)
  }

  /** `Cell::neighbors`: adjacent, then diagonal. */
  function CellNeighbors(c: Cell): seq<Cell> {
    CellAdjacent(c) + CellDiagonal(c)
  }

  /**
   * In this module's order the neighbour iterators still yield exactly the
   * cells at Manhattan distance one, and the cells one step away on both
   * axes.
   */
  lemma CellNeighborsExactly(c: Cell, n: Cell)
    requires StepSafe(c) && IsizeSafe(n)
    ensures n in CellAdjacent(c) <==> Manhattan(c, n) == 1
    ensures n in CellDiagonal(c) <==> AbsDiff(c.x, n.x) == 1 && AbsDiff(c.y, n.y) == 1
  {
    AdjacentExactly(c, n);
    DiagonalExactly(c, n);
    SameDirections(c, n, ADJACENT, AdjacentDirections);
    SameDirections(c, n, DIAGONAL, DiagonalDirections);
  }

  /** Two direction lists with the same members yield the same neighbours. */
  lemma SameDirections(c: Cell, n: Cell, ds: seq<Direction>, es: seq<Direction>)
    requires forall d :: d in ds <==> d in es
    ensures n in NeighborsVia(c, ds) <==> n in NeighborsVia(c, es)
  {
  }

  /**
   * `Cell::at_direction` subtracts without a check: a step with a northward
   * component needs `y >= 1`, one with a westward component `x >= 1`.
   */
  predicate AtDirectionDefined(c: Cell, d: Direction) {
    (AsI32x2(d).0 < 0 ==> c.x >= 1) && (AsI32x2(d).1 < 0 ==> c.y >= 1)
  }

  /** `Cell::at_direction`: the cell one step in direction `d`; `None` stays in place. */
  function AtDirection(c: Cell, d: Direction): (n: Cell)
    requires AtDirectionDefined(c, d)
    ensures n.x == c.x + AsI32x2(d).0 && n.y == c.y + AsI32x2(d).1
  {
    match d
    case North => Cell(c.x, c.y - 1)
    case NorthEast => Cell(c.x + 1, c.y - 1)
    case East => Cell(c.x + 1, c.y)
    case SouthEast => Cell(c.x + 1, c.y + 1)
    case South => Cell(c.x, c.y + 1)
    case SouthWest => Cell(c.x - 1, c.y + 1)
    case West => Cell(c.x - 1, c.y)
    case NorthWest => Cell(c.x - 1, c.y - 1)
    case None => c
  }

  /**
   * `direction` undoes `at_direction` for every proper direction, `None`
   * stays in place, and where the checked step exists it is the same cell.
   */
  lemma AtDirectionRoundTrip(c: Cell, d: Direction)
    requires AtDirectionDefined(c, d) && StepSafe(c)
    ensures d != Direction.None ==> DirectionTo(c, AtDirection(c, d)) == d
    ensures d != Direction.None ==> Neighbor(c, d) == Some(AtDirection(c, d))
    ensures d == Direction.None ==> AtDirection(c, d) == c
  {
  }

  /** `Cell::distance`: `manhattan_dist`. */
  function Distance(a: Cell, b: Cell): nat {
    Manhattan(a, b)
  }

  /** `Cell::distance_scaled`: the distance times `scalar`. */
  function DistanceScaled(a: Cell, b: Cell, scalar: real): real {
    Distance(a, b) as real * scalar
  }

  /**
   * The distance is symmetric and zero exactly between equal cells; the
   * scaled distance is symmetric and linear in the scalar.
   */
  lemma DistanceFacts(a: Cell, b: Cell, s: real, t: real)
    requires IsizeSafe(a) && IsizeSafe(b)
    ensures Distance(a, b) == Distance(b, a)
    ensures Distance(a, b) == 0 <==> a == b
    ensures DistanceScaled(a, b, s) == DistanceScaled(b, a, s)
    ensures DistanceScaled(a, b, s + t) == DistanceScaled(a, b, s) + DistanceScaled(a, b, t)
    ensures DistanceScaled(a, b, 1.0) == Distance(a, b) as real
  {
    DistancesAgree(a, b);
  }

  /** `Field<T>`: `size * size` values in row-major order. */
  class Field<T> {
    var size: nat
    var data: seq<T>

    ghost predicate Valid()
      reads this
    {
      |data| == size * size
    }

    /** `Field::new`: takes the data as given; it is `Valid` only when the length fits. */
    constructor (size: nat, data: seq<T>)
      ensures Valid() <==> |data| == size * size
      ensures this.size == size && this.data == data
    {
      this.size, this.data := size, data;
    }

    /** `Field::in_bounds`. */
    predicate InBounds(c: Cell)
      reads this
    {
      c.x < size && c.y < size
    }

    /** `Field::index`: `cell_to_index`, unchecked. */
    function IndexOf(c: Cell): (i: nat)
      reads this
      ensures InBounds(c) ==> i < size * size
      ensures InBounds(c) ==> FromIndex(i, size) == c
    {
      assert InBounds(c) ==> Index(c, size) < size * size && FromIndex(Index(c, size), size) == c by {
        if InBounds(c) {
          IndexInRange(c, size, size);
          FromIndexOfIndex(c, size);
        }
      }
      Index(c, size)
    }

    /** `Field::cell`: `index_to_cell`; a zero size divides by zero. */
    function CellOf(index: nat): (c: Cell)
      reads this
      requires size > 0
      ensures index < size * size ==> InBounds(c) && IndexOf(c) == index
    {
      assert index < size * size ==> InBounds(FromIndex(index, size)) by {
        if index < size * size {
          FromIndexInBounds(index, size, size);
        }
      }
      FromIndex(index, size)
    }

    /** `Field::get`: the value of an in-bounds cell, whose slot has to exist. */
    function Get(c: Cell): (r: Option<T>)
      reads this
      requires InBounds(c) ==> IndexOf(c) < |data|
      ensures r.Some? <==> InBounds(c)
      ensures r.Some? ==> r.value == data[IndexOf(c)]
    {
      if InBounds(c) then Some(data[IndexOf(c)]) else Option.None
    }

    /** `IndexMut<Cell>`: writes the cell's slot, which has to exist. */
    method Set(c: Cell, v: T)
      requires IndexOf(c) < |data|
      modifies this
      ensures size == old(size) && |data| == |old(data)|
      ensures data == old(data)[old(IndexOf(c)) := v]
    {
      data := data[IndexOf(c) := v];
    }

    /** `Field::adjacent`: the in-bounds adjacent cells. */
    function Adjacent(c: Cell): (r: seq<Cell>)
      reads this
      ensures forall n :: n in r <==> n in CellAdjacent(c) && InBounds(n)
    {
      FilterValid(CellAdjacent(c), size, size)
    }

    /** `Field::diagonal`: the in-bounds diagonal cells. */
    function Diagonal(c: Cell): (r: seq<Cell>)
      reads this
      ensures forall n :: n in r <==> n in CellDiagonal(c) && InBounds(n)
    {
      FilterValid(CellDiagonal(c), size, size)
    }

    /** `Field::neighbors`: the in-bounds neighbours. */
    function Neighbors(c: Cell): (r: seq<Cell>)
      reads this
      ensures forall n :: n in r <==> (n in CellAdjacent(c) || n in CellDiagonal(c)) && InBounds(n)
    {
      FilterValid(CellNeighbors(c), size, size)
    }

    /** `Field::resize`: the new size, the data resized to `size * size` with the default. */
    method Resize(size: nat, default: T)
      modifies this
      ensures Valid() && this.size == size
      ensures data == Resized(old(data), size * size, default)
    {
      this.size := size;
      data := Resized(data, size * size, default);
    }

    /** `Field::empty`: a zero size. */
    function Empty(): (b: bool)
      reads this
      ensures b <==> size == 0
      ensures Valid() ==> (b <==> |data| == 0)
    {
      size == 0
    }
  }
}
