/**
 * The earlier warband flow-field prototype (`flowfield/field.rs`): the
 * square `Field` with its 4- and 8-neighbour iterators, the two-valued
 * `Cost`, and `IntegrationField::build`, a label-correcting search from the
 * goal cells over the passable cells in which a straight step costs 1 and a
 * diagonal step 2 (their Manhattan distance), in `u16`.
 *
 * The prototype's `Field<T>` and `PriorityQueue` are the same code as those
 * of the `flow_field` module and are shared with it (`WbFfField.Field`,
 * `WbFfFlow.PriorityQueue`).
 */
module WbFlowfield {
  import opened Opt
  import opened WbNavGrid
  import FF = WbFfField
  import NF = WbNavFlow
  import Q = WbFfFlow

  // ---------------------------------------------------------------------
  // Cells and neighbours
  // ---------------------------------------------------------------------

  /**
   * `cell_to_index` and `index_to_cell` are inverse: a cell whose column is
   * below the size survives the trip through its index, and every index the
   * trip through its cell.
   */
  lemma CellIndexRoundTrip(c: Cell, i: nat, size: nat)
    requires size > 0
    ensures c.x < size ==> FromIndex(Index(c, size), size) == c
    ensures Index(FromIndex(i, size), size) == i
  {
    if c.x < size {
      FromIndexOfIndex(c, size);
    }
    IndexOfFromIndex(i, size);
  }

  /** The offsets of `Cell::neighbors`, in order: N, W, E, S. */
  const NEIGHBORS4: seq<Direction> := [North, West, East, South]

  /** The offsets of `Cell::neighbors8`, in order: NW, W, SW, N, S, NE, E, SE. */
  const NEIGHBORS8: seq<Direction> := [NorthWest, West, SouthWest, North, South, NorthEast, East, SouthEast]

  /** `Cell::neighbors`: the four orthogonal neighbours, skipping negative coordinates. */
  function CellNeighbors4(c: Cell): seq<Cell> {
    NeighborsVia(c, NEIGHBORS4)
  }

  /** `Cell::neighbors8`: the eight surrounding cells, skipping negative coordinates. */
  function CellNeighbors8(c: Cell): seq<Cell> {
    NeighborsVia(c, NEIGHBORS8)
  }

  /** `neighbors` yields exactly the cells at Manhattan distance one. */
  lemma CellNeighbors4Exactly(c: Cell, n: Cell)
    requires StepSafe(c) && IsizeSafe(n)
    ensures n in CellNeighbors4(c) <==> Manhattan(c, n) == 1
  {
    AdjacentExactly(c, n);
    DistancesAgree(c, n);
    FF.SameDirections(c, n, NEIGHBORS4, AdjacentDirections);
  }

  /** `neighbors8` yields exactly the other cells at most one step away on each axis. */
  lemma CellNeighbors8Exactly(c: Cell, n: Cell)
    requires StepSafe(c) && IsizeSafe(n)
    ensures n in CellNeighbors8(c) <==> n != c && AbsDiff(c.x, n.x) <= 1 && AbsDiff(c.y, n.y) <= 1
  {
    AdjacentExactly(c, n);
    DiagonalExactly(c, n);
    DistancesAgree(c, n);
    var both := AdjacentDirections + DiagonalDirections;
    FF.SameDirections(c, n, NEIGHBORS8, both);
    if n in NeighborsVia(c, both) {
      var d :| d in both && Neighbor(c, d) == Some(n);
      assert d in AdjacentDirections || d in DiagonalDirections;
    }
  }

  /** `Field::neighbors` of a field of the given size: the in-bounds orthogonal neighbours. */
  function Neighbors4(c: Cell, size: nat): (r: seq<Cell>)
    ensures |r| <= 4
    ensures forall n :: n in r <==> n in CellNeighbors4(c) && InBounds(n, size, size)
  {
    FilterValid(CellNeighbors4(c), size, size)
  }

  /** `Field::neighbors8` of a field of the given size: the in-bounds surrounding cells. */
  function Neighbors8(c: Cell, size: nat): (r: seq<Cell>)
    ensures |r| <= 8
    ensures forall n :: n in r <==> n in CellNeighbors8(c) && InBounds(n, size, size)
  {
    FilterValid(CellNeighbors8(c), size, size)
  }

  // ---------------------------------------------------------------------
  // Costs
  // ---------------------------------------------------------------------

  /** `Cost`; the default is `Passable`. */
  datatype Cost = Impassable | Passable

  /** `Cost::default`. */
  const DEFAULT_COST: Cost := Passable

  /** `CostField::new`: a `size x size` field of passable cells. */
  method NewCostField(size: nat) returns (f: FF.Field<Cost>)
    ensures fresh(f) && f.Valid() && f.size == size
    ensures forall i :: 0 <= i < |f.data| ==> f.data[i] == DEFAULT_COST
  {
    f := new FF.Field(size, seq(size * size, _ => DEFAULT_COST));
  }

  /**
   * The costs fill the square field, and the field has fewer than `2^63`
   * cells, as every `Vec` of non-zero-sized values does.
   */
  predicate Grid(costs: seq<Cost>, size: nat) {
    |costs| == size * size && size * size < ISIZE_LIMIT
  }

  /** `cost_field[n].passable()`. */
  predicate PassableAt(costs: seq<Cost>, size: nat, n: Cell)
    requires Grid(costs, size) && InBounds(n, size, size)
  {
    At(costs, n, size, size) == Passable
  }

  /** The `filter` of the search loop: keeps, in order, the passable cells of `ns`. */
  function PassableOnly(costs: seq<Cost>, size: nat, ns: seq<Cell>): (r: seq<Cell>)
    requires Grid(costs, size) && forall n :: n in ns ==> InBounds(n, size, size)
    ensures forall n :: n in r <==> n in ns && PassableAt(costs, size, n)
  {
    if ns == [] then []
    else
      var rest := PassableOnly(costs, size, ns[1..]);
      assert forall n :: n in ns <==> n == ns[0] || n in ns[1..];
      if PassableAt(costs, size, ns[0]) then [ns[0]] + rest else rest
  }

  /**
   * The cells `build` processes from a popped cell `c`, in order: its
   * passable 8-neighbours in the field. Each is one step (Manhattan 1) or
   * one diagonal step (Manhattan 2) away.
   */
  function Considered(costs: seq<Cost>, size: nat, c: Cell): (r: seq<Cell>)
    requires Grid(costs, size) && InBounds(c, size, size)
    ensures forall n :: n in r <==>
              InBounds(n, size, size) && PassableAt(costs, size, n) &&
              n != c && AbsDiff(c.x, n.x) <= 1 && AbsDiff(c.y, n.y) <= 1
    ensures forall n :: n in r ==> InBounds(n, size, size) && 1 <= Manhattan(c, n) <= 2
  {
    var around := Neighbors8(c, size);
    NF.CellOfSmallField(c, size, size);
    forall n | InBounds(n, size, size)
      ensures n in around <==> n != c && AbsDiff(c.x, n.x) <= 1 && AbsDiff(c.y, n.y) <= 1
      ensures n in around ==> 1 <= Manhattan(c, n) <= 2
    {
      NF.CellOfSmallField(n, size, size);
      CellNeighbors8Exactly(c, n);
      DistancesAgree(c, n);
    }
    PassableOnly(costs, size, around)
  }

  // ---------------------------------------------------------------------
  // The search
  // ---------------------------------------------------------------------

  /**
   * `self[cell] + manhattan_dist(cell, neighbor) as u16`: the sum wraps at
   * `2^16`, as in a release build.
   */
  function Candidate(V: seq<NF.U16>, size: nat, c: Cell, n: Cell): NF.U16
    requires |V| == size * size && InBounds(c, size, size) && InBounds(n, size, size)
  {
    WrapAdd(At(V, c, size, size), Manhattan(c, n))
  }

  /** The `u16` sum `a + m` wrapped at `2^16`: never above the exact sum, and equal to it when that fits. */
  function WrapAdd(a: NF.U16, m: nat): (r: NF.U16)
    ensures r <= a + m
    ensures a + m <= NF.U16_MAX ==> r == a + m
  {
    (a + m) % 65536
  }

  /** `cost < self[neighbor]`: the move from `c` would lower `n`'s value. */
  predicate Improves(V: seq<NF.U16>, size: nat, c: Cell, n: Cell)
    requires |V| == size * size && InBounds(c, size, size) && InBounds(n, size, size)
  {
    Candidate(V, size, c, n) < At(V, n, size, size)
  }

  /** No move `build` processes from `c` would lower a value. */
  ghost predicate Settled(costs: seq<Cost>, V: seq<NF.U16>, size: nat, c: Cell)
    requires Grid(costs, size) && |V| == size * size && InBounds(c, size, size)
  {
    forall n :: n in Considered(costs, size, c) ==> !Improves(V, size, c, n)
  }

  /**
   * Settledness is the triangle inequality: every passable 8-neighbour `n`
   * of `c` holds at most `c`'s value plus the Manhattan step, which is 1
   * straight and 2 diagonally.
   */
  lemma SettledIsTriangleInequality(costs: seq<Cost>, V: seq<NF.U16>, size: nat, c: Cell, n: Cell)
    requires Grid(costs, size) && |V| == size * size && InBounds(c, size, size) && InBounds(n, size, size)
    requires Settled(costs, V, size, c)
    requires PassableAt(costs, size, n) && n != c && AbsDiff(c.x, n.x) <= 1 && AbsDiff(c.y, n.y) <= 1
    ensures At(V, n, size, size) <= At(V, c, size, size) + Manhattan(c, n)
    ensures Manhattan(c, n) == if c.x != n.x && c.y != n.y then 2 else 1
  {
    assert n in Considered(costs, size, c);
    assert !Improves(V, size, c, n);
    NF.CellOfSmallField(c, size, size);
    NF.CellOfSmallField(n, size, size);
    DistancesAgree(c, n);
  }

  /** The sum of all values: every lowering decreases it. */
  function Total(V: seq<NF.U16>): nat {
    if V == [] then 0 else V[0] + Total(V[1..])
  }

  /** Rewriting one value changes the sum by the difference. */
  lemma {:induction false} TotalUpdate(V: seq<NF.U16>, i: nat, v: NF.U16)
    requires i < |V|
    ensures Total(V[i := v]) + V[i] == Total(V) + v
  {
    if i > 0 {
      TotalUpdate(V[1..], i - 1, v);
      assert V[i := v][1..] == V[1..][i - 1 := v];
    } else {
      assert V[i := v][1..] == V[1..];
    }
  }

  /** Only goals in the field and passable cells hold a finite value. */
  ghost predicate FiniteOnlyReachable(costs: seq<Cost>, goals: seq<Cell>, V: seq<NF.U16>, size: nat)
    requires Grid(costs, size) && |V| == size * size
  {
    forall c :: InBounds(c, size, size) && At(V, c, size, size) < NF.U16_MAX ==>
      c in goals || PassableAt(costs, size, c)
  }

  /** Every goal in the field is at zero. */
  ghost predicate GoalsAtZero(goals: seq<Cell>, V: seq<NF.U16>, size: nat)
    requires |V| == size * size
  {
    forall g :: g in goals && InBounds(g, size, size) ==> At(V, g, size, size) == 0
  }

  /**
   * Lowering the value of a cell `n` other than `c` cannot make a move out
   * of `c` that changed nothing start to.
   */
  lemma NotImprovesAfterWrite(V: seq<NF.U16>, size: nat, c: Cell, m: Cell, n: Cell, v: NF.U16)
    requires |V| == size * size
    requires InBounds(c, size, size) && InBounds(m, size, size) && InBounds(n, size, size)
    requires c != n && v <= At(V, n, size, size)
    requires !Improves(V, size, c, m)
    ensures !Improves(Put(V, n, v, size, size), size, c, m)
  {
    AtPut(V, n, v, c, size, size);
    AtPut(V, n, v, m, size, size);
  }

  /**
   * After the write to `n` from `cell`, that move changes nothing more, no
   * move out of `cell` that changed nothing starts to, and every other
   * settled cell stays settled.
   */
  lemma SettledByWrite(costs: seq<Cost>, V: seq<NF.U16>, size: nat, cell: Cell, n: Cell)
    requires Grid(costs, size) && |V| == size * size
    requires InBounds(cell, size, size) && n in Considered(costs, size, cell)
    requires Improves(V, size, cell, n)
    ensures var V1 := Put(V, n, Candidate(V, size, cell, n), size, size);
            && !Improves(V1, size, cell, n)
            && (forall m :: InBounds(m, size, size) && !Improves(V, size, cell, m) ==> !Improves(V1, size, cell, m))
            && (forall c :: InBounds(c, size, size) && c != n && Settled(costs, V, size, c) ==>
                  Settled(costs, V1, size, c))
  {
    var v := Candidate(V, size, cell, n);
    var V1 := Put(V, n, v, size, size);
    assert cell != n;
    AtPut(V, n, v, cell, size, size);
    AtPut(V, n, v, n, size, size);
    forall m | InBounds(m, size, size) && !Improves(V, size, cell, m) ensures !Improves(V1, size, cell, m) {
      NotImprovesAfterWrite(V, size, cell, m, n, v);
    }
    forall c | InBounds(c, size, size) && c != n && Settled(costs, V, size, c) ensures Settled(costs, V1, size, c) {
      forall m | m in Considered(costs, size, c) ensures !Improves(V1, size, c, m) {
        NotImprovesAfterWrite(V, size, c, m, n, v);
      }
    }
  }

  /**
   * The write to a passable `n` that lowers it keeps only reachable cells
   * finite, every goal at zero, and lowers no value but `n`'s.
   */
  lemma ReachableByWrite(costs: seq<Cost>, goals: seq<Cell>, V: seq<NF.U16>, size: nat, n: Cell, v: NF.U16)
    requires Grid(costs, size) && |V| == size * size && InBounds(n, size, size)
    requires PassableAt(costs, size, n) && v < At(V, n, size, size)
    requires FiniteOnlyReachable(costs, goals, V, size) && GoalsAtZero(goals, V, size)
    ensures FiniteOnlyReachable(costs, goals, Put(V, n, v, size, size), size)
    ensures GoalsAtZero(goals, Put(V, n, v, size, size), size)
    ensures forall c :: InBounds(c, size, size) ==> At(Put(V, n, v, size, size), c, size, size) <= At(V, c, size, size)
  {
    forall c | InBounds(c, size, size)
      ensures At(Put(V, n, v, size, size), c, size, size) == if c == n then v else At(V, c, size, size)
    {
      AtPut(V, n, v, c, size, size);
    }
  }

  /**
   * When a step keeps every move from `cell` that changed nothing that
   * way and leaves the move to `ns[k]` changing nothing, the first `k + 1`
   * moves of `ns` change nothing.
   */
  lemma PrefixCleared(V1: seq<NF.U16>, V2: seq<NF.U16>, size: nat, cell: Cell, ns: seq<Cell>, k: nat)
    requires |V1| == size * size && |V2| == size * size
    requires InBounds(cell, size, size) && k < |ns|
    requires forall n :: n in ns ==> InBounds(n, size, size)
    requires forall j :: 0 <= j < k ==> !Improves(V1, size, cell, ns[j])
    requires forall m :: InBounds(m, size, size) && !Improves(V1, size, cell, m) ==> !Improves(V2, size, cell, m)
    requires !Improves(V2, size, cell, ns[k])
    ensures forall j :: 0 <= j < k + 1 ==> !Improves(V2, size, cell, ns[j])
  {
    forall j | 0 <= j < k + 1 ensures !Improves(V2, size, cell, ns[j]) {
      assert ns[j] in ns;
    }
  }

  // ---------------------------------------------------------------------
  // Paths, and what a finite value means
  // ---------------------------------------------------------------------

  /** `c` is a move `build` can make from `p`: a passable 8-neighbour in the field. */
  predicate Step(costs: seq<Cost>, size: nat, p: Cell, c: Cell)
    requires Grid(costs, size)
  {
    InBounds(p, size, size) && InBounds(c, size, size) && PassableAt(costs, size, c) &&
    c != p && AbsDiff(p.x, c.x) <= 1 && AbsDiff(p.y, c.y) <= 1
  }

  /** A walk that starts at a goal in the field and makes only moves `build` makes. */
  ghost predicate IsPath(costs: seq<Cost>, goals: seq<Cell>, size: nat, path: seq<Cell>)
    requires Grid(costs, size)
  {
    |path| > 0 && path[0] in goals &&
    (forall i :: 0 <= i < |path| ==> InBounds(path[i], size, size)) &&
    (forall i :: 0 < i < |path| ==> Step(costs, size, path[i - 1], path[i]))
  }

  /** The length of a walk: the sum of the Manhattan distances of its moves. */
  function PathLength(path: seq<Cell>): nat
    decreases |path|
  {
    if |path| <= 1 then 0
    else PathLength(path[..|path| - 1]) + Manhattan(path[|path| - 2], path[|path| - 1])
  }

  /** Every prefix of a path is a path. */
  lemma PathPrefix(costs: seq<Cost>, goals: seq<Cell>, size: nat, path: seq<Cell>, k: nat)
    requires Grid(costs, size) && IsPath(costs, goals, size, path) && 0 < k <= |path|
    ensures IsPath(costs, goals, size, path[..k])
  {
    var q := path[..k];
    forall i | 0 <= i < |q| ensures InBounds(q[i], size, size) {
      assert q[i] == path[i];
    }
    forall i | 0 < i < |q| ensures Step(costs, size, q[i - 1], q[i]) {
      assert q[i - 1] == path[i - 1] && q[i] == path[i];
    }
  }

  /** A path followed by a move is a path, longer by that move's distance. */
  lemma PathExtend(costs: seq<Cost>, goals: seq<Cell>, size: nat, path: seq<Cell>, c: Cell)
    requires Grid(costs, size) && IsPath(costs, goals, size, path)
    requires Step(costs, size, path[|path| - 1], c)
    ensures IsPath(costs, goals, size, path + [c])
    ensures PathLength(path + [c]) == PathLength(path) + Manhattan(path[|path| - 1], c)
  {
    var q := path + [c];
    assert q[..|q| - 1] == path;
    forall i | 0 <= i < |q| ensures InBounds(q[i], size, size) {
      if i < |path| {
        assert q[i] == path[i];
      }
    }
    forall i | 0 < i < |q| ensures Step(costs, size, q[i - 1], q[i]) {
      if i < |path| {
        assert q[i - 1] == path[i - 1] && q[i] == path[i];
      }
    }
  }

  /**
   * Once every cell of finite value is settled and every goal is at zero,
   * no path from a goal whose length fits below `u16::MAX` ends at a cell
   * of larger value: the value is at most the shortest path length.
   */
  lemma {:induction false} SettledBoundsPaths(costs: seq<Cost>, goals: seq<Cell>, V: seq<NF.U16>, size: nat,
                                              path: seq<Cell>)
    requires Grid(costs, size) && |V| == size * size
    requires GoalsAtZero(goals, V, size)
    requires forall c :: InBounds(c, size, size) && At(V, c, size, size) < NF.U16_MAX ==> Settled(costs, V, size, c)
    requires IsPath(costs, goals, size, path) && PathLength(path) < NF.U16_MAX
    ensures At(V, path[|path| - 1], size, size) <= PathLength(path)
    decreases |path|
  {
    if |path| > 1 {
      var k := |path| - 1;
      var prev, last := path[k - 1], path[k];
      PathPrefix(costs, goals, size, path, k);
      assert path[..k][k - 1] == prev;
      SettledBoundsPaths(costs, goals, V, size, path[..k]);
      assert Step(costs, size, prev, last);
      SettledIsTriangleInequality(costs, V, size, prev, last);
    }
  }

  /** The number of values below `w`. */
  function CountBelow(V: seq<NF.U16>, w: nat): (r: nat)
    ensures r <= |V|
  {
    if V == [] then 0 else (if V[0] < w then 1 else 0) + CountBelow(V[1..], w)
  }

  /** Rewriting one value moves the count by that value's change of side. */
  lemma {:induction false} CountBelowPut(V: seq<NF.U16>, i: nat, x: NF.U16, w: nat)
    requires i < |V|
    ensures CountBelow(V[i := x], w) + (if V[i] < w then 1 else 0) == CountBelow(V, w) + (if x < w then 1 else 0)
  {
    if i > 0 {
      CountBelowPut(V[1..], i - 1, x, w);
      assert V[i := x][1..] == V[1..][i - 1 := x];
    } else {
      assert V[i := x][1..] == V[1..];
    }
  }

  /** A higher bound counts at least as many values. */
  lemma {:induction false} CountBelowMonotone(V: seq<NF.U16>, v: nat, w: nat)
    requires v <= w
    ensures CountBelow(V, v) <= CountBelow(V, w)
  {
    if V != [] {
      CountBelowMonotone(V[1..], v, w);
    }
  }

  /** A value in `[v, w)` makes the count below `w` exceed the count below `v`. */
  lemma {:induction false} CountBelowStrict(V: seq<NF.U16>, i: nat, v: nat, w: nat)
    requires i < |V| && v <= V[i] < w
    ensures CountBelow(V, v) < CountBelow(V, w)
  {
    if i > 0 {
      CountBelowStrict(V[1..], i - 1, v, w);
    } else {
      CountBelowMonotone(V[1..], v, w);
    }
  }

  /**
   * The search cannot wrap: `2 * size * size` fits in `u16`, so no value
   * bounded by twice the number of smaller values plus a step of 2 can.
   */
  predicate NoWrap(size: nat) {
    2 * (size * size) <= NF.U16_MAX
  }

  /**
   * Every finite value is at most twice the number of smaller values: each
   * is reached from a strictly smaller one by a step of at most 2.
   */
  ghost predicate Bounded(V: seq<NF.U16>) {
    forall i :: 0 <= i < |V| && V[i] < NF.U16_MAX ==> V[i] <= 2 * CountBelow(V, V[i])
  }

  /**
   * Every finite cell that is no goal has a parent: a cell from which it is
   * a move, of strictly smaller value, through which its value is reached
   * or undercut.
   */
  ghost predicate Parents(costs: seq<Cost>, goals: seq<Cell>, V: seq<NF.U16>, size: nat)
    requires Grid(costs, size) && |V| == size * size
  {
    forall c :: InBounds(c, size, size) && At(V, c, size, size) < NF.U16_MAX && c !in goals ==>
      exists p :: Step(costs, size, p, c) &&
                  At(V, p, size, size) < At(V, c, size, size) &&
                  At(V, p, size, size) + Manhattan(p, c) <= At(V, c, size, size)
  }

  /** When the search cannot wrap, values are bounded and every finite non-goal has a parent. */
  ghost predicate Explained(costs: seq<Cost>, goals: seq<Cell>, V: seq<NF.U16>, size: nat)
    requires Grid(costs, size) && |V| == size * size
  {
    NoWrap(size) ==> Bounded(V) && Parents(costs, goals, V, size)
  }

  /** Every queued cell is in the field and of finite value. */
  ghost predicate QueueFinite(entries: seq<Q.Entry>, V: seq<NF.U16>, size: nat)
    requires |V| == size * size
  {
    forall e :: e in entries ==> InBounds(e.1, size, size) && At(V, e.1, size, size) < NF.U16_MAX
  }

  /**
   * Following parents from a finite cell reaches a goal: there is a path
   * from a goal to the cell no longer than its value.
   */
  lemma {:induction false} ParentsGivePath(costs: seq<Cost>, goals: seq<Cell>, V: seq<NF.U16>, size: nat, c: Cell)
    requires Grid(costs, size) && |V| == size * size && Parents(costs, goals, V, size)
    requires InBounds(c, size, size) && At(V, c, size, size) < NF.U16_MAX
    ensures exists path :: IsPath(costs, goals, size, path) && path[|path| - 1] == c &&
                           PathLength(path) <= At(V, c, size, size)
    decreases At(V, c, size, size)
  {
    if c in goals {
      assert IsPath(costs, goals, size, [c]) && PathLength([c]) == 0;
    } else {
      var p :| Step(costs, size, p, c) && At(V, p, size, size) < At(V, c, size, size) &&
               At(V, p, size, size) + Manhattan(p, c) <= At(V, c, size, size);
      ParentsGivePath(costs, goals, V, size, p);
      var path :| IsPath(costs, goals, size, path) && path[|path| - 1] == p &&
                  PathLength(path) <= At(V, p, size, size);
      PathExtend(costs, goals, size, path, c);
      assert (path + [c])[|path|] == c;
    }
  }

  /**
   * A pop keeps every remaining entry finite, and the popped entry was in
   * the field and of finite value.
   */
  lemma QueueFiniteAfterPop(E0: seq<Q.Entry>, E1: seq<Q.Entry>, e: Q.Entry, V: seq<NF.U16>, size: nat)
    requires |V| == size * size && QueueFinite(E0, V, size)
    requires multiset(E1) + multiset{e} == multiset(E0)
    ensures QueueFinite(E1, V, size)
    ensures InBounds(e.1, size, size) && At(V, e.1, size, size) < NF.U16_MAX
  {
    assert multiset(E0)[e] == multiset(E1)[e] + 1;
    assert e in multiset(E0);
    forall x | x in E1 ensures x in E0 {
      assert multiset(E0)[x] >= multiset(E1)[x] > 0;
    }
  }

  /**
   * Lowering the value of `n` to a finite `v`, and perhaps queueing `n`
   * with it, keeps every queued cell finite.
   */
  lemma QueueFiniteByWrite(E0: seq<Q.Entry>, E1: seq<Q.Entry>, V: seq<NF.U16>, size: nat, n: Cell, v: NF.U16)
    requires |V| == size * size && InBounds(n, size, size) && QueueFinite(E0, V, size)
    requires v < At(V, n, size, size)
    requires E1 == E0 || E1 == E0 + [(v, n)]
    ensures QueueFinite(E1, Put(V, n, v, size, size), size)
  {
    forall e | e in E1 ensures InBounds(e.1, size, size) && At(Put(V, n, v, size, size), e.1, size, size) < NF.U16_MAX {
      if e in E0 {
        AtPut(V, n, v, e.1, size, size);
      } else {
        AtPut(V, n, v, n, size, size);
      }
    }
  }

  /**
   * When the search cannot wrap, an improving move from a cell of finite
   * value gives the neighbour exactly the value plus the step, and the
   * neighbour is no goal.
   */
  lemma ExactCandidate(costs: seq<Cost>, goals: seq<Cell>, V: seq<NF.U16>, size: nat, cell: Cell, n: Cell)
    requires Grid(costs, size) && |V| == size * size && NoWrap(size) && Bounded(V)
    requires InBounds(cell, size, size) && At(V, cell, size, size) < NF.U16_MAX
    requires n in Considered(costs, size, cell) && Improves(V, size, cell, n)
    requires GoalsAtZero(goals, V, size)
    ensures Candidate(V, size, cell, n) == At(V, cell, size, size) + Manhattan(cell, n)
    ensures n !in goals && cell != n
  {
    var k := Index(cell, size);
    IndexInRange(cell, size, size);
    CountBelowStrict(V, k, V[k], V[k] + 1);
  }

  /**
   * The write of an improving move from a cell of finite value keeps every
   * finite value at most twice the number of smaller ones.
   */
  lemma BoundedByWrite(costs: seq<Cost>, goals: seq<Cell>, V: seq<NF.U16>, size: nat, cell: Cell, n: Cell)
    requires Grid(costs, size) && |V| == size * size && NoWrap(size) && Bounded(V)
    requires InBounds(cell, size, size) && At(V, cell, size, size) < NF.U16_MAX
    requires n in Considered(costs, size, cell) && Improves(V, size, cell, n)
    requires GoalsAtZero(goals, V, size)
    ensures Bounded(Put(V, n, Candidate(V, size, cell, n), size, size))
  {
    ExactCandidate(costs, goals, V, size, cell, n);
    var x := Candidate(V, size, cell, n);
    var V1 := Put(V, n, x, size, size);
    var k, j := Index(cell, size), Index(n, size);
    IndexInRange(cell, size, size);
    IndexInRange(n, size, size);
    CountBelowPut(V, j, x, x);
    CountBelowStrict(V, k, V[k], x);
    forall i | 0 <= i < |V1| && V1[i] < NF.U16_MAX ensures V1[i] <= 2 * CountBelow(V1, V1[i]) {
      if i != j {
        CountBelowPut(V, j, x, V[i]);
      }
    }
  }

  /**
   * The write of an improving move from a cell of finite value keeps a
   * parent for every finite non-goal: the written cell's is `cell`, and a
   * lowered parent stays one.
   */
  lemma ParentsByWrite(costs: seq<Cost>, goals: seq<Cell>, V: seq<NF.U16>, size: nat, cell: Cell, n: Cell)
    requires Grid(costs, size) && |V| == size * size && NoWrap(size) && Bounded(V)
    requires InBounds(cell, size, size) && At(V, cell, size, size) < NF.U16_MAX
    requires n in Considered(costs, size, cell) && Improves(V, size, cell, n)
    requires GoalsAtZero(goals, V, size) && Parents(costs, goals, V, size)
    ensures Parents(costs, goals, Put(V, n, Candidate(V, size, cell, n), size, size), size)
  {
    ExactCandidate(costs, goals, V, size, cell, n);
    var x := Candidate(V, size, cell, n);
    var V1 := Put(V, n, x, size, size);
    AtPut(V, n, x, cell, size, size);
    forall c | InBounds(c, size, size) && At(V1, c, size, size) < NF.U16_MAX && c !in goals
      ensures exists p :: Step(costs, size, p, c) &&
                          At(V1, p, size, size) < At(V1, c, size, size) &&
                          At(V1, p, size, size) + Manhattan(p, c) <= At(V1, c, size, size)
    {
      AtPut(V, n, x, c, size, size);
      if c == n {
        assert Step(costs, size, cell, c);
      } else {
        var p :| Step(costs, size, p, c) && At(V, p, size, size) < At(V, c, size, size) &&
                 At(V, p, size, size) + Manhattan(p, c) <= At(V, c, size, size);
        AtPut(V, n, x, p, size, size);
        assert Step(costs, size, p, c);
      }
    }
  }

  /** The write of an improving move from a cell of finite value keeps `Explained`. */
  lemma ExplainedByWrite(costs: seq<Cost>, goals: seq<Cell>, V: seq<NF.U16>, size: nat, cell: Cell, n: Cell)
    requires Grid(costs, size) && |V| == size * size
    requires InBounds(cell, size, size) && At(V, cell, size, size) < NF.U16_MAX
    requires n in Considered(costs, size, cell) && Improves(V, size, cell, n)
    requires GoalsAtZero(goals, V, size) && Explained(costs, goals, V, size)
    ensures Explained(costs, goals, Put(V, n, Candidate(V, size, cell, n), size, size), size)
  {
    if NoWrap(size) {
      BoundedByWrite(costs, goals, V, size, cell, n);
      ParentsByWrite(costs, goals, V, size, cell, n);
    }
  }

  /**
   * The goal loop of `build` as written: each goal is pushed and its slot
   * `y * size + x` set to zero without a bounds check. A goal past the last
   * slot panics (`None`); a goal with `x >= size` but a slot in range
   * zeroes the slot of another cell.
   */
  function SeedUnchecked(V: seq<NF.U16>, goals: seq<Cell>, size: nat): (r: Option<seq<NF.U16>>)
    ensures r.Some? <==> forall g :: g in goals ==> Index(g, size) < |V|
    ensures r.Some? ==> |r.value| == |V| && forall g :: g in goals ==> r.value[Index(g, size)] == 0
    ensures r.Some? ==> forall i :: 0 <= i < |V| && r.value[i] != V[i] ==> exists g :: g in goals && Index(g, size) == i
    decreases |goals|
  {
    if goals == [] then Some(V)
    else if Index(goals[0], size) < |V| then
      var r := SeedUnchecked(V[Index(goals[0], size) := 0], goals[1..], size);
      assert forall g :: g in goals <==> g == goals[0] || g in goals[1..];
      r
    else Option.None
  }

  /**
   * On every field of at least 2 x 2 cells the goal `(size, 0)`, one
   * column past the edge, passes unchecked and zeroes cell (0, 1): after the
   * reset to `u16::MAX`, a cell that is no goal, and may be impassable,
   * becomes finite. (On a 4 x 4 field: goal (4, 0) zeroes slot 4.)
   */
  lemma UncheckedGoalAliases(V: seq<NF.U16>, size: nat)
    requires size >= 2 && |V| == size * size
    ensures var g := Cell(size, 0);
            var r := SeedUnchecked(V, [g], size);
            && !InBounds(g, size, size) && InBounds(Cell(0, 1), size, size)
            && r == Some(V[size := 0])
            && At(r.value, Cell(0, 1), size, size) == 0 && Cell(0, 1) != g
  {
    var g := Cell(size, 0);
    assert Index(g, size) == size == Index(Cell(0, 1), size);
    MotteGrid.MulMonotone(2, size, size);
    assert [g][1..] == [];
  }

  // ---------------------------------------------------------------------
  // IntegrationField
  // ---------------------------------------------------------------------

  /** `IntegrationField`: a `u16` value per cell. */
  class IntegrationField {
    const values: FF.Field<NF.U16>

    /** The values fill the square field. */
    ghost predicate Valid()
      reads this, values
    {
      values.Valid()
    }

    /** `IntegrationField::new`: every value `u16::MAX`. */
    constructor (size: nat)
      ensures Valid() && values.size == size && fresh(values)
      ensures values.data == seq(size * size, _ => NF.U16_MAX)
    {
      values := new FF.Field(size, seq(size * size, _ => NF.U16_MAX));
    }

    /** The first loop of `build`: every value back to `u16::MAX`. */
    method Reset()
      requires Valid()
      modifies values
      ensures Valid() && values.size == old(values.size)
      ensures forall i :: 0 <= i < |values.data| ==> values.data[i] == NF.U16_MAX
    {
      var i := 0;
      while i < |values.data|
        invariant Valid() && values.size == old(values.size)
        invariant 0 <= i <= |values.data|
        invariant forall j :: 0 <= j < i ==> values.data[j] == NF.U16_MAX
      {
        values.data := values.data[i := NF.U16_MAX];
        i := i + 1;
      }
    }

    /**
     * The goal loop of `build`, with the bounds check the goals need: every
     * goal in the field is pushed with cost zero and set to zero; goals
     * outside the field are skipped.
     */
    method Seed(goals: seq<Cell>, pq: Q.PriorityQueue)
      requires Valid() && pq.Valid() && pq.contains.size == values.size
      modifies values, pq, pq.contains
      ensures Valid() && pq.Valid() && values.size == old(values.size) && pq.contains.size == values.size
      ensures forall c :: InBounds(c, values.size, values.size) ==>
                At(values.data, c, values.size, values.size) ==
                  if c in goals then 0 else old(At(values.data, c, values.size, values.size))
      ensures forall c :: InBounds(c, values.size, values.size) && c in goals ==> pq.InHeap(c)
      ensures forall c :: old(pq.InHeap(c)) ==> pq.InHeap(c)
      ensures forall e :: e in pq.entries ==> e in old(pq.entries) || (e.1 in goals && InBounds(e.1, values.size, values.size))
    {
      var s := values.size;
      ghost var V0 := values.data;
      var k := 0;
      while k < |goals|
        invariant Valid() && pq.Valid() && values.size == s && pq.contains.size == s
        invariant 0 <= k <= |goals|
        invariant forall c :: InBounds(c, s, s) ==>
                    At(values.data, c, s, s) == if c in goals[..k] then 0 else At(V0, c, s, s)
        invariant forall c :: InBounds(c, s, s) && c in goals[..k] ==> pq.InHeap(c)
        invariant forall c :: old(pq.InHeap(c)) ==> pq.InHeap(c)
        invariant forall e :: e in pq.entries ==> e in old(pq.entries) || (e.1 in goals && InBounds(e.1, s, s))
      {
        var goal := goals[k];
        assert goals[..k + 1] == goals[..k] + [goal];
        if InBounds(goal, s, s) {
          ghost var V1 := values.data;
          IndexInRange(goal, s, s);
          pq.Push(goal, 0);
          values.Set(goal, 0);
          forall c | InBounds(c, s, s)
            ensures At(values.data, c, s, s) == if c in goals[..k + 1] then 0 else At(V0, c, s, s)
          {
            AtPut(V1, goal, 0, c, s, s);
          }
        }
        k := k + 1;
      }
      assert goals[..k] == goals;
    }

    /**
     * The body of the neighbour loop for the popped `cell` and one passable
     * neighbour `n`: when the cost through `cell` is strictly below `n`'s
     * value, `n` takes it and is pushed unless its bit is set. Values only
     * decrease; afterwards the move changes nothing more, every cell of
     * finite value outside the queue stays settled, and the invariants are
     * kept.
     */
    method Process(costs: seq<Cost>, ghost goals: seq<Cell>, pq: Q.PriorityQueue, cell: Cell, n: Cell)
      requires Valid() && pq.Valid() && pq.contains.size == values.size && Grid(costs, values.size)
      requires InBounds(cell, values.size, values.size) && n in Considered(costs, values.size, cell)
      requires At(values.data, cell, values.size, values.size) < NF.U16_MAX
      requires FiniteOnlyReachable(costs, goals, values.data, values.size) && GoalsAtZero(goals, values.data, values.size)
      requires QueueFinite(pq.entries, values.data, values.size) && Explained(costs, goals, values.data, values.size)
      requires forall c :: (InBounds(c, values.size, values.size) && c != cell && !pq.InHeap(c) &&
                  At(values.data, c, values.size, values.size) < NF.U16_MAX) ==> Settled(costs, values.data, values.size, c)
      modifies values, pq, pq.contains
      ensures Valid() && pq.Valid() && values.size == old(values.size) && pq.contains.size == values.size
      ensures values.data == if old(Improves(values.data, values.size, cell, n))
                             then old(Put(values.data, n, Candidate(values.data, values.size, cell, n), values.size, values.size))
                             else old(values.data)
      ensures forall c :: InBounds(c, values.size, values.size) ==>
                At(values.data, c, values.size, values.size) <= old(At(values.data, c, values.size, values.size))
      ensures FiniteOnlyReachable(costs, goals, values.data, values.size) && GoalsAtZero(goals, values.data, values.size)
      ensures QueueFinite(pq.entries, values.data, values.size) && Explained(costs, goals, values.data, values.size)
      ensures forall c :: (InBounds(c, values.size, values.size) && c != cell && !pq.InHeap(c) &&
                 At(values.data, c, values.size, values.size) < NF.U16_MAX) ==> Settled(costs, values.data, values.size, c)
      ensures !Improves(values.data, values.size, cell, n)
      ensures forall m :: InBounds(m, values.size, values.size) && old(!Improves(values.data, values.size, cell, m)) ==>
                !Improves(values.data, values.size, cell, m)
      ensures Total(values.data) < old(Total(values.data)) ||
              (values.data == old(values.data) && pq.entries == old(pq.entries))
      ensures forall c :: old(pq.InHeap(c)) ==> pq.InHeap(c)
    {
      var s := values.size;
      ghost var V0, E0 := values.data, pq.entries;
      var cost := Candidate(values.data, s, cell, n);
      if cost < At(values.data, n, s, s) {
        IndexInRange(n, s, s);
        values.Set(n, cost);
        if !pq.Contains(n) {
          pq.Push(n, cost);
        }
        assert values.data == Put(V0, n, cost, s, s);
        assert pq.InHeap(n);
        TotalUpdate(V0, Index(n, s), cost);
        SettledByWrite(costs, V0, s, cell, n);
        ReachableByWrite(costs, goals, V0, s, n, cost);
        ExplainedByWrite(costs, goals, V0, s, cell, n);
        QueueFiniteByWrite(E0, pq.entries, V0, s, n, cost);
        forall c | InBounds(c, s, s) && c != cell && !pq.InHeap(c) && At(values.data, c, s, s) < NF.U16_MAX
          ensures Settled(costs, values.data, s, c)
        {
          assert c != n;
          AtPut(V0, n, cost, c, s, s);
        }
      }
    }

    /**
     * The neighbour loop of `build`: `Process` for each of `ns` in order.
     * Afterwards no move from `cell` to `ns` changes anything, and the
     * search invariants are kept.
     */
    method ProcessAll(costs: seq<Cost>, ghost goals: seq<Cell>, pq: Q.PriorityQueue, cell: Cell, ns: seq<Cell>)
      requires Valid() && pq.Valid() && pq.contains.size == values.size && Grid(costs, values.size)
      requires InBounds(cell, values.size, values.size) && At(values.data, cell, values.size, values.size) < NF.U16_MAX
      requires forall n :: n in ns ==> InBounds(n, values.size, values.size) && n in Considered(costs, values.size, cell)
      requires FiniteOnlyReachable(costs, goals, values.data, values.size) && GoalsAtZero(goals, values.data, values.size)
      requires QueueFinite(pq.entries, values.data, values.size) && Explained(costs, goals, values.data, values.size)
      requires forall c :: (InBounds(c, values.size, values.size) && c != cell && !pq.InHeap(c) &&
                  At(values.data, c, values.size, values.size) < NF.U16_MAX) ==> Settled(costs, values.data, values.size, c)
      modifies values, pq, pq.contains
      ensures Valid() && pq.Valid() && values.size == old(values.size) && pq.contains.size == values.size
      ensures forall c :: InBounds(c, values.size, values.size) ==>
                At(values.data, c, values.size, values.size) <= old(At(values.data, c, values.size, values.size))
      ensures FiniteOnlyReachable(costs, goals, values.data, values.size) && GoalsAtZero(goals, values.data, values.size)
      ensures QueueFinite(pq.entries, values.data, values.size) && Explained(costs, goals, values.data, values.size)
      ensures forall c :: (InBounds(c, values.size, values.size) && c != cell && !pq.InHeap(c) &&
                 At(values.data, c, values.size, values.size) < NF.U16_MAX) ==> Settled(costs, values.data, values.size, c)
      ensures forall n :: n in ns ==> !Improves(values.data, values.size, cell, n)
      ensures Total(values.data) < old(Total(values.data)) ||
              (Total(values.data) == old(Total(values.data)) && pq.entries == old(pq.entries))
      ensures forall c :: old(pq.InHeap(c)) ==> pq.InHeap(c)
    {
      var s := values.size;
      ghost var T0, E0, V0 := Total(values.data), pq.entries, values.data;
      var k := 0;
      while k < |ns|
        invariant Valid() && pq.Valid() && values.size == s && pq.contains.size == s
        invariant 0 <= k <= |ns|
        invariant forall c :: InBounds(c, s, s) ==> At(values.data, c, s, s) <= At(V0, c, s, s)
        invariant FiniteOnlyReachable(costs, goals, values.data, s) && GoalsAtZero(goals, values.data, s)
        invariant QueueFinite(pq.entries, values.data, s) && Explained(costs, goals, values.data, s)
        invariant forall c :: (InBounds(c, s, s) && c != cell && !pq.InHeap(c) &&
                     At(values.data, c, s, s) < NF.U16_MAX) ==> Settled(costs, values.data, s, c)
        invariant forall j :: 0 <= j < k ==> !Improves(values.data, s, cell, ns[j])
        invariant Total(values.data) < T0 || (Total(values.data) == T0 && pq.entries == E0)
        invariant forall c :: old(pq.InHeap(c)) ==> pq.InHeap(c)
      {
        ghost var V1 := values.data;
        assert ns[k] in ns;
        Process(costs, goals, pq, cell, ns[k]);
        PrefixCleared(V1, values.data, s, cell, ns, k);
        k := k + 1;
      }
      forall n | n in ns ensures !Improves(values.data, s, cell, n) {
        var j :| 0 <= j < |ns| && ns[j] == n;
      }
    }

    /**
     * The `while let Some((cell, _)) = pq.pop()` loop of `build`: pops the
     * cheapest entry and processes its passable 8-neighbours until the
     * queue is empty. Given that every cell of finite value outside the
     * queue is settled, every cell of finite value is settled at the end.
     */
    method Propagate(costs: seq<Cost>, ghost goals: seq<Cell>, pq: Q.PriorityQueue)
      requires Valid() && pq.Valid() && pq.contains.size == values.size && Grid(costs, values.size)
      requires FiniteOnlyReachable(costs, goals, values.data, values.size) && GoalsAtZero(goals, values.data, values.size)
      requires QueueFinite(pq.entries, values.data, values.size) && Explained(costs, goals, values.data, values.size)
      requires forall c :: (InBounds(c, values.size, values.size) && !pq.InHeap(c) &&
                  At(values.data, c, values.size, values.size) < NF.U16_MAX) ==> Settled(costs, values.data, values.size, c)
      modifies values, pq, pq.contains
      ensures Valid() && pq.Valid() && values.size == old(values.size) && pq.entries == []
      ensures forall c :: InBounds(c, values.size, values.size) ==>
                At(values.data, c, values.size, values.size) <= old(At(values.data, c, values.size, values.size))
      ensures FiniteOnlyReachable(costs, goals, values.data, values.size) && GoalsAtZero(goals, values.data, values.size)
      ensures QueueFinite(pq.entries, values.data, values.size) && Explained(costs, goals, values.data, values.size)
      ensures forall c :: InBounds(c, values.size, values.size) && At(values.data, c, values.size, values.size) < NF.U16_MAX ==>
                Settled(costs, values.data, values.size, c)
    {
      var s := values.size;
      ghost var V0 := values.data;
      while true
        invariant Valid() && pq.Valid() && values.size == s && pq.contains.size == s
        invariant forall c :: InBounds(c, s, s) ==> At(values.data, c, s, s) <= At(V0, c, s, s)
        invariant FiniteOnlyReachable(costs, goals, values.data, s) && GoalsAtZero(goals, values.data, s)
        invariant QueueFinite(pq.entries, values.data, s) && Explained(costs, goals, values.data, s)
        invariant forall c :: (InBounds(c, s, s) && !pq.InHeap(c) &&
                     At(values.data, c, s, s) < NF.U16_MAX) ==> Settled(costs, values.data, s, c)
        decreases Total(values.data), |pq.entries|
      {
        ghost var T, E, E0 := Total(values.data), |pq.entries|, pq.entries;
        var popped := pq.Pop();
        if popped.None? {
          assert forall c :: !pq.InHeap(c);
          break;
        }
        var cell := popped.value.0;
        QueueFiniteAfterPop(E0, pq.entries, (popped.value.1, cell), values.data, s);
        var around := Considered(costs, s, cell);
        ProcessAll(costs, goals, pq, cell, around);
        assert Settled(costs, values.data, s, cell);
        assert Total(values.data) < T || (Total(values.data) == T && |pq.entries| < E);
      }
    }

    /**
     * `IntegrationField::build` from `goals` over the cost field `cost` of
     * the same size, with goals outside the field skipped. Afterwards every
     * goal in the field is at zero; only goals and passable cells hold a
     * finite value; and every cell of finite value is settled, the triangle
     * inequality over its passable 8-neighbours.
     */
    method Build(goals: seq<Cell>, cost: FF.Field<Cost>)
      requires Valid() && cost.Valid() && cost.size == values.size
      requires values.size * values.size < ISIZE_LIMIT
      modifies values
      ensures Valid() && values.size == old(values.size)
      ensures Grid(cost.data, values.size)
      ensures GoalsAtZero(goals, values.data, values.size)
      ensures FiniteOnlyReachable(cost.data, goals, values.data, values.size)
      ensures forall c :: InBounds(c, values.size, values.size) && At(values.data, c, values.size, values.size) < NF.U16_MAX ==>
                Settled(cost.data, values.data, values.size, c)
      ensures forall path :: IsPath(cost.data, goals, values.size, path) && PathLength(path) < NF.U16_MAX ==>
                At(values.data, path[|path| - 1], values.size, values.size) <= PathLength(path)
      ensures NoWrap(values.size) ==>
                forall c :: InBounds(c, values.size, values.size) && At(values.data, c, values.size, values.size) < NF.U16_MAX ==>
                  exists path :: IsPath(cost.data, goals, values.size, path) && path[|path| - 1] == c &&
                                 PathLength(path) <= At(values.data, c, values.size, values.size)
    {
      var s := values.size;
      var pq := new Q.PriorityQueue(s);
      assert forall c :: !pq.InHeap(c);
      Reset();
      Seed(goals, pq);
      ghost var V := values.data;
      forall c | InBounds(c, s, s) ensures At(V, c, s, s) == if c in goals then 0 else NF.U16_MAX {
        IndexInRange(c, s, s);
      }
      forall i | 0 <= i < |V| && V[i] < NF.U16_MAX ensures V[i] == 0 {
        FromIndexInBounds(i, s, s);
        IndexOfFromIndex(i, s);
        assert At(V, FromIndex(i, s), s, s) == V[i];
      }
      Propagate(cost.data, goals, pq);
      forall path | IsPath(cost.data, goals, s, path) && PathLength(path) < NF.U16_MAX
        ensures At(values.data, path[|path| - 1], s, s) <= PathLength(path)
      {
        SettledBoundsPaths(cost.data, goals, values.data, s, path);
      }
      if NoWrap(s) {
        forall c | InBounds(c, s, s) && At(values.data, c, s, s) < NF.U16_MAX
          ensures exists path :: IsPath(cost.data, goals, s, path) && path[|path| - 1] == c &&
                                 PathLength(path) <= At(values.data, c, s, s)
        {
          ParentsGivePath(cost.data, goals, values.data, s, c);
        }
      }
    }
  }
}
