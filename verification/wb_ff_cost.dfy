/**
 * The cost field of the warband `flow_field` module: one `Cost` per cell
 * of a square field; the occupancy index that records which obstacle
 * entities cover which cells (`CellOccupants`, and its inverse
 * `CellOccupantsReverse`); the `DirtyCells` set of cells whose occupants
 * changed; and the rule by which `update` turns a dirty cell's occupants
 * into its cost.
 */
module WbFfCost {
  import opened WbNavGrid
  import opened BevyEcs
  import FF = WbFfField

  /** `Cost`; the default is `Traversable`. */
  datatype Cost = Traversable | Blocked | Occupied

  /** `CostField::new`: a `size x size` field of `Traversable` cells. */
  method NewCostField(size: nat) returns (f: FF.Field<Cost>)
    ensures fresh(f) && f.Valid() && f.size == size
    ensures forall i :: 0 <= i < |f.data| ==> f.data[i] == Traversable
  {
    f := new FF.Field(size, seq(size * size, _ => Traversable));
  }

  // ---------------------------------------------------------------------
  // The occupancy index
  // ---------------------------------------------------------------------

  /** `CellOccupants`: the obstacle entities on each cell. */
  type Occupants = map<Cell, set<Entity>>

  /** `CellOccupantsReverse`: the cells each obstacle entity was last recorded on. */
  type Reverse = map<Entity, seq<Cell>>

  /** `e` is among the occupants of `c`. */
  predicate Occupies(occupants: Occupants, e: Entity, c: Cell) {
    c in occupants && e in occupants[c]
  }

  /** `c` is among the cells recorded for `e`. */
  predicate Records(reverse: Reverse, e: Entity, c: Cell) {
    e in reverse && c in reverse[e]
  }

  /** The two maps are inverse to each other. */
  ghost predicate Indexed(occupants: Occupants, reverse: Reverse) {
    forall e, c :: Occupies(occupants, e, c) <==> Records(reverse, e, c)
  }

  /** The three resources the occupancy systems keep. */
  class Occupancy {
    var occupants: Occupants
    var reverse: Reverse
    var dirty: set<Cell>

    /** The resources' defaults: empty maps and no dirty cells. */
    constructor ()
      ensures occupants == map[] && reverse == map[] && dirty == {}
      ensures Indexed(occupants, reverse)
    {
      occupants, reverse, dirty := map[], map[], {};
    }

    /**
     * The `obstacles` system for one obstacle `e` whose `OccupancyCells`
     * changed to `cells`. Afterwards `e` occupies exactly `cells`, its
     * record is `cells` (or emptied when `cells` is empty), no other
     * entity's occupancy changes, the index stays inverse, and the dirty
     * cells grow by exactly the cells `e` entered or left.
     */
    method Update(e: Entity, cells: seq<Cell>)
      requires Indexed(occupants, reverse)
      modifies this
      ensures Indexed(occupants, reverse)
      ensures forall c :: Occupies(occupants, e, c) <==> c in cells
      ensures cells != [] ==> e in reverse && reverse[e] == cells
      ensures cells == [] ==> (e in reverse <==> e in old(reverse)) && (e in reverse ==> reverse[e] == [])
      ensures forall f, c :: f != e ==> (Occupies(occupants, f, c) <==> Occupies(old(occupants), f, c))
      ensures forall f :: f != e ==> (f in reverse <==> f in old(reverse)) &&
                                     (f in reverse ==> reverse[f] == old(reverse)[f])
      ensures forall c :: c in dirty <==> c in old(dirty) || (Occupies(old(occupants), e, c) != (c in cells))
    {
      ghost var O0, R0, D0 := occupants, reverse, dirty;
      var recorded := if e in reverse then reverse[e] else [];
      Leave(e, recorded, cells);
      assert forall c :: Records(R0, e, c) <==> c in recorded;
      assert forall c :: Occupies(occupants, e, c) <==> Occupies(O0, e, c) && c in cells;
      assert forall c :: c in dirty <==> c in D0 || (Occupies(O0, e, c) && c !in cells);
      if cells == [] {
        if e in reverse {
          reverse := reverse[e := []];
        }
      } else {
        reverse := reverse[e := []];
        Enter(e, cells);
      }
      forall f, c ensures Occupies(occupants, f, c) <==> Records(reverse, f, c) {
        if f != e {
          assert Occupies(O0, f, c) <==> Records(R0, f, c);
        }
      }
    }

    /**
     * The first loop of `obstacles`: `e` leaves each of the `recorded`
     * cells it does not `keep`, and each such cell with an occupant set
     * becomes dirty.
     */
    method Leave(e: Entity, recorded: seq<Cell>, keep: seq<Cell>)
      modifies this
      ensures reverse == old(reverse) && occupants.Keys == old(occupants).Keys
      ensures forall c :: c in occupants ==>
                occupants[c] == if c in recorded && c !in keep then old(occupants)[c] - {e} else old(occupants)[c]
      ensures forall c :: c in dirty <==> c in old(dirty) || (c in recorded && c !in keep && c in old(occupants))
    {
      ghost var O0, D0 := occupants, dirty;
      var i := 0;
      while i < |recorded|
        invariant 0 <= i <= |recorded| && reverse == old(reverse)
        invariant occupants.Keys == O0.Keys
        invariant forall c :: c in occupants ==>
                    occupants[c] == if c in recorded[..i] && c !in keep then O0[c] - {e} else O0[c]
        invariant forall c :: c in dirty <==> c in D0 || (c in recorded[..i] && c !in keep && c in O0)
      {
        var c := recorded[i];
        assert recorded[..i + 1] == recorded[..i] + [c];
        if c !in keep && c in occupants {
          occupants := occupants[c := occupants[c] - {e}];
          dirty := dirty + {c};
        }
        i := i + 1;
      }
      assert recorded[..i] == recorded;
    }

    /**
     * The second loop of `obstacles`: each of `cells` is recorded for `e`,
     * gains an occupant set if it had none and gains `e`; a cell becomes
     * dirty when `e` was not on it yet.
     */
    method Enter(e: Entity, cells: seq<Cell>)
      requires e in reverse && reverse[e] == []
      modifies this
      ensures reverse == old(reverse)[e := cells]
      ensures forall c :: c in occupants <==> c in old(occupants) || c in cells
      ensures forall c :: c in occupants ==>
                occupants[c] == (if c in old(occupants) then old(occupants)[c] else {}) + (if c in cells then {e} else {})
      ensures forall c :: c in dirty <==> c in old(dirty) || (c in cells && !Occupies(old(occupants), e, c))
    {
      ghost var O1, R1, D1 := occupants, reverse, dirty;
      var j := 0;
      while j < |cells|
        invariant 0 <= j <= |cells|
        invariant reverse == R1[e := cells[..j]]
        invariant forall c :: c in occupants <==> c in O1 || c in cells[..j]
        invariant forall c, f :: c in occupants ==>
                    (f in occupants[c] <==> (c in O1 && f in O1[c]) || (c in cells[..j] && f == e))
        invariant forall c :: c in dirty <==> c in D1 || (c in cells[..j] && !Occupies(O1, e, c))
      {
        var c := cells[j];
        assert cells[..j + 1] == cells[..j] + [c];
        var here := if c in occupants then occupants[c] else {};
        reverse := reverse[e := reverse[e] + [c]];
        if e !in here {
          dirty := dirty + {c};
        }
        occupants := occupants[c := here + {e}];
        j := j + 1;
      }
      assert cells[..j] == cells;
      forall c | c in occupants
        ensures occupants[c] == (if c in O1 then O1[c] else {}) + (if c in cells then {e} else {})
      {
      }
    }

    /**
     * `obstacles_cleanup` and `occupancy_cleanup` for one entity `e` that
     * lost its `Obstacle` or its `Occupancy`: its record is removed, it
     * leaves every cell, and each recorded cell becomes dirty; nothing
     * else changes.
     */
    method Remove(e: Entity)
      requires Indexed(occupants, reverse)
      modifies this
      ensures Indexed(occupants, reverse)
      ensures reverse == old(reverse) - {e}
      ensures forall c :: !Occupies(occupants, e, c)
      ensures forall f, c :: f != e ==> (Occupies(occupants, f, c) <==> Occupies(old(occupants), f, c))
      ensures occupants.Keys == old(occupants).Keys
      ensures forall c :: c in dirty <==> c in old(dirty) || Records(old(reverse), e, c)
    {
      if e !in reverse {
        assert forall c :: !Records(reverse, e, c);
        assert reverse == old(reverse) - {e};
        return;
      }
      ghost var O0, R0, D0 := occupants, reverse, dirty;
      var recorded := reverse[e];
      reverse := reverse - {e};
      Leave(e, recorded, []);
      forall f, c ensures Occupies(occupants, f, c) <==> Records(reverse, f, c) {
        if f != e {
          assert Occupies(O0, f, c) <==> Records(R0, f, c);
        } else {
          assert Occupies(O0, f, c) <==> Records(R0, f, c);
        }
      }
      forall c | Records(R0, e, c) ensures c in dirty {
        assert Occupies(O0, e, c);
      }
    }
  }

  // ---------------------------------------------------------------------
  // The cost of a dirty cell
  // ---------------------------------------------------------------------

  /**
   * The cost `update` gives cell `c`, given `obstacles`, which maps each
   * entity that still has an `Obstacle` to whether it is an agent:
   * `Blocked` when some obstacle on the cell is not an agent, `Occupied`
   * when the obstacles on it are all agents, and `Traversable` when it has
   * no known obstacle at all. Occupants without an `Obstacle` are skipped.
   */
  function CellCost(occupants: Occupants, obstacles: map<Entity, bool>, c: Cell): Cost {
    if c !in occupants then Traversable
    else if exists e :: e in occupants[c] && e in obstacles && !obstacles[e] then Blocked
    else if exists e :: e in occupants[c] && e in obstacles then Occupied
    else Traversable
  }

  /**
   * The closure of `update` that computes one cell's cost: it walks the
   * cell's occupants in whatever order the set yields them, returns
   * `Blocked` at the first non-agent obstacle, and otherwise reports
   * `Occupied` if it met an agent. The order does not matter: the result
   * is `CellCost`.
   */
  method ComputeCost(occupants: Occupants, obstacles: map<Entity, bool>, c: Cell) returns (cost: Cost)
    ensures cost == CellCost(occupants, obstacles, c)
  {
    if c !in occupants {
      return Traversable;
    }
    var rest := occupants[c];
    if rest == {} {
      return Traversable;
    }
    var found := false;
    while rest != {}
      invariant rest <= occupants[c]
      invariant forall e :: e in occupants[c] && e !in rest && e in obstacles ==> obstacles[e]
      invariant found <==> exists e :: e in occupants[c] && e !in rest && e in obstacles
      decreases |rest|
    {
      var e :| e in rest;
      rest := rest - {e};
      if e in obstacles {
        if !obstacles[e] {
          return Blocked;
        }
        found := true;
      }
    }
    return if found then Occupied else Traversable;
  }

  /** How severe a cost is: free, then walkable among agents, then impassable. */
  function Severity(c: Cost): nat {
    match c
    case Traversable => 0
    case Occupied => 1
    case Blocked => 2
  }

  /**
   * A new occupant never makes a cell's cost less severe; an occupant
   * without an `Obstacle` changes nothing; and a non-agent obstacle blocks
   * the cell whatever else is on it.
   */
  lemma CellCostMonotone(occupants: Occupants, obstacles: map<Entity, bool>, c: Cell, e: Entity)
    ensures var more := occupants[c := (if c in occupants then occupants[c] else {}) + {e}];
            Severity(CellCost(occupants, obstacles, c)) <= Severity(CellCost(more, obstacles, c)) &&
            (e !in obstacles ==> CellCost(more, obstacles, c) == CellCost(occupants, obstacles, c)) &&
            (e in obstacles && !obstacles[e] ==> CellCost(more, obstacles, c) == Blocked)
  {
    var more := occupants[c := (if c in occupants then occupants[c] else {}) + {e}];
    if c in occupants {
      if exists f :: f in occupants[c] && f in obstacles && !obstacles[f] {
        var f :| f in occupants[c] && f in obstacles && !obstacles[f];
        assert f in more[c];
      } else if exists f :: f in occupants[c] && f in obstacles {
        var f :| f in occupants[c] && f in obstacles;
        assert f in more[c];
      }
    }
    if e in obstacles {
      assert e in more[c];
    }
  }

  /** `FieldLayout::size`: the layout's side, at least one. */
  function LayoutSize(size: nat): (s: nat)
    ensures s >= 1 && (size >= 1 ==> s == size)
  {
    if size == 0 then 1 else size
  }

  /**
   * The `update` system, with its task run at once: the dirty set is
   * drained, and each dirty cell within the field gets its `CellCost`;
   * all other cells keep their cost. The cost field has the layout's size
   * (`layout_resize` keeps it so), so the layout's bounds are the field's.
   */
  method UpdateCosts(index: Occupancy, field: FF.Field<Cost>, obstacles: map<Entity, bool>)
    requires field.Valid()
    modifies index, field
    ensures index.dirty == {}
    ensures index.occupants == old(index.occupants) && index.reverse == old(index.reverse)
    ensures field.Valid() && field.size == old(field.size)
    ensures forall c :: InBounds(c, field.size, field.size) ==>
              At(field.data, c, field.size, field.size) ==
                if c in old(index.dirty) then CellCost(index.occupants, obstacles, c)
                else old(At(field.data, c, field.size, field.size))
  {
    if index.dirty == {} {
      return;
    }
    var n := field.size;
    var targets := set c | c in index.dirty && InBounds(c, n, n);
    index.dirty := {};
    WriteCosts(field, targets, index.occupants, obstacles);
  }

  /** The task of `update`: each of `targets` gets its `CellCost`; the other cells keep theirs. */
  method WriteCosts(field: FF.Field<Cost>, targets: set<Cell>, occupants: Occupants, obstacles: map<Entity, bool>)
    requires field.Valid() && forall c :: c in targets ==> InBounds(c, field.size, field.size)
    modifies field
    ensures field.Valid() && field.size == old(field.size)
    ensures forall c :: InBounds(c, field.size, field.size) ==>
              At(field.data, c, field.size, field.size) ==
                if c in targets then CellCost(occupants, obstacles, c) else old(At(field.data, c, field.size, field.size))
  {
    var n := field.size;
    ghost var data0 := field.data;
    var todo := targets;
    while todo != {}
      invariant todo <= targets
      invariant field.Valid() && field.size == n
      invariant forall c :: InBounds(c, n, n) ==>
                  At(field.data, c, n, n) ==
                    if c in targets && c !in todo then CellCost(occupants, obstacles, c) else At(data0, c, n, n)
      decreases |todo|
    {
      var c :| c in todo;
      var cost := ComputeCost(occupants, obstacles, c);
      ghost var before := field.data;
      IndexInRange(c, n, n);
      field.Set(c, cost);
      assert field.data == Put(before, c, cost, n, n);
      forall d | InBounds(d, n, n)
        ensures At(field.data, d, n, n) == if d == c then cost else At(before, d, n, n)
      {
        AtPut(before, c, cost, d, n, n);
      }
      todo := todo - {c};
    }
  }

  /**
   * The `layout_resize` system: both occupancy maps are cleared and the
   * cost field takes the layout's size, keeping the costs of the slots
   * that remain and filling new ones with `Traversable`.
   */
  method LayoutResize(index: Occupancy, field: FF.Field<Cost>, layoutSize: nat)
    modifies index, field
    ensures index.occupants == map[] && index.reverse == map[] && index.dirty == old(index.dirty)
    ensures Indexed(index.occupants, index.reverse)
    ensures field.Valid() && field.size == LayoutSize(layoutSize)
    ensures field.data == Resized(old(field.data), field.size * field.size, Traversable)
  {
    index.occupants := map[];
    index.reverse := map[];
    field.Resize(LayoutSize(layoutSize), Traversable);
  }
}
