/**
 * `Obstacle` of the motte crate: an obstacle's outline on the ground plane
 * and the rule that derives it from the collider each time the collider
 * moves or changes.
 */
module MotteObstacle {
  import opened Opt
  import opened Glam
  import opened MotteAgent

  /** `Obstacle`; the default is `Empty`. */
  datatype Obstacle = Empty | Shape(vertices: seq<Vec2>)

  /** `Obstacle::empty`. */
  function IsEmpty(o: Obstacle): (b: bool)
    ensures b <==> o == Empty
  {
    o.Empty?
  }

  /** The index after `j` on a closed chain of `n` vertices. */
  lemma NextIndex(j: nat, n: nat)
    requires j < n
    ensures (j + 1) % n == if j + 1 < n then j + 1 else 0
  {
  }

  /**
   * `Obstacle::line_segments`: `None` for `Empty`; for a shape with `n`
   * vertices, the `n` edges `(v[i], v[i+1])` and the closing edge
   * `(v[n-1], v[0])`. A shape without vertices underflows `len() - 1`, so
   * the source needs at least one vertex.
   */
  method LineSegments(o: Obstacle) returns (r: Option<seq<(Vec2, Vec2)>>)
    requires o.Shape? ==> |o.vertices| > 0
    ensures r.None? <==> o.Empty?
    ensures r.Some? ==> |r.value| == |o.vertices|
    ensures r.Some? ==> forall i :: 0 <= i < |r.value| ==>
              r.value[i] == (o.vertices[i], o.vertices[(i + 1) % |o.vertices|])
    ensures r.Some? ==> forall i :: 0 <= i < |r.value| ==>
              r.value[i].1 == r.value[(i + 1) % |r.value|].0
  {
    if o.Empty? {
      return Option.None;
    }
    var shape := o.vertices;
    var segments: seq<(Vec2, Vec2)> := [];
    var i := 0;
    while i < |shape| - 1
      invariant 0 <= i <= |shape| - 1
      invariant |segments| == i
      invariant forall j :: 0 <= j < i ==> segments[j] == (shape[j], shape[j + 1])
    {
      segments := segments + [(shape[i], shape[i + 1])];
      i := i + 1;
    }
    segments := segments + [(shape[|shape| - 1], shape[0])];
    var n := |shape|;
    forall j | 0 <= j < n
      ensures segments[j] == (shape[j], shape[(j + 1) % n])
    {
      NextIndex(j, n);
    }
    forall j | 0 <= j < n
      ensures segments[j].1 == segments[(j + 1) % n].0
    {
      NextIndex(j, n);
      NextIndex((j + 1) % n, n);
    }
    return Some(segments);
  }

  /** `FIELD_HEIGHT`: the ground plane. */
  const FIELD_HEIGHT: real := 0.0

  /** `MAX_AGENT_HEIGHT`: half the largest agent's height, 3.5. */
  const MAX_AGENT_HEIGHT: real := Height(LARGEST) / 2.0

  /** `BORDER_EXPANSION`: the hull is scaled by this factor, i.e. not at all. */
  const BORDER_EXPANSION: real := 1.0

  /** The outcome of the `obstacle` system for one entity. */
  datatype Update = Keep | Set(obstacle: Obstacle)

  /**
   * The `obstacle` system for one entity whose collider changed, holding
   * the obstacle `current`. `outline` is the collider's outline projected
   * onto the ground (`None` for an unsupported shape) and `hull` the convex
   * polygon built from it (`None` when the hull cannot be formed): the
   * parry geometry is not part of this model.
   *
   * An AABB outside the band between the ground and half the tallest agent
   * empties the obstacle, writing only when it is not empty already; an
   * unsupported shape leaves it as it is; fewer than three outline vertices
   * or a failed hull empty it; otherwise the hull becomes the shape.
   */
  function ObstacleUpdate(current: Obstacle, minY: real, maxY: real, outline: Option<seq<Vec2>>,
                          hull: Option<seq<Vec2>>): (u: Update)
    ensures (minY > MAX_AGENT_HEIGHT || maxY < FIELD_HEIGHT) ==> (u == Keep <==> current == Empty)
    ensures (minY > MAX_AGENT_HEIGHT || maxY < FIELD_HEIGHT) && current != Empty ==> u == Set(Empty)
    ensures !(minY > MAX_AGENT_HEIGHT || maxY < FIELD_HEIGHT) ==>
              (u == Keep <==> outline.None?)
    ensures u.Set? && u.obstacle.Shape? ==>
              FIELD_HEIGHT <= maxY && minY <= 3.5 && outline.Some? && |outline.value| >= 3 && hull == Some(u.obstacle.vertices)
    ensures !(minY > MAX_AGENT_HEIGHT || maxY < FIELD_HEIGHT) && outline.Some? && (|outline.value| < 3 || hull.None?) ==>
              u == Set(Empty)
  {
    if minY > MAX_AGENT_HEIGHT || maxY < FIELD_HEIGHT then
      (if !IsEmpty(current) then Set(Empty) else Keep)
    else match outline
      case None => Keep
      case Some(vertices) =>
        if |vertices| < 3 then Set(Empty)
        else match hull
          case None => Set(Empty)
          case Some(polygon) => Set(Shape(polygon))
  }
}
