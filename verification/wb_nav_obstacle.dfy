/**
 * `Obstacle` of the warband navigation: an obstacle's outline on the
 * ground plane, its closed chain of edges, and the rule that derives it
 * from the collider each time the collider moves or changes.
 */
module WbNavObstacle {
  import opened Opt
  import opened Glam

  /** `Obstacle`; the default is `Empty`. */
  datatype Obstacle = Empty | Shape(vertices: seq<Vec2>)

  /** `Obstacle::is_empty`. */
  function IsEmpty(o: Obstacle): (b: bool)
    ensures b <==> o == Empty
  {
    o.Empty?
  }

  /** The index after `j` on a closed chain of `n` vertices. */
  lemma NextIndex(j: nat, n: nat)
    requires j < n
    ensures (j + 1) % n == if j + 1 < n then j + 1 else 0
  {
  }

  /**
   * `Obstacle::line_segments`: `None` for `Empty`; for a shape with `n`
   * vertices, the `n - 1` edges `(v[i], v[i+1])` and then the closing edge
   * `(v[n-1], v[0])`. A shape without vertices underflows `len() - 1`, so
   * the source needs at least one vertex.
   */
  method LineSegments(o: Obstacle) returns (r: Option<seq<(Vec2, Vec2)>>)
    requires o.Shape? ==> |o.vertices| > 0
    ensures r.None? <==> o.Empty?
    ensures r.Some? ==> |r.value| == |o.vertices|
    ensures r.Some? ==> forall i :: 0 <= i < |r.value| ==>
              r.value[i] == (o.vertices[i], o.vertices[(i + 1) % |o.vertices|])
    ensures r.Some? ==> forall i :: 0 <= i < |r.value| ==>
              r.value[i].1 == r.value[(i + 1) % |r.value|].0
  {
    if o.Empty? {
      return Option.None;
    }
    var shape := o.vertices;
    var segments: seq<(Vec2, Vec2)> := [];
    var i := 0;
    while i < |shape| - 1
      invariant 0 <= i <= |shape| - 1
      invariant |segments| == i
      invariant forall j :: 0 <= j < i ==> segments[j] == (shape[j], shape[j + 1])
    {
      segments := segments + [(shape[i], shape[i + 1])];
      i := i + 1;
    }
    segments := segments + [(shape[|shape| - 1], shape[0])];
    var n := |shape|;
    forall j | 0 <= j < n
      ensures segments[j] == (shape[j], shape[(j + 1) % n])
    {
      NextIndex(j, n);
    }
    forall j | 0 <= j < n
      ensures segments[j].1 == segments[(j + 1) % n].0
    {
      NextIndex(j, n);
      NextIndex((j + 1) % n, n);
    }
    return Some(segments);
  }

  /** `plane_height`: the ground plane. */
  const PLANE_HEIGHT: real := 0.0

  /** `max_agent_height`. */
  const MAX_AGENT_HEIGHT: real := 1.0

  /** The outcome of the `obstacle` system for one entity: leave the component alone, or write it. */
  datatype Update = Keep | Set(obstacle: Obstacle)

  /**
   * The `obstacle` system for one entity whose collider changed.
   * `outline` is the collider's outline projected onto the ground (`None`
   * for an unsupported shape) and `hull` the world-space convex hull of
   * those points: the parry geometry is not part of this model.
   *
   * An AABB outside the band between the ground and `max_agent_height`
   * empties the obstacle, writing only when it is not empty already; an
   * unsupported shape leaves it as it is; fewer than three outline vertices
   * empty it; otherwise the hull becomes the shape. The border expansion is zero,
   * so `expand_shape` never runs and the hull is kept as it is.
   */
  function ObstacleUpdate(current: Obstacle, minY: real, maxY: real, outline: Option<seq<Vec2>>, hull: seq<Vec2>): (u: Update)
    ensures (minY > MAX_AGENT_HEIGHT || maxY < PLANE_HEIGHT) ==> (u == Keep <==> current == Empty)
    ensures (minY > MAX_AGENT_HEIGHT || maxY < PLANE_HEIGHT) && current != Empty ==> u == Set(Empty)
    ensures !(minY > MAX_AGENT_HEIGHT || maxY < PLANE_HEIGHT) ==> (u == Keep <==> outline.None?)
    ensures u.Set? && u.obstacle.Shape? ==>
              PLANE_HEIGHT <= maxY && minY <= MAX_AGENT_HEIGHT && outline.Some? && |outline.value| >= 3 &&
              u.obstacle.vertices == hull
    ensures !(minY > MAX_AGENT_HEIGHT || maxY < PLANE_HEIGHT) && outline.Some? && |outline.value| < 3 ==>
              u == Set(Empty)
  {
    if minY > MAX_AGENT_HEIGHT || maxY < PLANE_HEIGHT then
      (if !IsEmpty(current) then Set(Empty) else Keep)
    else match outline
      case None => Keep
      case Some(vertices) =>
        if |vertices| < 3 then Set(Empty)
        else Set(Shape(hull))
  }

  /** The component after an update. */
  function Apply(current: Obstacle, u: Update): (after: Obstacle)
    ensures u.Keep? ==> after == current
    ensures u.Set? ==> after == u.obstacle
  {
    match u
    case Keep => current
    case Set(o) => o
  }

  /**
   * The system is idempotent: running it again on the same collider leaves
   * the obstacle as the first run made it.
   */
  lemma UpdateIdempotent(current: Obstacle, minY: real, maxY: real, outline: Option<seq<Vec2>>, hull: seq<Vec2>)
    ensures var once := Apply(current, ObstacleUpdate(current, minY, maxY, outline, hull));
            Apply(once, ObstacleUpdate(once, minY, maxY, outline, hull)) == once
  {
  }
}
