/** The 2-D vector type of the `glam` maths library, over exact reals. */
module Glam {
  datatype Vec2 = Vec2(x: real, y: real)

  const ZERO: Vec2 := Vec2(0.0, 0.0)

  function Add(a: Vec2, b: Vec2): Vec2 {
    Vec2(a.x + b.x, a.y + b.y)
  }

  function Sub(a: Vec2, b: Vec2): Vec2 {
    Vec2(a.x - b.x, a.y - b.y)
  }

  function Scale(a: Vec2, s: real): Vec2 {
    Vec2(a.x * s, a.y * s)
  }

  function LengthSquared(a: Vec2): real {
    a.x * a.x + a.y * a.y
  }
}
