/**
 * The integer vector of src/world/vec2d.rs with addition and quarter turns.
 * On the screen the y axis points down, so `RotateLeft` turns a heading to
 * its left: right (1, 0) becomes up (0, -1).
 */
module Vectors {

  import opened Int32

  datatype Vec2D = Vec2D(x: I32, y: I32)

  predicate CanAdd(a: Vec2D, b: Vec2D) {
    IsI32(a.x + b.x) && IsI32(a.y + b.y)
  }

  /** The sum is `a` translated by `b`: taking `a` away leaves `b`, taking `b` away leaves `a`. */
  function Add(a: Vec2D, b: Vec2D): (r: Vec2D)
    requires CanAdd(a, b)
    ensures r.x - a.x == b.x && r.y - a.y == b.y
    ensures r.x - b.x == a.x && r.y - b.y == a.y
  {
    Vec2D(a.x + b.x, a.y + b.y)
  }

  function Dot(a: Vec2D, b: Vec2D): int {
    a.x * b.x + a.y * b.y
  }

  /** The signed area spanned by `a` then `b`; negative for a left turn on the screen. */
  function Cross(a: Vec2D, b: Vec2D): int {
    a.x * b.y - a.y * b.x
  }

  /** Negating `x` overflows for the smallest i32, where the source panics. */
  function RotateLeft(v: Vec2D): (r: Vec2D)
    requires v.x != MIN_I32
    ensures Dot(r, v) == 0
    ensures Dot(r, r) == Dot(v, v)
    ensures Cross(v, r) == -Dot(v, v)
  {
    var xNegative := -v.x;
    Vec2D(v.y, xNegative)
  }

  /** Negating `y` overflows for the smallest i32, where the source panics. */
  function RotateRight(v: Vec2D): (r: Vec2D)
    requires v.y != MIN_I32
    ensures Dot(r, v) == 0
    ensures Dot(r, r) == Dot(v, v)
    ensures Cross(v, r) == Dot(v, v)
  {
    var yNegative := -v.y;
    Vec2D(yNegative, v.x)
  }

  /** The four headings: one component zero, the other one plus or minus one. */
  predicate IsUnitAxis(v: Vec2D) {
    (v.x == 0 && (v.y == 1 || v.y == -1)) || (v.y == 0 && (v.x == 1 || v.x == -1))
  }

  lemma AddExample()
    ensures Add(Vec2D(1, 10), Vec2D(2, 11)) == Vec2D(3, 21)
  {
  }

  lemma RotateLeftExample()
    ensures RotateLeft(Vec2D(1, 0)) == Vec2D(0, -1)
  {
  }

  lemma RotateRightExample()
    ensures RotateRight(Vec2D(0, -1)) == Vec2D(1, 0)
  {
  }

  lemma RotationsAreInverse(v: Vec2D)
    requires v.x != MIN_I32 && v.y != MIN_I32
    ensures RotateRight(RotateLeft(v)) == v
    ensures RotateLeft(RotateRight(v)) == v
  {
  }

  lemma FourLeftTurnsIdentity(v: Vec2D)
    requires v.x != MIN_I32 && v.y != MIN_I32
    ensures RotateLeft(RotateLeft(RotateLeft(RotateLeft(v)))) == v
  {
  }

  lemma RotationsKeepUnitAxis(v: Vec2D)
    requires v.x != MIN_I32 && v.y != MIN_I32
    ensures IsUnitAxis(v) ==> IsUnitAxis(RotateLeft(v)) && IsUnitAxis(RotateRight(v))
    ensures v.x == 0 <==> RotateLeft(v).y == 0
    ensures v.y == 0 <==> RotateLeft(v).x == 0
    ensures v.x == 0 <==> RotateRight(v).y == 0
    ensures v.y == 0 <==> RotateRight(v).x == 0
  {
  }

  lemma AddCommutative(a: Vec2D, b: Vec2D)
    requires CanAdd(a, b)
    ensures CanAdd(b, a) && Add(a, b) == Add(b, a)
  {
  }

  lemma ZeroIsIdentity(a: Vec2D)
    ensures CanAdd(Vec2D(0, 0), a) && Add(Vec2D(0, 0), a) == a
    ensures CanAdd(a, Vec2D(0, 0)) && Add(a, Vec2D(0, 0)) == a
  {
  }
}
