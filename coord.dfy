/**
 * The board coordinate of the engine (`Coord` in src/world/coord.rs): an i32
 * point that also serves as a heading, with component-wise addition.
 */
module Coords {

  import opened Int32

  datatype Coord = Coord(x: I32, y: I32)

  function New(x: I32, y: I32): (c: Coord)
    ensures c.x == x && c.y == y
  {
    Coord(x, y)
  }

  /** `From<(i32, i32)>`: a pair becomes the coordinate with those components. */
  function FromTuple(t: (I32, I32)): (c: Coord)
    ensures c.x == t.0 && c.y == t.1
  {
    New(t.0, t.1)
  }

  /** The sums of `Add` fit in an i32 (the source panics on overflow otherwise). */
  predicate CanAdd(a: Coord, b: Coord) {
    IsI32(a.x + b.x) && IsI32(a.y + b.y)
  }

  /** The sum is `a` translated by `b`: taking `a` away leaves `b`, taking `b` away leaves `a`. */
  function Add(a: Coord, b: Coord): (r: Coord)
    requires CanAdd(a, b)
    ensures r.x - a.x == b.x && r.y - a.y == b.y
    ensures r.x - b.x == a.x && r.y - b.y == a.y
  {
    Coord(a.x + b.x, a.y + b.y)
  }

  const ORIGIN := Coord(0, 0)

  /** The four headings: one component zero, the other one plus or minus one. */
  predicate IsUnitAxis(d: Coord) {
    (d.x == 0 && (d.y == 1 || d.y == -1)) || (d.y == 0 && (d.x == 1 || d.x == -1))
  }

  lemma FromTupleIsNew(x: I32, y: I32)
    ensures FromTuple((x, y)) == New(x, y)
    ensures FromTuple((1, 10)) == Coord(1, 10)
  {
  }

  lemma AddComponentWise(a: Coord, b: Coord)
    requires CanAdd(a, b)
    ensures Add(a, b).x == a.x + b.x && Add(a, b).y == a.y + b.y
    ensures Add(Coord(1, 10), Coord(2, 11)) == Coord(3, 21)
  {
  }

  lemma AddCommutative(a: Coord, b: Coord)
    requires CanAdd(a, b)
    ensures CanAdd(b, a) && Add(a, b) == Add(b, a)
  {
  }

  lemma AddAssociative(a: Coord, b: Coord, c: Coord)
    requires CanAdd(a, b) && CanAdd(Add(a, b), c) && CanAdd(b, c)
    ensures CanAdd(a, Add(b, c))
    ensures Add(Add(a, b), c) == Add(a, Add(b, c))
  {
  }

  lemma OriginIsIdentity(a: Coord)
    ensures CanAdd(ORIGIN, a) && CanAdd(a, ORIGIN)
    ensures Add(ORIGIN, a) == a && Add(a, ORIGIN) == a
  {
  }
}
